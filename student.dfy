/** The `Student` record the tests run over. */
module Students {
  import opened Wrappers

  /**
    A student. `lastPaidInYear` is a Java `String` the builder leaves null when
    it is not set; here it is `None`.
  */
  datatype Student = Student(
    age: int,
    fName: string,                   // first name
    lName: string,                   // last name
    id: int,
    registered: bool,
    lastPaidInYear: Option<string>   // year the fee was last paid, if ever set
  )
}
