# Reactor demonstration: a verified model of its pipelines

The repository is one JUnit class, `ReactorTest`. It runs Project Reactor
operators over six fixed `Student` records: `messi`, `ronaldo`, `buffon`,
`zlatan`, `mbappe` and `pedri`. This project models the data-level part of
those tests as pure Dafny functions, and proves what each test expects, both
on the fixtures and for any list of students:

- test1 and test2 use `all` and `any` with an age predicate.
- test3 filters by odd id, and test4 collects the odd-id students into a map
  from first name to id.
- test5 keeps the students who are registered and have paid in 2021. It
  reads the payment year only after registration has passed.
- test6 keeps the students who are unregistered or have not paid in 2021.
  Its fallback is wrapped in `Mono.defer`, so the payment year is never
  read for an unregistered student, whose field is null.
- test7 sorts by the "magic number", `new BigInteger(age + "" + id)`, from
  high to low. On the fixtures the magic numbers are 211 (messi), 232
  (ronaldo), 313 (buffon), 294 (zlatan), 195 (mbappe) and 166 (pedri).

Modules:

- `Wrappers` (wrappers.dfy): `Option`. A null `lastPaidInYear` is `None`.
- `Publishers` (mono.dfy): a completed `Mono`, which is `Empty`, `Just(v)` or
  `Error(fault)`. It has `filter`, `map`, `flatMap` and
  `switchIfEmpty(Mono.defer(...))`. The fallback is a function value, and
  it is called only when the Mono is empty.
- `Flux` (flux.dfy): `filter`, `all`, `any`, `flatMap` followed by
  `collect(toList())`, and `collectMap`, all over a materialised sequence.
- `FluxSort` (flux_sort.dfy): `sort(Comparator.comparing(key).reversed())`.
  Java's sort is stable, so the model is a stable insertion sort from the
  highest key to the lowest.
- `JavaLang` (java_lang.dfy): Java's `%` on `int`, `equalsIgnoreCase`,
  `int`-to-text conversion and `new BigInteger(String)`.
- `Students` (student.dfy): the `Student` record (ReactorTest.java:160-171),
  as a datatype with one field per Java field.
- `ReactorTest` (reactor_test.dfy): the fixtures (ReactorTest.java:22-27,
  as constants `Messi` to `Pedri`), `getStudents`, the helpers
  `isRegistered`, `isDuePaidIn2021` and `getMagicNumber`, and test1 to
  test7 with their lemmas.

A Java exception thrown inside an operator's lambda is caught by Reactor and
delivered as an error signal. The model writes this as `Error(NullPointer)`
or `Error(NumberFormat)`. The flatMaps in test5 and test6 have synchronous
inner Monos (`Mono.just`), so their output is in source order. The model
relies on this and does not state it for Reactor's flatMap in general.

Where a comment and the code differ, the model follows the code: the comment
above test2 says "no one's age is >=35", but the code checks `age >= 16` and
expects `true`.

## Model

| member | source | states |
|---|---|---|
| Flux.All | src/test/java/com/priyam/webflux/reactor/demo/ReactorTest.java:45-46 | `all(p)` is true exactly when every item passes `p`, and true on an empty Flux |
| Flux.Any | src/test/java/com/priyam/webflux/reactor/demo/ReactorTest.java:57-58 | `any(p)` is true exactly when some item passes `p`, and false on an empty Flux |
| Flux.FilterMembers | src/test/java/com/priyam/webflux/reactor/demo/ReactorTest.java:69-70 | the filtered items are source items that pass the predicate, every passing source item is kept, and the output is no longer than the input |
| Flux.FilterIsSubsequence | src/test/java/com/priyam/webflux/reactor/demo/ReactorTest.java:69-74 | filtering keeps the surviving items in their source order |
| Flux.FilterAppend | src/test/java/com/priyam/webflux/reactor/demo/ReactorTest.java:69-70 | filtering a concatenation is the concatenation of the filtered parts, so the filter never reorders |
| Flux.FlatMapCollectList | src/test/java/com/priyam/webflux/reactor/demo/ReactorTest.java:97-104 | flatMap then collect never completes empty; it fails exactly when some inner Mono fails, with the fault of the first failing one in source order |
| Flux.FlatMapCollectListAsFilter | src/test/java/com/priyam/webflux/reactor/demo/ReactorTest.java:97-104 | when each inner Mono emits its own item or nothing, flatMap then collect delivers the filtered source list |
| Flux.CollectMap | src/test/java/com/priyam/webflux/reactor/demo/ReactorTest.java:81-83 | the map's keys are exactly the items' keys, and each key holds the value of the last item with that key |
| Flux.CollectMapDistinctKeys | src/test/java/com/priyam/webflux/reactor/demo/ReactorTest.java:81-89 | with pairwise distinct keys, every item's key maps to that item's own value |
| FluxSort.SortDescendingIsDescending | src/test/java/com/priyam/webflux/reactor/demo/ReactorTest.java:134-136 | the reversed-comparator sort emits items from the highest key to the lowest |
| FluxSort.SortDescendingIsPermutation | src/test/java/com/priyam/webflux/reactor/demo/ReactorTest.java:134-136 | the sort emits exactly the source items, as a multiset |
| FluxSort.SortDescendingIsStable | src/test/java/com/priyam/webflux/reactor/demo/ReactorTest.java:134-136 | items with equal keys keep their source order |
| JavaLang.Rem | src/test/java/com/priyam/webflux/reactor/demo/ReactorTest.java:70 | Java's `%` satisfies `a == m * (a / m) + a % m` with truncating division, and the remainder has the dividend's sign and is smaller than the divisor |
| JavaLang.RemTwoIsOddness | src/test/java/com/priyam/webflux/reactor/demo/ReactorTest.java:70 | `id % 2 != 0` holds exactly for odd ids, negative ones included |
| JavaLang.EqualsIgnoreCaseWithoutLetters | src/test/java/com/priyam/webflux/reactor/demo/ReactorTest.java:149 | against a text without letters, such as "2021", `equalsIgnoreCase` is plain equality |
| JavaLang.ParseDecimalOfDecimal | src/test/java/com/priyam/webflux/reactor/demo/ReactorTest.java:145 | parsing the decimal text of a number gives the number back |
| JavaLang.ParseDecimalAppend | src/test/java/com/priyam/webflux/reactor/demo/ReactorTest.java:145 | writing digits `b` after digits `a` gives `value(a) * 10^len(b) + value(b)` |
| ReactorTest.MagicNumberIsParsedText | src/test/java/com/priyam/webflux/reactor/demo/ReactorTest.java:144-146 | for every `int` age and id, `age * 10^digits(id) + id` for an age of at least 0, and `-(|age| * 10^digits(id) + id)` for a negative age, equals `new BigInteger(age + "" + id)`; a negative id gives a NumberFormatException |
| ReactorTest.IsDuePaidIn2021Meaning | src/test/java/com/priyam/webflux/reactor/demo/ReactorTest.java:148-150 | `isDuePaidIn2021` fails with a null-pointer fault exactly when the year is absent; for a present year it never completes empty and emits true when the year is "2021" and false for any other year |
| ReactorTest.Test1OnFixtures | src/test/java/com/priyam/webflux/reactor/demo/ReactorTest.java:45-50 | test1 emits true: every fixture is at least 16 |
| ReactorTest.Test2OnFixtures | src/test/java/com/priyam/webflux/reactor/demo/ReactorTest.java:57-62 | test2 emits true: some fixture is at least 16 |
| ReactorTest.Test3OnFixtures | src/test/java/com/priyam/webflux/reactor/demo/ReactorTest.java:69-74 | test3 emits messi, buffon, mbappe in that order |
| ReactorTest.Test4OnFixtures | src/test/java/com/priyam/webflux/reactor/demo/ReactorTest.java:81-89 | test4 emits exactly {Lionel: 1, Gigi: 3, Kylian: 5} |
| ReactorTest.Test5InnerMeaning | src/test/java/com/priyam/webflux/reactor/demo/ReactorTest.java:98-103 | per student, test5 fails with a null-pointer fault exactly when the student is registered without a year; otherwise it emits the student iff registered and paid in 2021, and nothing else |
| ReactorTest.Test5Selects | src/test/java/com/priyam/webflux/reactor/demo/ReactorTest.java:97-104 | test5 fails with a null-pointer fault exactly when some registered student has no year; otherwise it delivers the registered and paid students in source order |
| ReactorTest.Test5OnFixtures | src/test/java/com/priyam/webflux/reactor/demo/ReactorTest.java:97-108 | test5 delivers [messi, pedri] |
| ReactorTest.Test6InnerMeaning | src/test/java/com/priyam/webflux/reactor/demo/ReactorTest.java:116-121 | per student, test6 fails exactly when the student is registered without a year; otherwise it emits the student iff unregistered or unpaid for 2021 |
| ReactorTest.Test6IgnoresYearOfUnregistered | src/test/java/com/priyam/webflux/reactor/demo/ReactorTest.java:116-121 | an unregistered student passes test6 whatever its year field holds, absent included, so the deferred fallback never reads it |
| ReactorTest.Test6EagerInnerFailsWithoutYear | src/test/java/com/priyam/webflux/reactor/demo/ReactorTest.java:118 | without `Mono.defer`, every student without a year fails with a null-pointer fault, registered or not |
| ReactorTest.DeferralIsNeededOnFixtures | src/test/java/com/priyam/webflux/reactor/demo/ReactorTest.java:118 | over the fixtures the eager form fails with a null-pointer fault, and the deferred form delivers a list |
| ReactorTest.Test6Selects | src/test/java/com/priyam/webflux/reactor/demo/ReactorTest.java:115-122 | test6 fails with a null-pointer fault exactly when some registered student has no year; otherwise it delivers the unregistered or unpaid students in source order |
| ReactorTest.Test6OnFixtures | src/test/java/com/priyam/webflux/reactor/demo/ReactorTest.java:115-126 | test6 delivers [ronaldo, buffon, zlatan, mbappe] |
| ReactorTest.Test5Test6Complementary | src/test/java/com/priyam/webflux/reactor/demo/ReactorTest.java:93-125 | test5 and test6 fail on the same inputs; otherwise their lists together are a permutation of the input, and each student is in exactly one of them |
| ReactorTest.Test7Sorts | src/test/java/com/priyam/webflux/reactor/demo/ReactorTest.java:134-136 | test7 fails with a NumberFormatException exactly when there are two or more students and one has a negative id; otherwise it delivers a permutation ordered from the highest magic number to the lowest, with ties in source order |
| ReactorTest.Test7OnFixtures | src/test/java/com/priyam/webflux/reactor/demo/ReactorTest.java:134-141 | test7 delivers [buffon, zlatan, ronaldo, messi, mbappe, pedri] |
| Flux.Filter | src/test/java/com/priyam/webflux/reactor/demo/ReactorTest.java:69-70 | `filter(p)`; what it keeps is stated by Flux.FilterMembers, Flux.FilterIsSubsequence and Flux.FilterAppend |
| Flux.FlatMapCollectListValues | src/test/java/com/priyam/webflux/reactor/demo/ReactorTest.java:97-104 | on success, flatMap then collect delivers the values of the inner Monos that emitted one, in source order |
| FluxSort.SortDescending | src/test/java/com/priyam/webflux/reactor/demo/ReactorTest.java:134-136 | `sort(comparing(key).reversed())`; its order, permutation and stability are stated by FluxSort.SortDescendingIsDescending, FluxSort.SortDescendingIsPermutation and FluxSort.SortDescendingIsStable |
| Publishers.Mono.Filter | src/test/java/com/priyam/webflux/reactor/demo/ReactorTest.java:99-101 | `Mono.filter`: keeps the value when the predicate holds, and passes empty and error through; its use is stated by ReactorTest.Test5InnerMeaning and ReactorTest.Test6InnerMeaning |
| Publishers.Mono.Map | src/test/java/com/priyam/webflux/reactor/demo/ReactorTest.java:102 | `Mono.map`: applies the function to the value, and passes empty and error through; stated through ReactorTest.Test5InnerMeaning and ReactorTest.Test6InnerMeaning |
| Publishers.Mono.FlatMap | src/test/java/com/priyam/webflux/reactor/demo/ReactorTest.java:100 | `Mono.flatMap`: the value's Mono replaces it, and empty and error pass through; stated through ReactorTest.Test5InnerMeaning |
| Publishers.Mono.SwitchIfEmpty | src/test/java/com/priyam/webflux/reactor/demo/ReactorTest.java:118-120 | `switchIfEmpty(Mono.defer(...))`: the fallback is called only on an empty Mono; ReactorTest.Test6IgnoresYearOfUnregistered states that it is never called for an unregistered student |
| JavaLang.EqualsIgnoreCase | src/test/java/com/priyam/webflux/reactor/demo/ReactorTest.java:149 | `String.equalsIgnoreCase`; against "2021" it is plain equality, as stated by JavaLang.EqualsIgnoreCaseWithoutLetters |
| JavaLang.IntToString | src/test/java/com/priyam/webflux/reactor/demo/ReactorTest.java:145 | the decimal text of an `int`, as `age + "" + id` writes it; ReactorTest.MagicNumberIsParsedText states the number its concatenation parses to |
| JavaLang.ParseBigInteger | src/test/java/com/priyam/webflux/reactor/demo/ReactorTest.java:145 | `new BigInteger(String)`: optional sign then decimal digits, otherwise a NumberFormatException; stated by JavaLang.ParseDecimalOfDecimal and ReactorTest.MagicNumberIsParsedText |
| ReactorTest.GetStudents | src/test/java/com/priyam/webflux/reactor/demo/ReactorTest.java:29-39 | the six fixtures in source order; the results each test expects of them are stated by ReactorTest.Test1OnFixtures to ReactorTest.Test7OnFixtures |
| ReactorTest.MagicNumber | src/test/java/com/priyam/webflux/reactor/demo/ReactorTest.java:144-146 | `getMagicNumber`; its value is stated by ReactorTest.MagicNumberIsParsedText |
| ReactorTest.IsDuePaidIn2021 | src/test/java/com/priyam/webflux/reactor/demo/ReactorTest.java:148-150 | `isDuePaidIn2021`: a null-pointer fault without a year, otherwise `Just(true)` for "2021" and `Just(false)` for any other year, as stated by ReactorTest.IsDuePaidIn2021Meaning |
| ReactorTest.IsRegistered | src/test/java/com/priyam/webflux/reactor/demo/ReactorTest.java:153-155 | `isRegistered`: a Mono of the student's flag; its role in test5 and test6 is stated by ReactorTest.Test5InnerMeaning and ReactorTest.Test6InnerMeaning |
| ReactorTest.Test1 | src/test/java/com/priyam/webflux/reactor/demo/ReactorTest.java:45-46 | test1's pipeline; stated by Flux.All and ReactorTest.Test1OnFixtures |
| ReactorTest.Test2 | src/test/java/com/priyam/webflux/reactor/demo/ReactorTest.java:57-58 | test2's pipeline; stated by Flux.Any and ReactorTest.Test2OnFixtures |
| ReactorTest.Test3 | src/test/java/com/priyam/webflux/reactor/demo/ReactorTest.java:69-70 | test3's pipeline; stated by Flux.FilterMembers, JavaLang.RemTwoIsOddness and ReactorTest.Test3OnFixtures |
| ReactorTest.Test4 | src/test/java/com/priyam/webflux/reactor/demo/ReactorTest.java:81-83 | test4's pipeline; stated by Flux.CollectMap and ReactorTest.Test4OnFixtures |
| ReactorTest.Test5Inner | src/test/java/com/priyam/webflux/reactor/demo/ReactorTest.java:98-102 | test5's inner Mono for one student; stated by ReactorTest.Test5InnerMeaning |
| ReactorTest.Test5 | src/test/java/com/priyam/webflux/reactor/demo/ReactorTest.java:97-104 | test5's pipeline; stated by ReactorTest.Test5Selects and ReactorTest.Test5OnFixtures |
| ReactorTest.Test6Inner | src/test/java/com/priyam/webflux/reactor/demo/ReactorTest.java:116-121 | test6's inner Mono for one student; stated by ReactorTest.Test6InnerMeaning |
| ReactorTest.Test6 | src/test/java/com/priyam/webflux/reactor/demo/ReactorTest.java:115-122 | test6's pipeline; stated by ReactorTest.Test6Selects and ReactorTest.Test6OnFixtures |
| ReactorTest.Test7 | src/test/java/com/priyam/webflux/reactor/demo/ReactorTest.java:134-136 | test7's pipeline; stated by ReactorTest.Test7Sorts and ReactorTest.Test7OnFixtures |

## Left out

- The Reactor runtime is not modelled: subscription, demand, schedulers and asynchronous delivery. Each pipeline is a function from the source list to what the subscriber receives.
- The short-circuit of `all` and `any` is not stated. The test predicates have no side effects, so stopping early cannot be observed.
- The ordering of `flatMap` in general is not modelled. Source order holds here only because every inner Mono is synchronous.
- Cancellation, a pipeline state machine and a duplicate-key error policy are not modelled, because the code implements none of them. `collectMap` follows Reactor's `HashMap.put`: the last write wins.
- `StepVerifier`, JUnit and the Spring test context are not modelled. Each expected output is a lemma about the fixtures.
- The Lombok builder, getters and constructors are not modelled. `Student` is a plain datatype, and its equality is structural, as Lombok's `@Data` equality is.
- Exceptions are not modelled as Java exceptions. A thrown `NullPointerException` or `NumberFormatException` is a fault in `Error`, and stack traces and messages are dropped.
- JavaLang.EqualsIgnoreCase: only the ASCII letters are case-mapped, not Unicode. This makes no difference against "2021", which has no letters.
- JavaLang.ParseBigInteger: only ASCII digits are accepted. `BigInteger` also accepts other Unicode decimal digits, but the model only parses text produced from `int` values.
- `age` and `id` are unbounded integers rather than 32-bit `int`. The source never does arithmetic on them that could overflow: it only uses `% 2` and conversion to text.
- ReactorTest.Test7: the error case assumes Java's sort calls the comparator on every element when there are two or more, and that each comparison evaluates the magic number of both operands. This is how `List.sort` (TimSort) with `Comparator.comparing` behaves.
