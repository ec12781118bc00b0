# Functional utilities: a verified model

This project models the core of a small functional-programming utility library that exists in two
halves: a C# half (`Utils/`, `permutations/`) and a Java half (`Functional-Utils-Java`). Each half
provides option and exception monads, sequence combinators, lazy generators and a few containers.
Each core source file is one Dafny module:

| Dafny file | module | models |
|---|---|---|
| errors.dfy | Errors | the exceptions both halves raise; nullable references; the outcome of a call that may throw; the run of a lazy sequence |
| seqs.dfy, ints.dfy | Seqs, Ints | reference definitions (filter, reverse, every n-th, map) and 32-bit integers |
| option.dfy | Options | `Option<T>` (Utils/Option.cs) |
| option_type.dfy | OptionTypes | `OptionType<T>` (Utils/OptionType.cs) |
| check.dfy | Check, Opt | the null checks and the `chk`/`act` defaulting rules (Utils/Check.cs) |
| maybe.dfy | Maybes | `Maybe<T>` and `MaybeFns.Div` (Utils/Maybe.cs) |
| mexception.dfy | MExceptions | the C# `MException<T>` (Utils/MException.cs) |
| functional.dfy | Functional | partition, Choose, pick, forAll2, Unzip, Zip3, Unique, TakeNAndYield, Between (Utils/Functional.cs) |
| enumerators.dfy | Enumerators | the lazy enumerators of Utils/Enumerators.cs |
| field_marshal.dfy | FieldMarshal | `PartitionWithVerify` (Utils/FieldMarshal.cs) |
| functional_helpers.dfy | FunctionalHelpers | the in-place dictionary helpers and the searches of Utils/FunctionalHelpers.cs |
| mdictionary.dfy | MDictionaries | `ToMDictionary`, `ToDictionaryReportingDuplicates` (Utils/MDictionary.cs) |
| permutation.dfy | Permutations | `permutations1` and `permute` (permutations/Permutation.cs) |
| java_iterators.dfy | JavaIterators | the single-use `reverse` and `everyNth` iterables (Iterators.java) |
| circular_array_list.dfy | CircularArrayLists | `CircularArrayList` |
| lisp_list.dfy | LispLists | `LispList` |
| java_mexception.dfy | JavaMExceptions | the lazy, memoising Java `MException<U>` |
| option_int.dfy | OptionInts | `Option_int` |
| int_functional.dfy | IntFunctional | the `int` specialisation of `Functional` (primitive/integer/Functional.java) |
| int_list.dfy | IntLists | `IntList` (primitive/integer/IntList.java) |

How the source's features are represented:
- A call that may throw returns `Outcome<T>`, which is `Returns(value)` or `Throws(error)`.
  Caller-supplied functions that may throw have type `A -> Outcome<B>`.
- A reference that may be null is `Nullable<T>`. This is used only where null changes behaviour.
- A lazy C# enumerator is modelled by the complete `Run` its consumer sees: the elements it yields,
  and whether it then ends or throws. An iterator method's argument checks fire on the first
  `MoveNext`, so a refused argument is a run that yields nothing and then throws.
- The source's C# and Java `int` is `Ints.int32`. 32-bit wrap-around is written out where it shows:
  in `Option_int.hashCode`, and in the loop bound `list.Count - n` of `IgnoreLastN`.
- Code that updates state step by step is written as methods with loops. A loop is proved against
  a reference function, and that function's properties are proved as lemmas.
- An object whose fields change is a class:
  - the C# dictionaries;
  - the Java iterables and iterators;
  - the Java `MException`;
  - `CircularArrayList`;
  - `IntList`, whose backing store is an `array<int32>`.

Where the code and its documentation disagree, the model follows the code:
- `Option<string>` built from the empty string is Some. Only null gives None.
- The unexpected fields of `PartitionWithVerify` are the input minus the mandatory and the optional
  fields.
- `findLast` on an empty list throws ArgumentException, because `ReverseEnum` refuses it before
  KeyNotFoundException can be reached.
- `IgnoreLastN` with a negative count yields the whole list and then throws
  ArgumentOutOfRangeException when indexing past its end. When the count is so negative that
  `list.Count - n` wraps around in 32-bit arithmetic, it yields nothing and ends normally.
- `ConstrainedEnum(e, 0, count)` yields the same elements as a start of 1.
- The integer `findIndex` throws IllegalArgumentException when nothing matches, although its
  documentation names NoSuchElementException.

## Model

| member | source | states |
|---|---|---|
| Options.Option.Value | Utils/Option.cs:36-43 | `Some` returns the wrapped value exactly when the option is Some, and throws OptionValueAccessException on None |
| Options.ToOption | Utils/Option.cs:13-22 | the option is None exactly when the argument is a null reference; a value type is never None; the empty string is Some |
| Options.Bind | Utils/Option.cs:64-67 | None binds to None without calling `tfm`; Some(a) gives `tfm(a)` unchanged |
| Options.SelectMany | Utils/Option.cs:69-72 | the result is Some exactly when `a` is Some, `tfm` gives Some and `select` gives a non-null value, and then it holds that value; None from `a` or from `tfm` gives None; a throwing `tfm` or `select` propagates |
| Options.BindLeftIdentity | Utils/Option.cs:59-67 | binding a freshly wrapped value applies the transformation |
| Options.BindRightIdentity | Utils/Option.cs:59-67 | binding with ToOption returns the option unchanged |
| Options.BindAssociative | Utils/Option.cs:64-67 | Bind is associative |
| Options.SelectManyAddsInts | Utils/Option.cs:69-72 | `from a in 10 from b in 2 select a + b` is Some(12), and None when either source is None |
| OptionTypes.OptionType.Some | Utils/OptionType.cs:22 | the stored reference when there is one, EmptyOptionTypeException otherwise |
| OptionTypes.New | Utils/OptionType.cs:15-21 | for a non-string T, the option is None exactly when the argument is null (the implicit conversion is this constructor) |
| OptionTypes.NewString | Utils/OptionType.cs:17-20 | an `OptionType<string>` is None exactly when the string is null or empty |
| OptionTypes.NullOption | Utils/OptionType.cs:24 | `Null` is None and its `Some` throws |
| OptionTypes.NewOfSome | Utils/OptionType.cs:25 | converting an option's value back gives the same option |
| OptionTypes.NewStringOfSome | Utils/OptionType.cs:17-20 | a string option with a value rebuilds to itself |
| Check.StringAndReferenceChecks | Utils/Check.cs:125-143 | the string check calls "" null and the reference check does not; on every other string the two agree, and so do their IsNotNull forms |
| Opt.Chk | Utils/Check.cs:12-15 | `chk(a, t)` is `t` when `a` is None, otherwise `a.Some` |
| Opt.ChkNew | Utils/Check.cs:17-20 | `chk(a)` is a new T when `a` is None, otherwise `a.Some` |
| Opt.ChkString | Utils/Check.cs:22-25 | `chk(a)` on strings is "" when `a` is None, otherwise `a.Some` |
| Opt.ChkWith | Utils/Check.cs:27-33 | a null `f` throws ArgumentNullException; `f` runs only when `a` is None |
| Opt.ChkDefault | Utils/Check.cs:35-38 | `def` when `a` is null or empty, otherwise `a` |
| Opt.Act | Utils/Check.cs:49-60 | a null `f` is refused; with no value `f` runs and then a new T is returned, unless `f` throws; with a value, `a.Some` |
| Opt.ActNullable | Utils/Check.cs:71-82 | the same for `T?`, returning `default(T)` after `f` |
| Opt.ActThrow | Utils/Check.cs:87-94 | a null `ex` is refused; otherwise it throws `ex` exactly when there is no value, and returns the value when there is one |
| Opt.ChkOfNew | Utils/Check.cs:12-15 | defaulting an option built from `t` gives `t` unless it is null |
| Opt.ChkStringOfNew | Utils/Check.cs:35-38 | for strings, building an OptionType and then defaulting agrees with `chk(string, string)` |
| Opt.PresentValueIgnoresFallback | Utils/Check.cs:27-60 | with a value present, which `f` is given to `chk` or `act` makes no difference |
| Maybes.ToMaybe | Utils/Maybe.cs:25-28 | always Something holding `t` |
| Maybes.Bind | Utils/Maybe.cs:30-37 | a null `tfm` throws ArgumentNullException; Nothing gives Nothing without calling `tfm`; Something(v) gives `tfm(v)` |
| Maybes.SelectMany | Utils/Maybe.cs:39-47 | the null checks in order; then the Bind of the Bind of ToMaybe of `select` |
| Maybes.Div | Utils/Maybe.cs:52-55 | Nothing exactly when the divisor is 0, otherwise Something of the quotient rounded toward zero; `int.MinValue / -1` throws OverflowException |
| Maybes.BindIdentities | Utils/Maybe.cs:25-37 | Bind of ToMaybe applies the transformation; binding with ToMaybe changes nothing |
| Maybes.DivisionChains | Utils/Maybe.cs:39-55 | dividing 10 by 2 and then 10 by the result gives 2; a division by zero anywhere gives Nothing |
| MExceptions.MException.ShowException | Utils/MException.cs:26 | the stored exception of an errored value, null otherwise |
| MExceptions.MException.GetValue | Utils/MException.cs:27 | the value, or MExceptionValueAccessException wrapping the stored exception |
| MExceptions.ToMException | Utils/MException.cs:37-40 | a value-constructed MException has no exception and holds the value |
| MExceptions.FromException | Utils/MException.cs:17-24 | a null exception throws ArgumentNullException; otherwise an errored MException |
| MExceptions.Bind | Utils/MException.cs:42-49 | an errored input carries the same exception and never calls `tfm`; otherwise `tfm`'s outcome, including a throw |
| MExceptions.Protect | Utils/MException.cs:51-67 | `Protect(f)(a)` is `f(a)`, or an errored MException holding what `f` threw |
| MExceptions.BindWithProtect | Utils/MException.cs:69-76 | Bind of Protect: it never throws |
| MExceptions.SelectMany | Utils/MException.cs:78-86 | the error of `a` or of `tfm`, otherwise the selected value |
| MExceptions.GetValueOrDefault | Utils/MException.cs:88-102 | never throws: the value, or the default when errored |
| MExceptions.Convert | Utils/MException.cs:104-111 | the exception is replaced by `fn` of it only when errored; otherwise the input is returned unchanged |
| MExceptions.BindLaws | Utils/MException.cs:37-49 | the monad laws for ToMException and Bind |
| MExceptions.BindWithProtectOfTotal | Utils/MException.cs:69-76 | for a function that never throws, BindWithProtect and Bind agree |
| MExceptions.ConvertIdentity | Utils/MException.cs:104-111 | converting with the identity changes nothing |
| MExceptions.DivisionByZeroIsCaptured | Utils/MException.cs:78-86 | a query that divides by zero gives an errored MException holding DivideByZeroException |
| Functional.Partition | Utils/Functional.cs:15-28 | left holds the elements satisfying `pred` and right the rest, both in input order, and together they are the input |
| Functional.ChooseMaybe | Utils/Functional.cs:114-121 | no more results than inputs |
| Functional.ChooseMaybeIsFilteredMap | Utils/Functional.cs:114-121 | Choose keeps exactly the Something results, in input order |
| Functional.ChooseOption | Utils/Functional.cs:123-130 | no more results than inputs |
| Functional.ChooseOptionIsChooseMaybe | Utils/Functional.cs:123-130 | the Option overload keeps exactly the Some results, as the Maybe overload does |
| Functional.Pick | Utils/Functional.cs:187-194 | `input.Choose(f).First()`; what that means is stated by PickFindsFirst |
| Functional.PickFindsFirst | Utils/Functional.cs:187-194 | `pick` returns the value of the first Something, and throws InvalidOperationException exactly when there is none |
| Functional.ForAll2 | Utils/Functional.cs:164-184 | false at the first failing pair; true when all pairs pass and the lengths agree; ArgumentException when all pass and the lengths differ |
| Functional.Unzip | Utils/Functional.cs:196-209 | two lists as long as the input, holding the first and the second items in order |
| Functional.Zip3 | Utils/Functional.cs:212-233 | triples while all three inputs have elements; then ArgumentException exactly when the lengths differ |
| Functional.UniqueBy | Utils/Functional.cs:61-68 | keeps only input elements |
| Functional.UniqueByIsFirstOfEachKey | Utils/Functional.cs:61-68 | grouping by `f` and taking one element per group keeps the first element of each key, in the order the keys first appear: the same as one pass that keeps an element exactly when its key is new |
| Functional.UniqueByParity | Utils/Functional.cs:61-68 | grouping 3, 4, 5, 6 by parity keeps 3 and 4 |
| Functional.UniqueByDistinctKeys | Utils/Functional.cs:61-68 | no two kept elements share a key |
| Functional.UniqueByKeepsKeys | Utils/Functional.cs:61-68 | every key of the input is kept |
| Functional.Unique | Utils/Functional.cs:235-241 | `Unique` with the element itself as key; what it keeps is stated by UniqueIsDistinct |
| Functional.UniqueIsDistinct | Utils/Functional.cs:235-241 | `Unique` keeps the first occurrence of each value, in input order; so it repeats no value and loses none |
| Functional.TakeNAndYield | Utils/Functional.cs:394-413 | the first min(n, size) elements, and then the rest, which together are the input |
| Functional.TakeNAndYieldAsWritten | Utils/Functional.cs:394-413 | for a positive count the first min(n, size) elements, then the rest, which together are the input; for a count of 0 or less both parts are empty |
| Functional.TakeNAndYieldAsWrittenLosesInput | Utils/Functional.cs:412 | taking none of [1] as written yields nothing at all |
| Functional.Between | Utils/Functional.cs:498-504 | `item.CompareTo(left) >= 0 && item.CompareTo(right) <= 0`; what that means for integers is stated by BetweenIsInclusive |
| Functional.BetweenIsInclusive | Utils/Functional.cs:498-504 | `Between` is left <= item <= right |
| Enumerators.CircularEnum | Utils/Enumerators.cs:12-25 | the k-th element pulled is s[k mod size], for as many as are pulled |
| Enumerators.CircularPeriodic | Utils/Enumerators.cs:12-25 | the circular sequence repeats with the period of the input, and starts with the input |
| Enumerators.ConstrainedEnum | Utils/Enumerators.cs:28-42 | a negative start throws ArgumentException; otherwise the elements from `start` on |
| Enumerators.ConstrainedEnumCount | Utils/Enumerators.cs:44-75 | a negative start or count throws; otherwise at most `count` elements from `start` on, with start 0 behaving like start 1 |
| Enumerators.SteppedEnum | Utils/Enumerators.cs:78-94 | a step below 1 throws; otherwise s[0], s[step], s[2 step], ... |
| Enumerators.ReverseEnum | Utils/Enumerators.cs:129-139 | an empty list throws ArgumentException; otherwise the list from its last index down to 0 |
| Enumerators.ReverseEnumTwice | Utils/Enumerators.cs:129-139 | reversing twice gives the list back, and the first element yielded is the last |
| Enumerators.IgnoreLastN | Utils/Enumerators.cs:146-153 | all but the last n elements; a negative n yields everything and then throws ArgumentOutOfRangeException, unless `list.Count - n` wraps past int.MaxValue, when nothing is yielded |
| Enumerators.IgnoreLast | Utils/Enumerators.cs:141-144 | all but the last element |
| Enumerators.IgnoreFirstAndLast | Utils/Enumerators.cs:155-162 | all but the first and the last element |
| Enumerators.Concat | Utils/Enumerators.cs:164-167 | `first` followed by `second` |
| FieldMarshal.PartitionWithVerify | Utils/FieldMarshal.cs:29-45 | ArgumentException exactly when a field is both mandatory and optional; otherwise the four field sets |
| FieldMarshal.MandatoryFieldsSplit | Utils/FieldMarshal.cs:40-42 | the present and the missing mandatory fields are disjoint and together the mandatory set |
| FieldMarshal.InputFieldsSplit | Utils/FieldMarshal.cs:40-43 | the mandatory, the optional and the unexpected fields present are disjoint and together the input |
| FieldMarshal.AllMandatoryPresent | Utils/FieldMarshal.cs:15 | AreAllMandatoryFieldsPresent holds exactly when every mandatory field is in the input |
| FieldMarshal.MissingAndUnexpectedFields | Utils/FieldMarshal.cs:29-45 | a worked example with one missing and one unexpected field |
| FunctionalHelpers.AddKeyValueToDict | Utils/FunctionalHelpers.cs:23-36 | a new key gets `value`, an existing key `adder(old, value)`; no other key changes |
| FunctionalHelpers.GetOrCreate | Utils/FunctionalHelpers.cs:54-67 | the stored value when the key is present, with nothing changed; otherwise `factory()`, which is inserted |
| FunctionalHelpers.GetOrCreateNew | Utils/FunctionalHelpers.cs:39-51 | the same with `new V()` |
| FunctionalHelpers.GetOrCreateX | Utils/FunctionalHelpers.cs:69-83 | also reports whether the key was present |
| FunctionalHelpers.InsertOrUpdate | Utils/FunctionalHelpers.cs:87-103 | a missing key gets `inserter()`; a present value is passed to `updater`; the key then maps to what is returned |
| FunctionalHelpers.AddKeyValueToDictOfList | Utils/FunctionalHelpers.cs:115-123 | `value` is appended to the key's list, which starts empty if the key is new; no other key changes |
| FunctionalHelpers.TryGetValue | Utils/FunctionalHelpers.cs:172-180 | for values other than strings: None exactly when the key is absent or holds null, otherwise the stored value |
| FunctionalHelpers.TryGetValueString | Utils/FunctionalHelpers.cs:172-180 | for string values: None exactly when the key is absent or holds null or "", otherwise the stored string |
| FunctionalHelpers.TryGetValueNullable | Utils/FunctionalHelpers.cs:182-190 | null exactly when the key is absent, otherwise the stored value |
| FunctionalHelpers.TryGetValueX | Utils/FunctionalHelpers.cs:192-201 | for values other than strings: the flag says whether the key is present; a value in the option implies the flag; (true, None) exactly when the key holds null |
| FunctionalHelpers.TryGetValueXString | Utils/FunctionalHelpers.cs:192-201 | for string values: the same, with (true, None) exactly when the key holds null or "" |
| FunctionalHelpers.TryGetValueVariantsAgree | Utils/FunctionalHelpers.cs:172-201 | the option `TryGetValue_x` returns is the one `TryGetValue` returns, and its flag is key presence, for string and other values alike |
| FunctionalHelpers.StoredEmptyStringReadsAsNone | Utils/FunctionalHelpers.cs:192-201 | a key holding "" reads as None through `TryGetValue`; only `TryGetValue_x`'s flag shows that it is present |
| FunctionalHelpers.FindNoExcept | Utils/FunctionalHelpers.cs:204-214 | for elements other than strings: the first element satisfying `f`, as an OptionType (None if that element is null), or Null when none does |
| FunctionalHelpers.FindNoExceptString | Utils/FunctionalHelpers.cs:204-214 | for strings: the first matching element as an `OptionType<string>`, so a first match of null or "" gives None; a value returned is a non-empty matching element |
| FunctionalHelpers.PickNoExcept | Utils/FunctionalHelpers.cs:217-230 | the first option with a value, or Null when there is none |
| FunctionalHelpers.FoldAndChoose | Utils/FunctionalHelpers.cs:233-249 | the state threaded through the input, and the chosen elements in input order |
| FunctionalHelpers.FoldChosenBounds | Utils/FunctionalHelpers.cs:233-249 | no more chosen elements than inputs, and none when nothing is chosen |
| FunctionalHelpers.FoldChosenKeepsAll | Utils/FunctionalHelpers.cs:233-249 | when every element is chosen unchanged the result is the input |
| FunctionalHelpers.IndentBy | Utils/FunctionalHelpers.cs:164-168 | a negative count throws ArgumentOutOfRangeException |
| FunctionalHelpers.PrependAllRepeated | Utils/FunctionalHelpers.cs:166-167 | the aggregate prepends the unit once per repetition |
| FunctionalHelpers.IndentByPrefixes | Utils/FunctionalHelpers.cs:164-168 | the unit repeated `howMany` times followed by `indentThis`; 5 spaces before "BOB" |
| FunctionalHelpers.BetweenAsWritten | Utils/FunctionalHelpers.cs:284-290 | what it accepts is strictly between the bounds |
| FunctionalHelpers.BetweenAsWrittenMissesDifferences | Utils/FunctionalHelpers.cs:289 | with a CompareTo that returns differences, 'c' is rejected although strictly between 'a' and 'z' |
| FunctionalHelpers.Between | Utils/FunctionalHelpers.cs:283-290 | the corrected `between`, by the sign of CompareTo; what that means is stated by BetweenIsStrict |
| FunctionalHelpers.BetweenIsStrict | Utils/FunctionalHelpers.cs:283-290 | `between` by sign is lowerBound < val < upperBound; the code agrees when CompareTo returns only -1, 0, 1 |
| FunctionalHelpers.FindLast | Utils/FunctionalHelpers.cs:293-303 | the last element satisfying `f`; KeyNotFoundException when none does; ArgumentException on an empty list |
| MDictionaries.ToMDictionary | Utils/MDictionary.cs:20-23 | the same dictionary with an empty exception list |
| MDictionaries.ToDictionaryReportingDuplicates | Utils/MDictionary.cs:26-38 | the loop builds the first-value dictionary and one exception per repeated key |
| MDictionaries.FirstValuesKeys | Utils/MDictionary.cs:29-36 | the dictionary's keys are exactly the input's keys |
| MDictionaries.FirstValueKept | Utils/MDictionary.cs:32-35 | each key maps to the value of its first element |
| MDictionaries.EachElementCounted | Utils/MDictionary.cs:29-36 | exceptions plus keys are as many as the input elements |
| MDictionaries.DistinctKeysCount | Utils/MDictionary.cs:29-36 | the dictionary is as large as the input exactly when the keys are distinct |
| MDictionaries.NoDuplicatesNoReports | Utils/MDictionary.cs:32-33 | no exception is reported exactly when no key repeats |
| MDictionaries.FourDuplicatesFourReports | Utils/MDictionary.cs:32-33 | 8 inputs with 4 repeated keys give 4 keys and 4 exceptions |
| Permutations.Permutations1 | permutations/Permutation.cs:10-27 | the loop collects the permutations grouped by the chosen first character; a string of length at most 1 gives [input] |
| Permutations.Permute | permutations/Permutation.cs:32-44 | the same for lists; an empty or one-element list gives [u] |
| Permutations.PermsLength | permutations/Permutation.cs:37-43 | n! results |
| Permutations.PermsArePermutations | permutations/Permutation.cs:37-43 | every result is a rearrangement of the input |
| Permutations.PermsGroupedByFirst | permutations/Permutation.cs:37-43 | result i (n-1)! + j is element i followed by the j-th permutation of the rest |
| Permutations.PermsOfPair | permutations/Permutation.cs:37-43 | the two permutations of a pair, in order |
| Permutations.PermsOfTriple | permutations/Permutation.cs:14-23 | "abc" gives abc, acb, bac, bca, cab, cba; repeated elements give repeated results |
| JavaIterators.Reverse | Functional-Utils-Java/src/main/java/me/shaftesbury/utils/functional/Iterators.java:18-25 | a null or empty list throws IllegalArgumentException |
| JavaIterators.ReverseIterable.Iterator | Functional-Utils-Java/src/main/java/me/shaftesbury/utils/functional/Iterators.java:29-48 | the first call returns an iterator over the reversed list; every later call throws UnsupportedOperationException |
| JavaIterators.ReverseIterator.HasNext | Functional-Utils-Java/src/main/java/me/shaftesbury/utils/functional/Iterators.java:34-36 | true exactly when elements remain |
| JavaIterators.ReverseIterator.Next | Functional-Utils-Java/src/main/java/me/shaftesbury/utils/functional/Iterators.java:39-41 | the next element from the back; past the front, IndexOutOfBoundsException |
| JavaIterators.ReversedElements | Functional-Utils-Java/src/main/java/me/shaftesbury/utils/functional/Iterators.java:18-51 | iterating `reverse(list)` yields the list from the last index down to 0 |
| JavaIterators.EveryNth | Functional-Utils-Java/src/main/java/me/shaftesbury/utils/functional/Iterators.java:54-61 | a null source or a step below 1 throws IllegalArgumentException |
| JavaIterators.EveryNthIterable.Iterator | Functional-Utils-Java/src/main/java/me/shaftesbury/utils/functional/Iterators.java:66-97 | the first call returns an iterator over every n-th element; later calls throw |
| JavaIterators.EveryNthIterator.HasNext | Functional-Utils-Java/src/main/java/me/shaftesbury/utils/functional/Iterators.java:74-81 | asking does not change what is still to come, and is true exactly when something is |
| JavaIterators.EveryNthIterator.Next | Functional-Utils-Java/src/main/java/me/shaftesbury/utils/functional/Iterators.java:84-90 | the next of s[0], s[step], ...; past the end, NoSuchElementException |
| JavaIterators.EveryNthElements | Functional-Utils-Java/src/main/java/me/shaftesbury/utils/functional/Iterators.java:54-100 | iterating `everyNth(step, s)` yields s[0], s[step], s[2 step], ... |
| JavaIterators.DrainEveryNth | Functional-Utils-Java/src/main/java/me/shaftesbury/utils/functional/Iterators.java:74-90 | alternating `hasNext` and `next` until `hasNext` says no collects exactly what the iterator had still to yield |
| JavaIterators.RepeatedHasNext | Functional-Utils-Java/src/main/java/me/shaftesbury/utils/functional/Iterators.java:74-90 | with `hasNext` asked twice between `next` calls, step 2 over 1..9 still yields 1, 3, 5 |
| CircularArrayLists.FillAsWritten | Functional-Utils-Java/src/main/java/me/shaftesbury/utils/functional/CircularArrayList.java:9-29 | the fill as written: the cycle for up to size + 1 elements, ConcurrentModificationException beyond |
| CircularArrayLists.FillExamples | Functional-Utils-Java/src/main/java/me/shaftesbury/utils/functional/CircularArrayList.java:9-29 | 1..5 filled to 4 gives 1,2,3,4 and to 6 gives 1,2,3,4,5,1; 7 throws |
| CircularArrayLists.CircularArrayList.constructor | Functional-Utils-Java/src/main/java/me/shaftesbury/utils/functional/CircularArrayList.java:9-29 | the corrected fill: the first `howMany` elements of the endless cycle through the input |
| CircularArrayLists.CycleShape | Functional-Utils-Java/src/main/java/me/shaftesbury/utils/functional/CircularArrayList.java:13-28 | the buffer starts with the first min(howMany, size) input elements, and each later element repeats the one a pass earlier |
| CircularArrayLists.CircularArrayList.Size | Functional-Utils-Java/src/main/java/me/shaftesbury/utils/functional/CircularArrayList.java:32-34 | `size()` is the number of buffered elements |
| CircularArrayLists.CircularArrayList.IsEmpty | Functional-Utils-Java/src/main/java/me/shaftesbury/utils/functional/CircularArrayList.java:37-39 | `isEmpty()` is always false |
| CircularArrayLists.CircularArrayList.Get | Functional-Utils-Java/src/main/java/me/shaftesbury/utils/functional/CircularArrayList.java:109-111 | `get(i)` is buffer[i], IndexOutOfBoundsException outside it |
| CircularArrayLists.CircularArrayList.Add | Functional-Utils-Java/src/main/java/me/shaftesbury/utils/functional/CircularArrayList.java:69-71 | `add` answers false |
| CircularArrayLists.CircularArrayList.Remove | Functional-Utils-Java/src/main/java/me/shaftesbury/utils/functional/CircularArrayList.java:74-76 | `remove(o)` answers false |
| CircularArrayLists.CircularArrayList.Set | Functional-Utils-Java/src/main/java/me/shaftesbury/utils/functional/CircularArrayList.java:114-116 | `set` answers null |
| CircularArrayLists.CircularArrayList.AddAt | Functional-Utils-Java/src/main/java/me/shaftesbury/utils/functional/CircularArrayList.java:119-121 | `add(index, element)` changes nothing |
| CircularArrayLists.CircularArrayList.RemoveAt | Functional-Utils-Java/src/main/java/me/shaftesbury/utils/functional/CircularArrayList.java:124-126 | `remove(index)` answers null |
| CircularArrayLists.CircularArrayList.Clear | Functional-Utils-Java/src/main/java/me/shaftesbury/utils/functional/CircularArrayList.java:104-106 | `clear()` throws UnsupportedOperationException |
| LispLists.List.Head | Functional-Utils-Java/src/main/java/me/shaftesbury/utils/functional/LispList.java:113-119 | the first element; nil throws EmptyListHasNoHead |
| LispLists.List.Tail | Functional-Utils-Java/src/main/java/me/shaftesbury/utils/functional/LispList.java:121-124 | the rest of the list; nil throws EmptyListHasNoTail |
| LispLists.ReverseOntoElements | Functional-Utils-Java/src/main/java/me/shaftesbury/utils/functional/LispList.java:20-23 | the accumulator ends up holding the input reversed in front of what it held |
| LispLists.Reverse | Functional-Utils-Java/src/main/java/me/shaftesbury/utils/functional/LispList.java:25-28 | `reverse` as written, onto an empty accumulator; what it holds is stated by ReverseElements |
| LispLists.ReverseElements | Functional-Utils-Java/src/main/java/me/shaftesbury/utils/functional/LispList.java:25-28 | `reverse` holds the elements back to front |
| LispLists.FilterOntoElements | Functional-Utils-Java/src/main/java/me/shaftesbury/utils/functional/LispList.java:30-35 | the accumulator collects the passing elements back to front |
| LispLists.Filter | Functional-Utils-Java/src/main/java/me/shaftesbury/utils/functional/LispList.java:37-40 | `filter` as written, reversing the accumulated matches; what it holds is stated by FilterElements |
| LispLists.FilterElements | Functional-Utils-Java/src/main/java/me/shaftesbury/utils/functional/LispList.java:37-40 | `filter` keeps exactly the passing elements, in order |
| LispLists.Map | Functional-Utils-Java/src/main/java/me/shaftesbury/utils/functional/LispList.java:42-47 | `f` applied to every element; same length and order |
| LispLists.Fold | Functional-Utils-Java/src/main/java/me/shaftesbury/utils/functional/LispList.java:49-54 | `fold` as written, recursing on the tail; its meaning is stated by FoldIsFoldLeft |
| LispLists.FoldIsFoldLeft | Functional-Utils-Java/src/main/java/me/shaftesbury/utils/functional/LispList.java:49-54 | `fold` is the left fold of the elements |
| LispLists.FoldRight | Functional-Utils-Java/src/main/java/me/shaftesbury/utils/functional/LispList.java:55-60 | `foldRight`; its meaning is stated by FoldRightIsFoldOfReverse |
| LispLists.FoldRightIsFoldOfReverse | Functional-Utils-Java/src/main/java/me/shaftesbury/utils/functional/LispList.java:55-60 | `foldRight` is the left fold of the reversed elements with the arguments swapped |
| LispLists.ConsOnto | Functional-Utils-Java/src/main/java/me/shaftesbury/utils/functional/LispList.java:62 | `cons` puts `t` in front of the list |
| LispLists.Car | Functional-Utils-Java/src/main/java/me/shaftesbury/utils/functional/LispList.java:63 | the first element, or EmptyListHasNoHead |
| LispLists.Cdr | Functional-Utils-Java/src/main/java/me/shaftesbury/utils/functional/LispList.java:64 | all but the first element, or EmptyListHasNoTail |
| LispLists.Cadr | Functional-Utils-Java/src/main/java/me/shaftesbury/utils/functional/LispList.java:65 | the second element; EmptyListHasNoTail for nil and EmptyListHasNoHead for a one-element list |
| LispLists.Compose | Functional-Utils-Java/src/main/java/me/shaftesbury/utils/functional/LispList.java:66 | the two-element list [t1, t2] |
| LispLists.Examples | Functional-Utils-Java/src/main/java/me/shaftesbury/utils/functional/LispList.java:20-60 | reverse of 2,4,6,8,10; its sum 30; the evens of 2,5,7,8,10; foldRight giving "8642" |
| JavaMExceptions.MException.Lazy | Functional-Utils-Java/src/main/java/me/shaftesbury/utils/functional/MException.java:51-55 | a lazy container that has run nothing yet |
| JavaMExceptions.MException.Failed | Functional-Utils-Java/src/main/java/me/shaftesbury/utils/functional/MException.java:57-61 | a container holding an exception from the start |
| JavaMExceptions.MException.HasException | Functional-Utils-Java/src/main/java/me/shaftesbury/utils/functional/MException.java:63-76 | runs the supplier at most until it yields a value or throws; true exactly when the outcome is a throw; an exception once recorded stays |
| JavaMExceptions.MException.Read | Functional-Utils-Java/src/main/java/me/shaftesbury/utils/functional/MException.java:88-92 | the value, or the stored exception thrown again |
| JavaMExceptions.MException.Bind | Functional-Utils-Java/src/main/java/me/shaftesbury/utils/functional/MException.java:22-33 | null `f` refused; an errored input carries its exception without calling `f`; an exception thrown by `f` is caught into the result |
| JavaMExceptions.ToMException | Functional-Utils-Java/src/main/java/me/shaftesbury/utils/functional/MException.java:17-20 | a lazy container over `f`; a null `f` throws IllegalArgumentException |
| JavaMExceptions.Lift | Functional-Utils-Java/src/main/java/me/shaftesbury/utils/functional/MException.java:40-49 | errored if `a`, else `b`, is errored; otherwise `f` of the two values, run lazily |
| JavaMExceptions.LiftExample | Functional-Utils-Java/src/main/java/me/shaftesbury/utils/functional/MException.java:40-49 | 10/10 lifted with + onto 20/10 reads 3 |
| JavaMExceptions.BindCatchesExample | Functional-Utils-Java/src/main/java/me/shaftesbury/utils/functional/MException.java:25-30 | a function throwing "Argh" inside bind gives an errored container |
| JavaMExceptions.BindCarriesExample | Functional-Utils-Java/src/main/java/me/shaftesbury/utils/functional/MException.java:31-32 | binding an errored container carries the same exception |
| OptionInts.OptionInt.Value | Functional-Utils-Java/src/main/java/me/shaftesbury/utils/functional/primitive/Option_int.java:29-33 | the value when set; OptionNoValueAccessException otherwise |
| OptionInts.OptionInt.HashCode | Functional-Utils-Java/src/main/java/me/shaftesbury/utils/functional/primitive/Option_int.java:104-107 | -1 for None; 3 t in 32-bit arithmetic for Some(t) |
| OptionInts.None | Functional-Utils-Java/src/main/java/me/shaftesbury/utils/functional/primitive/Option_int.java:51-54 | not set, and reading its value throws |
| OptionInts.ToOption | Functional-Utils-Java/src/main/java/me/shaftesbury/utils/functional/primitive/Option_int.java:126-129 | set, with value `t` |
| OptionInts.Some | Functional-Utils-Java/src/main/java/me/shaftesbury/utils/functional/primitive/Option_int.java:42-45 | set, with value `t` |
| OptionInts.Bind | Functional-Utils-Java/src/main/java/me/shaftesbury/utils/functional/primitive/Option_int.java:137-141 | None binds to None; Some(v) gives f(v) |
| OptionInts.Lift | Functional-Utils-Java/src/main/java/me/shaftesbury/utils/functional/primitive/Option_int.java:151-155 | set exactly when both inputs are, then holding f of their values |
| OptionInts.Equals | Functional-Utils-Java/src/main/java/me/shaftesbury/utils/functional/primitive/Option_int.java:83-98 | two Nones are equal; two Somes exactly when their values are; nothing else |
| OptionInts.EqualsIsSameMeaning | Functional-Utils-Java/src/main/java/me/shaftesbury/utils/functional/primitive/Option_int.java:83-98 | `equals` is equality of the options the objects stand for, so it is reflexive and symmetric |
| OptionInts.EqualsAgreesWithHashCode | Functional-Utils-Java/src/main/java/me/shaftesbury/utils/functional/primitive/Option_int.java:83-107 | equal options have equal hash codes |
| OptionInts.BindLaws | Functional-Utils-Java/src/main/java/me/shaftesbury/utils/functional/primitive/Option_int.java:126-141 | the monad laws for toOption and bind |
| OptionInts.HashCollision | Functional-Utils-Java/src/main/java/me/shaftesbury/utils/functional/primitive/Option_int.java:104-107 | Some(1431655765) hashes like None but is unequal to it |
| IntFunctional.FindIndex | Functional-Utils-Java/src/main/java/me/shaftesbury/utils/functional/primitive/integer/Functional.java:93-107 | the first position whose element satisfies `f`; IllegalArgumentException exactly when none does |
| IntFunctional.Init | Functional-Utils-Java/src/main/java/me/shaftesbury/utils/functional/primitive/integer/Functional.java:331-340 | fewer than 1 element throws; otherwise element i - 1 is f(i) |
| IntFunctional.FilterAsWritten | Functional-Utils-Java/src/main/java/me/shaftesbury/utils/functional/primitive/integer/Functional.java:523-534 | correct for an IntList; any other iterable with a passing element throws ArrayIndexOutOfBoundsException |
| IntFunctional.Filter | Functional-Utils-Java/src/main/java/me/shaftesbury/utils/functional/primitive/integer/Functional.java:523-534 | the passing elements in order, whatever the iterable; their number is the match count by Seqs.FilterLength |
| IntFunctional.Partition | Functional-Utils-Java/src/main/java/me/shaftesbury/utils/functional/primitive/integer/Functional.java:605-628 | the matching and the other elements, each in input order |
| IntFunctional.PartitionCovers | Functional-Utils-Java/src/main/java/me/shaftesbury/utils/functional/primitive/integer/Functional.java:605-628 | the two lists together hold every input element once, and their sizes sum to the input size |
| IntFunctional.Chosen | Functional-Utils-Java/src/main/java/me/shaftesbury/utils/functional/primitive/integer/Functional.java:663-676 | no more chosen values than inputs |
| IntFunctional.ChosenIsFilterThenMap | Functional-Utils-Java/src/main/java/me/shaftesbury/utils/functional/primitive/integer/Functional.java:663-676 | `choose` is a filter by "f gives a value" followed by a map to that value |
| IntFunctional.ChooseAsWritten | Functional-Utils-Java/src/main/java/me/shaftesbury/utils/functional/primitive/integer/Functional.java:663-676 | correct for an IntList; any other iterable with a chosen element throws ArrayIndexOutOfBoundsException |
| IntFunctional.Choose | Functional-Utils-Java/src/main/java/me/shaftesbury/utils/functional/primitive/integer/Functional.java:663-676 | the values `f` gives, in input order, whatever the iterable |
| IntFunctional.ArrayTooSmallExample | Functional-Utils-Java/src/main/java/me/shaftesbury/utils/functional/primitive/integer/Functional.java:523-534 | on a one-element non-IntList iterable, `filter` and `choose` as written throw where the corrected ones return [5] |
| IntFunctional.Last | Functional-Utils-Java/src/main/java/me/shaftesbury/utils/functional/primitive/integer/Functional.java:876-892 | an empty input throws IllegalArgumentException; otherwise the final element |
| IntFunctional.Take | Functional-Utils-Java/src/main/java/me/shaftesbury/utils/functional/primitive/integer/Functional.java:931-948 | a negative count throws IllegalArgumentException; more than there are throws NoSuchElementException; otherwise the prefix |
| IntFunctional.Skip | Functional-Utils-Java/src/main/java/me/shaftesbury/utils/functional/primitive/integer/Functional.java:1024-1034 | a negative count throws; otherwise the elements after the first `howMany`, none when that reaches the size |
| IntFunctional.TakeThenSkip | Functional-Utils-Java/src/main/java/me/shaftesbury/utils/functional/primitive/integer/Functional.java:931-1034 | what `take` returns followed by what `skip` returns is the whole list |
| IntFunctional.Zip | Functional-Utils-Java/src/main/java/me/shaftesbury/utils/functional/primitive/integer/Functional.java:1138-1158 | unequal lengths throw IllegalArgumentException; otherwise the pairs of elements at equal indices |
| IntLists.NewOfSize | Functional-Utils-Java/src/main/java/me/shaftesbury/utils/functional/primitive/integer/IntList.java:12 | `new IntList(size)`: a negative size throws NegativeArraySizeException, otherwise `size` zeros |
| IntLists.NewPrefix | Functional-Utils-Java/src/main/java/me/shaftesbury/utils/functional/primitive/integer/IntList.java:14 | `new IntList(array, size)`: a negative size throws NegativeArraySizeException, otherwise the first `size` elements padded with zeros |
| IntLists.IntList.Empty | Functional-Utils-Java/src/main/java/me/shaftesbury/utils/functional/primitive/integer/IntList.java:11 | no elements |
| IntLists.IntList.OfSize | Functional-Utils-Java/src/main/java/me/shaftesbury/utils/functional/primitive/integer/IntList.java:12 | `size` zeros |
| IntLists.IntList.Copy | Functional-Utils-Java/src/main/java/me/shaftesbury/utils/functional/primitive/integer/IntList.java:13 | the array's elements, in a fresh store |
| IntLists.IntList.Prefix | Functional-Utils-Java/src/main/java/me/shaftesbury/utils/functional/primitive/integer/IntList.java:14 | the first `size` elements of the array, padded with zeros, in a fresh store |
| IntLists.IntList.Concat | Functional-Utils-Java/src/main/java/me/shaftesbury/utils/functional/primitive/integer/IntList.java:16-21 | the first array followed by the second, in a fresh store |
| IntLists.IntList.Size | Functional-Utils-Java/src/main/java/me/shaftesbury/utils/functional/primitive/integer/IntList.java:25-27 | the number of elements |
| IntLists.IntList.IsEmpty | Functional-Utils-Java/src/main/java/me/shaftesbury/utils/functional/primitive/integer/IntList.java:29-31 | true exactly when there are no elements |
| IntLists.IntList.Get | Functional-Utils-Java/src/main/java/me/shaftesbury/utils/functional/primitive/integer/IntList.java:92-94 | element `index`, ArrayIndexOutOfBoundsException outside the list |
| IntLists.IntList.ToArray | Functional-Utils-Java/src/main/java/me/shaftesbury/utils/functional/primitive/integer/IntList.java:42-44 | a fresh array equal to the list |
| IntLists.IntList.Add | Functional-Utils-Java/src/main/java/me/shaftesbury/utils/functional/primitive/integer/IntList.java:60-62 | `add` answers false |
| IntLists.IntList.Set | Functional-Utils-Java/src/main/java/me/shaftesbury/utils/functional/primitive/integer/IntList.java:96-98 | `set` throws UnsupportedOperationException |
| IntLists.IntList.RemoveAt | Functional-Utils-Java/src/main/java/me/shaftesbury/utils/functional/primitive/integer/IntList.java:104-106 | `remove(index)` throws UnsupportedOperationException |
| IntLists.IntList.Clear | Functional-Utils-Java/src/main/java/me/shaftesbury/utils/functional/primitive/integer/IntList.java:88-90 | `clear` throws UnsupportedOperationException |
| IntLists.CopiesAreIndependent | Functional-Utils-Java/src/main/java/me/shaftesbury/utils/functional/primitive/integer/IntList.java:13 | writes to the array a list was built from, or to an array `toArray` returned, leave the list unchanged |
| IntLists.CopyOf | Functional-Utils-Java/src/main/java/me/shaftesbury/utils/functional/primitive/integer/IntList.java:14 | `Arrays.copyOf`: `size` elements, the array's own where it has them and 0 past its end |

## Left out

- Null arguments. The ArgumentNullException checks that guard every other argument are not
  modelled: arguments are values and cannot be null. The same holds for the Java
  IllegalArgumentException null checks of `lift`'s `a` and `b`, of `findIndex`'s `f` and `input`,
  and of `take`, `skip` and `zip`. Null is modelled where it changes the result.
- The reflection-based `act(message, Type)` overloads of Opt (Utils/Check.cs:101-117) and
  `OptionType.Dispose`. They depend on runtime type information.
- Enumerators.CircularEnum: an empty input makes the C# enumerator loop forever without yielding.
  The model requires a non-empty input whenever at least one element is pulled; with no pulls the
  empty input yields nothing, as in the source.
- CircularArrayLists.FillAsWritten and CircularArrayLists.CircularArrayList.constructor: an empty
  input with a positive count loops forever in the source. The model requires a non-empty input
  in that case.
- CircularArrayLists.CircularArrayList.constructor: a negative count makes `new ArrayList(howMany)`
  throw, and the constructor takes a `nat`. FillAsWritten models the throw.
- CircularArrayList's `contains`, `indexOf`, `lastIndexOf`, `containsAll`, `toArray`, `iterator`,
  `listIterator` and `subList` only delegate to the buffer or to Java's collections.
- IntList's `contains` relies on `Arrays.binarySearch` over an unsorted array. `toArray(T[])`,
  `listIterator`, `subList`, `indexOf` and `lastIndexOf` return fixed answers or delegate to the
  Java library.
- IntLists.IntList.OfSize and IntLists.IntList.Prefix take a `nat`: they are the path on which
  the Java constructor succeeds. The throw for a negative size is modelled by IntLists.NewOfSize
  and IntLists.NewPrefix.
- IntFunctional: results are returned as the sequence a new `IntList` or `List` would hold, not
  as a fresh object. `filter`, `choose` and `partition` size their buffers by the input's kind,
  and only `filter` and `choose` depend on that.
- IntFunctional.Init: a caller's function that throws is not modelled; `f` is total.
- `remove()` on the Java iterators always throws UnsupportedOperationException. The
  `AtomicBoolean` guard of the single-use iterables is a plain flag: threads are not modelled.
- Java stack traces, `getException` and `getExceptionWithStackTrace`, the `toString` methods,
  `LispList.equals` (datatype equality stands for it) and `Option_int.toString`.
- Lazy C# enumerators are modelled as complete runs. Interleaving with a consumer that stops
  early, and `IEnumerator.Reset`, are not modelled.
- In-place updates of the C# `IDictionary` are modelled as a class holding a `map`. Aliasing
  between dictionaries and the `List<V>` objects inside them is not modelled.
- JavaIterators.ReverseIterable and JavaIterators.EveryNthIterable hold the list as a value taken
  when `reverse` or `everyNth` is called. The Java iterables keep a reference to the caller's
  `List`, so changes the caller makes to that list afterwards show in the iteration; that
  aliasing is not modelled.
- Caller-supplied functions are pure and, unless their type says they may throw, total: the C#
  choosers of `Choose` and `pick`, the Java `Supplier` of MException (run again by
  `hasException` while its state is null) and the other function arguments. Side effects of
  such a function, and a chooser that throws, are not modelled.
- `InsertOrUpdate`: the C# `updater` mutates the stored object in place. The model makes it
  return the updated value.
- Permutations.Permutations1: strings are sequences of `char`; surrogate pairs are not treated
  specially, as in the source.
- The Knuth lexicographic permutation code in permutations/Permutation.cs is commented out in
  the source.
- The integer `collect` is a stub that always returns an empty list. It is not modelled.

- Functional.UniqueBy: its own contract says only that it keeps input elements. Which element it
  keeps for each key, and in what order, is stated by Functional.UniqueByIsFirstOfEachKey.
- Functional.UniqueByDistinctKeys: states only that the kept keys are distinct. Which element is
  kept, and in what order, is stated by Functional.UniqueByIsFirstOfEachKey.
- Functional.UniqueByKeepsKeys: states only that every key is kept. Which element is kept, and in
  what order, is stated by Functional.UniqueByIsFirstOfEachKey.
- FunctionalHelpers.TryGetValue, TryGetValueX and FindNoExcept hold for element types other than
  string. The C# `OptionType` picks its string rule by the runtime type, which Dafny generics cannot
  test. So the string case has its own members: TryGetValueString, TryGetValueXString and
  FindNoExceptString.

## Findings

| source | as written | input that shows it | evidently intended | confidence | as-written member | corrected member |
|---|---|---|---|---|---|---|
| Functional-Utils-Java/src/main/java/me/shaftesbury/utils/functional/CircularArrayList.java:20-28 | the wrap-around loop iterates over `buffer` while adding to it, so the iterator's next step throws ConcurrentModificationException | input 1,2,3,4,5 with `howMany` 7 | cycle through the input until `howMany` elements are held | high, not executed | CircularArrayLists.FillAsWritten | CircularArrayLists.CircularArrayList.constructor |
| Functional-Utils-Java/src/main/java/me/shaftesbury/utils/functional/primitive/integer/Functional.java:525 | `filter` sizes its output array 0 for an `IntIterable` that is not an `IntList` | a non-IntList iterable over [5] with `x > 0` throws ArrayIndexOutOfBoundsException | room for every element yielded | high, not executed | IntFunctional.FilterAsWritten | IntFunctional.Filter |
| Functional-Utils-Java/src/main/java/me/shaftesbury/utils/functional/primitive/integer/Functional.java:665 | `choose` sizes its output array 0 for an `IntIterable` that is not an `IntList` | a non-IntList iterable over [5] with `toOption` throws ArrayIndexOutOfBoundsException | room for every element yielded | high, not executed | IntFunctional.ChooseAsWritten | IntFunctional.Choose |
| Utils/Functional.cs:412 | with `howMany` 0 or less, the remainder is an empty array | `[1].TakeNAndYield(0)` gives ([], []) | take nothing and yield the whole input | medium, not executed | Functional.TakeNAndYieldAsWritten | Functional.TakeNAndYield |
| Utils/FunctionalHelpers.cs:289 | `between` tests `CompareTo` for exactly 1 and -1, but `CompareTo` promises only a sign, and `char.CompareTo` returns the difference | `between('a', 'z', 'c')` is false | lowerBound < val < upperBound by the sign of `CompareTo` | medium, not executed | FunctionalHelpers.BetweenAsWritten | FunctionalHelpers.Between |
