/** The dictionary helpers and small list functions of the C# `FunctionalHelpers` class
    (Utils/FunctionalHelpers.cs). The dictionary is the caller's `IDictionary<K, V>`, which the
    helpers change in place. */
module FunctionalHelpers {
  import opened Errors
  import opened Seqs
  import OptionTypes
  import Enumerators

  /** A mutable dictionary: the key/value pairs it holds. */
  class Dictionary<K(==), V> {
    var items: map<K, V>

    constructor ()
      ensures items == map[]
    {
      items := map[];
    }
  }

  /** AddKeyValueToDict: a new key gets `value`; an existing key gets `adder(old value, value)`. No
      other entry changes. */
  method AddKeyValueToDict<K, V>(key: K, value: V, dict: Dictionary<K, V>, adder: (V, V) -> V)
    modifies dict
    ensures key in dict.items
    ensures key in old(dict.items) ==> dict.items[key] == adder(old(dict.items)[key], value)
    ensures key !in old(dict.items) ==> dict.items[key] == value
    ensures forall k :: k != key ==> (k in dict.items <==> k in old(dict.items))
    ensures forall k :: k != key && k in dict.items ==> dict.items[k] == old(dict.items)[k]
  {
    if key in dict.items {
      var oldV := dict.items[key];
      dict.items := dict.items[key := adder(oldV, value)];
    } else {
      dict.items := dict.items[key := value];
    }
  }

  /** GetOrCreate with a factory: the stored value for `key`; when there is none, `factory()` is
      called, stored and returned. Nothing else changes, and the factory is not called for a key that
      is present. */
  method GetOrCreate<K, V>(key: K, factory: () -> V, dict: Dictionary<K, V>) returns (ret: V)
    modifies dict
    ensures key in old(dict.items) ==> ret == old(dict.items)[key] && dict.items == old(dict.items)
    ensures key !in old(dict.items) ==> ret == factory() && dict.items == old(dict.items)[key := ret]
  {
    if key in dict.items {
      ret := dict.items[key];
    } else {
      ret := factory();
      dict.items := dict.items[key := ret];
    }
  }

  /** GetOrCreate for a V with a parameterless constructor: `newV` stands for the `new V()` it makes. */
  method GetOrCreateNew<K, V>(key: K, newV: V, dict: Dictionary<K, V>) returns (ret: V)
    modifies dict
    ensures key in old(dict.items) ==> ret == old(dict.items)[key] && dict.items == old(dict.items)
    ensures key !in old(dict.items) ==> ret == newV && dict.items == old(dict.items)[key := newV]
  {
    ret := GetOrCreate(key, () => newV, dict);
  }

  /** GetOrCreate_x: as GetOrCreate, and also whether the key was already present. */
  method GetOrCreateX<K, V>(key: K, factory: () -> V, dict: Dictionary<K, V>) returns (found: bool, ret: V)
    modifies dict
    ensures found <==> key in old(dict.items)
    ensures found ==> ret == old(dict.items)[key] && dict.items == old(dict.items)
    ensures !found ==> ret == factory() && dict.items == old(dict.items)[key := ret]
  {
    found := key in dict.items;
    if !found {
      ret := factory();
      dict.items := dict.items[key := ret];
    } else {
      ret := dict.items[key];
    }
  }

  /** InsertOrUpdate: a missing key gets `inserter()`; for a present key the stored object is updated
      in place by the caller's update action, whose effect on the object is `updater`. The object
      now stored is returned. */
  method InsertOrUpdate<K, V>(key: K, inserter: () -> V, updater: V -> V, dict: Dictionary<K, V>) returns (ret: V)
    modifies dict
    ensures key !in old(dict.items) ==> ret == inserter()
    ensures key in old(dict.items) ==> ret == updater(old(dict.items)[key])
    ensures dict.items == old(dict.items)[key := ret]
  {
    if key !in dict.items {
      ret := inserter();
    } else {
      ret := updater(dict.items[key]);
    }
    dict.items := dict.items[key := ret];
  }

  /** AddKeyValueToDictOfList: `value` is appended to the list stored for `key`, which starts empty
      when the key is new. The capacity argument only sizes the new list and is not modelled. */
  method AddKeyValueToDictOfList<K, V>(key: K, value: V, dict: Dictionary<K, seq<V>>)
    modifies dict
    ensures key in dict.items
    ensures dict.items[key] == (if key in old(dict.items) then old(dict.items)[key] else []) + [value]
    ensures forall k :: k != key ==> (k in dict.items <==> k in old(dict.items))
    ensures forall k :: k != key && k in dict.items ==> dict.items[k] == old(dict.items)[k]
  {
    if key !in dict.items {
      dict.items := dict.items[key := []];
    }
    dict.items := dict.items[key := dict.items[key] + [value]];
  }

  /** TryGetValue, for a value type V other than string: the stored value as an OptionType. A
      reference-typed dictionary may hold null, and the conversion to OptionType turns a stored null
      into None, just like an absent key. */
  function TryGetValue<K, V>(key: K, dict: Dictionary<K, Nullable<V>>): (r: OptionTypes.OptionType<V>)
    reads dict
    ensures r.None() <==> key !in dict.items || dict.items[key].Null?
    ensures !r.None() ==> r.Some() == Returns(dict.items[key].value)
  {
    if key in dict.items then OptionTypes.New(dict.items[key]) else OptionTypes.NullOption()
  }

  /** TryGetValue for string values: the conversion to `OptionType<string>` also turns a stored empty
      string into None. */
  function TryGetValueString<K>(key: K, dict: Dictionary<K, Nullable<string>>): (r: OptionTypes.OptionType<string>)
    reads dict
    ensures r.None() <==> key !in dict.items || dict.items[key] in {Null, NotNull("")}
    ensures !r.None() ==> r.Some() == Returns(dict.items[key].value)
  {
    if key in dict.items then OptionTypes.NewString(dict.items[key]) else OptionTypes.NullOption()
  }

  /** TryGetValue_nullable: the stored value as a `V?`, null when the key is absent. V is a value
      type, so a stored value is never null. */
  function TryGetValueNullable<K, V>(key: K, dict: Dictionary<K, V>): (r: Nullable<V>)
    reads dict
    ensures r.Null? <==> key !in dict.items
    ensures key in dict.items ==> r.value == dict.items[key]
  {
    if key in dict.items then NotNull(dict.items[key]) else Null
  }

  /** TryGetValue_x, for a value type V other than string: whether the key is present, and the
      stored value as an OptionType. A present key whose value is null gives (true, None), which is
      what the flag is there to tell apart from an absent key. */
  function TryGetValueX<K, V>(key: K, dict: Dictionary<K, Nullable<V>>): (r: (bool, OptionTypes.OptionType<V>))
    reads dict
    ensures r.0 <==> key in dict.items
    ensures !r.1.None() ==> r.0 && dict.items[key].NotNull? && r.1.Some() == Returns(dict.items[key].value)
    ensures r.0 && r.1.None() <==> key in dict.items && dict.items[key].Null?
  {
    var found := key in dict.items;
    (found, if found then OptionTypes.New(dict.items[key]) else OptionTypes.NullOption())
  }

  /** TryGetValue_x for string values: a present key whose value is null or empty gives (true, None). */
  function TryGetValueXString<K>(key: K, dict: Dictionary<K, Nullable<string>>): (r: (bool, OptionTypes.OptionType<string>))
    reads dict
    ensures r.0 <==> key in dict.items
    ensures !r.1.None() ==> r.0 && dict.items[key].NotNull? && r.1.Some() == Returns(dict.items[key].value)
    ensures r.0 && r.1.None() <==> key in dict.items && dict.items[key] in {Null, NotNull("")}
  {
    var found := key in dict.items;
    (found, if found then OptionTypes.NewString(dict.items[key]) else OptionTypes.NullOption())
  }

  /** The option TryGetValue_x returns is the one TryGetValue returns, for string and other values
      alike; the flag adds exactly the knowledge that the key is present. */
  lemma TryGetValueVariantsAgree<K, V>(key: K, dict: Dictionary<K, Nullable<V>>, strings: Dictionary<K, Nullable<string>>)
    ensures TryGetValueX(key, dict) == (key in dict.items, TryGetValue(key, dict))
    ensures TryGetValueXString(key, strings) == (key in strings.items, TryGetValueString(key, strings))
  {
  }

  /** A dictionary holding "" under a key: TryGetValue reads it as None, and only TryGetValue_x shows
      that the key is there. */
  lemma StoredEmptyStringReadsAsNone<K>(key: K, dict: Dictionary<K, Nullable<string>>)
    requires key in dict.items && dict.items[key] == NotNull("")
    ensures TryGetValueString(key, dict).None()
    ensures TryGetValueXString(key, dict).0 && TryGetValueXString(key, dict).1.None()
  {
  }

  /** find_noExcept, for an element type A other than string: the first element that satisfies `f`,
      converted to an OptionType (so a matching null element reads as None); Null when no element
      matches. */
  method FindNoExcept<A>(f: Nullable<A> -> bool, input: seq<Nullable<A>>) returns (r: OptionTypes.OptionType<A>)
    ensures (forall i :: 0 <= i < |input| ==> !f(input[i])) ==> r == OptionTypes.NullOption()
    ensures (exists i :: 0 <= i < |input| && f(input[i])) ==>
      exists i :: 0 <= i < |input| && f(input[i]) && (forall j :: 0 <= j < i ==> !f(input[j])) &&
        r == OptionTypes.New(input[i])
  {
    for i := 0 to |input|
      invariant forall j :: 0 <= j < i ==> !f(input[j])
    {
      if f(input[i]) {
        return OptionTypes.New(input[i]);
      }
    }
    return OptionTypes.NullOption();
  }

  /** find_noExcept over strings: the conversion to `OptionType<string>` reads a first match that is
      null or empty as None. */
  method FindNoExceptString(f: Nullable<string> -> bool, input: seq<Nullable<string>>) returns (r: OptionTypes.OptionType<string>)
    ensures (forall i :: 0 <= i < |input| ==> !f(input[i])) ==> r == OptionTypes.NullOption()
    ensures (exists i :: 0 <= i < |input| && f(input[i])) ==>
      exists i :: 0 <= i < |input| && f(input[i]) && (forall j :: 0 <= j < i ==> !f(input[j])) &&
        r == OptionTypes.NewString(input[i])
    ensures !r.None() ==> exists i :: 0 <= i < |input| && f(input[i]) && input[i] == NotNull(r.Some().value) && r.Some().value != ""
  {
    for i := 0 to |input|
      invariant forall j :: 0 <= j < i ==> !f(input[j])
    {
      if f(input[i]) {
        return OptionTypes.NewString(input[i]);
      }
    }
    return OptionTypes.NullOption();
  }

  /** pick_noExcept: the first result of `f` that is not None, or Null when every result is None. */
  method PickNoExcept<A, B>(f: A -> OptionTypes.OptionType<B>, input: seq<A>) returns (r: OptionTypes.OptionType<B>)
    ensures r.None() <==> forall i :: 0 <= i < |input| ==> f(input[i]).None()
    ensures !r.None() ==>
      exists i :: 0 <= i < |input| && r == f(input[i]) && forall j :: 0 <= j < i ==> f(input[j]).None()
  {
    for i := 0 to |input|
      invariant forall j :: 0 <= j < i ==> f(input[j]).None()
    {
      var intermediate := f(input[i]);
      if !intermediate.None() {
        return intermediate;
      }
    }
    return OptionTypes.NullOption();
  }

  /** The state after folding the first components of `f` over the input, left to right. */
  function FoldState<A, B>(f: (A, B) -> (A, OptionTypes.OptionType<B>), initial: A, input: seq<B>): A
  {
    if |input| == 0 then initial else f(FoldState(f, initial, input[..|input| - 1]), input[|input| - 1]).0
  }

  /** The values `f` chose along the fold, in input order. */
  function FoldChosen<A, B>(f: (A, B) -> (A, OptionTypes.OptionType<B>), initial: A, input: seq<B>): seq<B>
  {
    if |input| == 0 then []
    else
      var init := input[..|input| - 1];
      var step := f(FoldState(f, initial, init), input[|input| - 1]);
      FoldChosen(f, initial, init) + (if step.1.None() then [] else [step.1.stored.value])
  }

  /** foldAndChoose: threads the state through `f` and collects the values it chooses. */
  method FoldAndChoose<A, B>(f: (A, B) -> (A, OptionTypes.OptionType<B>), initialValue: A, input: seq<B>)
    returns (state: A, results: seq<B>)
    ensures state == FoldState(f, initialValue, input)
    ensures results == FoldChosen(f, initialValue, input)
  {
    state, results := initialValue, [];
    for i := 0 to |input|
      invariant state == FoldState(f, initialValue, input[..i])
      invariant results == FoldChosen(f, initialValue, input[..i])
    {
      assert input[..i + 1][..i] == input[..i];
      var intermediate := f(state, input[i]);
      state := intermediate.0;
      if !intermediate.1.None() {
        results := results + [intermediate.1.Some().value];
      }
    }
    assert input[..|input|] == input;
  }

  /** The values foldAndChoose collects are at most one per input element, and when `f` never chooses
      anything the result list is empty. */
  lemma {:induction false} FoldChosenBounds<A, B>(f: (A, B) -> (A, OptionTypes.OptionType<B>), initial: A, input: seq<B>)
    ensures |FoldChosen(f, initial, input)| <= |input|
    ensures (forall a, b :: f(a, b).1.None()) ==> FoldChosen(f, initial, input) == []
    decreases |input|
  {
    if |input| > 0 {
      FoldChosenBounds(f, initial, input[..|input| - 1]);
    }
  }

  /** A fold whose step always chooses its element returns the whole input. */
  lemma {:induction false} FoldChosenKeepsAll<A, B>(f: (A, B) -> (A, OptionTypes.OptionType<B>), initial: A, input: seq<B>)
    requires forall a, b :: f(a, b).1 == OptionTypes.OptionType(NotNull(b))
    ensures FoldChosen(f, initial, input) == input
    decreases |input|
  {
    if |input| > 0 {
      var init, last := input[..|input| - 1], input[|input| - 1];
      FoldChosenKeepsAll(f, initial, init);
      var chosen := f(FoldState(f, initial, init), last).1;
      assert chosen == OptionTypes.OptionType(NotNull(last));
      assert FoldChosen(f, initial, input) == FoldChosen(f, initial, init) + [last];
      assert init + [last] == input;
    }
  }

  /** `unit` written `howMany` times. */
  function Repeat(unit: string, howMany: nat): string
  {
    if howMany == 0 then "" else Repeat(unit, howMany - 1) + unit
  }

  /** The Aggregate step of indentBy: each unit is put in front of the text built so far. */
  function PrependAll(units: seq<string>, state: string): string
  {
    if |units| == 0 then state else PrependAll(units[1..], units[0] + state)
  }

  /** indentBy: Enumerable.Repeat refuses a negative count with ArgumentOutOfRangeException; otherwise
      the units are aggregated in front of `indentThis`. */
  function IndentBy(howMany: int, unitOfIndentation: string, indentThis: string): (r: Outcome<string>)
    ensures r.Throws? <==> howMany < 0
    ensures r.Throws? ==> r.error == ArgumentOutOfRange
  {
    if howMany < 0 then Throws(ArgumentOutOfRange)
    else Returns(PrependAll(seq(howMany, _ => unitOfIndentation), indentThis))
  }

  lemma {:induction false} PrependAllRepeated(unit: string, n: nat, state: string)
    ensures PrependAll(seq(n, _ => unit), state) == Repeat(unit, n) + state
    decreases n
  {
    if n > 0 {
      assert seq(n, _ => unit)[1..] == seq(n - 1, _ => unit);
      PrependAllRepeated(unit, n - 1, unit + state);
      RepeatFront(unit, n - 1);
    }
  }

  lemma {:induction false} RepeatFront(unit: string, n: nat)
    ensures Repeat(unit, n) + unit == unit + Repeat(unit, n)
    decreases n
  {
    if n > 0 {
      RepeatFront(unit, n - 1);
    }
  }

  /** indentBy puts `howMany` copies of the unit in front of the text: indenting "BOB" by 5 spaces
      gives "     BOB". */
  lemma IndentByPrefixes(howMany: nat, unitOfIndentation: string, indentThis: string)
    ensures IndentBy(howMany, unitOfIndentation, indentThis) == Returns(Repeat(unitOfIndentation, howMany) + indentThis)
    ensures IndentBy(5, " ", "BOB") == Returns("     BOB")
  {
    PrependAllRepeated(unitOfIndentation, howMany, indentThis);
    PrependAllRepeated(" ", 5, "BOB");
    assert Repeat(" ", 1) == " ";
    assert Repeat(" ", 2) == "  ";
    assert Repeat(" ", 3) == "   ";
    assert Repeat(" ", 4) == "    ";
    assert Repeat(" ", 5) == "     ";
    assert "     " + "BOB" == "     BOB";
  }

  /** `between(lowerBound, upperBound, val)` as written: `compare` is the CompareTo of T, and the code
      asks for exactly 1 and exactly -1 rather than for the sign. */
  function BetweenAsWritten<T>(compare: (T, T) -> int, lowerBound: T, upperBound: T, val: T): (r: bool)
    ensures r ==> compare(val, lowerBound) > 0 && compare(val, upperBound) < 0
  {
    compare(val, lowerBound) == 1 && compare(val, upperBound) == -1
  }

  /** `between`, strict at both ends by the sign of CompareTo, as its documentation states. */
  function Between<T>(compare: (T, T) -> int, lowerBound: T, upperBound: T, val: T): (r: bool)
  {
    compare(val, lowerBound) > 0 && compare(val, upperBound) < 0
  }

  /** A CompareTo that returns the difference of its operands, as Char, Byte and Int16 do. */
  function Difference(a: int, b: int): int { a - b }

  /** With such a CompareTo, 'c' (99) lies strictly between 'a' (97) and 'z' (122), but the code as
      written says it does not. */
  lemma BetweenAsWrittenMissesDifferences()
    ensures Between(Difference, 97, 122, 99)
    ensures !BetweenAsWritten(Difference, 97, 122, 99)
  {
  }

  /** On integers, Between is lowerBound < val < upperBound for any CompareTo that returns the sign or
      the difference, and the code as written agrees with it when CompareTo returns only -1, 0 or 1. */
  lemma BetweenIsStrict(lowerBound: int, upperBound: int, val: int)
    ensures Between(Difference, lowerBound, upperBound, val) <==> lowerBound < val < upperBound
    ensures BetweenAsWritten((a: int, b: int) => if a < b then -1 else if a == b then 0 else 1, lowerBound, upperBound, val)
        <==> lowerBound < val < upperBound
  {
  }

  /** findLast: walks ReverseEnum of the list, so an empty list throws ArgumentException; otherwise the
      last element that satisfies `f`, or KeyNotFoundException when none does. */
  method FindLast<A>(f: A -> bool, input: seq<A>) returns (r: Outcome<A>)
    ensures |input| == 0 ==> r == Throws(Argument)
    ensures |input| > 0 && (forall i :: 0 <= i < |input| ==> !f(input[i])) ==> r == Throws(KeyNotFound)
    ensures r.Returns? ==>
      exists i :: 0 <= i < |input| && f(input[i]) && r.value == input[i] &&
        forall j :: i < j < |input| ==> !f(input[j])
    ensures (exists i :: 0 <= i < |input| && f(input[i])) ==> r.Returns?
  {
    var run := Enumerators.ReverseEnum(input);
    var reversed := run.yielded;
    for k := 0 to |reversed|
      invariant forall j :: |input| - k <= j < |input| ==> !f(input[j])
    {
      if f(reversed[k]) {
        return Returns(reversed[k]);
      }
    }
    if run.end.Raises? {
      return Throws(run.end.error);
    }
    return Throws(KeyNotFound);
  }
}
