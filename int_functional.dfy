/** The `int` specialisation of the Java `Functional` class (primitive/integer/Functional.java):
    loops that pull elements from an `IntIterator` into `int[]` buffers or `ArrayList`s. */
module IntFunctional {
  import opened Errors
  import opened Ints
  import Seqs
  import OptionInts

  /** An `IntIterable` as these loops see it: the elements its iterator yields, and whether it is an
      `IntList`, whose `size()` some operations use to size their output buffer. */
  datatype IntIterable = IntIterable(isIntList: bool, elements: seq<int32>)

  /** `findIndex(f, input)`: the position of the first element satisfying `f`; when none does, the
      loop falls through to IllegalArgumentException. */
  method FindIndex(f: int32 -> bool, input: seq<int32>) returns (r: Outcome<nat>)
    ensures r.Returns? ==> r.value < |input| && f(input[r.value])
    ensures r.Returns? ==> forall j :: 0 <= j < r.value ==> !f(input[j])
    ensures r.Throws? <==> forall j :: 0 <= j < |input| ==> !f(input[j])
    ensures r.Throws? ==> r.error == IllegalArgument
  {
    var pos := 0;
    while pos < |input|
      invariant 0 <= pos <= |input|
      invariant forall j :: 0 <= j < pos ==> !f(input[j])
    {
      if f(input[pos]) {
        return Returns(pos);
      }
      pos := pos + 1;
    }
    return Throws(IllegalArgument);
  }

  /** `init(f, howMany)`: fewer than one element is refused with IllegalArgumentException; otherwise
      element i - 1 of the list is f(i), so `f` sees the positions 1 .. howMany. */
  method Init(f: int32 -> int32, howMany: int32) returns (r: Outcome<seq<int32>>)
    ensures howMany < 1 ==> r == Throws(IllegalArgument)
    ensures howMany >= 1 ==> r.Returns? && |r.value| == howMany as int
    ensures howMany >= 1 ==> forall i :: 0 <= i < howMany ==> r.value[i] == f((i + 1) as int32)
  {
    if howMany < 1 {
      return Throws(IllegalArgument);
    }
    var output := new int32[howMany](_ => 0);
    for i := 1 to howMany as int + 1
      invariant forall k :: 0 <= k < i - 1 ==> output[k] == f((k + 1) as int32)
    {
      output[i - 1] := f(i as int32);
    }
    return Returns(output[..]);
  }

  /** `filter(pred, input)` as written: the output array has room for `size()` elements when the input
      is an `IntList`, and for none otherwise; so any other iterable with an element that passes
      fails with ArrayIndexOutOfBoundsException at that element. */
  method FilterAsWritten(pred: int32 -> bool, input: IntIterable) returns (r: Outcome<seq<int32>>)
    ensures input.isIntList ==> r == Returns(Seqs.Filter(pred, input.elements))
    ensures !input.isIntList && Seqs.Filter(pred, input.elements) == [] ==> r == Returns([])
    ensures !input.isIntList && Seqs.Filter(pred, input.elements) != [] ==> r == Throws(IndexOutOfBounds)
  {
    var elements := input.elements;
    var output := new int32[if input.isIntList then |elements| else 0](_ => 0);
    var k, pos := 0, 0;
    ghost var kept: seq<int32> := [];
    while k < |elements|
      invariant 0 <= k <= |elements| && pos <= output.Length
      invariant kept == Seqs.Filter(pred, elements[..k]) && |kept| == pos
      invariant forall i :: 0 <= i < pos ==> output[i] == kept[i]
      invariant input.isIntList ==> pos <= k
      invariant !input.isIntList ==> pos == 0
    {
      var element := elements[k];
      Seqs.FilterStep(pred, elements, k);
      if pred(element) {
        if pos == output.Length {
          FilterPasses(pred, elements, k);
          return Throws(IndexOutOfBounds);
        }
        output[pos] := element;
        pos := pos + 1;
        kept := kept + [element];
      }
      k := k + 1;
    }
    assert elements[..k] == elements;
    assert output[..pos] == kept;
    return Returns(output[..pos]);
  }

  /** An input with an element that passes has a non-empty filter. */
  lemma FilterPasses(pred: int32 -> bool, s: seq<int32>, k: nat)
    requires k < |s| && pred(s[k])
    ensures Seqs.Filter(pred, s) != []
  {
    Seqs.FilterKeeps(pred, s, s[k]);
  }

  /** `filter` as it is evidently meant: the output buffer has room for every element the iterator
      yields, whatever kind of iterable it is. The result is the elements that pass, in order; by
      `Seqs.FilterLength` it has as many elements as pass. */
  method Filter(pred: int32 -> bool, input: IntIterable) returns (r: seq<int32>)
    ensures r == Seqs.Filter(pred, input.elements)
  {
    var elements := input.elements;
    var output := new int32[|elements|](_ => 0);
    var k, pos := 0, 0;
    ghost var kept: seq<int32> := [];
    while k < |elements|
      invariant 0 <= k <= |elements| && pos <= k
      invariant kept == Seqs.Filter(pred, elements[..k]) && |kept| == pos
      invariant forall i :: 0 <= i < pos ==> output[i] == kept[i]
    {
      var element := elements[k];
      Seqs.FilterStep(pred, elements, k);
      if pred(element) {
        output[pos] := element;
        pos := pos + 1;
        kept := kept + [element];
      }
      k := k + 1;
    }
    assert elements[..k] == elements;
    assert output[..pos] == kept;
    return output[..pos];
  }

  /** The predicate that holds where `f` does not. */
  function Fails(f: int32 -> bool): int32 -> bool
  {
    (x: int32) => !f(x)
  }

  /** `partition(f, input)`: the elements satisfying `f` and the others, each list in input order. */
  method Partition(f: int32 -> bool, input: IntIterable) returns (left: seq<int32>, right: seq<int32>)
    ensures left == Seqs.Filter(f, input.elements)
    ensures right == Seqs.Filter(Fails(f), input.elements)
  {
    var elements := input.elements;
    left, right := [], [];
    for k := 0 to |elements|
      invariant left == Seqs.Filter(f, elements[..k])
      invariant right == Seqs.Filter(Fails(f), elements[..k])
    {
      var a := elements[k];
      Seqs.FilterStep(f, elements, k);
      Seqs.FilterStep(Fails(f), elements, k);
      assert Fails(f)(a) == !f(a);
      if f(a) {
        left := left + [a];
      } else {
        right := right + [a];
      }
    }
    assert elements[..|elements|] == elements;
  }

  /** The two lists of `partition` together hold every input element exactly once, so their sizes sum
      to the input's size. */
  lemma {:induction false} PartitionCovers(f: int32 -> bool, s: seq<int32>)
    ensures multiset(Seqs.Filter(f, s)) + multiset(Seqs.Filter(Fails(f), s)) == multiset(s)
    ensures |Seqs.Filter(f, s)| + |Seqs.Filter(Fails(f), s)| == |s|
  {
    Seqs.FilterSplit(f, Fails(f), s);
  }

  /** The values of the options `f` gives the elements, where it gives one, in input order. */
  function Chosen(f: int32 -> OptionInts.OptionInt, s: seq<int32>): (r: seq<int32>)
    ensures |r| <= |s|
  {
    if |s| == 0 then []
    else
      var o := f(s[|s| - 1]);
      Chosen(f, s[..|s| - 1]) + (if o.IsSome() then [o.t] else [])
  }

  /** Whether `f` gives an element a value. */
  function Picks(f: int32 -> OptionInts.OptionInt): int32 -> bool
  {
    (x: int32) => f(x).IsSome()
  }

  /** The value `f` gives an element. */
  function ValueOf(f: int32 -> OptionInts.OptionInt): int32 -> int32
  {
    (x: int32) => f(x).t
  }

  /** What `choose` yields is the values of the elements `f` picks: a filter followed by a map. */
  lemma {:induction false} ChosenIsFilterThenMap(f: int32 -> OptionInts.OptionInt, s: seq<int32>)
    ensures Chosen(f, s) == Seqs.Map(ValueOf(f), Seqs.Filter(Picks(f), s))
    decreases |s|
  {
    if |s| > 0 {
      ChosenIsFilterThenMap(f, s[..|s| - 1]);
      var kept := Seqs.Filter(Picks(f), s[..|s| - 1]);
      if f(s[|s| - 1]).IsSome() {
        assert Seqs.Filter(Picks(f), s) == kept + [s[|s| - 1]];
        assert Seqs.Map(ValueOf(f), kept + [s[|s| - 1]]) == Seqs.Map(ValueOf(f), kept) + [f(s[|s| - 1]).t];
      } else {
        assert Seqs.Filter(Picks(f), s) == kept;
      }
    }
  }

  /** `choose(f, input)` for an `Option_int`-valued `f`, as written: like `filter`, its output array has
      no room at all unless the input is an `IntList`, so any other iterable with an element that `f`
      gives a value fails with ArrayIndexOutOfBoundsException. */
  method ChooseAsWritten(f: int32 -> OptionInts.OptionInt, input: IntIterable) returns (r: Outcome<seq<int32>>)
    ensures input.isIntList ==> r == Returns(Chosen(f, input.elements))
    ensures !input.isIntList && Chosen(f, input.elements) == [] ==> r == Returns([])
    ensures !input.isIntList && Chosen(f, input.elements) != [] ==> r == Throws(IndexOutOfBounds)
  {
    var elements := input.elements;
    var results := new int32[if input.isIntList then |elements| else 0](_ => 0);
    var k, counter := 0, 0;
    while k < |elements|
      invariant 0 <= k <= |elements| && counter <= results.Length
      invariant results[..counter] == Chosen(f, elements[..k])
      invariant !input.isIntList ==> counter == 0
    {
      var a := elements[k];
      assert elements[..k + 1][..k] == elements[..k];
      var intermediate := f(a);
      if !intermediate.IsNone() {
        if counter == results.Length {
          ChosenGrows(f, elements, k + 1);
          return Throws(IndexOutOfBounds);
        }
        results[counter] := intermediate.Value().value;
        counter := counter + 1;
      }
      k := k + 1;
    }
    assert elements[..k] == elements;
    return Returns(results[..counter]);
  }

  /** What is chosen from a prefix is a prefix of what is chosen from the whole. */
  lemma {:induction false} ChosenGrows(f: int32 -> OptionInts.OptionInt, s: seq<int32>, k: nat)
    requires k <= |s|
    ensures Chosen(f, s[..k]) <= Chosen(f, s)
    decreases |s| - k
  {
    if k < |s| {
      ChosenGrows(f, s, k + 1);
      assert s[..k + 1][..k] == s[..k];
    } else {
      assert s[..k] == s;
    }
  }

  /** `choose` as it is evidently meant: room for every element, so the result is always the values
      `f` gives, in input order. */
  method Choose(f: int32 -> OptionInts.OptionInt, input: IntIterable) returns (r: seq<int32>)
    ensures r == Chosen(f, input.elements)
  {
    var elements := input.elements;
    var results := new int32[|elements|](_ => 0);
    var k, counter := 0, 0;
    while k < |elements|
      invariant 0 <= k <= |elements| && counter <= k
      invariant results[..counter] == Chosen(f, elements[..k])
    {
      var a := elements[k];
      assert elements[..k + 1][..k] == elements[..k];
      var intermediate := f(a);
      if !intermediate.IsNone() {
        results[counter] := intermediate.Value().value;
        counter := counter + 1;
      }
      k := k + 1;
    }
    assert elements[..k] == elements;
    return results[..counter];
  }

  /** On a non-`IntList` iterable with an element that passes, `filter` and `choose` as written
      throw where the intended versions return it. */
  method ArrayTooSmallExample() returns (written: Outcome<seq<int32>>, intended: seq<int32>,
                                         chosenWritten: Outcome<seq<int32>>, chosen: seq<int32>)
    ensures written == Throws(IndexOutOfBounds) && intended == [5]
    ensures chosenWritten == Throws(IndexOutOfBounds) && chosen == [5]
  {
    var input := IntIterable(false, [5]);
    OnlyFive();
    written := FilterAsWritten(Positive, input);
    intended := Filter(Positive, input);
    chosenWritten := ChooseAsWritten(OptionInts.ToOption, input);
    chosen := Choose(OptionInts.ToOption, input);
  }

  /** The predicate of the example. */
  predicate Positive(x: int32) { x > 0 }

  /** Both the filter by Positive and the choice by `toOption` keep the single element of [5]. */
  lemma OnlyFive()
    ensures Seqs.Filter(Positive, [5]) == [5]
    ensures Chosen(OptionInts.ToOption, [5]) == [5]
  {
    assert [5][..0] == [];
  }

  /** `last(input)`: the final element; an empty input is refused with IllegalArgumentException. */
  method Last(input: IntIterable) returns (r: Outcome<int32>)
    ensures |input.elements| == 0 ==> r == Throws(IllegalArgument)
    ensures |input.elements| > 0 ==> r == Returns(input.elements[|input.elements| - 1])
  {
    var elements := input.elements;
    if |elements| == 0 {
      return Throws(IllegalArgument);
    }
    var state: int32 := 0;
    for k := 0 to |elements|
      invariant k > 0 ==> state == elements[k - 1]
    {
      state := elements[k];
    }
    return Returns(state);
  }

  /** `take(howMany, list)`: a negative count is refused with IllegalArgumentException, and asking
      for more elements than there are with NoSuchElementException; otherwise the first `howMany`. */
  method Take<T>(howMany: int, list: seq<T>) returns (r: Outcome<seq<T>>)
    ensures howMany < 0 ==> r == Throws(IllegalArgument)
    ensures 0 <= howMany <= |list| ==> r == Returns(list[..howMany])
    ensures howMany > |list| ==> r == Throws(NoSuchElement)
  {
    if howMany < 0 {
      return Throws(IllegalArgument);
    }
    if howMany == 0 {
      return Returns([]);
    }
    var output := [];
    for i := 0 to howMany
      invariant i <= |list| && output == list[..i]
    {
      if i < |list| {
        output := output + [list[i]];
        assert list[..i + 1] == list[..i] + [list[i]];
      } else {
        return Throws(NoSuchElement);
      }
    }
    return Returns(output);
  }

  /** `skip(howMany, list)`: a negative count is refused with IllegalArgumentException; otherwise the
      elements after the first `howMany`, none when `howMany` reaches the size. */
  function Skip<T>(howMany: int, list: seq<T>): (r: Outcome<seq<T>>)
    ensures howMany < 0 <==> r.Throws?
    ensures r.Throws? ==> r.error == IllegalArgument
    ensures r.Returns? ==> |r.value| == (if howMany < |list| then |list| - howMany else 0)
    ensures r.Returns? ==> forall i :: 0 <= i < |r.value| ==> r.value[i] == list[howMany + i]
  {
    if howMany < 0 then Throws(IllegalArgument)
    else if howMany == 0 then Returns(list)
    else if |list| - howMany <= 0 then Returns([])
    else Returns(list[howMany..])
  }

  /** `skip` is the converse of `take`: what `take` returns followed by what `skip` returns is the
      whole list. */
  method TakeThenSkip<T>(howMany: int, list: seq<T>) returns (r: Outcome<seq<T>>)
    requires 0 <= howMany <= |list|
    ensures r == Returns(list)
  {
    var front := Take(howMany, list);
    var back := Skip(howMany, list);
    assert back.value == list[howMany..];
    assert list[..howMany] + list[howMany..] == list;
    return Returns(front.value + back.value);
  }

  /** `zip(l1, l2)`: inputs of different lengths are refused with IllegalArgumentException, up front
      when both know their size (`bothSized`), otherwise once one iterator outlasts the other; the
      result pairs the elements index by index. */
  method Zip<A, B>(l1: seq<A>, l2: seq<B>, bothSized: bool) returns (r: Outcome<seq<(A, B)>>)
    ensures |l1| != |l2| ==> r == Throws(IllegalArgument)
    ensures |l1| == |l2| ==> r.Returns? && |r.value| == |l1|
    ensures |l1| == |l2| ==> forall i :: 0 <= i < |l1| ==> r.value[i] == (l1[i], l2[i])
  {
    if bothSized && |l1| != |l2| {
      return Throws(IllegalArgument);
    }
    var output := [];
    var i := 0;
    while i < |l1| && i < |l2|
      invariant 0 <= i <= |l1| && i <= |l2| && |output| == i
      invariant forall k :: 0 <= k < i ==> output[k] == (l1[k], l2[k])
    {
      output := output + [(l1[i], l2[i])];
      i := i + 1;
    }
    if i < |l1| || i < |l2| {
      return Throws(IllegalArgument);
    }
    return Returns(output);
  }
}
