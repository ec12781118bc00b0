/** The Java `CircularArrayList` (CircularArrayList.java): a read-only list of a fixed number of
    elements, filled by cycling through an input sequence. */
module CircularArrayLists {
  import opened Errors
  import Enumerators
  import Seqs

  /** The first `n` elements of the endless cycle through `input`. */
  function Cycle<T>(input: seq<T>, n: nat): (r: seq<T>)
    requires |input| > 0 || n == 0
    ensures |r| == n
  {
    seq(n, i requires 0 <= i < n => Enumerators.CircularAt(input, i))
  }

  /** Within the first pass the cycle is the input itself. */
  lemma CycleBelow<T>(input: seq<T>, n: nat)
    requires n <= |input|
    ensures Cycle(input, n) == input[..n]
  {
    forall i | 0 <= i < n ensures Cycle(input, n)[i] == input[i] {
      Enumerators.CircularPeriodic(input, i);
    }
  }

  /** One more element of the cycle is the element one pass earlier. */
  lemma CycleSnoc<T>(input: seq<T>, n: nat)
    requires n >= |input| > 0
    ensures Cycle(input, n + 1) == Cycle(input, n) + [Cycle(input, n)[n - |input|]]
  {
    Enumerators.CircularPeriodic(input, n - |input|);
  }

  /** The constructor as written. The first loop copies input elements until `howMany` are taken or
      the input runs out. The second loop wraps around by iterating over `buffer` while adding to
      it: Java's list iterator then fails on its next step with ConcurrentModificationException,
      so only one element can be added that way. An empty input with positive `howMany` never
      leaves the second loop; `new ArrayList<T>(howMany)` refuses a negative capacity. */
  method FillAsWritten<T>(input: seq<T>, howMany: int) returns (r: Outcome<seq<T>>)
    requires |input| > 0 || howMany <= 0
    ensures howMany < 0 ==> r == Throws(IllegalArgument)
    ensures 0 <= howMany < |input| + 2 ==> r == Returns(Cycle(input, howMany))
    ensures howMany >= |input| + 2 ==> r == Throws(ConcurrentModification)
  {
    if howMany < 0 {
      return Throws(IllegalArgument);
    }
    var buffer := [];
    var counter := 0;
    var posn := 0;
    while counter < howMany && posn < |input|
      invariant 0 <= counter == posn <= |input| && counter <= howMany
      invariant buffer == input[..counter]
    {
      buffer := buffer + [input[posn]];
      posn := posn + 1;
      counter := counter + 1;
    }
    CycleBelow(input, counter);
    while counter < howMany
      invariant counter <= howMany && counter <= |input| + 1
      invariant counter < howMany ==> counter == |input|
      invariant buffer == Cycle(input, counter)
      decreases howMany - counter
    {
      // a fresh iterator over `buffer`: its position and whether `buffer` changed since it began
      var cursor := 0;
      var modified := false;
      while counter < howMany && cursor < |buffer|
        invariant cursor <= 1 && counter == |input| + cursor <= howMany
        invariant modified <==> cursor == 1
        invariant buffer == Cycle(input, counter)
      {
        if modified {
          return Throws(ConcurrentModification);
        }
        CycleSnoc(input, counter);
        buffer := buffer + [buffer[cursor]];
        cursor := cursor + 1;
        counter := counter + 1;
        modified := true;
      }
    }
    return Returns(buffer);
  }

  /** The two inputs of the source's tests: five elements make lists of four and six, and one more
      element than that is already refused. */
  method FillExamples() returns (four: Outcome<seq<int>>, six: Outcome<seq<int>>, seven: Outcome<seq<int>>)
    ensures four == Returns([1, 2, 3, 4])
    ensures six == Returns([1, 2, 3, 4, 5, 1])
    ensures seven == Throws(ConcurrentModification)
  {
    var input := [1, 2, 3, 4, 5];
    four := FillAsWritten(input, 4);
    six := FillAsWritten(input, 6);
    seven := FillAsWritten(input, 7);
    CycleBelow(input, 4);
    assert input[..4] == [1, 2, 3, 4];
    CycleBelow(input, 5);
    assert input[..5] == input;
    CycleSnoc(input, 5);
    assert Cycle(input, 6) == input + [1] == [1, 2, 3, 4, 5, 1];
  }

  class CircularArrayList<T> {
    const bufferSize: int
    var buffer: seq<T>

    ghost predicate Valid()
      reads this
    {
      bufferSize == |buffer|
    }

    /** The constructor with the wrap-around it evidently intends: after the input runs out, the
        buffer is read again from its start, by index, until `howMany` elements are held. */
    constructor(input: seq<T>, howMany: nat)
      requires |input| > 0 || howMany == 0
      ensures Valid() && bufferSize == howMany
      ensures buffer == Cycle(input, howMany)
    {
      bufferSize := howMany;
      var filled := [];
      var counter := 0;
      while counter < howMany && counter < |input|
        invariant counter <= howMany && counter <= |input|
        invariant filled == input[..counter]
      {
        filled := filled + [input[counter]];
        counter := counter + 1;
      }
      CycleBelow(input, counter);
      while counter < howMany
        invariant counter <= howMany && (counter < howMany ==> counter >= |input|)
        invariant filled == Cycle(input, counter)
      {
        CycleSnoc(input, counter);
        filled := filled + [filled[counter - |input|]];
        counter := counter + 1;
      }
      buffer := filled;
    }

    /** `size()` is the requested length, which is also the number of buffered elements. */
    function Size(): (r: int)
      reads this
      requires Valid()
      ensures r == |buffer|
    {
      bufferSize
    }

    /** `isEmpty()` answers false whatever the size. */
    function IsEmpty(): (r: bool)
      ensures !r
    {
      false
    }

    /** `get(index)`: the buffered element, or IndexOutOfBoundsException outside the buffer. */
    function Get(index: int): (r: Outcome<T>)
      reads this
      ensures r.Returns? <==> 0 <= index < |buffer|
      ensures r.Returns? ==> r.value == buffer[index]
      ensures r.Throws? ==> r.error == IndexOutOfBounds
    {
      if 0 <= index < |buffer| then Returns(buffer[index]) else Throws(IndexOutOfBounds)
    }

    /** `add(t)` (and `addAll`, `removeAll`, `retainAll`) refuse: they answer false and change nothing. */
    method Add(t: T) returns (r: bool)
      ensures !r
    {
      r := false;
    }

    /** `remove(o)` answers false and changes nothing. */
    method Remove(o: T) returns (r: bool)
      ensures !r
    {
      r := false;
    }

    /** `set(index, element)` answers null and changes nothing. */
    method Set(index: int, element: T) returns (r: Nullable<T>)
      ensures r.Null?
    {
      r := Null;
    }

    /** `add(index, element)` does nothing. */
    method AddAt(index: int, element: T)
      ensures unchanged(this)
    {
    }

    /** `remove(index)` answers null and changes nothing. */
    method RemoveAt(index: int) returns (r: Nullable<T>)
      ensures r.Null?
    {
      r := Null;
    }

    /** `clear()` throws UnsupportedOperationException: the container is read-only. */
    method Clear() returns (r: Outcome<()>)
      ensures r == Throws(UnsupportedOperation)
    {
      r := Throws(UnsupportedOperation);
    }
  }

  /** The list starts with the first min(howMany, |input|) input elements, and from then on each
      element repeats the one a full pass of the input earlier. */
  lemma CycleShape<T>(input: seq<T>, n: nat)
    requires |input| > 0
    ensures Cycle(input, n)[..Seqs.Min(n, |input|)] == input[..Seqs.Min(n, |input|)]
    ensures forall i :: |input| <= i < n ==> Cycle(input, n)[i] == Cycle(input, n)[i - |input|]
  {
    var m := Seqs.Min(n, |input|);
    CycleBelow(input, m);
    assert Cycle(input, n)[..m] == Cycle(input, m);
    forall i | |input| <= i < n ensures Cycle(input, n)[i] == Cycle(input, n)[i - |input|] {
      Enumerators.CircularPeriodic(input, i - |input|);
    }
  }
}
