/** The single-use iterables of the Java `Iterators` class (Iterators.java): `reverse` walks a list
    from its last index down to 0, `everyNth` yields the first element of a source and then every
    step-th one. Each iterable hands out one iterator; asking for a second one throws. */
module JavaIterators {
  import opened Errors
  import Seqs

  /** `reverse(list)`: null or empty lists are refused with IllegalArgumentException. */
  method Reverse<T>(list: Nullable<seq<T>>) returns (r: Outcome<ReverseIterable<T>>)
    ensures r.Throws? <==> list.Null? || |list.value| == 0
    ensures r.Throws? ==> r.error == IllegalArgument
    ensures r.Returns? ==> fresh(r.value) && r.value.list == list.value && !r.value.haveCreatedIterator
  {
    if list.Null? { return Throws(IllegalArgument); }
    if |list.value| == 0 { return Throws(IllegalArgument); }
    var iterable := new ReverseIterable(list.value);
    return Returns(iterable);
  }

  class ReverseIterable<T> {
    const list: seq<T>
    var haveCreatedIterator: bool

    constructor(list: seq<T>)
      ensures this.list == list && !haveCreatedIterator
    {
      this.list := list;
      haveCreatedIterator := false;
    }

    /** The first call returns an iterator positioned at the last element; every later call throws
        UnsupportedOperationException. */
    method Iterator() returns (r: Outcome<ReverseIterator<T>>)
      modifies this
      ensures haveCreatedIterator
      ensures old(haveCreatedIterator) <==> r.Throws?
      ensures r.Throws? ==> r.error == UnsupportedOperation
      ensures r.Returns? ==> fresh(r.value) && r.value.Valid() && r.value.list == list &&
                             r.value.Remaining() == Seqs.Reverse(list)
    {
      if haveCreatedIterator {
        return Throws(UnsupportedOperation);
      }
      haveCreatedIterator := true;
      var cursor := new ReverseIterator(list);
      return Returns(cursor);
    }
  }

  class ReverseIterator<T> {
    const list: seq<T>
    /** The index `next` reads; it moves below 0 once the list is used up. */
    var posn: int

    ghost predicate Valid()
      reads this
    {
      posn < |list|
    }

    /** What the iterator still yields: list[posn], list[posn - 1], ..., list[0]. */
    function Remaining(): seq<T>
      reads this
      requires Valid()
    {
      if posn < 0 then [] else Seqs.Reverse(list[..posn + 1])
    }

    constructor(list: seq<T>)
      ensures Valid() && this.list == list && posn == |list| - 1
      ensures Remaining() == Seqs.Reverse(list)
    {
      this.list := list;
      posn := |list| - 1;
      assert list[..|list|] == list;
    }

    function HasNext(): (r: bool)
      reads this
      requires Valid()
      ensures r <==> |Remaining()| > 0
    {
      posn >= 0
    }

    /** `_list.get(_posn--)`: the index is decremented before `get` runs, so past the end the
        position keeps moving down while `get` throws IndexOutOfBoundsException. */
    method Next() returns (r: Outcome<T>)
      requires Valid()
      modifies this
      ensures Valid()
      ensures |old(Remaining())| > 0 ==> r == Returns(old(Remaining())[0]) && Remaining() == old(Remaining())[1..]
      ensures |old(Remaining())| == 0 ==> r == Throws(IndexOutOfBounds) && Remaining() == []
    {
      var at := posn;
      posn := posn - 1;
      if at < 0 {
        r := Throws(IndexOutOfBounds);
      } else {
        assert list[..at + 1][..at] == list[..at];
        r := Returns(list[at]);
      }
    }
  }

  /** A for-each loop over `reverse(list)` collects the list back to front. */
  method ReversedElements<T>(list: seq<T>) returns (r: Outcome<seq<T>>)
    ensures |list| == 0 ==> r == Throws(IllegalArgument)
    ensures |list| > 0 ==> r == Returns(Seqs.Reverse(list))
  {
    var iterable := Reverse(NotNull(list));
    if iterable.Throws? {
      return Throws(iterable.error);
    }
    var started := iterable.value.Iterator();
    var cursor := started.value;
    var out := [];
    while cursor.HasNext()
      invariant cursor.Valid() && cursor.list == list
      invariant out + cursor.Remaining() == Seqs.Reverse(list)
      decreases |cursor.Remaining()|
    {
      ghost var remaining := cursor.Remaining();
      var x := cursor.Next();
      assert x.value == remaining[0] && cursor.Remaining() == remaining[1..];
      assert remaining == [remaining[0]] + remaining[1..];
      out := out + [x.value];
    }
    assert out == out + cursor.Remaining();
    return Returns(out);
  }

  /** `everyNth(step, it)`: a null source or a step below 1 is refused with IllegalArgumentException. */
  method EveryNth<T>(step: int, it: Nullable<seq<T>>) returns (r: Outcome<EveryNthIterable<T>>)
    ensures r.Throws? <==> it.Null? || step < 1
    ensures r.Throws? ==> r.error == IllegalArgument
    ensures r.Returns? ==> fresh(r.value) && r.value.cache == it.value && r.value.step == step &&
                           !r.value.haveCreatedIterator
  {
    if it.Null? { return Throws(IllegalArgument); }
    if step < 1 { return Throws(IllegalArgument); }
    var iterable := new EveryNthIterable(step, it.value);
    return Returns(iterable);
  }

  class EveryNthIterable<T> {
    const step: nat
    const cache: seq<T>
    var haveCreatedIterator: bool

    constructor(step: nat, cache: seq<T>)
      requires step >= 1
      ensures this.step == step && this.cache == cache && !haveCreatedIterator
    {
      this.step := step;
      this.cache := cache;
      haveCreatedIterator := false;
    }

    /** The first call returns an iterator over the whole source; every later call throws
        UnsupportedOperationException. */
    method Iterator() returns (r: Outcome<EveryNthIterator<T>>)
      requires step >= 1
      modifies this
      ensures haveCreatedIterator
      ensures old(haveCreatedIterator) <==> r.Throws?
      ensures r.Throws? ==> r.error == UnsupportedOperation
      ensures r.Returns? ==> fresh(r.value) && r.value.Valid() && r.value.step == step &&
                             r.value.source == cache && r.value.pending == Seqs.EveryNth(cache, step)
    {
      if haveCreatedIterator {
        return Throws(UnsupportedOperation);
      }
      haveCreatedIterator := true;
      var cursor := new EveryNthIterator(step, cache);
      return Returns(cursor);
    }
  }

  /** Dropping the first element of EveryNth(source[p..]) leaves the elements from p + step on. */
  lemma EveryNthFrom<T>(source: seq<T>, p: nat, step: nat)
    requires step >= 1 && p < |source|
    ensures |Seqs.EveryNth(source[p..], step)| > 0
    ensures Seqs.EveryNth(source[p..], step)[0] == source[p]
    ensures Seqs.EveryNth(source[p..], step)[1..] == Seqs.EveryNth(source[Seqs.Min(p + step, |source|)..], step)
  {
    var rest := Seqs.EveryNth(source[Seqs.Min(p + step, |source|)..], step);
    assert source[p..][Seqs.Min(step, |source| - p)..] == source[Seqs.Min(p + step, |source|)..];
    assert Seqs.EveryNth(source[p..], step) == [source[p]] + rest;
    assert ([source[p]] + rest)[1..] == rest;
  }

  class EveryNthIterator<T> {
    const step: nat
    const source: seq<T>
    /** The position of the underlying iterator over `source`. */
    var pos: nat
    var isFirst: bool
    /** Whether the underlying iterator already stands on the next element to yield; after `next`
        it stands one past the yielded element, step - 1 elements short of the following one. */
    var isNextReady: bool
    /** The elements the iterator still yields. */
    ghost var pending: seq<T>
    /** Where the next element to yield stands in `source`. */
    ghost var start: nat

    /** The underlying iterator stands on the next element to yield, or, after a `next`, step - 1
        elements short of it (or at the end of the source); what is still to come is every
        step-th element of the source from there on. */
    ghost predicate Valid()
      reads this
    {
      && step >= 1 && pos <= |source|
      && start == (if isFirst || isNextReady then pos else Seqs.Min(pos + step - 1, |source|))
      && pending == Seqs.EveryNth(source[start..], step)
    }

    constructor(step: nat, source: seq<T>)
      requires step >= 1
      ensures Valid() && this.step == step && this.source == source
      ensures pending == Seqs.EveryNth(source, step)
    {
      this.step := step;
      this.source := source;
      pos := 0;
      isFirst := true;
      isNextReady := true;
      start := 0;
      pending := Seqs.EveryNth(source, step);
      assert source[0..] == source;
    }

    /** Moves the underlying iterator over the step - 1 elements between the last one yielded and
        the next, stopping at the end of the source. */
    method SkipBetween()
      requires Valid() && !(isFirst || isNextReady)
      modifies this
      ensures Valid() && isNextReady && pending == old(pending)
    {
      for i := 0 to step - 1
        invariant pos == Seqs.Min(old(pos) + i, |source|)
        invariant isFirst == old(isFirst) && !isNextReady && pending == old(pending) && start == old(start)
      {
        if pos < |source| {
          pos := pos + 1;
        }
      }
      isNextReady := true;
    }

    /** `hasNext`: after a `next` it first skips the elements in between and remembers that it did;
        so asking again does not advance. */
    method HasNext() returns (r: bool)
      requires Valid()
      modifies this
      ensures Valid() && pending == old(pending)
      ensures r <==> |pending| > 0
    {
      if !(isFirst || isNextReady) {
        SkipBetween();
      }
      r := pos < |source|;
      if !r {
        assert source[pos..] == [];
      }
    }

    /** `next`: skips the elements in between unless `hasNext` already did, then reads one element;
        running off the end of the source throws NoSuchElementException (the underlying `next`
        throws it as soon as the skipping reaches the end, which ends in the same place). */
    method Next() returns (r: Outcome<T>)
      requires Valid()
      modifies this
      ensures Valid()
      ensures |old(pending)| > 0 ==> r == Returns(old(pending)[0]) && pending == old(pending)[1..]
      ensures |old(pending)| == 0 ==> r == Throws(NoSuchElement) && pending == []
    {
      if !(isFirst || isNextReady) {
        SkipBetween();
      }
      if pos < |source| {
        r := ReadElement();
      } else {
        r := ReadPastEnd();
      }
    }

    /** The underlying iterator stands on the next element to yield: read it. */
    method ReadElement() returns (r: Outcome<T>)
      requires Valid() && (isFirst || isNextReady) && pos < |source|
      modifies this
      ensures Valid()
      ensures |old(pending)| > 0 && r == Returns(old(pending)[0]) && pending == old(pending)[1..]
    {
      ghost var next := Seqs.Min(pos + step, |source|);
      EveryNthFrom(source, pos, step);
      r := Returns(source[pos]);
      isFirst, isNextReady, pos, start, pending := false, false, pos + 1, next, pending[1..];
      assert start == Seqs.Min(pos + step - 1, |source|);
      assert pending == Seqs.EveryNth(source[next..], step);
    }

    /** The underlying iterator is at the end of the source: nothing is left to yield. */
    method ReadPastEnd() returns (r: Outcome<T>)
      requires Valid() && (isFirst || isNextReady) && pos == |source|
      modifies this
      ensures Valid()
      ensures |old(pending)| == 0 && r == Throws(NoSuchElement) && pending == []
    {
      assert source[pos..] == [];
      isFirst, isNextReady := false, false;
      r := Throws(NoSuchElement);
    }
  }

  /** A for-each loop over `everyNth(step, source)` collects source[0], source[step], ... */
  method EveryNthElements<T>(step: int, source: seq<T>) returns (r: Outcome<seq<T>>)
    ensures step < 1 ==> r == Throws(IllegalArgument)
    ensures step >= 1 ==> r == Returns(Seqs.EveryNth(source, step))
  {
    var iterable := EveryNth(step, NotNull(source));
    if iterable.Throws? {
      return Throws(iterable.error);
    }
    var started := iterable.value.Iterator();
    var out := DrainEveryNth(started.value);
    return Returns(out);
  }

  /** The for-each loop itself: `hasNext`, then `next`, until `hasNext` says no; it collects exactly
      what the iterator had still to yield. */
  method DrainEveryNth<T>(cursor: EveryNthIterator<T>) returns (out: seq<T>)
    requires cursor.Valid()
    modifies cursor
    ensures out == old(cursor.pending)
  {
    out := [];
    var more := cursor.HasNext();
    while more
      invariant cursor.Valid() && more == (|cursor.pending| > 0)
      invariant out + cursor.pending == old(cursor.pending)
      decreases |cursor.pending|
    {
      ghost var pending := cursor.pending;
      var x := cursor.Next();
      assert x.value == pending[0] && cursor.pending == pending[1..];
      assert pending == [pending[0]] + pending[1..];
      out := out + [x.value];
      more := cursor.HasNext();
    }
  }

  /** Every second element of 1 .. 9 is an odd number. */
  lemma OddsOfOneToNine()
    ensures Seqs.EveryNth([1, 2, 3, 4, 5, 6, 7, 8, 9], 2) == [1, 3, 5, 7, 9]
  {
    var source := [1, 2, 3, 4, 5, 6, 7, 8, 9];
    assert Seqs.EveryNth([9], 2) == [9] by {
      assert [9][1..] == [];
    }
    assert Seqs.EveryNth([7, 8, 9], 2) == [7, 9] by {
      assert [7, 8, 9][2..] == [9];
    }
    assert Seqs.EveryNth([5, 6, 7, 8, 9], 2) == [5, 7, 9] by {
      assert [5, 6, 7, 8, 9][2..] == [7, 8, 9];
    }
    assert Seqs.EveryNth([3, 4, 5, 6, 7, 8, 9], 2) == [3, 5, 7, 9] by {
      assert [3, 4, 5, 6, 7, 8, 9][2..] == [5, 6, 7, 8, 9];
    }
    assert source[2..] == [3, 4, 5, 6, 7, 8, 9];
  }

  /** Over 1 .. 9 with step 2, `hasNext` may be asked any number of times between the `next`
      calls, which still return 1, 3 and 5. */
  method RepeatedHasNext() returns (h1: bool, h2: bool, h3: bool, a: Outcome<int>, b: Outcome<int>, c: Outcome<int>)
    ensures h1 && h2 && h3
    ensures a == Returns(1) && b == Returns(3) && c == Returns(5)
  {
    var source := [1, 2, 3, 4, 5, 6, 7, 8, 9];
    var cursor := new EveryNthIterator(2, source);
    OddsOfOneToNine();
    h1 := cursor.HasNext();
    a := cursor.Next();
    h2 := cursor.HasNext();
    h2 := cursor.HasNext();
    b := cursor.Next();
    h3 := cursor.HasNext();
    h3 := cursor.HasNext();
    c := cursor.Next();
  }
}
