/** The Java `IntList` (primitive/integer/IntList.java): a read-only list of `int`s over a private
    backing array that every constructor fills with a copy of its arguments. */
module IntLists {
  import opened Errors
  import opened Ints

  /** `Arrays.copyOf(s, size)`: the first `size` elements, padded with zeros when `s` is shorter. */
  function CopyOf(s: seq<int32>, size: nat): (r: seq<int32>)
    ensures |r| == size
    ensures forall i :: 0 <= i < size ==> r[i] == if i < |s| then s[i] else 0
  {
    if size <= |s| then s[..size] else s + seq(size - |s|, _ => 0)
  }

  /** Copies `a` into a fresh array of `size` elements, as `Arrays.copyOf` does. */
  method CopyArray(a: array<int32>, size: nat) returns (r: array<int32>)
    ensures fresh(r) && r[..] == CopyOf(a[..], size)
  {
    r := new int32[size](_ => 0);
    var i := 0;
    while i < size && i < a.Length
      invariant 0 <= i <= size && i <= a.Length
      invariant forall k :: 0 <= k < i ==> r[k] == a[k]
      invariant forall k :: i <= k < size ==> r[k] == 0
    {
      r[i] := a[i];
      i := i + 1;
    }
  }

  class IntList {
    /** The backing store; no operation of the list writes to it after construction. */
    const backingStore: array<int32>

    /** The elements of the list, in order. */
    function Contents(): seq<int32>
      reads backingStore
    {
      backingStore[..]
    }

    /** `IntList()`: no elements. */
    constructor Empty()
      ensures fresh(backingStore) && Contents() == []
    {
      backingStore := new int32[0];
    }

    /** `IntList(size)`: `size` zeros. */
    constructor OfSize(size: nat)
      ensures fresh(backingStore) && Contents() == seq(size, _ => 0)
    {
      backingStore := new int32[size](_ => 0);
    }

    /** `IntList(array)`: a copy of the array; the list owns a fresh store, so later writes to
        `array` do not reach it. */
    constructor Copy(source: array<int32>)
      ensures fresh(backingStore) && Contents() == source[..]
    {
      var store := CopyArray(source, source.Length);
      backingStore := store;
      assert source[..][..source.Length] == source[..];
    }

    /** `IntList(array, size)`: the first `size` elements of the array, padded with zeros past its
        end. */
    constructor Prefix(source: array<int32>, size: nat)
      ensures fresh(backingStore) && Contents() == CopyOf(source[..], size)
    {
      var store := CopyArray(source, size);
      backingStore := store;
    }

    /** `IntList(first, second)`: both arrays, one after the other, copied into a fresh store. */
    constructor Concat(first: array<int32>, second: array<int32>)
      ensures fresh(backingStore) && Contents() == first[..] + second[..]
    {
      var store := new int32[first.Length + second.Length](_ => 0);
      forall i | 0 <= i < first.Length {
        store[i] := first[i];
      }
      forall i | 0 <= i < second.Length {
        store[first.Length + i] := second[i];
      }
      backingStore := store;
    }

    /** `size()`: the number of elements. */
    function Size(): (r: nat)
      reads backingStore
      ensures r == |Contents()|
    {
      backingStore.Length
    }

    /** `isEmpty()`: whether there are no elements. */
    function IsEmpty(): (r: bool)
      reads backingStore
      ensures r <==> Contents() == []
    {
      backingStore.Length == 0
    }

    /** `get(index)`: the element at `index`; any other index throws
        ArrayIndexOutOfBoundsException. */
    function Get(index: int): (r: Outcome<int32>)
      reads backingStore
      ensures r.Returns? <==> 0 <= index < |Contents()|
      ensures r.Returns? ==> r.value == Contents()[index]
      ensures r.Throws? ==> r.error == IndexOutOfBounds
    {
      if 0 <= index < backingStore.Length then Returns(backingStore[index]) else Throws(IndexOutOfBounds)
    }

    /** `toArray()`: a fresh array equal to the list, so writes to it leave the list alone. */
    method ToArray() returns (r: array<int32>)
      ensures fresh(r) && r[..] == Contents()
    {
      r := CopyArray(backingStore, backingStore.Length);
      assert backingStore[..][..backingStore.Length] == backingStore[..];
    }

    /** `add(integer)` refuses: it answers false and changes nothing. */
    method Add(integer: int32) returns (r: bool)
      ensures !r
    {
      r := false;
    }

    /** `set(index, element)`: the list is read-only; UnsupportedOperationException. */
    method Set(index: int, element: int32) returns (r: Outcome<int32>)
      ensures r == Throws(UnsupportedOperation)
    {
      r := Throws(UnsupportedOperation);
    }

    /** `remove(index)`: UnsupportedOperationException. */
    method RemoveAt(index: int) returns (r: Outcome<int32>)
      ensures r == Throws(UnsupportedOperation)
    {
      r := Throws(UnsupportedOperation);
    }

    /** `clear()`: UnsupportedOperationException. */
    method Clear() returns (r: Outcome<()>)
      ensures r == Throws(UnsupportedOperation)
    {
      r := Throws(UnsupportedOperation);
    }
  }

  /** `new IntList(size)` for any `int` size: a negative size makes `new int[size]` throw
      NegativeArraySizeException; otherwise a list of `size` zeros. */
  method NewOfSize(size: int32) returns (r: Outcome<IntList>)
    ensures r.Throws? <==> size < 0
    ensures r.Throws? ==> r.error == NegativeArraySize
    ensures r.Returns? ==> fresh(r.value) && r.value.Contents() == seq(size, _ => 0)
  {
    if size < 0 {
      return Throws(NegativeArraySize);
    }
    var list := new IntList.OfSize(size);
    return Returns(list);
  }

  /** `new IntList(array, size)` for any `int` size: a negative size makes `Arrays.copyOf` throw
      NegativeArraySizeException; otherwise the first `size` elements, padded with zeros. */
  method NewPrefix(source: array<int32>, size: int32) returns (r: Outcome<IntList>)
    ensures r.Throws? <==> size < 0
    ensures r.Throws? ==> r.error == NegativeArraySize
    ensures r.Returns? ==> fresh(r.value) && r.value.Contents() == CopyOf(source[..], size)
  {
    if size < 0 {
      return Throws(NegativeArraySize);
    }
    var list := new IntList.Prefix(source, size);
    return Returns(list);
  }

  /** A list built from an array keeps its elements when the array is overwritten afterwards, and the
      array `toArray` hands out can be overwritten without touching the list. */
  method CopiesAreIndependent(source: array<int32>) returns (list: IntList, before: seq<int32>, after: seq<int32>)
    requires source.Length > 0
    modifies source
    ensures before == after && list.Contents() == old(source[..])
  {
    list := new IntList.Copy(source);
    before := list.Contents();
    source[0] := if source[0] == 0 then 1 else 0;
    var out := list.ToArray();
    out[0] := 7;
    after := list.Contents();
  }
}
