/** The Java `LispList` (LispList.java): an immutable cons list with recursive reverse, filter, map
    and folds, and the Lisp accessors car, cdr and cadr. */
module LispLists {
  import opened Errors
  import Seqs

  /** `nil()` or `list(head, tail)`. */
  datatype List<T> = Nil | Cons(first: T, rest: List<T>) {

    predicate IsEmpty() { Nil? }

    /** `head()`: the first element; the empty list throws EmptyListHasNoHead. */
    function Head(): (r: Outcome<T>)
      ensures r.Returns? <==> !IsEmpty()
      ensures r.Returns? ==> r.value == Elements(this)[0]
      ensures r.Throws? ==> r.error == EmptyListHasNoHead
    {
      match this
      case Nil => Throws(EmptyListHasNoHead)
      case Cons(h, _) => Returns(h)
    }

    /** `tail()`: the list after its first element; the empty list throws EmptyListHasNoTail. */
    function Tail(): (r: Outcome<List<T>>)
      ensures r.Returns? <==> !IsEmpty()
      ensures r.Returns? ==> Elements(r.value) == Elements(this)[1..]
      ensures r.Throws? ==> r.error == EmptyListHasNoTail
    {
      match this
      case Nil => Throws(EmptyListHasNoTail)
      case Cons(_, t) => Returns(t)
    }
  }

  /** The elements of a list, front to back. */
  function Elements<T>(l: List<T>): seq<T>
  {
    match l
    case Nil => []
    case Cons(h, t) => [h] + Elements(t)
  }

  /** The private `reverse(input, accumulator)`: moves the elements of `input` one by one onto the
      front of the accumulator. */
  function ReverseOnto<T>(input: List<T>, accumulator: List<T>): List<T>
  {
    match input
    case Nil => accumulator
    case Cons(h, t) => ReverseOnto(t, Cons(h, accumulator))
  }

  function Reverse<T>(input: List<T>): List<T>
  {
    ReverseOnto(input, Nil)
  }

  lemma {:induction false} ReverseOntoElements<T>(input: List<T>, accumulator: List<T>)
    ensures Elements(ReverseOnto(input, accumulator)) == Seqs.Reverse(Elements(input)) + Elements(accumulator)
  {
    match input
    case Nil =>
    case Cons(h, t) =>
      ReverseOntoElements(t, Cons(h, accumulator));
      Seqs.ReverseCons(h, Elements(t));
  }

  /** `reverse(input)` holds the elements of `input` back to front. */
  lemma ReverseElements<T>(input: List<T>)
    ensures Elements(Reverse(input)) == Seqs.Reverse(Elements(input))
  {
    ReverseOntoElements(input, Nil);
  }

  /** The private `filter(f, input, accumulator)`: pushes each element that passes onto the
      accumulator, which so ends up back to front. */
  function FilterOnto<T>(f: T -> bool, input: List<T>, accumulator: List<T>): List<T>
  {
    match input
    case Nil => accumulator
    case Cons(h, t) => FilterOnto(f, t, if f(h) then Cons(h, accumulator) else accumulator)
  }

  /** `filter(f, input)`: the accumulated list, reversed back into input order. */
  function Filter<T>(f: T -> bool, input: List<T>): List<T>
  {
    Reverse(FilterOnto(f, input, Nil))
  }

  lemma {:induction false} FilterOntoElements<T>(f: T -> bool, input: List<T>, accumulator: List<T>)
    ensures Elements(FilterOnto(f, input, accumulator)) ==
            Seqs.Reverse(Seqs.Filter(f, Elements(input))) + Elements(accumulator)
  {
    match input
    case Nil =>
    case Cons(h, t) =>
      var kept := Seqs.Filter(f, Elements(t));
      if f(h) {
        FilterOntoElements(f, t, Cons(h, accumulator));
        calc {
          Elements(FilterOnto(f, input, accumulator));
          Elements(FilterOnto(f, t, Cons(h, accumulator)));
          Seqs.Reverse(kept) + ([h] + Elements(accumulator));
          (Seqs.Reverse(kept) + [h]) + Elements(accumulator);
          { Seqs.ReverseCons(h, kept); }
          Seqs.Reverse([h] + kept) + Elements(accumulator);
          { Seqs.FilterCons(f, h, Elements(t)); }
          Seqs.Reverse(Seqs.Filter(f, Elements(input))) + Elements(accumulator);
        }
      } else {
        assert FilterOnto(f, input, accumulator) == FilterOnto(f, t, accumulator);
        FilterOntoElements(f, t, accumulator);
        assert Seqs.Filter(f, Elements(input)) == kept by {
          assert Elements(input) == [h] + Elements(t);
          Seqs.FilterCons(f, h, Elements(t));
        }
      }
  }

  /** `filter` keeps exactly the elements that pass, in their order in the input. */
  lemma FilterElements<T>(f: T -> bool, input: List<T>)
    ensures Elements(Filter(f, input)) == Seqs.Filter(f, Elements(input))
  {
    FilterOntoElements(f, input, Nil);
    ReverseElements(FilterOnto(f, input, Nil));
    Seqs.ReverseReverse(Seqs.Filter(f, Elements(input)));
  }

  /** `map(f, input)`: `f` applied to every element, in order. */
  function Map<T, R>(f: T -> R, input: List<T>): (r: List<R>)
    ensures Elements(r) == Seqs.Map(f, Elements(input))
  {
    match input
    case Nil => Nil
    case Cons(h, t) => Cons(f(h), Map(f, t))
  }

  /** `fold(f, initialValue, input)`: the state threaded from the front of the list to the back. */
  function Fold<T, R>(f: (R, T) -> R, initialValue: R, input: List<T>): R
  {
    match input
    case Nil => initialValue
    case Cons(h, t) => Fold(f, f(initialValue, h), t)
  }

  /** `foldRight(f, initialValue, input)`: the last element is combined with the initial value
      first, the first element last. */
  function FoldRight<T, R>(f: (T, R) -> R, initialValue: R, input: List<T>): R
  {
    match input
    case Nil => initialValue
    case Cons(h, t) => f(h, FoldRight(f, initialValue, t))
  }

  /** A left fold over a sequence, defined from its last element: the state after all but the last
      element, combined with the last. */
  function FoldLeft<T, R>(f: (R, T) -> R, z: R, s: seq<T>): R
  {
    if |s| == 0 then z else f(FoldLeft(f, z, s[..|s| - 1]), s[|s| - 1])
  }

  lemma {:induction false} FoldLeftCons<T, R>(f: (R, T) -> R, z: R, x: T, s: seq<T>)
    ensures FoldLeft(f, z, [x] + s) == FoldLeft(f, f(z, x), s)
    decreases |s|
  {
    if |s| == 0 {
      assert ([x] + s)[..0] == [];
    } else {
      assert ([x] + s)[..|s|] == [x] + s[..|s| - 1];
      FoldLeftCons(f, z, x, s[..|s| - 1]);
    }
  }

  /** `fold` is the left fold of the list's elements. */
  lemma {:induction false} FoldIsFoldLeft<T, R>(f: (R, T) -> R, z: R, input: List<T>)
    ensures Fold(f, z, input) == FoldLeft(f, z, Elements(input))
  {
    match input
    case Nil =>
    case Cons(h, t) =>
      FoldIsFoldLeft(f, f(z, h), t);
      FoldLeftCons(f, z, h, Elements(t));
  }

  /** `foldRight` is the left fold, with the arguments of `f` swapped, of the reversed elements. */
  lemma {:induction false} FoldRightIsFoldOfReverse<T, R>(f: (T, R) -> R, z: R, input: List<T>)
    ensures FoldRight(f, z, input) == FoldLeft((s: R, x: T) => f(x, s), z, Seqs.Reverse(Elements(input)))
  {
    match input
    case Nil =>
    case Cons(h, t) =>
      FoldRightIsFoldOfReverse(f, z, t);
      Seqs.ReverseCons(h, Elements(t));
      var rt := Seqs.Reverse(Elements(t));
      assert (rt + [h])[..|rt|] == rt;
  }

  /** `cons(t, l)`: the same as `list(t, l)`. */
  function ConsOnto<T>(t: T, l: List<T>): (r: List<T>)
    ensures Elements(r) == [t] + Elements(l)
  {
    Cons(t, l)
  }

  /** `compose(t1, t2)`: the two-element list. */
  function Compose<T>(t1: T, t2: T): (r: List<T>)
    ensures Elements(r) == [t1, t2]
  {
    assert Elements(Cons(t2, Nil)) == [t2];
    assert [t1] + [t2] == [t1, t2];
    Cons(t1, Cons(t2, Nil))
  }

  /** `car(l)` is `head()`: the first element, or EmptyListHasNoHead. */
  function Car<T>(l: List<T>): (r: Outcome<T>)
    ensures r.Returns? <==> |Elements(l)| > 0
    ensures r.Returns? ==> r.value == Elements(l)[0]
    ensures r.Throws? ==> r.error == EmptyListHasNoHead
  {
    l.Head()
  }

  /** `cdr(l)` is `tail()`: the list without its first element, or EmptyListHasNoTail. */
  function Cdr<T>(l: List<T>): (r: Outcome<List<T>>)
    ensures r.Returns? <==> |Elements(l)| > 0
    ensures r.Returns? ==> Elements(r.value) == Elements(l)[1..]
    ensures r.Throws? ==> r.error == EmptyListHasNoTail
  {
    l.Tail()
  }

  /** `cadr(l) = car(cdr(l))`: the second element; the empty list throws EmptyListHasNoTail and a
      one-element list EmptyListHasNoHead. */
  function Cadr<T>(l: List<T>): (r: Outcome<T>)
    ensures r.Returns? <==> |Elements(l)| >= 2
    ensures r.Returns? ==> r.value == Elements(l)[1]
    ensures |Elements(l)| == 0 ==> r == Throws(EmptyListHasNoTail)
    ensures |Elements(l)| == 1 ==> r == Throws(EmptyListHasNoHead)
  {
    Cdr(l).Then(Car)
  }

  /** The source's examples over 2, 4, 6, 8, 10: reversed it is 10, 8, 6, 4, 2; folded with + it
      sums to 30; the evens of 2, 5, 7, 8, 10 are 2, 8, 10; and folding 2, 4, 6, 8 from the right
      by appending each digit to the text gives "8642". */
  lemma Examples()
    ensures Reverse(Cons(2, Cons(4, Cons(6, Cons(8, Cons(10, Nil)))))) ==
            Cons(10, Cons(8, Cons(6, Cons(4, Cons(2, Nil)))))
    ensures Fold((s: int, x: int) => s + x, 0, Cons(2, Cons(4, Cons(6, Cons(8, Cons(10, Nil)))))) == 30
    ensures Filter(x => x % 2 == 0, Cons(2, Cons(5, Cons(7, Cons(8, Cons(10, Nil)))))) ==
            Cons(2, Cons(8, Cons(10, Nil)))
    ensures FoldRight((x: int, s: string) => s + [Digit(x)], "", Cons(2, Cons(4, Cons(6, Cons(8, Nil))))) ==
            "8642"
  {
  }

  /** The decimal digit for 0 .. 9 (anything else shows as '?'). */
  function Digit(d: int): char
  {
    if 0 <= d <= 9 then ('0' as int + d) as char else '?'
  }
}
