/** The list combinators of the C# `Functional` and `Numerical` classes (Utils/Functional.cs). */
module Functional {
  import opened Errors
  import opened Seqs
  import Maybes
  import Options

  /** partition: one pass over the input, each element appended to `left` when `pred` holds and to
      `right` otherwise. */
  method Partition<A>(pred: A -> bool, input: seq<A>) returns (left: seq<A>, right: seq<A>)
    ensures left == Filter(pred, input)
    ensures right == Filter(x => !pred(x), input)
    ensures multiset(left) + multiset(right) == multiset(input)
  {
    left, right := [], [];
    for i := 0 to |input|
      invariant left == Filter(pred, input[..i])
      invariant right == Filter(x => !pred(x), input[..i])
    {
      FilterStep(pred, input, i);
      FilterStep(x => !pred(x), input, i);
      if pred(input[i]) {
        left := left + [input[i]];
      } else {
        right := right + [input[i]];
      }
    }
    assert input[..|input|] == input;
    FilterSplit(pred, x => !pred(x), input);
  }

  /** The values of the chosen elements: `chooseFn` applied to each element, Nothing dropped. */
  function ChooseMaybe<A, B>(input: seq<A>, chooseFn: A -> Maybes.Maybe<B>): (r: seq<B>)
    ensures |r| <= |input|
  {
    if |input| == 0 then []
    else (match chooseFn(input[0])
          case Something(v) => [v]
          case Nothing => []) + ChooseMaybe(input[1..], chooseFn)
  }

  /** A chosen value as the Maybe it came from. */
  function Wrap<B>(b: B): Maybes.Maybe<B> { Maybes.Something(b) }

  /** Whether `chooseFn` chose something. */
  predicate IsSomething<B>(m: Maybes.Maybe<B>) { m.Something? }

  /** Choose over Maybe keeps exactly the Something results, in input order: it is the mapped input
      filtered to Something, then unwrapped. */
  lemma {:induction false} ChooseMaybeIsFilteredMap<A, B>(input: seq<A>, chooseFn: A -> Maybes.Maybe<B>)
    ensures Map(Wrap, ChooseMaybe(input, chooseFn)) == Filter(IsSomething, Map(chooseFn, input))
    decreases |input|
  {
    if |input| > 0 {
      var head, tail := chooseFn(input[0]), input[1..];
      var kept := if head.Something? then [head.value] else [];
      var rest := ChooseMaybe(tail, chooseFn);
      calc {
        Map(Wrap, ChooseMaybe(input, chooseFn));
        Map(Wrap, kept + rest);
        { MapAppend(Wrap, kept, rest); }
        Map(Wrap, kept) + Map(Wrap, rest);
        { ChooseMaybeIsFilteredMap(tail, chooseFn); }
        Map(Wrap, kept) + Filter(IsSomething, Map(chooseFn, tail));
        { assert Map(Wrap, kept) == if IsSomething(head) then [head] else []; }
        (if IsSomething(head) then [head] else []) + Filter(IsSomething, Map(chooseFn, tail));
        { FilterCons(IsSomething, head, Map(chooseFn, tail)); }
        Filter(IsSomething, [head] + Map(chooseFn, tail));
        { assert Map(chooseFn, input) == [head] + Map(chooseFn, tail); }
        Filter(IsSomething, Map(chooseFn, input));
      }
    }
  }

  /** Choose over Option: the same selection, with IsSome and the `Some` property. */
  function ChooseOption<A, B>(input: seq<A>, chooseFn: A -> Options.Option<B>): (r: seq<B>)
    ensures |r| <= |input|
  {
    if |input| == 0 then []
    else (if chooseFn(input[0]).IsSome() then [chooseFn(input[0]).item] else []) + ChooseOption(input[1..], chooseFn)
  }

  /** The two Choose overloads agree once an Option is read as the corresponding Maybe. */
  lemma {:induction false} ChooseOptionIsChooseMaybe<A, B>(input: seq<A>, chooseFn: A -> Options.Option<B>)
    ensures ChooseOption(input, chooseFn)
         == ChooseMaybe(input, x => if chooseFn(x).IsSome() then Maybes.Something(chooseFn(x).item) else Maybes.Nothing)
    decreases |input|
  {
    if |input| > 0 {
      ChooseOptionIsChooseMaybe(input[1..], chooseFn);
    }
  }

  /** pick: the first Something value among the chosen results; `First` on an empty sequence throws
      InvalidOperationException. */
  function Pick<A, B>(f: A -> Maybes.Maybe<B>, input: seq<A>): (r: Outcome<B>)
  {
    var chosen := ChooseMaybe(input, f);
    if |chosen| == 0 then Throws(InvalidOperation) else Returns(chosen[0])
  }

  /** Pick fails exactly when no element gives Something, and otherwise returns the value of the first
      element that does. */
  lemma {:induction false} PickFindsFirst<A, B>(f: A -> Maybes.Maybe<B>, input: seq<A>)
    ensures Pick(f, input).Throws? <==> forall i :: 0 <= i < |input| ==> f(input[i]).Nothing?
    ensures Pick(f, input).Throws? ==> Pick(f, input).error == InvalidOperation
    ensures Pick(f, input).Returns? ==>
      exists i :: 0 <= i < |input| && f(input[i]) == Maybes.Something(Pick(f, input).value) &&
        forall j :: 0 <= j < i ==> f(input[j]).Nothing?
    decreases |input|
  {
    if |input| > 0 {
      var rest := input[1..];
      if f(input[0]).Something? {
        var v := f(input[0]).value;
        assert ChooseMaybe(input, f) == [v] + ChooseMaybe(rest, f);
        assert Pick(f, input) == Returns(v);
        assert 0 <= 0 < |input| && f(input[0]) == Maybes.Something(v);
      } else {
        PickFindsFirst(f, rest);
        assert ChooseMaybe(input, f) == ChooseMaybe(rest, f);
        assert Pick(f, input) == Pick(f, rest);
        if Pick(f, rest).Returns? {
          var v := Pick(f, rest).value;
          var i :| 0 <= i < |rest| && f(rest[i]) == Maybes.Something(v) &&
            forall j :: 0 <= j < i ==> f(rest[j]).Nothing?;
          assert f(input[i + 1]) == Maybes.Something(v);
          forall j | 0 <= j < i + 1 ensures f(input[j]).Nothing? {
            if j > 0 { assert input[j] == rest[j - 1]; }
          }
        } else {
          forall i | 0 <= i < |input| ensures f(input[i]).Nothing? {
            if i > 0 { assert input[i] == rest[i - 1]; }
          }
        }
      }
    }
  }

  /** forAll2: walks both inputs in step; false at the first pair that fails `f`; if every pair passes
      but one input is longer, ArgumentException; otherwise true. */
  method ForAll2<A, B>(f: (A, B) -> bool, input1: seq<A>, input2: seq<B>) returns (r: Outcome<bool>)
    ensures r == Returns(false) <==> exists i :: 0 <= i < Min(|input1|, |input2|) && !f(input1[i], input2[i])
    ensures r == Returns(true) <==> |input1| == |input2| && forall i :: 0 <= i < |input1| ==> f(input1[i], input2[i])
    ensures r.Throws? <==> |input1| != |input2| && forall i :: 0 <= i < Min(|input1|, |input2|) ==> f(input1[i], input2[i])
    ensures r.Throws? ==> r.error == Argument
  {
    var i := 0;
    var moved1, moved2 := false, false;
    while true
      invariant 0 <= i <= Min(|input1|, |input2|)
      invariant forall j :: 0 <= j < i ==> f(input1[j], input2[j])
      decreases Min(|input1|, |input2|) - i
    {
      moved1, moved2 := i < |input1|, i < |input2|;
      if moved1 && moved2 && !f(input1[i], input2[i]) {
        return Returns(false);
      }
      if !(moved1 && moved2) {
        break;
      }
      i := i + 1;
    }
    if moved1 != moved2 {
      return Throws(Argument);
    }
    return Returns(true);
  }

  /** Unzip: the first and the second components of the pairs, each list as long as the input. */
  method Unzip<A, B>(input: seq<(A, B)>) returns (left: seq<A>, right: seq<B>)
    ensures |left| == |input| && |right| == |input|
    ensures forall i :: 0 <= i < |input| ==> (left[i], right[i]) == input[i]
  {
    left, right := [], [];
    for i := 0 to |input|
      invariant |left| == i && |right| == i
      invariant forall j :: 0 <= j < i ==> (left[j], right[j]) == input[j]
    {
      left := left + [input[i].0];
      right := right + [input[i].1];
    }
  }

  /** Zip3: triples by position while all three inputs have elements; then ArgumentException unless
      all three ran out together. */
  method Zip3<A, B, C>(input1: seq<A>, input2: seq<B>, input3: seq<C>) returns (run: Run<(A, B, C)>)
    ensures |run.yielded| == Min(Min(|input1|, |input2|), |input3|)
    ensures forall i :: 0 <= i < |run.yielded| ==> run.yielded[i] == (input1[i], input2[i], input3[i])
    ensures run.end == Exhausted <==> |input1| == |input2| == |input3|
    ensures run.end != Exhausted ==> run.end == Raises(Argument)
  {
    var yielded: seq<(A, B, C)> := [];
    var i := 0;
    var moved1, moved2, moved3 := false, false, false;
    var n := Min(Min(|input1|, |input2|), |input3|);
    while true
      invariant 0 <= i <= n && |yielded| == i
      invariant forall j :: 0 <= j < i ==> yielded[j] == (input1[j], input2[j], input3[j])
      decreases n - i
    {
      moved1, moved2, moved3 := i < |input1|, i < |input2|, i < |input3|;
      if moved1 && moved2 && moved3 {
        yielded := yielded + [(input1[i], input2[i], input3[i])];
      } else {
        break;
      }
      i := i + 1;
    }
    var end := if moved1 != moved2 || moved1 != moved3 || moved2 != moved3 then Raises(Argument) else Exhausted;
    return Run(yielded, end);
  }

  /** Some element of `s` has key `key`. */
  predicate KeySeen<A, K(==)>(s: seq<A>, f: A -> K, key: K)
  {
    exists j :: 0 <= j < |s| && f(s[j]) == key
  }

  /** `Unique(input, f)`: GroupBy `f`, then the first element of each group. Groups come in the order of
      their first element, so this keeps each element whose key has not been seen before. */
  function UniqueBy<A, K(==)>(input: seq<A>, f: A -> K): (r: seq<A>)
    ensures forall x :: x in r ==> x in input
    decreases |input|
  {
    if |input| == 0 then []
    else
      var init, last := input[..|input| - 1], input[|input| - 1];
      if KeySeen(init, f, f(last)) then UniqueBy(init, f) else UniqueBy(init, f) + [last]
  }

  /** The elements UniqueBy keeps have pairwise different keys. */
  lemma {:induction false} UniqueByDistinctKeys<A, K>(input: seq<A>, f: A -> K)
    ensures forall i, j :: 0 <= i < j < |UniqueBy(input, f)| ==> f(UniqueBy(input, f)[i]) != f(UniqueBy(input, f)[j])
    decreases |input|
  {
    if |input| > 0 {
      var init, last := input[..|input| - 1], input[|input| - 1];
      UniqueByDistinctKeys(init, f);
      var r := UniqueBy(input, f);
      if !KeySeen(init, f, f(last)) {
        forall i | 0 <= i < |r| - 1 ensures f(r[i]) != f(last) {
          assert r[i] in UniqueBy(init, f);
          var j :| 0 <= j < |init| && init[j] == r[i];
        }
      }
    }
  }

  /** Every key of the input is the key of an element UniqueBy keeps. */
  lemma {:induction false} UniqueByKeepsKeys<A, K>(input: seq<A>, f: A -> K)
    ensures forall i :: 0 <= i < |input| ==> KeySeen(UniqueBy(input, f), f, f(input[i]))
    decreases |input|
  {
    if |input| > 0 {
      var init, last := input[..|input| - 1], input[|input| - 1];
      UniqueByKeepsKeys(init, f);
      var r := UniqueBy(input, f);
      assert UniqueBy(init, f) <= r;
      forall i | 0 <= i < |input| ensures KeySeen(r, f, f(input[i])) {
        var key := f(input[i]);
        if i < |init| {
          assert input[i] == init[i];
          var j :| 0 <= j < |UniqueBy(init, f)| && f(UniqueBy(init, f)[j]) == key;
          assert r[j] == UniqueBy(init, f)[j];
        } else if KeySeen(init, f, key) {
          var k :| 0 <= k < |init| && f(init[k]) == key;
          var j :| 0 <= j < |UniqueBy(init, f)| && f(UniqueBy(init, f)[j]) == f(init[k]);
          assert r[j] == UniqueBy(init, f)[j];
        } else {
          assert r[|r| - 1] == last;
        }
      }
    }
  }

  /** The keys of the elements of `s`. */
  ghost function Keys<A, K>(s: seq<A>, f: A -> K): set<K>
  {
    set j | 0 <= j < |s| :: f(s[j])
  }

  /** The one-pass alternative to grouping: walk the input front to back with the set of keys met so
      far, and keep an element exactly when its key is new. */
  function FirstOfEachKey<A, K(==)>(s: seq<A>, f: A -> K, seen: set<K>): seq<A>
    decreases |s|
  {
    if |s| == 0 then []
    else if f(s[0]) in seen then FirstOfEachKey(s[1..], f, seen)
    else [s[0]] + FirstOfEachKey(s[1..], f, seen + {f(s[0])})
  }

  /** One more element adds its key. */
  lemma KeysSnoc<A, K>(s: seq<A>, x: A, f: A -> K)
    ensures Keys(s + [x], f) == Keys(s, f) + {f(x)}
    ensures KeySeen(s, f, f(x)) <==> f(x) in Keys(s, f)
  {
    var t := s + [x];
    assert f(t[|s|]) == f(x);
    forall k | k in Keys(s, f) ensures k in Keys(t, f) {
      var j :| 0 <= j < |s| && f(s[j]) == k;
      assert t[j] == s[j];
    }
    forall k | k in Keys(t, f) ensures k in Keys(s, f) + {f(x)} {
      var j :| 0 <= j < |t| && f(t[j]) == k;
      if j < |s| {
        assert t[j] == s[j];
      }
    }
  }

  /** Grouping a longer input keeps what grouping its prefix keeps, then the first element of each key
      the prefix has not met. */
  lemma {:induction false} UniqueByThenFirsts<A, K>(p: seq<A>, s: seq<A>, f: A -> K)
    ensures UniqueBy(p + s, f) == UniqueBy(p, f) + FirstOfEachKey(s, f, Keys(p, f))
    decreases |s|
  {
    if |s| == 0 {
      assert p + s == p;
    } else {
      var x := s[0];
      var p' := p + [x];
      assert p + s == p' + s[1..];
      assert p'[..|p'| - 1] == p;
      UniqueByThenFirsts(p', s[1..], f);
      KeysSnoc(p, x, f);
      if f(x) in Keys(p, f) {
        assert Keys(p', f) == Keys(p, f);
      }
    }
  }

  /** Unique keeps the first element of each key, in the order in which the keys first appear. */
  lemma UniqueByIsFirstOfEachKey<A, K>(input: seq<A>, f: A -> K)
    ensures UniqueBy(input, f) == FirstOfEachKey(input, f, {})
  {
    UniqueByThenFirsts([], input, f);
    assert [] + input == input;
    assert Keys([], f) == {};
  }

  function Parity(x: int): int { x % 2 }

  /** Grouping 3, 4, 5, 6 by parity keeps 3 and 4: the first odd and the first even element. */
  lemma UniqueByParity()
    ensures UniqueBy([3, 4, 5, 6], Parity) == [3, 4]
  {
    UniqueByIsFirstOfEachKey([3, 4, 5, 6], Parity);
    assert [3, 4, 5, 6][1..] == [4, 5, 6];
    assert [4, 5, 6][1..] == [5, 6];
    assert [5, 6][1..] == [6];
    assert FirstOfEachKey([6], Parity, {1, 0}) == [] by {
      assert [6][1..] == [];
    }
  }

  function Id<A>(x: A): A { x }

  /** `Unique(input)`: the distinct elements, each at its first occurrence. */
  function Unique<A(==)>(input: seq<A>): (r: seq<A>)
  {
    UniqueBy(input, Id)
  }

  /** Unique keeps the first occurrence of each value, in input order, so it has no repeated element
      and loses none. */
  lemma UniqueIsDistinct<A>(input: seq<A>)
    ensures Unique(input) == FirstOfEachKey(input, Id, {})
    ensures forall i, j :: 0 <= i < j < |Unique(input)| ==> Unique(input)[i] != Unique(input)[j]
    ensures forall x :: x in input <==> x in Unique(input)
  {
    UniqueByIsFirstOfEachKey(input, Id);
    UniqueByDistinctKeys(input, Id);
    UniqueByKeepsKeys(input, Id);
  }

  /** TakeNAndYield, corrected: the first `howMany` elements (all of them if there are fewer) as a
      list, and the rest left to be enumerated. The enumerator protocol of the loop is kept. */
  method TakeNAndYield<A>(input: seq<A>, howMany: int) returns (taken: seq<A>, rest: seq<A>)
    ensures taken == input[..Min(if howMany < 0 then 0 else howMany, |input|)]
    ensures taken + rest == input
  {
    taken := [];
    var counter := 0;
    var position := 0;  // elements the enumerator has moved past
    if howMany > 0 && position < |input| {
      position := position + 1;
      while counter < howMany
        invariant 0 <= counter <= howMany && counter <= position <= |input|
        invariant counter < howMany ==> position == counter + 1
        invariant taken == input[..counter]
        decreases howMany - counter
      {
        taken := taken + [input[position - 1]];
        counter := counter + 1;
        if counter < howMany {
          if position < |input| {
            position := position + 1;
          } else {
            break;
          }
        }
      }
      rest := input[counter..];
      return;
    }
    rest := input;
  }

  /** TakeNAndYield as Utils/Functional.cs writes it: when `howMany` is not positive the remainder is
      an empty array instead of the untouched input. */
  function TakeNAndYieldAsWritten<A>(input: seq<A>, howMany: int): (r: (seq<A>, seq<A>))
    ensures howMany > 0 ==> |r.0| == Min(howMany, |input|) && r.0 + r.1 == input
    ensures howMany <= 0 ==> r == ([], [])
  {
    if howMany > 0 then (input[..Min(howMany, |input|)], input[Min(howMany, |input|)..]) else ([], [])
  }

  /** With `howMany` 0 the written code loses the whole input: taking none of [1] and yielding the rest
      gives nothing at all. */
  lemma TakeNAndYieldAsWrittenLosesInput()
    ensures TakeNAndYieldAsWritten([1], 0) == ([], [])
    ensures TakeNAndYieldAsWritten([1], 0).0 + TakeNAndYieldAsWritten([1], 0).1 != [1]
  {
  }

  /** `item.Between(left, right)`: inclusive at both ends under `compare`, the CompareTo of A. */
  function Between<A>(compare: (A, A) -> int, item: A, left: A, right: A): (r: bool)
  {
    compare(item, left) >= 0 && compare(item, right) <= 0
  }

  /** On integers compared by value, Between is left <= item <= right. */
  lemma BetweenIsInclusive(item: int, left: int, right: int)
    ensures Between((a: int, b: int) => a - b, item, left, right) <==> left <= item <= right
    ensures Between((a: int, b: int) => a - b, left, left, right) <==> left <= right
  {
  }
}
