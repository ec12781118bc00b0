/** Reference definitions over sequences that several modules are specified against. */
module Seqs {

  function Min(a: int, b: int): int { if a < b then a else b }

  /** The elements of `s` that satisfy `p`, in their order in `s`. Defined from the back, the way a loop
      that appends to a list builds it. */
  function Filter<T>(p: T -> bool, s: seq<T>): (r: seq<T>)
    ensures |r| <= |s|
  {
    if |s| == 0 then [] else Filter(p, s[..|s| - 1]) + (if p(s[|s| - 1]) then [s[|s| - 1]] else [])
  }

  /** Appending one element to the input appends it to the filtered output exactly when it passes. */
  lemma FilterSnoc<T>(p: T -> bool, s: seq<T>, x: T)
    ensures Filter(p, s + [x]) == Filter(p, s) + (if p(x) then [x] else [])
  {
    assert (s + [x])[..|s|] == s;
  }

  /** Filtering the first k + 1 elements extends the filter of the first k by element k, exactly when
      it passes. */
  lemma FilterStep<T>(p: T -> bool, s: seq<T>, k: nat)
    requires k < |s|
    ensures Filter(p, s[..k + 1]) == Filter(p, s[..k]) + (if p(s[k]) then [s[k]] else [])
  {
    FilterSnoc(p, s[..k], s[k]);
    assert s[..k + 1] == s[..k] + [s[k]];
  }

  /** Filtering from the front gives the same result: the head, if it passes, then the filtered tail. */
  lemma {:induction false} FilterCons<T>(p: T -> bool, x: T, s: seq<T>)
    ensures Filter(p, [x] + s) == (if p(x) then [x] else []) + Filter(p, s)
    decreases |s|
  {
    var X := if p(x) then [x] else [];
    if |s| == 0 {
      assert [x] + s == [] + [x];
      FilterSnoc(p, [], x);
    } else {
      var init := s[..|s| - 1];
      var last := s[|s| - 1];
      var L := if p(last) then [last] else [];
      assert s == init + [last];
      assert [x] + s == ([x] + init) + [last];
      calc {
        Filter(p, [x] + s);
        { FilterSnoc(p, [x] + init, last); }
        Filter(p, [x] + init) + L;
        { FilterCons(p, x, init); }
        (X + Filter(p, init)) + L;
        X + (Filter(p, init) + L);
        { FilterSnoc(p, init, last); }
        X + Filter(p, s);
      }
    }
  }

  /** Only elements of the input that pass are kept. */
  lemma {:induction false} FilterMembers<T>(p: T -> bool, s: seq<T>)
    ensures forall x :: x in Filter(p, s) ==> x in s && p(x)
    decreases |s|
  {
    if |s| > 0 {
      var init := s[..|s| - 1];
      FilterMembers(p, init);
      assert s == init + [s[|s| - 1]];
    }
  }

  /** Every element that passes is kept. */
  lemma {:induction false} FilterKeeps<T>(p: T -> bool, s: seq<T>, x: T)
    requires x in s && p(x)
    ensures x in Filter(p, s)
    decreases |s|
  {
    var init := s[..|s| - 1];
    assert s == init + [s[|s| - 1]];
    if x != s[|s| - 1] {
      FilterKeeps(p, init, x);
    }
  }

  /** Filtering by `p` and by its negation `q` splits the input without losing or inventing an
      element, so the two results together are as long as the input. */
  lemma {:induction false} FilterSplit<T>(p: T -> bool, q: T -> bool, s: seq<T>)
    requires forall x :: q(x) == !p(x)
    ensures multiset(Filter(p, s)) + multiset(Filter(q, s)) == multiset(s)
    ensures |Filter(p, s)| + |Filter(q, s)| == |s|
    decreases |s|
  {
    if |s| > 0 {
      var init, last := s[..|s| - 1], s[|s| - 1];
      assert s == init + [last];
      FilterSplit(p, q, init);
      FilterSnoc(p, init, last);
      FilterSnoc(q, init, last);
      assert q(last) == !p(last);
    }
    calc {
      |Filter(p, s)| + |Filter(q, s)|;
      |multiset(Filter(p, s))| + |multiset(Filter(q, s))|;
      |multiset(Filter(p, s)) + multiset(Filter(q, s))|;
      |multiset(s)|;
    }
  }

  /** `s` back to front. */
  function Reverse<T>(s: seq<T>): (r: seq<T>)
    ensures |r| == |s|
    ensures forall i :: 0 <= i < |s| ==> r[i] == s[|s| - 1 - i]
  {
    if |s| == 0 then [] else [s[|s| - 1]] + Reverse(s[..|s| - 1])
  }

  /** Reversing the input with one element in front appends that element to the reversal. */
  lemma ReverseCons<T>(x: T, s: seq<T>)
    ensures Reverse([x] + s) == Reverse(s) + [x]
  {
    var r, r' := Reverse([x] + s), Reverse(s) + [x];
    assert |r| == |r'|;
    forall i | 0 <= i < |r| ensures r[i] == r'[i] {
      if i < |s| {
        assert ([x] + s)[|s| - i] == s[|s| - 1 - i];
      }
    }
  }

  /** The first element of `s`, then every `step`-th one after it: s[0], s[step], s[2*step], ... */
  function EveryNth<T>(s: seq<T>, step: nat): (r: seq<T>)
    requires step >= 1
    ensures |r| <= |s|
    ensures |s| > 0 ==> |r| > 0 && r[0] == s[0]
    decreases |s|
  {
    if |s| == 0 then [] else [s[0]] + EveryNth(s[Min(step, |s|)..], step)
  }

  /** Element k of EveryNth is s[k * step], and it exists exactly when k * step is an index of s. */
  lemma {:induction false} EveryNthAt<T>(s: seq<T>, step: nat, k: nat)
    requires step >= 1
    ensures k < |EveryNth(s, step)| <==> k * step < |s|
    ensures k < |EveryNth(s, step)| ==> EveryNth(s, step)[k] == s[k * step]
    decreases |s|, 1
  {
    if |s| > 0 && k > 0 {
      if step < |s| {
        EveryNthAtTail(s, step, k);
      } else {
        EveryNthAtShort(s, step, k);
      }
    }
  }

  /** When s has more than `step` elements, element k comes from element k - 1 of the rest. */
  lemma {:induction false} EveryNthAtTail<T>(s: seq<T>, step: nat, k: nat)
    requires 1 <= step < |s| && k > 0
    ensures k < |EveryNth(s, step)| <==> k * step < |s|
    ensures k < |EveryNth(s, step)| ==> EveryNth(s, step)[k] == s[k * step]
    decreases |s|, 0
  {
    var rest := s[step..];
    assert EveryNth(s, step) == [s[0]] + EveryNth(rest, step);
    EveryNthAt(rest, step, k - 1);
    var before: nat := (k - 1) * step;
    assert before + step == k * step;
    if before < |rest| {
      assert rest[before] == s[k * step];
    }
  }

  /** When s has at most `step` elements, only its first element is kept. */
  lemma EveryNthAtShort<T>(s: seq<T>, step: nat, k: nat)
    requires 1 <= |s| <= step && k > 0
    ensures |EveryNth(s, step)| == 1 && k * step >= |s|
  {
    assert Min(step, |s|) == |s| && s[|s|..] == [];
    assert EveryNth(s, step) == [s[0]];
    var before: nat := (k - 1) * step;
    assert before + step == k * step;
  }

  /** `f` applied to each element, in order. */
  function Map<A, B>(f: A -> B, s: seq<A>): (r: seq<B>)
    ensures |r| == |s|
    ensures forall i :: 0 <= i < |s| ==> r[i] == f(s[i])
  {
    seq(|s|, i requires 0 <= i < |s| => f(s[i]))
  }

  /** Mapping distributes over concatenation. */
  lemma MapAppend<A, B>(f: A -> B, s: seq<A>, t: seq<A>)
    ensures Map(f, s + t) == Map(f, s) + Map(f, t)
  {
    assert forall i :: 0 <= i < |t| ==> (s + t)[|s| + i] == t[i];
  }

  /** The number of elements of `s` that satisfy `p`. */
  function Count<T>(p: T -> bool, s: seq<T>): nat
  {
    if |s| == 0 then 0 else Count(p, s[..|s| - 1]) + (if p(s[|s| - 1]) then 1 else 0)
  }

  /** Filtering keeps exactly as many elements as satisfy the predicate. */
  lemma {:induction false} FilterLength<T>(p: T -> bool, s: seq<T>)
    ensures |Filter(p, s)| == Count(p, s)
    decreases |s|
  {
    if |s| > 0 {
      FilterLength(p, s[..|s| - 1]);
    }
  }

  /** Reversing twice gives the sequence back. */
  lemma ReverseReverse<T>(s: seq<T>)
    ensures Reverse(Reverse(s)) == s
  {
    assert forall i :: 0 <= i < |s| ==> Reverse(Reverse(s))[i] == Reverse(s)[|s| - 1 - i];
  }
}
