/** The lazy generators of the C# `Enumerators` class (Utils/Enumerators.cs). Each generator is a C#
    iterator method, so its argument checks run when the consumer first asks for an element; a
    method here runs the whole enumeration a consumer drives and returns what it yields and how it
    ends. */
module Enumerators {
  import opened Errors
  import opened Seqs
  import Ints

  /** Element `k` of the endless cycle through `s`. */
  function CircularAt<T>(s: seq<T>, k: nat): (r: T)
    requires |s| > 0
  {
    s[k % |s|]
  }

  lemma ModStep(base: int, j: int, n: int)
    requires n > 0 && base % n == 0 && 0 <= j < n
    ensures (base + j) % n == j
    ensures (base + n) % n == 0
  {
    Ints.ModUnique(base + j, base / n, j, n);
    Ints.ModShift(base, n);
  }

  /** CircularEnum: a fresh enumerator over `s` for every pass, without end. `pulls` is how many
      elements the consumer takes before it stops. */
  method CircularEnum<T>(s: seq<T>, pulls: nat) returns (taken: seq<T>)
    requires pulls > 0 ==> |s| > 0
    ensures |taken| == pulls
    ensures forall k :: 0 <= k < pulls ==> taken[k] == CircularAt(s, k)
  {
    taken := [];
    if pulls == 0 {
      return;
    }
    var base := 0;
    while |taken| < pulls
      invariant |taken| <= pulls && |taken| == base && base % |s| == 0
      invariant forall k :: 0 <= k < |taken| ==> taken[k] == CircularAt(s, k)
      decreases pulls - |taken|
    {
      var j := 0;
      while j < |s| && |taken| < pulls
        invariant 0 <= j <= |s| && |taken| == base + j <= pulls
        invariant forall k :: 0 <= k < |taken| ==> taken[k] == CircularAt(s, k)
      {
        ModStep(base, j, |s|);
        taken := taken + [s[j]];
        j := j + 1;
      }
      if j == |s| {
        ModStep(base, 0, |s|);
        base := base + |s|;
      } else {
        base := |taken|;
        assert |taken| == pulls;
        break;
      }
    }
  }

  /** The cycle repeats with period |s|. */
  lemma CircularPeriodic<T>(s: seq<T>, k: nat)
    requires |s| > 0
    ensures CircularAt(s, k + |s|) == CircularAt(s, k)
    ensures k < |s| ==> CircularAt(s, k) == s[k]
  {
    Ints.ModShift(k, |s|);
    if k < |s| {
      Ints.ModUnique(k, 0, k, |s|);
    }
  }

  /** `ConstrainedEnum(s, start)`: a negative start throws ArgumentException; otherwise every element
      after the first `start`. */
  method ConstrainedEnum<T>(s: seq<T>, start: int) returns (run: Run<T>)
    ensures start < 0 ==> run == Run([], Raises(Argument))
    ensures start >= 0 ==> run == Run(s[Min(start, |s|)..], Exhausted)
  {
    if start < 0 {
      return Run([], Raises(Argument));
    }
    var yielded := [];
    var countdown := start;
    for i := 0 to |s|
      invariant countdown == start - i
      invariant yielded == s[Min(start, i)..i]
    {
      countdown := countdown - 1;
      if countdown < 0 {
        yielded := yielded + [s[i]];
      }
    }
    return Run(yielded, Exhausted);
  }

  /** `ConstrainedEnum(s, start, count)`: a negative start or count throws ArgumentException; otherwise
      up to `count` elements from index `start`, where a start of 0 skips the first element just as a
      start of 1 does. */
  method ConstrainedEnumCount<T>(s: seq<T>, start: int, count: int) returns (run: Run<T>)
    ensures start < 0 || count < 0 ==> run == Run([], Raises(Argument))
    ensures start >= 0 && count >= 0 ==>
      var first := if start == 0 then 1 else start;
      run == Run(s[Min(first, |s|)..Min(first + count, |s|)], Exhausted)
  {
    if start < 0 || count < 0 {
      return Run([], Raises(Argument));
    }
    var yielded := [];
    if count > 0 && 0 < |s| {
      var position := 1;  // elements the enumerator has moved past
      var st := start - 1;
      var stopped := false;
      while st > 0 && !stopped
        invariant 1 <= position <= |s| && position + st == start && st >= -1
        invariant st == -1 ==> start == 0
        invariant stopped ==> position == |s| && st > 0
        decreases st, if stopped then 0 else 1
      {
        if position < |s| {
          position := position + 1;
          st := st - 1;
        } else {
          stopped := true;
        }
      }
      if st <= 0 {
        var first := position;
        var c := count - 1;
        while c >= 0
          invariant first <= position <= |s| && position - first + c == count - 1
          invariant yielded == s[first..position]
          decreases c
        {
          if position < |s| {
            assert s[first..position + 1] == s[first..position] + [s[position]];
            yielded := yielded + [s[position]];
            position := position + 1;
          } else {
            break;
          }
          c := c - 1;
        }
      }
    }
    return Run(yielded, Exhausted);
  }

  /** `SteppedEnum(s, step)`: a step below 1 throws ArgumentException; otherwise the first element and
      then every `step`-th one. */
  method SteppedEnum<T>(s: seq<T>, step: int) returns (run: Run<T>)
    ensures step < 1 ==> run == Run([], Raises(Argument))
    ensures step >= 1 ==> run == Run(EveryNth(s, step), Exhausted)
  {
    if step < 1 {
      return Run([], Raises(Argument));
    }
    var yielded := [];
    var position := 0;
    while position < |s|
      invariant 0 <= position <= |s|
      invariant yielded + EveryNth(s[position..], step) == EveryNth(s, step)
    {
      yielded := yielded + [s[position]];
      var next := position + 1;
      var i := step;
      while i > 1
        invariant next - position == step - i + 1 || next == |s|
        invariant position < next <= |s|
        invariant next - position <= step
      {
        if next < |s| {
          next := next + 1;
        } else {
          break;
        }
        i := i - 1;
      }
      assert s[position..][Min(step, |s[position..]|)..] == s[next..];
      position := next;
    }
    return Run(yielded, Exhausted);
  }

  /** `ReverseEnum(list)`, in its generic and its non-generic form: an empty list throws
      ArgumentException; otherwise the elements from the last index down to 0. */
  method ReverseEnum<T>(list: seq<T>) returns (run: Run<T>)
    ensures |list| == 0 ==> run == Run([], Raises(Argument))
    ensures |list| > 0 ==> run == Run(Reverse(list), Exhausted)
  {
    if |list| < 1 {
      return Run([], Raises(Argument));
    }
    var yielded := [];
    var i := |list| - 1;
    while i >= 0
      invariant -1 <= i < |list|
      invariant |yielded| == |list| - 1 - i
      invariant forall k :: 0 <= k < |yielded| ==> yielded[k] == list[|list| - 1 - k]
    {
      yielded := yielded + [list[i]];
      i := i - 1;
    }
    return Run(yielded, Exhausted);
  }

  /** `IgnoreLastN(list, n)`: the elements at indices below |list| - n. The bound is computed in 32-bit
      arithmetic, so it wraps to a negative number when n is so negative that |list| - n passes
      int.MaxValue: then nothing is yielded. A negative `n` that does not wrap walks past the end:
      every element, then ArgumentOutOfRangeException from the indexer. `list.Count` is an `int`, so
      a list has at most int.MaxValue elements. */
  method IgnoreLastN<T>(list: seq<T>, n: Ints.int32) returns (run: Run<T>)
    requires |list| <= Ints.MaxInt32
    ensures n >= 0 ==> run == Run(list[..if n <= |list| then |list| - n else 0], Exhausted)
    ensures n < 0 && |list| - n <= Ints.MaxInt32 ==> run == Run(list, Raises(ArgumentOutOfRange))
    ensures |list| - n > Ints.MaxInt32 ==> run == Run([], Exhausted)
  {
    var bound := Ints.Wrap32(|list| - n);
    if |list| - n > Ints.MaxInt32 {
      Ints.Wrap32Above(|list| - n);
    }
    var yielded := [];
    var i: Ints.int32 := 0;
    while i < bound
      invariant 0 <= i <= |list| && yielded == list[..i]
      invariant bound <= |list| ==> i <= bound || i == 0
    {
      if i >= |list| {
        return Run(yielded, Raises(ArgumentOutOfRange));
      }
      yielded := yielded + [list[i]];
      i := i + 1;
    }
    return Run(yielded, Exhausted);
  }

  /** `IgnoreLast(list)`: IgnoreLastN with n = 1. */
  method IgnoreLast<T>(list: seq<T>) returns (run: Run<T>)
    requires |list| <= Ints.MaxInt32
    ensures run == Run(if |list| == 0 then [] else list[..|list| - 1], Exhausted)
  {
    run := IgnoreLastN(list, 1);
  }

  /** `IgnoreFirstAndLast(list)`: the elements at indices 1 to |list| - 2. */
  method IgnoreFirstAndLast<T>(list: seq<T>) returns (run: Run<T>)
    ensures run == Run(if |list| < 2 then [] else list[1..|list| - 1], Exhausted)
  {
    var yielded := [];
    var i := 1;
    while i < |list| - 1
      invariant 1 <= i && (|list| >= 2 ==> i <= |list| - 1)
      invariant yielded == if |list| < 2 then [] else list[1..i]
    {
      yielded := yielded + [list[i]];
      i := i + 1;
    }
    return Run(yielded, Exhausted);
  }

  /** `first.Concat(second)`: the one element, then the sequence. */
  function Concat<T>(first: T, second: seq<T>): (r: seq<T>)
    ensures |r| == |second| + 1 && r[0] == first && r[1..] == second
  {
    [first] + second
  }

  /** Reversing the reversal enumerates the original list again. */
  lemma ReverseEnumTwice<T>(list: seq<T>)
    ensures Reverse(Reverse(list)) == list
    ensures |list| > 0 ==> Reverse(list)[0] == list[|list| - 1]
  {
    ReverseReverse(list);
  }
}
