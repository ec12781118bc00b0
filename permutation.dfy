/** All orderings of a string or a list (permutations/Permutation.cs): for each position i in turn,
    the element at i followed by every ordering of the remaining elements. */
module Permutations {
  import Ints

  function Factorial(n: nat): (r: nat)
    ensures r >= 1
  {
    if n == 0 then 1 else n * Factorial(n - 1)
  }

  /** `u` without its element at position i (`Remove(i, 1)` on a string, `Where(pos != i)` on a list). */
  function RemoveAt<T>(u: seq<T>, i: nat): (r: seq<T>)
    requires i < |u|
    ensures |r| == |u| - 1
  {
    u[..i] + u[i + 1..]
  }

  /** Putting the removed element back in front gives a rearrangement of `u`. */
  lemma RemoveAtRearranges<T>(u: seq<T>, i: nat)
    requires i < |u|
    ensures multiset([u[i]] + RemoveAt(u, i)) == multiset(u)
  {
    assert u == u[..i] + [u[i]] + u[i + 1..];
  }

  /** Every list of `ps` with `x` put in front of it, in the order of `ps`. */
  function Prepend<T>(x: T, ps: seq<seq<T>>): (r: seq<seq<T>>)
    ensures |r| == |ps|
    ensures forall k :: 0 <= k < |ps| ==> r[k] == [x] + ps[k]
  {
    seq(|ps|, k requires 0 <= k < |ps| => [x] + ps[k])
  }

  lemma PrependSnoc<T>(x: T, ps: seq<seq<T>>, p: seq<T>)
    ensures Prepend(x, ps + [p]) == Prepend(x, ps) + [[x] + p]
  {
  }

  /** The orderings the source produces: `u` itself when it has at most one element, otherwise the
      groups for the first elements u[0], u[1], ... in that order. */
  function Perms<T>(u: seq<T>): seq<seq<T>>
    decreases |u|, 1
  {
    if |u| <= 1 then [u] else Groups(u, |u|)
  }

  /** The groups for first positions 0 .. n-1: group i is u[i] put in front of each ordering of the
      rest of `u`. */
  function Groups<T>(u: seq<T>, n: nat): seq<seq<T>>
    requires 1 < |u| && n <= |u|
    decreases |u|, 0, n
  {
    if n == 0 then [] else Groups(u, n - 1) + Prepend(u[n - 1], Perms(RemoveAt(u, n - 1)))
  }

  /** `Permutations1.permutations1`: a string of at most one character gives itself; otherwise the
      loop appends, for each position, the character there followed by each ordering of the rest. */
  method Permutations1(input: string) returns (collector: seq<string>)
    ensures collector == Perms(input)
    ensures |input| <= 1 ==> collector == [input]
    decreases |input|
  {
    collector := [];
    if |input| > 1 {
      for i := 0 to |input|
        invariant collector == Groups(input, i)
      {
        var hold := input[i];
        var tmp := RemoveAt(input, i);
        var perms := Permutations1(tmp);
        ghost var before := collector;
        for j := 0 to |perms|
          invariant collector == before + Prepend(hold, perms[..j])
        {
          PrependSnoc(hold, perms[..j], perms[j]);
          assert perms[..j + 1] == perms[..j] + [perms[j]];
          collector := collector + [[hold] + perms[j]];
        }
        assert perms[..|perms|] == perms;
        assert Groups(input, i + 1) == before + Prepend(hold, perms);
      }
    } else {
      collector := collector + [input];
    }
  }

  /** `Permutations2.permute`: an empty or one-element list gives itself; otherwise the loop adds,
      for each position i, u[i] concatenated with each ordering of the other elements. */
  method Permute<U>(u: seq<U>) returns (output: seq<seq<U>>)
    ensures output == Perms(u)
    ensures |u| <= 1 ==> output == [u]
    decreases |u|
  {
    if |u| == 0 { return [u]; }
    if |u| == 1 { return [u]; }
    output := [];
    for i := 0 to |u|
      invariant output == Groups(u, i)
    {
      var u1 := [u[i]];
      var u2 := RemoveAt(u, i);
      var rest := Permute(u2);
      output := output + seq(|rest|, k requires 0 <= k < |rest| => u1 + rest[k]);
    }
  }

  /** Each group holds (|u| - 1)! orderings, so n groups hold n * (|u| - 1)!. */
  lemma {:induction false} GroupsLength<T>(u: seq<T>, n: nat)
    requires 1 < |u| && n <= |u|
    ensures |Groups(u, n)| == n * Factorial(|u| - 1)
    decreases |u|, 0, n
  {
    if n > 0 {
      GroupsLength(u, n - 1);
      PermsLength(RemoveAt(u, n - 1));
      assert n * Factorial(|u| - 1) == (n - 1) * Factorial(|u| - 1) + Factorial(|u| - 1);
    }
  }

  /** There are n! orderings of n elements, repetitions included. */
  lemma {:induction false} PermsLength<T>(u: seq<T>)
    ensures |Perms(u)| == Factorial(|u|)
    decreases |u|, 1
  {
    if |u| > 1 {
      GroupsLength(u, |u|);
    }
  }

  /** Every list in the groups is a rearrangement of `u`. */
  lemma {:induction false} GroupsArePermutations<T>(u: seq<T>, n: nat)
    requires 1 < |u| && n <= |u|
    ensures forall k :: 0 <= k < |Groups(u, n)| ==> multiset(Groups(u, n)[k]) == multiset(u)
    decreases |u|, 0, n
  {
    if n > 0 {
      GroupsArePermutations(u, n - 1);
      var rest := RemoveAt(u, n - 1);
      PermsArePermutations(rest);
      RemoveAtRearranges(u, n - 1);
      var before, group := Groups(u, n - 1), Prepend(u[n - 1], Perms(rest));
      forall k | 0 <= k < |Groups(u, n)| ensures multiset(Groups(u, n)[k]) == multiset(u) {
        if k >= |before| {
          assert Groups(u, n)[k] == group[k - |before|];
        }
      }
    }
  }

  /** Every ordering produced is a rearrangement of the input. */
  lemma {:induction false} PermsArePermutations<T>(u: seq<T>)
    ensures forall k :: 0 <= k < |Perms(u)| ==> multiset(Perms(u)[k]) == multiset(u)
    decreases |u|, 1
  {
    if |u| > 1 {
      GroupsArePermutations(u, |u|);
    }
  }

  /** The orderings come grouped by the position of their first element, in ascending order: entry
      i * (|u| - 1)! + j is u[i] followed by the j-th ordering of the other elements. */
  lemma PermsGroupedByFirst<T>(u: seq<T>, i: nat, j: nat)
    requires 1 < |u| && i < |u| && j < Factorial(|u| - 1)
    ensures i * Factorial(|u| - 1) + j < |Perms(u)|
    ensures j < |Perms(RemoveAt(u, i))|
    ensures Perms(u)[i * Factorial(|u| - 1) + j] == [u[i]] + Perms(RemoveAt(u, i))[j]
  {
    var f := Factorial(|u| - 1);
    GroupsLength(u, i);
    GroupsLength(u, |u|);
    PermsLength(RemoveAt(u, i));
    Ints.BlockIndex(i, |u|, f, j);
    GroupsAt(u, |u|, i, j);
  }

  /** Group i starts right after the groups before it, in every longer run of groups. */
  lemma {:induction false} GroupsAt<T>(u: seq<T>, n: nat, i: nat, j: nat)
    requires 1 < |u| && i < n <= |u| && j < |Perms(RemoveAt(u, i))|
    ensures |Groups(u, i)| + j < |Groups(u, n)|
    ensures Groups(u, n)[|Groups(u, i)| + j] == [u[i]] + Perms(RemoveAt(u, i))[j]
    decreases n
  {
    var before := Groups(u, n - 1);
    assert Groups(u, n) == before + Prepend(u[n - 1], Perms(RemoveAt(u, n - 1)));
    if i < n - 1 {
      GroupsAt(u, n - 1, i, j);
    }
  }

  /** Two elements give themselves, then swapped. */
  lemma PermsOfPair<T>(a: T, b: T)
    ensures Perms([a, b]) == [[a, b], [b, a]]
  {
    var u := [a, b];
    assert RemoveAt(u, 0) == [b];
    assert RemoveAt(u, 1) == [a];
    assert [a] + [b] == [a, b] && [b] + [a] == [b, a];
    assert Prepend(a, [[b]]) == [[a, b]];
    assert Prepend(b, [[a]]) == [[b, a]];
    assert Groups(u, 1) == [[a, b]];
    assert Groups(u, 2) == [[a, b]] + [[b, a]];
  }

  /** Three elements give the six orderings u[0] first, then u[1] first, then u[2] first; the
      orderings of "abc" are "abc", "acb", "bac", "bca", "cab", "cba" in that order, and [1, 2, 1]
      gives [1, 2, 1] and [2, 1, 1] and [1, 1, 2] twice each. */
  lemma PermsOfTriple<T>(a: T, b: T, c: T)
    ensures Perms([a, b, c]) == [[a, b, c], [a, c, b], [b, a, c], [b, c, a], [c, a, b], [c, b, a]]
  {
    var u := [a, b, c];
    assert RemoveAt(u, 0) == [b, c];
    assert RemoveAt(u, 1) == [a, c];
    assert RemoveAt(u, 2) == [a, b];
    PermsOfPair(b, c);
    PermsOfPair(a, c);
    PermsOfPair(a, b);
    assert [a] + [b, c] == [a, b, c] && [a] + [c, b] == [a, c, b];
    assert Prepend(a, [[b, c], [c, b]]) == [[a, b, c], [a, c, b]];
    assert [b] + [a, c] == [b, a, c] && [b] + [c, a] == [b, c, a];
    assert Prepend(b, [[a, c], [c, a]]) == [[b, a, c], [b, c, a]];
    assert [c] + [a, b] == [c, a, b] && [c] + [b, a] == [c, b, a];
    assert Prepend(c, [[a, b], [b, a]]) == [[c, a, b], [c, b, a]];
    assert Groups(u, 1) == [[a, b, c], [a, c, b]];
    assert Groups(u, 2) == [[a, b, c], [a, c, b]] + [[b, a, c], [b, c, a]];
    assert Groups(u, 3) == [[a, b, c], [a, c, b], [b, a, c], [b, c, a]] + [[c, a, b], [c, b, a]];
  }
}
