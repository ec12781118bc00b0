/** `MDictionary<K, V>`, a dictionary that carries the exceptions met while building it, and
    `ToDictionaryReportingDuplicates` (Utils/MDictionary.cs). */
module MDictionaries {
  import opened Errors
  import opened FunctionalHelpers

  class MDictionary<K(==), V> {
    var exceptions: seq<Exception>
    var dictionary: Dictionary<K, V>

    /** `new MDictionary(dict)`: wraps the given dictionary, with no exceptions yet. */
    constructor (dict: Dictionary<K, V>)
      ensures exceptions == [] && dictionary == dict
    {
      exceptions := [];
      dictionary := dict;
    }
  }

  /** `dict.ToMDictionary()`: the same dictionary object, with an empty exception list. */
  method ToMDictionary<K, V>(dict: Dictionary<K, V>) returns (m: MDictionary<K, V>)
    ensures fresh(m) && m.exceptions == [] && m.dictionary == dict
  {
    m := new MDictionary(dict);
  }

  /** The dictionary ToDictionaryReportingDuplicates builds: each key mapped to the value of the first
      element with that key. */
  function FirstValues<T, K(==), V>(input: seq<T>, keyFn: T -> K, valueFn: T -> V): map<K, V>
  {
    if |input| == 0 then map[]
    else
      var m := FirstValues(input[..|input| - 1], keyFn, valueFn);
      var last := input[|input| - 1];
      if keyFn(last) in m then m else m[keyFn(last) := valueFn(last)]
  }

  /** The exceptions it reports: one per element whose key was already present, in input order. */
  function DuplicateReports<T, K(==), V>(input: seq<T>, keyFn: T -> K, valueFn: T -> V, keyText: K -> string): seq<Exception>
  {
    if |input| == 0 then []
    else
      var init, last := input[..|input| - 1], input[|input| - 1];
      DuplicateReports(init, keyFn, valueFn, keyText) +
        if keyFn(last) in FirstValues(init, keyFn, valueFn)
        then [General("Key " + keyText(keyFn(last)) + " already present")]
        else []
  }

  /** ToDictionaryReportingDuplicates: one pass that adds each new key with its value and reports each
      repeated key as an exception instead of throwing. `keyText` is how String.Format renders a key. */
  method ToDictionaryReportingDuplicates<T, K(==), V>(input: seq<T>, keyFn: T -> K, valueFn: T -> V, keyText: K -> string)
    returns (m: MDictionary<K, V>)
    ensures fresh(m) && fresh(m.dictionary)
    ensures m.dictionary.items == FirstValues(input, keyFn, valueFn)
    ensures m.exceptions == DuplicateReports(input, keyFn, valueFn, keyText)
  {
    var dict := new Dictionary();
    m := ToMDictionary(dict);
    for i := 0 to |input|
      invariant m.dictionary == dict && fresh(m) && fresh(dict)
      invariant dict.items == FirstValues(input[..i], keyFn, valueFn)
      invariant m.exceptions == DuplicateReports(input[..i], keyFn, valueFn, keyText)
    {
      assert input[..i + 1][..i] == input[..i];
      var key := keyFn(input[i]);
      if key in m.dictionary.items {
        m.exceptions := m.exceptions + [General("Key " + keyText(key) + " already present")];
      } else {
        m.dictionary.items := m.dictionary.items[key := valueFn(input[i])];
      }
    }
    assert input[..|input|] == input;
  }

  /** Some element of `s` has key `k`. */
  ghost predicate HasKey<T, K>(s: seq<T>, keyFn: T -> K, k: K)
  {
    exists i :: 0 <= i < |s| && keyFn(s[i]) == k
  }

  lemma HasKeySnoc<T, K>(s: seq<T>, keyFn: T -> K, k: K)
    requires |s| > 0
    ensures HasKey(s, keyFn, k) <==> HasKey(s[..|s| - 1], keyFn, k) || keyFn(s[|s| - 1]) == k
  {
    if HasKey(s, keyFn, k) && keyFn(s[|s| - 1]) != k {
      var i :| 0 <= i < |s| && keyFn(s[i]) == k;
      assert s[..|s| - 1][i] == s[i];
    }
    if HasKey(s[..|s| - 1], keyFn, k) {
      var i :| 0 <= i < |s| - 1 && keyFn(s[..|s| - 1][i]) == k;
      assert s[i] == s[..|s| - 1][i];
    }
  }

  /** The keys of the result are exactly the keys of the input. */
  lemma {:induction false} FirstValuesKeys<T, K, V>(input: seq<T>, keyFn: T -> K, valueFn: T -> V)
    ensures forall k :: k in FirstValues(input, keyFn, valueFn) <==> HasKey(input, keyFn, k)
    decreases |input|
  {
    if |input| > 0 {
      FirstValuesKeys(input[..|input| - 1], keyFn, valueFn);
      forall k ensures k in FirstValues(input, keyFn, valueFn) <==> HasKey(input, keyFn, k) {
        HasKeySnoc(input, keyFn, k);
      }
    }
  }

  /** Each key maps to the value of the first element with that key: later duplicates change nothing. */
  lemma {:induction false} FirstValueKept<T, K, V>(input: seq<T>, keyFn: T -> K, valueFn: T -> V)
    ensures forall i :: 0 <= i < |input| && !HasKey(input[..i], keyFn, keyFn(input[i])) ==>
      keyFn(input[i]) in FirstValues(input, keyFn, valueFn) &&
      FirstValues(input, keyFn, valueFn)[keyFn(input[i])] == valueFn(input[i])
    decreases |input|
  {
    if |input| > 0 {
      var init, last := input[..|input| - 1], input[|input| - 1];
      FirstValueKept(init, keyFn, valueFn);
      FirstValuesKeys(init, keyFn, valueFn);
      forall i | 0 <= i < |input| && !HasKey(input[..i], keyFn, keyFn(input[i]))
        ensures keyFn(input[i]) in FirstValues(input, keyFn, valueFn) &&
          FirstValues(input, keyFn, valueFn)[keyFn(input[i])] == valueFn(input[i])
      {
        if i < |init| {
          assert init[i] == input[i] && init[..i] == input[..i];
        } else {
          assert input[..i] == init;
        }
      }
    }
  }

  /** Every element either adds a key or adds an exception: |exceptions| + |keys| == |input|. */
  lemma {:induction false} EachElementCounted<T, K, V>(input: seq<T>, keyFn: T -> K, valueFn: T -> V, keyText: K -> string)
    ensures |DuplicateReports(input, keyFn, valueFn, keyText)| + |FirstValues(input, keyFn, valueFn)| == |input|
    decreases |input|
  {
    if |input| > 0 {
      EachElementCounted(input[..|input| - 1], keyFn, valueFn, keyText);
    }
  }

  /** No two elements share a key. */
  ghost predicate DistinctKeys<T, K>(s: seq<T>, keyFn: T -> K)
  {
    forall i, j :: 0 <= i < j < |s| ==> keyFn(s[i]) != keyFn(s[j])
  }

  /** The dictionary has as many keys as the input has elements exactly when the keys are distinct. */
  lemma {:induction false} DistinctKeysCount<T, K, V>(input: seq<T>, keyFn: T -> K, valueFn: T -> V)
    ensures |FirstValues(input, keyFn, valueFn)| <= |input|
    ensures |FirstValues(input, keyFn, valueFn)| == |input| <==> DistinctKeys(input, keyFn)
    decreases |input|
  {
    if |input| > 0 {
      var init, last := input[..|input| - 1], input[|input| - 1];
      DistinctKeysCount(init, keyFn, valueFn);
      FirstValuesKeys(init, keyFn, valueFn);
      if HasKey(init, keyFn, keyFn(last)) {
        var i :| 0 <= i < |init| && keyFn(init[i]) == keyFn(last);
        assert keyFn(input[i]) == keyFn(input[|input| - 1]);
      } else if DistinctKeys(init, keyFn) {
        forall i, j | 0 <= i < j < |input| ensures keyFn(input[i]) != keyFn(input[j]) {
          assert input[i] == init[i];
          if j < |init| {
            assert input[j] == init[j];
          }
        }
      } else {
        var i, j :| 0 <= i < j < |init| && keyFn(init[i]) == keyFn(init[j]);
        assert input[i] == init[i] && input[j] == init[j];
      }
    }
  }

  /** No exception is reported exactly when no two elements share a key. */
  lemma NoDuplicatesNoReports<T, K, V>(input: seq<T>, keyFn: T -> K, valueFn: T -> V, keyText: K -> string)
    ensures DuplicateReports(input, keyFn, valueFn, keyText) == [] <==> DistinctKeys(input, keyFn)
  {
    EachElementCounted(input, keyFn, valueFn, keyText);
    DistinctKeysCount(input, keyFn, valueFn);
  }

  /** [1, 2, 3, 4, 4, 3, 2, 1] keyed by itself: four keys, each with its first value, and four
      exceptions. */
  lemma FourDuplicatesFourReports(keyText: int -> string)
    ensures var input := [1, 2, 3, 4, 4, 3, 2, 1];
      |DuplicateReports(input, (i: int) => i, (i: int) => i, keyText)| == 4 &&
      FirstValues(input, (i: int) => i, (i: int) => i) == map[1 := 1, 2 := 2, 3 := 3, 4 := 4]
  {
    var input := [1, 2, 3, 4, 4, 3, 2, 1];
    var id := (i: int) => i;
    assert input[..1][..0] == [];
    assert input[..2][..1] == input[..1];
    assert input[..3][..2] == input[..2];
    assert input[..4][..3] == input[..3];
    assert input[..5][..4] == input[..4];
    assert input[..6][..5] == input[..5];
    assert input[..7][..6] == input[..6];
    assert input[..8][..7] == input[..7];
    assert input[..8] == input;
    assert FirstValues(input[..1], id, id) == map[1 := 1];
    assert FirstValues(input[..2], id, id) == map[1 := 1, 2 := 2];
    assert FirstValues(input[..3], id, id) == map[1 := 1, 2 := 2, 3 := 3];
    assert FirstValues(input[..4], id, id) == map[1 := 1, 2 := 2, 3 := 3, 4 := 4];
    assert FirstValues(input[..6], id, id) == map[1 := 1, 2 := 2, 3 := 3, 4 := 4];
    assert FirstValues(input, id, id) == map[1 := 1, 2 := 2, 3 := 3, 4 := 4];
    EachElementCounted(input, id, id, keyText);
  }
}
