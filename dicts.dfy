/** Python's `dict` with string keys, as an insertion-ordered list of entries.
    Iteration (`items()`, `keys()`) follows the list; assigning to a key that is
    already present replaces its value where it stands, and a new key goes last. */
module Dicts {
  import opened Wrappers
  import opened Sequences

  /** No key occurs twice. */
  predicate DistinctKeys<V>(d: seq<(string, V)>)
  {
    forall i, j :: 0 <= i < j < |d| ==> d[i].0 != d[j].0
  }

  type Dict<V> = d: seq<(string, V)> | DistinctKeys(d) witness []

  /** The keys in iteration order (`list(d.keys())`). */
  function KeysOf<V>(d: seq<(string, V)>): (ks: seq<string>)
    ensures |ks| == |d|
    ensures forall i :: 0 <= i < |d| ==> ks[i] == d[i].0
  {
    if d == [] then [] else [d[0].0] + KeysOf(d[1..])
  }

  lemma {:induction false} KeysOfConcat<V>(a: seq<(string, V)>, b: seq<(string, V)>)
    ensures KeysOf(a + b) == KeysOf(a) + KeysOf(b)
  {
    assert |KeysOf(a + b)| == |KeysOf(a) + KeysOf(b)|;
    forall i | 0 <= i < |a + b| ensures KeysOf(a + b)[i] == (KeysOf(a) + KeysOf(b))[i] {
      if i < |a| {
        assert (a + b)[i] == a[i];
      } else {
        assert (a + b)[i] == b[i - |a|];
      }
    }
  }

  /** `d.get(k)`: the value stored under `k`, or `None`. */
  function Get<V>(d: Dict<V>, k: string): (r: Option<V>)
    ensures r.None? <==> k !in KeysOf(d)
    ensures r.Some? ==> exists i :: 0 <= i < |d| && d[i] == (k, r.value)
  {
    if d == [] then None
    else if d[0].0 == k then Some(d[0].1)
    else
      assert KeysOf(d) == [d[0].0] + KeysOf(d[1..]);
      var r := Get(d[1..], k);
      assert r.Some? ==> exists i :: 0 <= i < |d[1..]| && d[1..][i] == (k, r.value);
      r
  }

  /** The entry at position `i` is what `Get` finds under its key. */
  lemma GetAt<V>(d: Dict<V>, i: nat)
    requires i < |d|
    ensures Get(d, d[i].0) == Some(d[i].1)
  {
    var r := Get(d, d[i].0);
    var j :| 0 <= j < |d| && d[j] == (d[i].0, r.value);
    assert i == j;
  }

  /** The position of key `k` in `d`. */
  function IndexOf<V>(d: seq<(string, V)>, k: string): (i: nat)
    requires k in KeysOf(d)
    ensures i < |d| && d[i].0 == k
  {
    if d[0].0 == k then 0
    else
      assert KeysOf(d) == [d[0].0] + KeysOf(d[1..]);
      1 + IndexOf(d[1..], k)
  }

  /** `d[k] = v`. */
  function Put<V>(d: Dict<V>, k: string, v: V): (r: Dict<V>)
    ensures Get(r, k) == Some(v)
    ensures forall k' :: k' != k ==> Get(r, k') == Get(d, k')
    ensures k in KeysOf(d) ==> KeysOf(r) == KeysOf(d)
    ensures k !in KeysOf(d) ==> r == d + [(k, v)]
  {
    var r: seq<(string, V)> :=
      if k in KeysOf(d) then d[IndexOf(d, k) := (k, v)] else d + [(k, v)];
    assert KeysOf(r) == KeysOf(d) + (if k in KeysOf(d) then [] else [k]);
    PutGet(d, k, v, r);
    r
  }

  lemma PutGet<V>(d: Dict<V>, k: string, v: V, r: seq<(string, V)>)
    requires r == if k in KeysOf(d) then d[IndexOf(d, k) := (k, v)] else d + [(k, v)]
    ensures DistinctKeys(r)
    ensures Get(r, k) == Some(v)
    ensures forall k' :: k' != k ==> Get(r, k') == Get(d, k')
  {
    assert KeysOf(r) == KeysOf(d) + (if k in KeysOf(d) then [] else [k]);
    var i := if k in KeysOf(d) then IndexOf(d, k) else |d|;
    assert r[i] == (k, v);
    GetAt(r, i);
    forall k' | k' != k ensures Get(r, k') == Get(d, k') {
      if k' in KeysOf(d) {
        var j := IndexOf(d, k');
        assert r[j] == d[j];
        GetAt(r, j);
        GetAt(d, j);
      }
    }
  }

  /** `g` applied to the value stored under a key (0 for a missing key). */
  function LookupTerm<V>(d: Dict<V>, g: (string, V) -> real): string -> real
  {
    k => match Get(d, k)
         case Some(v) => g(k, v)
         case None => 0.0
  }

  /** `g` applied to an entry. */
  function EntryTerm<V>(g: (string, V) -> real): ((string, V)) -> real
  {
    (e: (string, V)) => g(e.0, e.1)
  }

  /** Summing over the keys while looking each one up is summing over the entries. */
  lemma {:induction false} SumOverKeys<V>(d: Dict<V>, g: (string, V) -> real)
    ensures SumBy(KeysOf(d), LookupTerm(d, g)) == SumBy(d, EntryTerm(g))
  {
    if d != [] {
      var tail: Dict<V> := d[1..];
      assert KeysOf(d) == [d[0].0] + KeysOf(tail);
      assert KeysOf(d)[1..] == KeysOf(tail);
      GetAt(d, 0);
      forall k | k in KeysOf(tail) ensures LookupTerm(d, g)(k) == LookupTerm(tail, g)(k) {
        assert k != d[0].0;
        assert Get(d, k) == Get(tail, k);
      }
      SumByCongruent(KeysOf(tail), LookupTerm(d, g), LookupTerm(tail, g));
      SumOverKeys(tail, g);
    }
  }

  /** With distinct keys, no entry occurs twice. */
  lemma {:induction false} DistinctKeysCount<V>(d: seq<(string, V)>, e: (string, V))
    requires DistinctKeys(d)
    ensures multiset(d)[e] <= 1
  {
    if d != [] {
      var rest := d[1..];
      assert d == [d[0]] + rest;
      assert DistinctKeys(rest) by {
        forall i, j | 0 <= i < j < |rest| ensures rest[i].0 != rest[j].0 {
          assert rest[i] == d[i + 1] && rest[j] == d[j + 1];
        }
      }
      DistinctKeysCount(rest, e);
      if d[0] == e {
        forall k | 0 <= k < |rest| ensures rest[k] != e {
          assert rest[k] == d[k + 1];
        }
        assert e !in multiset(rest);
      }
    }
  }

  /** Reordering the entries of a dictionary keeps its keys distinct. */
  lemma DistinctKeysPermutation<V>(a: seq<(string, V)>, b: seq<(string, V)>)
    requires multiset(a) == multiset(b) && DistinctKeys(a)
    ensures DistinctKeys(b)
  {
    forall i, j | 0 <= i < j < |b| ensures b[i].0 != b[j].0 {
      PermutationMember(b, a, i);
      PermutationMember(b, a, j);
      var i' :| 0 <= i' < |a| && a[i'] == b[i];
      var j' :| 0 <= j' < |a| && a[j'] == b[j];
      DuplicateCount(b, i, j);
      DistinctKeysCount(a, b[i]);
      assert b[i] != b[j];
      assert i' != j';
    }
  }
}
