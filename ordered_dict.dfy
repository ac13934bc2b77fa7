/** A Python dictionary as the converter uses it: an association list that
    keeps its keys in insertion order. Assigning to a key that is already
    present replaces its value in place; a new key goes to the end. */
module OrderedDict {
  import opened Wrappers

  function Keys<K, V>(es: seq<(K, V)>): seq<K> {
    seq(|es|, i requires 0 <= i < |es| => es[i].0)
  }

  predicate Distinct<T(==)>(s: seq<T>) {
    forall i, j :: 0 <= i < j < |s| ==> s[i] != s[j]
  }

  /** No key occurs twice: what every Python dictionary satisfies. */
  predicate DistinctKeys<K(==), V>(es: seq<(K, V)>) {
    forall i, j :: 0 <= i < j < |es| ==> es[i].0 != es[j].0
  }

  /** The position of the first occurrence of `x` in `s`. */
  function IndexOf<T(==)>(s: seq<T>, x: T): (i: nat)
    requires x in s
    ensures i < |s| && s[i] == x && x !in s[..i]
  {
    if s[0] == x then 0 else 1 + IndexOf(s[1..], x)
  }

  /** `d[k] = v`. An existing key keeps its position and takes the new value;
      a new key is appended; every other entry is unchanged. */
  function Assigned<K(==), V>(es: seq<(K, V)>, k: K, v: V): (r: seq<(K, V)>)
    requires DistinctKeys(es)
    ensures DistinctKeys(r)
    ensures Keys(r) == if k in Keys(es) then Keys(es) else Keys(es) + [k]
    ensures forall i :: 0 <= i < |r| && r[i].0 == k ==> r[i].1 == v
    ensures forall i :: 0 <= i < |es| && es[i].0 != k ==> r[i] == es[i]
  {
    if k in Keys(es) then es[IndexOf(Keys(es), k) := (k, v)]
    else
      assert forall i :: 0 <= i < |es| ==> es[i].0 == Keys(es)[i] != k;
      es + [(k, v)]
  }

  /** The dictionary built by assigning every pair of `kvs` in turn, starting
      from the empty dictionary. */
  function Collapse<K(==), V>(kvs: seq<(K, V)>): (r: seq<(K, V)>)
    ensures DistinctKeys(r) && |r| <= |kvs|
  {
    if kvs == [] then []
    else
      var n := |kvs| - 1;
      Assigned(Collapse(kvs[..n]), kvs[n].0, kvs[n].1)
  }

  /** The elements of `s` in the order of their first occurrences. */
  function Dedup<T(==)>(s: seq<T>): (r: seq<T>)
    ensures Distinct(r)
    ensures forall i :: 0 <= i < |r| ==> r[i] in s
    ensures forall i :: 0 <= i < |s| ==> s[i] in r
  {
    if s == [] then []
    else
      var n := |s| - 1;
      var d := Dedup(s[..n]);
      assert forall i :: 0 <= i < n ==> s[i] == s[..n][i];
      if s[n] in s[..n] then d else d + [s[n]]
  }

  /** Dedup keeps each element at the place of its first occurrence: its
      elements come in the order in which they first occur in `s`. */
  lemma {:induction false} DedupFirstOccurrenceOrder<T>(s: seq<T>)
    ensures forall i, j :: 0 <= i < j < |Dedup(s)| ==>
              IndexOf(s, Dedup(s)[i]) < IndexOf(s, Dedup(s)[j])
  {
    if s != [] {
      var n := |s| - 1;
      var d, e := Dedup(s[..n]), Dedup(s);
      DedupFirstOccurrenceOrder(s[..n]);
      assert e == d || (e == d + [s[n]] && s[n] !in s[..n]);
      forall i, j | 0 <= i < j < |e| ensures IndexOf(s, e[i]) < IndexOf(s, e[j]) {
        assert e[i] == d[i];
        IndexOfPrefix(s, n, d[i]);
        if j < |d| {
          assert e[j] == d[j];
          IndexOfPrefix(s, n, d[j]);
        } else {
          IndexOfFresh(s, n);
        }
      }
    }
  }

  /** An element that does not occur before position `n` is first found there. */
  lemma IndexOfFresh<T>(s: seq<T>, n: nat)
    requires n < |s| && s[n] !in s[..n]
    ensures IndexOf(s, s[n]) == n
  {
    var i := IndexOf(s, s[n]);
    assert forall k :: 0 <= k < n ==> s[..n][k] == s[k];
    assert forall k :: 0 <= k < i ==> s[..i][k] == s[k];
  }

  /** An element of a prefix of `s` is first found at the same position in
      `s` as in the prefix. */
  lemma {:induction false} IndexOfPrefix<T>(s: seq<T>, n: nat, x: T)
    requires n <= |s| && x in s[..n]
    ensures IndexOf(s, x) == IndexOf(s[..n], x)
  {
    if s[0] != x {
      assert s[..n][1..] == s[1..][..n - 1];
      IndexOfPrefix(s[1..], n - 1, x);
    }
  }

  /** The value of the last pair of `kvs` whose key is `k`, if any. */
  function LastValue<K(==), V>(kvs: seq<(K, V)>, k: K): (r: Option<V>)
    ensures r.None? <==> forall i :: 0 <= i < |kvs| ==> kvs[i].0 != k
    ensures r.Some? ==> exists i :: 0 <= i < |kvs| && kvs[i] == (k, r.value) &&
                                    forall j :: i < j < |kvs| ==> kvs[j].0 != k
  {
    if kvs == [] then None
    else
      var n := |kvs| - 1;
      if kvs[n].0 == k then Some(kvs[n].1) else LastValue(kvs[..n], k)
  }

  /** Building a dictionary from pairs keeps one entry per distinct key, at the
      position of that key's first occurrence and with the value of its last. */
  lemma {:induction false} CollapseFirstPositionLastValue<K, V>(kvs: seq<(K, V)>)
    ensures Keys(Collapse(kvs)) == Dedup(Keys(kvs))
    ensures forall i :: 0 <= i < |Collapse(kvs)| ==>
              LastValue(kvs, Collapse(kvs)[i].0) == Some(Collapse(kvs)[i].1)
  {
    if kvs != [] {
      var n := |kvs| - 1;
      var init := kvs[..n];
      var (k, v) := kvs[n];
      CollapseFirstPositionLastValue(init);
      var c := Collapse(init);
      var c' := Collapse(kvs);
      assert c' == Assigned(c, k, v);
      assert Keys(kvs)[..n] == Keys(init);
      assert Keys(kvs)[n] == k;
      assert k in Keys(c) <==> k in Keys(init);
      forall i | 0 <= i < |c'|
        ensures LastValue(kvs, c'[i].0) == Some(c'[i].1)
      {
        if c'[i].0 != k {
          assert Keys(c')[i] != k;
          assert i < |c|;
          assert c'[i] == c[i];
          assert LastValue(kvs, c'[i].0) == LastValue(init, c[i].0);
        }
      }
    }
  }

  /** A dictionary built from pairs has one entry per distinct key. */
  lemma CollapseSize<K, V>(kvs: seq<(K, V)>)
    ensures |Collapse(kvs)| == |set k | k in Keys(kvs)|
  {
    CollapseFirstPositionLastValue(kvs);
    assert |Collapse(kvs)| == |Keys(Collapse(kvs))|;
    DedupSize(Keys(kvs));
  }

  /** Removing repetitions leaves as many elements as `s` has distinct ones. */
  lemma {:induction false} DedupSize<T>(s: seq<T>)
    ensures |Dedup(s)| == |set x | x in s|
  {
    if s != [] {
      var n := |s| - 1;
      DedupSize(s[..n]);
      assert s == s[..n] + [s[n]];
      assert (set x | x in s) == (set x | x in s[..n]) + {s[n]};
    }
  }
}
