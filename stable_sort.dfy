/** `sorted(items, key=operator.itemgetter(1), reverse=True)`: a stable sort of
    (name, length) pairs by length, longest first. Python's sort stays stable
    with `reverse=True`, so pairs of equal length keep their relative order.
    SortDesc defines it as an insertion sort written as a function, and
    StableSortIsUnique shows that any stable descending sort agrees with it. */
module StableSort {
  import opened OrderedDict

  /** Lengths never increase from one pair to a later one. */
  predicate NonIncreasing<K>(s: seq<(K, nat)>) {
    forall i, j :: 0 <= i < j < |s| ==> s[i].1 >= s[j].1
  }

  /** The pairs of `s` whose length is `n`, in their order in `s`. */
  function WithLength<K>(s: seq<(K, nat)>, n: nat): (r: seq<(K, nat)>)
    ensures |r| <= |s|
    ensures forall i :: 0 <= i < |r| ==> r[i].1 == n && r[i] in s
  {
    if s == [] then []
    else
      var m := |s| - 1;
      WithLength(s[..m], n) + (if s[m].1 == n then [s[m]] else [])
  }

  /** Inserts `x` after every pair at least as long as it, scanning from the
      end of `t`: what one outer step of an insertion sort does. */
  function Insert<K>(t: seq<(K, nat)>, x: (K, nat)): (r: seq<(K, nat)>)
    ensures |r| == |t| + 1
  {
    if t == [] || t[|t| - 1].1 >= x.1 then t + [x]
    else
      var m := |t| - 1;
      Insert(t[..m], x) + [t[m]]
  }

  /** Insertion adds `x` and nothing else. */
  lemma {:induction false} InsertPermutes<K>(t: seq<(K, nat)>, x: (K, nat))
    ensures multiset(Insert(t, x)) == multiset(t) + multiset{x}
  {
    if t != [] && t[|t| - 1].1 < x.1 {
      var m := |t| - 1;
      InsertPermutes(t[..m], x);
      assert t == t[..m] + [t[m]];
    }
  }

  /** The stable descending sort of `s`. */
  function SortDesc<K>(s: seq<(K, nat)>): (r: seq<(K, nat)>)
    ensures |r| == |s|
    ensures NonIncreasing(r)
  {
    if s == [] then []
    else
      var m := |s| - 1;
      InsertSorted(SortDesc(s[..m]), s[m]);
      Insert(SortDesc(s[..m]), s[m])
  }

  /** Sorting neither adds nor drops a pair: the result is a permutation. */
  lemma {:induction false} SortDescPermutes<K>(s: seq<(K, nat)>)
    ensures multiset(SortDesc(s)) == multiset(s)
  {
    if s != [] {
      var m := |s| - 1;
      SortDescPermutes(s[..m]);
      InsertPermutes(SortDesc(s[..m]), s[m]);
      assert s == s[..m] + [s[m]];
    }
  }

  /** Insertion keeps a non-increasing sequence non-increasing. */
  lemma {:induction false} InsertSorted<K>(t: seq<(K, nat)>, x: (K, nat))
    requires NonIncreasing(t)
    ensures NonIncreasing(Insert(t, x))
  {
    if t != [] && t[|t| - 1].1 < x.1 {
      var m := |t| - 1;
      InsertSorted(t[..m], x);
      var u := Insert(t[..m], x);
      InsertPermutes(t[..m], x);
      forall k | 0 <= k < |u| ensures u[k].1 >= t[m].1 {
        assert u[k] in multiset(u);
        if u[k] != x {
          assert u[k] in multiset(t[..m]);
          var p :| 0 <= p < m && t[..m][p] == u[k];
          assert t[p] == u[k];
        }
      }
      assert Insert(t, x) == u + [t[m]];
    }
  }

  lemma WithLengthSnoc<K>(s: seq<(K, nat)>, x: (K, nat), n: nat)
    ensures WithLength(s + [x], n) == WithLength(s, n) + (if x.1 == n then [x] else [])
  {
    assert (s + [x])[..|s|] == s;
  }

  /** Insertion puts `x` behind every pair of its own length already in `t`. */
  lemma {:induction false} InsertWithLength<K>(t: seq<(K, nat)>, x: (K, nat), n: nat)
    ensures WithLength(Insert(t, x), n) == WithLength(t, n) + (if x.1 == n then [x] else [])
  {
    if t == [] || t[|t| - 1].1 >= x.1 {
      WithLengthSnoc(t, x, n);
    } else {
      var m := |t| - 1;
      var u := Insert(t[..m], x);
      assert Insert(t, x) == u + [t[m]];
      InsertWithLength(t[..m], x, n);
      WithLengthSnoc(u, t[m], n);
      assert t == t[..m] + [t[m]];
      WithLengthSnoc(t[..m], t[m], n);
      if x.1 == n {
        assert t[m].1 != n;
      }
    }
  }

  /** Stability: among pairs of one length the sort keeps the input's order. */
  lemma {:induction false} SortDescStable<K>(s: seq<(K, nat)>, n: nat)
    ensures WithLength(SortDesc(s), n) == WithLength(s, n)
  {
    if s != [] {
      var m := |s| - 1;
      SortDescStable(s[..m], n);
      InsertWithLength(SortDesc(s[..m]), s[m], n);
      WithLengthSnoc(s[..m], s[m], n);
      assert s == s[..m] + [s[m]];
    }
  }

  /** Sorting keeps the names of `s` free of repetitions. */
  lemma SortDescDistinctKeys<K>(s: seq<(K, nat)>)
    requires DistinctKeys(s)
    ensures DistinctKeys(SortDesc(s))
  {
    SortDescPermutes(s);
    PermutationKeepsDistinctKeys(s, SortDesc(s));
  }

  /** A rearrangement of pairs with distinct names has distinct names. */
  lemma PermutationKeepsDistinctKeys<K>(s: seq<(K, nat)>, r: seq<(K, nat)>)
    requires multiset(r) == multiset(s) && DistinctKeys(s)
    ensures DistinctKeys(r)
  {
    forall i, j | 0 <= i < j < |r| ensures r[i].0 != r[j].0 {
      var p := MultisetIndex(s, r, i);
      var q := MultisetIndex(s, r, j);
      assert r[i].0 == r[j].0 ==> p == q;
      CountAtTwoPositions(r, i, j);
      CountOfDistinctKey(s, p);
    }
  }

  /** Where an element of a permutation comes from in the original. */
  lemma MultisetIndex<T>(s: seq<T>, r: seq<T>, i: nat) returns (p: nat)
    requires multiset(r) == multiset(s) && i < |r|
    ensures p < |s| && s[p] == r[i]
  {
    assert r[i] in multiset(r);
    p :| 0 <= p < |s| && s[p] == r[i];
  }

  lemma CountAtTwoPositions<T>(r: seq<T>, i: nat, j: nat)
    requires i < j < |r|
    ensures multiset(r)[r[i]] >= if r[i] == r[j] then 2 else 1
  {
    assert r == r[..i] + [r[i]] + r[i + 1..j] + [r[j]] + r[j + 1..];
  }

  lemma CountOfDistinctKey<K>(s: seq<(K, nat)>, p: nat)
    requires DistinctKeys(s) && p < |s|
    ensures multiset(s)[s[p]] == 1
  {
    assert s == s[..p] + [s[p]] + s[p + 1..];
    assert s[p] !in s[..p];
    assert s[p] !in s[p + 1..];
  }

  /** An element of `s` is among the pairs of `s` that have its length. */
  lemma {:induction false} WithLengthContains<K>(s: seq<(K, nat)>, i: nat)
    requires i < |s|
    ensures s[i] in WithLength(s, s[i].1)
  {
    var m := |s| - 1;
    if i < m {
      WithLengthContains(s[..m], i);
    }
  }

  /** A non-increasing order that keeps each length's pairs in a given order
      is determined by those orders: two such sequences are equal. */
  lemma {:induction false} NonIncreasingDeterminedByLengthClasses<K>(r1: seq<(K, nat)>, r2: seq<(K, nat)>)
    requires NonIncreasing(r1) && NonIncreasing(r2)
    requires forall n: nat :: WithLength(r1, n) == WithLength(r2, n)
    ensures r1 == r2
    decreases |r1|
  {
    if r1 == [] && r2 == [] {
    } else if r1 == [] {
      WithLengthContains(r2, 0);
    } else if r2 == [] {
      WithLengthContains(r1, 0);
    } else {
      var n1, n2 := r1[|r1| - 1].1, r2[|r2| - 1].1;
      assert WithLength(r1, n1) == WithLength(r2, n1);
      assert WithLength(r2, n2) == WithLength(r1, n2);
      LastAtLeast(r1, r2);
      LastAtLeast(r2, r1);
      var i1, i2 := r1[..|r1| - 1], r2[..|r2| - 1];
      LengthClassesOfInits(r1, r2, i1, i2);
      NonIncreasingDeterminedByLengthClasses(i1, i2);
      assert r1 == i1 + [r1[|r1| - 1]] && r2 == i2 + [r2[|r2| - 1]];
    }
  }

  /** When `r2` has the pairs of the length of `r1`'s last pair that `r1` has,
      that last pair is at least as long as the last pair of the
      non-increasing `r2`. */
  lemma LastAtLeast<K>(r1: seq<(K, nat)>, r2: seq<(K, nat)>)
    requires r1 != [] && r2 != [] && NonIncreasing(r2)
    requires WithLength(r1, r1[|r1| - 1].1) == WithLength(r2, r1[|r1| - 1].1)
    ensures r1[|r1| - 1].1 >= r2[|r2| - 1].1
  {
  }

  /** Dropping the last pair of two sequences with the same length classes
      whose last pairs are equally long: those pairs are the same and what is
      left has the same length classes. */
  lemma LengthClassesOfInits<K>(r1: seq<(K, nat)>, r2: seq<(K, nat)>, i1: seq<(K, nat)>, i2: seq<(K, nat)>)
    requires r1 != [] && r2 != [] && r1[|r1| - 1].1 == r2[|r2| - 1].1
    requires i1 == r1[..|r1| - 1] && i2 == r2[..|r2| - 1]
    requires forall n: nat :: WithLength(r1, n) == WithLength(r2, n)
    ensures r1[|r1| - 1] == r2[|r2| - 1]
    ensures forall n: nat :: WithLength(i1, n) == WithLength(i2, n)
  {
    var a, b := r1[|r1| - 1], r2[|r2| - 1];
    var n0 := a.1;
    var w1, w2 := WithLength(i1, n0), WithLength(i2, n0);
    assert WithLength(r1, n0) == w1 + [a];
    assert WithLength(r2, n0) == w2 + [b];
    assert w1 + [a] == w2 + [b];
    assert (w1 + [a])[|w1|] == a && (w2 + [b])[|w2|] == b;
    assert |w1| == |w2|;
    assert w1 == (w1 + [a])[..|w1|] && w2 == (w2 + [b])[..|w2|];
    assert w1 == w2;
    forall n: nat ensures WithLength(i1, n) == WithLength(i2, n) {
      assert WithLength(r1, n) == WithLength(r2, n);
      assert WithLength(r1, n) == WithLength(i1, n) + (if a.1 == n then [a] else []);
      assert WithLength(r2, n) == WithLength(i2, n) + (if b.1 == n then [b] else []);
      if n != n0 {
        assert WithLength(r1, n) == WithLength(i1, n);
        assert WithLength(r2, n) == WithLength(i2, n);
      }
    }
  }

  /** SortDesc is the one stable descending order of `s`: any non-increasing
      sequence that keeps each length's pairs in input order equals it. So
      the sort above yields what any stable sort by length would. */
  lemma StableSortIsUnique<K>(s: seq<(K, nat)>, r: seq<(K, nat)>)
    requires NonIncreasing(r)
    requires forall n: nat :: WithLength(r, n) == WithLength(s, n)
    ensures r == SortDesc(s)
  {
    forall n: nat ensures WithLength(r, n) == WithLength(SortDesc(s), n) {
      SortDescStable(s, n);
    }
    NonIncreasingDeterminedByLengthClasses(r, SortDesc(s));
  }

  /** Places `x` at position `j` of `t` when everything from `j` on is shorter
      than `x` and the pair before `j`, if any, is at least as long. */
  lemma {:induction false} InsertAt<K>(t: seq<(K, nat)>, j: nat, x: (K, nat))
    requires j <= |t|
    requires forall m :: j <= m < |t| ==> t[m].1 < x.1
    requires j == 0 || t[j - 1].1 >= x.1
    ensures Insert(t, x) == t[..j] + [x] + t[j..]
    decreases |t|
  {
    if j < |t| {
      var m := |t| - 1;
      var init := t[..m];
      assert t[m].1 < x.1;
      assert Insert(t, x) == Insert(init, x) + [t[m]];
      InsertAt(init, j, x);
      SnocSplit(t, j);
    }
  }

  lemma SnocSplit<T>(t: seq<T>, j: nat)
    requires j < |t|
    ensures t[..|t| - 1][..j] == t[..j]
    ensures t[..|t| - 1][j..] + [t[|t| - 1]] == t[j..]
  {
  }
}
