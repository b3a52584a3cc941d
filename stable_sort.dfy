/** Stable sorting of (item, score) pairs by score, highest first: a
    reference definition by insertion, its properties, and the in-place
    insertion sort proved equal to it. The carried item is left abstract. */
module StableSort {

  /** An item with its score, as the (program, score) tuples of the source. */
  type Entry<T> = (T, real)

  /** Scores never increase from left to right. */
  predicate SortedDesc<T>(s: seq<Entry<T>>)
  {
    forall i, j :: 0 <= i < j < |s| ==> s[i].1 >= s[j].1
  }

  /** The entries whose score is exactly v, in the order they appear. */
  function Ties<T>(s: seq<Entry<T>>, v: real): seq<Entry<T>>
  {
    if s == [] then []
    else Ties(s[..|s| - 1], v) + (if s[|s| - 1].1 == v then [s[|s| - 1]] else [])
  }

  /** Places x after every entry of `ranked` whose score is at least x's,
      scanning from the right, as one step of insertion sort does. */
  function Insert<T>(ranked: seq<Entry<T>>, x: Entry<T>): (r: seq<Entry<T>>)
    ensures |r| == |ranked| + 1
    decreases |ranked|
  {
    if ranked == [] || ranked[|ranked| - 1].1 >= x.1 then ranked + [x]
    else Insert(ranked[..|ranked| - 1], x) + [ranked[|ranked| - 1]]
  }

  /** Reference stable sort by score, highest first: what Python's
      list.sort(key=score, reverse=True) produces. */
  function StableSortDesc<T>(s: seq<Entry<T>>): (r: seq<Entry<T>>)
    ensures |r| == |s|
  {
    if s == [] then [] else Insert(StableSortDesc(s[..|s| - 1]), s[|s| - 1])
  }

  // ---------------------------------------------------------------------------
  // The reference sort is a stable, descending permutation
  // ---------------------------------------------------------------------------

  lemma {:induction false} InsertPermutes<T>(ranked: seq<Entry<T>>, x: Entry<T>)
    ensures multiset(Insert(ranked, x)) == multiset(ranked) + multiset{x}
    decreases |ranked|
  {
    if ranked != [] && ranked[|ranked| - 1].1 < x.1 {
      var init, last := ranked[..|ranked| - 1], ranked[|ranked| - 1];
      InsertPermutes(init, x);
      assert ranked == init + [last];
    }
  }

  lemma {:induction false} InsertSorted<T>(ranked: seq<Entry<T>>, x: Entry<T>)
    requires SortedDesc(ranked)
    ensures SortedDesc(Insert(ranked, x))
    decreases |ranked|
  {
    if ranked != [] && ranked[|ranked| - 1].1 < x.1 {
      var init, last := ranked[..|ranked| - 1], ranked[|ranked| - 1];
      var front := Insert(init, x);
      InsertSorted(init, x);
      InsertPermutes(init, x);
      forall i | 0 <= i < |front| ensures front[i].1 >= last.1 {
        assert front[i] in multiset(init) + multiset{x};
      }
    }
  }

  lemma {:induction false} TiesConcat<T>(a: seq<Entry<T>>, b: seq<Entry<T>>, v: real)
    ensures Ties(a + b, v) == Ties(a, v) + Ties(b, v)
  {
    if b == [] {
      assert a + b == a;
    } else {
      assert (a + b)[..|a + b| - 1] == a + b[..|b| - 1];
      TiesConcat(a, b[..|b| - 1], v);
    }
  }

  lemma {:induction false} InsertKeepsTies<T>(ranked: seq<Entry<T>>, x: Entry<T>, v: real)
    ensures Ties(Insert(ranked, x), v) == Ties(ranked, v) + Ties([x], v)
    decreases |ranked|
  {
    if ranked == [] || ranked[|ranked| - 1].1 >= x.1 {
      TiesConcat(ranked, [x], v);
    } else {
      var init, last := ranked[..|ranked| - 1], ranked[|ranked| - 1];
      InsertKeepsTies(init, x, v);
      TiesConcat(Insert(init, x), [last], v);
      TiesConcat(init, [last], v);
      assert ranked == init + [last];
      assert [x][..0] == [] && [last][..0] == [];
    }
  }

  /** The reference sort puts scores in non-increasing order. */
  lemma {:induction false} StableSortDescSorted<T>(s: seq<Entry<T>>)
    ensures SortedDesc(StableSortDesc(s))
  {
    if s != [] {
      StableSortDescSorted(s[..|s| - 1]);
      InsertSorted(StableSortDesc(s[..|s| - 1]), s[|s| - 1]);
    }
  }

  /** The reference sort rearranges its input: nothing added, nothing lost. */
  lemma {:induction false} StableSortDescPermutes<T>(s: seq<Entry<T>>)
    ensures multiset(StableSortDesc(s)) == multiset(s)
  {
    if s != [] {
      StableSortDescPermutes(s[..|s| - 1]);
      InsertPermutes(StableSortDesc(s[..|s| - 1]), s[|s| - 1]);
      assert s == s[..|s| - 1] + [s[|s| - 1]];
    }
  }

  /** Stability: for every score value, the entries with that score appear in
      the sorted list in exactly their original relative order. */
  lemma {:induction false} StableSortDescStable<T>(s: seq<Entry<T>>, v: real)
    ensures Ties(StableSortDesc(s), v) == Ties(s, v)
  {
    if s != [] {
      var init, last := s[..|s| - 1], s[|s| - 1];
      StableSortDescStable(init, v);
      InsertKeepsTies(StableSortDesc(init), last, v);
      TiesConcat(init, [last], v);
      assert s == init + [last];
    }
  }

  lemma {:induction false} TiesMembers<T>(s: seq<Entry<T>>, v: real)
    ensures forall e :: e in Ties(s, v) <==> e in s && e.1 == v
  {
    if s != [] {
      TiesMembers(s[..|s| - 1], v);
      assert s == s[..|s| - 1] + [s[|s| - 1]];
    }
  }

  /** The score of the last entry (the lowest one in a sorted list). */
  function LowestScore<T>(s: seq<Entry<T>>): real
  {
    if s == [] then 0.0 else s[|s| - 1].1
  }

  /** A non-empty list has a non-empty tie group at its last entry's score. */
  lemma TiesNonEmpty<T>(s: seq<Entry<T>>)
    ensures s != [] ==> Ties(s, LowestScore(s)) != []
  {
    if s != [] {
      var t := Ties(s[..|s| - 1], s[|s| - 1].1);
      assert Ties(s, s[|s| - 1].1) == t + [s[|s| - 1]];
    }
  }

  /** Sorted lists with the same tie groups end with the same score. */
  lemma LastScoresEqual<T>(a: seq<Entry<T>>, b: seq<Entry<T>>)
    requires SortedDesc(a) && SortedDesc(b) && a != [] && b != []
    requires Ties(a, a[|a| - 1].1) == Ties(b, a[|a| - 1].1)
    requires Ties(a, b[|b| - 1].1) == Ties(b, b[|b| - 1].1)
    ensures a[|a| - 1].1 == b[|b| - 1].1
  {
    var x, y := a[|a| - 1], b[|b| - 1];
    TiesMembers(a, x.1);
    TiesMembers(b, y.1);
    assert x in Ties(a, x.1) by { assert x in a; }
    assert y in Ties(b, y.1) by { assert y in b; }
    TiesMembers(b, x.1);
    TiesMembers(a, y.1);
    var i :| 0 <= i < |b| && b[i] == x;
    var j :| 0 <= j < |a| && a[j] == y;
    if i < |b| - 1 { assert b[i].1 >= b[|b| - 1].1; }
    if j < |a| - 1 { assert a[j].1 >= a[|a| - 1].1; }
  }

  /** Sorted lists with the same tie groups end with the same entry. */
  lemma SortedTiesLast<T>(a: seq<Entry<T>>, b: seq<Entry<T>>)
    requires SortedDesc(a) && SortedDesc(b) && a != [] && b != []
    requires Ties(a, a[|a| - 1].1) == Ties(b, a[|a| - 1].1)
    requires Ties(a, b[|b| - 1].1) == Ties(b, b[|b| - 1].1)
    ensures a[|a| - 1] == b[|b| - 1]
  {
    var x, y := a[|a| - 1], b[|b| - 1];
    LastScoresEqual(a, b);
    var ta, tb := Ties(a[..|a| - 1], x.1), Ties(b[..|b| - 1], x.1);
    assert Ties(a, x.1) == ta + [x];
    assert Ties(b, x.1) == tb + [y];
    assert |ta| == |tb|;
    assert (ta + [x])[|ta|] == x;
    assert (tb + [y])[|tb|] == y;
  }

  /** Removing the same last entry from lists with the same tie groups leaves
      lists with the same tie groups. */
  lemma TiesDropLast<T>(a: seq<Entry<T>>, b: seq<Entry<T>>, v: real)
    requires a != [] && b != [] && a[|a| - 1] == b[|b| - 1]
    requires Ties(a, v) == Ties(b, v)
    ensures Ties(a[..|a| - 1], v) == Ties(b[..|b| - 1], v)
  {
    var x := a[|a| - 1];
    var ta, tb := Ties(a[..|a| - 1], v), Ties(b[..|b| - 1], v);
    var tail := if x.1 == v then [x] else [];
    assert Ties(a, v) == ta + tail;
    assert Ties(b, v) == tb + tail;
    assert |ta| == |tb|;
    forall i | 0 <= i < |ta| ensures ta[i] == tb[i] {
      assert ta[i] == (ta + tail)[i];
      assert tb[i] == (tb + tail)[i];
    }
  }

  /** Two score-sorted lists with the same tie groups, in the same order, are
      the same list. */
  lemma {:induction false} SortedTiesDetermine<T>(a: seq<Entry<T>>, b: seq<Entry<T>>)
    requires SortedDesc(a) && SortedDesc(b)
    requires forall v :: Ties(a, v) == Ties(b, v)
    ensures a == b
    decreases |a| + |b|
  {
    if a == [] || b == [] {
      TiesNonEmpty(a);
      TiesNonEmpty(b);
    } else {
      SortedTiesLast(a, b);
      var a', b' := a[..|a| - 1], b[..|b| - 1];
      forall v ensures Ties(a', v) == Ties(b', v) {
        TiesDropLast(a, b, v);
      }
      SortedTiesDetermine(a', b');
      assert a == a' + [a[|a| - 1]];
      assert b == b' + [b[|b| - 1]];
    }
  }

  /** The reference sort is the only score-sorted arrangement that keeps every
      tie group in its original order: any stable descending sort agrees with it. */
  lemma StableSortDescUnique<T>(s: seq<Entry<T>>, r: seq<Entry<T>>)
    requires SortedDesc(r)
    requires forall v :: Ties(r, v) == Ties(s, v)
    ensures r == StableSortDesc(s)
  {
    StableSortDescSorted(s);
    forall v ensures Ties(r, v) == Ties(StableSortDesc(s), v) {
      StableSortDescStable(s, v);
    }
    SortedTiesDetermine(r, StableSortDesc(s));
  }

  lemma PrefixTies<T>(s: seq<Entry<T>>, k: nat, v: real)
    requires k <= |s|
    ensures Ties(StableSortDesc(s)[..k], v) <= Ties(s, v)
  {
    var ranked := StableSortDesc(s);
    assert ranked == ranked[..k] + ranked[k..];
    TiesConcat(ranked[..k], ranked[k..], v);
    StableSortDescStable(s, v);
  }

  /** In a score-sorted list, every entry of a prefix scores at least as
      much as every entry after it. */
  lemma KeptBeatDropped<T>(s: seq<Entry<T>>, k: nat)
    requires SortedDesc(s) && k <= |s|
    ensures forall i, j :: 0 <= i < k <= j < |s| ==> s[..k][i].1 >= s[j].1
  {
    forall i, j | 0 <= i < k <= j < |s| ensures s[..k][i].1 >= s[j].1 {
      assert s[..k][i] == s[i];
    }
  }

  // ---------------------------------------------------------------------------
  // The in-place sort
  // ---------------------------------------------------------------------------

  /** Insert places the key right after the last entry scoring at least as
      much, and before the run of strictly lower entries that ends the list. */
  lemma {:induction false} InsertAt<T>(prefix: seq<Entry<T>>, j: nat, key: Entry<T>)
    requires j <= |prefix| && (j == 0 || prefix[j - 1].1 >= key.1)
    requires forall m :: j <= m < |prefix| ==> prefix[m].1 < key.1
    ensures Insert(prefix, key) == prefix[..j] + [key] + prefix[j..]
    decreases |prefix|
  {
    var n := |prefix|;
    if j == n {
      assert prefix[..j] == prefix && prefix[j..] == [];
    } else {
      var init := prefix[..n - 1];
      assert init[..j] == prefix[..j];
      InsertAt(init, j, key);
      assert prefix[j..] == init[j..] + [prefix[n - 1]];
    }
  }

  /** One pass of insertion sort: moves a[i] left past the entries of the
      sorted prefix a[..i] that score strictly lower, shifting them right. */
  method InsertIntoPrefix<T>(a: array<Entry<T>>, i: nat)
    requires i < a.Length
    modifies a
    ensures a[..i + 1] == Insert(old(a[..i]), old(a[i]))
    ensures a[i + 1..] == old(a[i + 1..])
  {
    ghost var prefix := a[..i];
    var key := a[i];
    var j := i;
    while j > 0 && a[j - 1].1 < key.1
      invariant 0 <= j <= i
      invariant forall m :: 0 <= m < j ==> a[m] == prefix[m]
      invariant forall m :: j < m <= i ==> a[m] == prefix[m - 1]
      invariant forall m :: i < m < a.Length ==> a[m] == old(a[m])
      invariant forall m :: j <= m < i ==> prefix[m].1 < key.1
    {
      a[j] := a[j - 1];
      j := j - 1;
    }
    a[j] := key;
    InsertAt(prefix, j, key);
    assert a[..i + 1] == prefix[..j] + [key] + prefix[j..];
  }

  /** Sorting one more entry of s is one more insertion. */
  lemma SortStep<T>(s: seq<Entry<T>>, i: nat)
    requires i < |s|
    ensures StableSortDesc(s[..i + 1]) == Insert(StableSortDesc(s[..i]), s[i])
  {
    assert s[..i + 1][..i] == s[..i];
  }

  /** In-place stable insertion sort by score, highest first (the source's
      scored.sort(key=score, reverse=True)). */
  method SortByScoreDesc<T>(a: array<Entry<T>>)
    modifies a
    ensures a[..] == StableSortDesc(old(a[..]))
  {
    ghost var original := a[..];
    var i := 0;
    while i < a.Length
      invariant 0 <= i <= a.Length
      invariant a[..i] == StableSortDesc(original[..i])
      invariant a[i..] == original[i..]
    {
      ghost var sorted, next := a[..i], a[i];
      assert next == original[i];
      InsertIntoPrefix(a, i);
      SortStep(original, i);
      assert a[..i + 1] == Insert(sorted, next);
      i := i + 1;
    }
    assert original[..i] == original;
    assert a[..i] == a[..];
  }
}
