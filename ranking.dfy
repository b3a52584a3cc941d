/** Ranking of a catalog for one student (recommend_programs in orient_ai.py):
    score every program in catalog order, sort the pairs by score, highest
    first, with a stable sort, and keep the slice scored[:top_k]. */
module Ranking {
  import opened Scoring
  import opened StableSort

  /** The items paired with their scores, in their original order. */
  function Scored<T>(items: seq<T>, score: T -> real): (r: seq<Entry<T>>)
    ensures |r| == |items|
    ensures forall i :: 0 <= i < |items| ==> r[i] == (items[i], score(items[i]))
  {
    if items == [] then []
    else
      var x := items[|items| - 1];
      Scored(items[..|items| - 1], score) + [(x, score(x))]
  }

  /** The score of each program for this student. */
  function ScoreOf(student: StudentProfile): (f: Program -> real)
    ensures forall p :: 0.0 <= f(p) <= 1.0
  {
    p => Score(student, p)
  }

  /** The full ranked catalog. */
  function Ranked(student: StudentProfile, programs: seq<Program>): (r: seq<Entry<Program>>)
    ensures |r| == |programs|
    ensures SortedDesc(r)
    ensures multiset(r) == multiset(Scored(programs, ScoreOf(student)))
  {
    var scored := Scored(programs, ScoreOf(student));
    StableSortDescSorted(scored);
    StableSortDescPermutes(scored);
    StableSortDesc(scored)
  }

  /** End index of Python's slice s[:k] on a list of length n. */
  function SliceEnd(n: nat, k: int): (e: nat)
    ensures e <= n
  {
    if k >= 0 then (if k < n then k else n)
    else if n + k > 0 then n + k else 0
  }

  /** Each item occurs in the scored list, with its own score, as often as
      it occurs in the original list. */
  lemma {:induction false} ScoredCount<T>(items: seq<T>, score: T -> real, x: T)
    ensures multiset(Scored(items, score))[(x, score(x))] == multiset(items)[x]
  {
    if items != [] {
      var init, last := items[..|items| - 1], items[|items| - 1];
      ScoredCount(init, score, x);
      assert items == init + [last];
    }
  }

  /** Every scored entry is an original item with its own score. */
  lemma {:induction false} ScoredMembers<T>(items: seq<T>, score: T -> real)
    ensures forall e :: e in Scored(items, score) ==> e.0 in items && e.1 == score(e.0)
  {
    if items != [] {
      var init := items[..|items| - 1];
      ScoredMembers(init, score);
      assert forall x :: x in init ==> x in items;
    }
  }

  /** A prefix holds no entry more often than the whole list. */
  lemma PrefixMultiset<E>(s: seq<E>, k: nat)
    requires k <= |s|
    ensures multiset(s[..k]) <= multiset(s)
  {
    assert s == s[..k] + s[k..];
  }

  /** An entry of a prefix of the ranking is an original item with its own
      score, kept no more often than the item occurs in the original list. */
  lemma PrefixEntry<T>(items: seq<T>, score: T -> real, k: nat, e: Entry<T>)
    requires k <= |items| && e in StableSortDesc(Scored(items, score))[..k]
    ensures e.0 in items && e.1 == score(e.0)
    ensures multiset(StableSortDesc(Scored(items, score))[..k])[e] <= multiset(items)[e.0]
  {
    var scored := Scored(items, score);
    var ranked := StableSortDesc(scored);
    var top := ranked[..k];
    StableSortDescPermutes(scored);
    PrefixMultiset(ranked, k);
    assert multiset(top)[e] <= multiset(scored)[e];
    assert e in scored by { assert e in multiset(scored); }
    ScoredMembers(items, score);
    assert e.0 in items && e.1 == score(e.0);
    assert e == (e.0, score(e.0));
    ScoredCount(items, score, e.0);
  }

  lemma PrefixEntries<T>(items: seq<T>, score: T -> real, k: nat)
    requires k <= |items|
    ensures forall e :: e in StableSortDesc(Scored(items, score))[..k] ==>
              e.0 in items && e.1 == score(e.0)
              && multiset(StableSortDesc(Scored(items, score))[..k])[e] <= multiset(items)[e.0]
  {
    forall e | e in StableSortDesc(Scored(items, score))[..k]
      ensures e.0 in items && e.1 == score(e.0)
      ensures multiset(StableSortDesc(Scored(items, score))[..k])[e] <= multiset(items)[e.0]
    {
      PrefixEntry(items, score, k, e);
    }
  }

  /** Any prefix of the ranking is sorted, holds each item with its own
      score and at most as often as the original list does, and lists tied
      items as the earliest of their ties in the original order. */
  lemma RankedPrefix<T>(items: seq<T>, score: T -> real, k: nat)
    requires k <= |items|
    ensures SortedDesc(StableSortDesc(Scored(items, score))[..k])
    ensures forall e :: e in StableSortDesc(Scored(items, score))[..k] ==>
              e.0 in items && e.1 == score(e.0)
              && multiset(StableSortDesc(Scored(items, score))[..k])[e] <= multiset(items)[e.0]
    ensures forall v :: Ties(StableSortDesc(Scored(items, score))[..k], v) <= Ties(Scored(items, score), v)
  {
    StableSortDescSorted(Scored(items, score));
    PrefixEntries(items, score, k);
    forall v ensures Ties(StableSortDesc(Scored(items, score))[..k], v) <= Ties(Scored(items, score), v) {
      PrefixTies(Scored(items, score), k, v);
    }
  }

  /** The loop of recommend_programs that pairs each program with its score,
      in catalog order. */
  method ScoreCatalog(student: StudentProfile, programs: seq<Program>)
    returns (scored: seq<Entry<Program>>)
    ensures scored == Scored(programs, ScoreOf(student))
  {
    scored := [];
    var i := 0;
    while i < |programs|
      invariant 0 <= i <= |programs|
      invariant scored == Scored(programs[..i], ScoreOf(student))
    {
      var p := programs[i];
      var s := ScoreFor(p, student);
      scored := scored + [(p, s)];
      assert programs[..i + 1][..i] == programs[..i];
      i := i + 1;
    }
    assert programs[..i] == programs;
  }

  /** The first k entries of the ranking: sorted, each a catalog program with
      its own score and no more often than in the catalog, each scoring at
      least as much as every entry left out, and tied programs in catalog
      order. */
  lemma TopOfRanking(student: StudentProfile, programs: seq<Program>, k: nat)
    requires k <= |programs|
    ensures SortedDesc(Ranked(student, programs)[..k])
    ensures forall i, j :: 0 <= i < k <= j < |programs| ==>
              Ranked(student, programs)[..k][i].1 >= Ranked(student, programs)[j].1
    ensures forall e :: e in Ranked(student, programs)[..k] ==>
              e.0 in programs && e.1 == Score(student, e.0)
              && multiset(Ranked(student, programs)[..k])[e] <= multiset(programs)[e.0]
    ensures forall v :: Ties(Ranked(student, programs)[..k], v) <= Ties(Scored(programs, ScoreOf(student)), v)
  {
    RankedPrefix(programs, ScoreOf(student), k);
    KeptBeatDropped(Ranked(student, programs), k);
  }

  /** recommend_programs: the top_k best programs with their scores. */
  method RecommendPrograms(student: StudentProfile, programs: seq<Program>, topK: int := 3)
    returns (result: seq<Entry<Program>>)
    ensures result == Ranked(student, programs)[..SliceEnd(|programs|, topK)]
    ensures topK >= 0 ==> |result| == if topK < |programs| then topK else |programs|
    ensures topK < 0 ==> |result| == if |programs| + topK > 0 then |programs| + topK else 0
    ensures SortedDesc(result)
    ensures forall i, j :: 0 <= i < |result| <= j < |programs| ==>
              result[i].1 >= Ranked(student, programs)[j].1
    ensures forall e :: e in result ==>
              e.0 in programs && e.1 == Score(student, e.0)
              && multiset(result)[e] <= multiset(programs)[e.0]
    ensures forall v :: Ties(result, v) <= Ties(Scored(programs, ScoreOf(student)), v)
  {
    var scored := ScoreCatalog(student, programs);
    var a := new Entry<Program>[|scored|](k requires 0 <= k < |scored| => scored[k]);
    assert a[..] == scored;
    SortByScoreDesc(a);
    result := a[..SliceEnd(a.Length, topK)];
    assert result == Ranked(student, programs)[..|result|];
    TopOfRanking(student, programs, |result|);
  }
}
