/** Fitness of one program for one student: the weighted sum of a grade part,
    an interest part and an aspiration part (Program.score_for in orient_ai.py).
    All grades and scores are exact reals. */
module Scoring {

  type Subject = string
  type Keyword = string

  /** A learner's profile. `name` is carried along for display only. */
  datatype StudentProfile = StudentProfile(
    name: string,
    grades: map<Subject, real>,
    interests: seq<Keyword>,
    aspirations: seq<Keyword>)

  /** A catalog entry. `minGrades` keeps the (subject, required grade) pairs in
      the dictionary's iteration order; `id`, `name` and `domain` are display-only. */
  datatype Program = Program(
    id: string,
    name: string,
    domain: string,
    minGrades: seq<(Subject, real)>,
    tags: seq<Keyword>)

  const GradeWeight: real := 0.6
  const InterestWeight: real := 0.25
  const AspirationWeight: real := 0.15

  /** max(0.0, min(1.0, x)) */
  function Clamp01(x: real): (r: real)
    ensures 0.0 <= r <= 1.0
    ensures 0.0 <= x <= 1.0 ==> r == x
    ensures x < 0.0 ==> r == 0.0
    ensures 1.0 < x ==> r == 1.0
  {
    var m := if x < 1.0 then x else 1.0;
    if 0.0 < m then m else 0.0
  }

  /** The student's grade in `subject`, 0.0 when the subject is absent. */
  function GradeOf(grades: map<Subject, real>, subject: Subject): real
  {
    if subject in grades then grades[subject] else 0.0
  }

  /** One subject's contribution: the grade surplus over the requirement,
      shifted so that a requirement met exactly gives one half, then clamped. */
  function Normalized(studentGrade: real, required: real): (r: real)
    ensures 0.0 <= r <= 1.0
    ensures studentGrade == required ==> r == 0.5
    ensures studentGrade >= required + 5.0 ==> r == 1.0
    ensures studentGrade <= required - 5.0 ==> r == 0.0
    ensures required - 5.0 < studentGrade < required + 5.0 ==>
              r == 0.5 + (studentGrade - required) / 10.0
  {
    Clamp01(0.5 + (studentGrade - required) / 10.0)
  }

  /** The list of normalized values, one per required subject, in order. */
  function Terms(minGrades: seq<(Subject, real)>, grades: map<Subject, real>): (r: seq<real>)
    ensures |r| == |minGrades|
    ensures forall i :: 0 <= i < |r| ==> 0.0 <= r[i] <= 1.0
  {
    seq(|minGrades|, i requires 0 <= i < |minGrades| =>
      Normalized(GradeOf(grades, minGrades[i].0), minGrades[i].1))
  }

  function Sum(xs: seq<real>): (r: real)
    ensures (forall i :: 0 <= i < |xs| ==> 0.0 <= xs[i] <= 1.0) ==> 0.0 <= r <= |xs| as real
  {
    if xs == [] then 0.0 else Sum(xs[..|xs| - 1]) + xs[|xs| - 1]
  }

  /** Grade part: the mean of the normalized values, 0.0 without requirements. */
  function GradeScore(minGrades: seq<(Subject, real)>, grades: map<Subject, real>): (r: real)
    ensures 0.0 <= r <= 1.0
    ensures minGrades == [] ==> r == 0.0
  {
    if minGrades == [] then 0.0
    else
      var total := Sum(Terms(minGrades, grades));
      Fraction(total, |minGrades| as real);
      total / |minGrades| as real
  }

  /** The set of a list's elements (Python's set(...)). */
  function Elements(s: seq<Keyword>): set<Keyword>
  {
    set x | x in s
  }

  lemma IntersectionSize(a: set<Keyword>, b: set<Keyword>)
    ensures |a * b| <= |a|
  {
    assert |a - b| == |a| - |a * b|;
  }

  lemma NoCommonElements(s: seq<Keyword>, others: seq<Keyword>)
    ensures Elements(s) * Elements(others) == {} <==> forall t :: t in s ==> t !in others
  {
    if Elements(s) * Elements(others) != {} {
      var t :| t in Elements(s) * Elements(others);
    } else {
      forall t | t in s ensures t !in others {
        assert t in Elements(s);
        assert t !in Elements(s) * Elements(others);
        assert t in others ==> t in Elements(others);
      }
    }
  }

  /** A part of a positive whole, divided by the whole, lies in [0, 1]; it is
      0 only for an empty part and 1 only for the whole. */
  lemma Fraction(part: real, whole: real)
    requires 0.0 < whole && 0.0 <= part <= whole
    ensures 0.0 <= part / whole <= 1.0
    ensures part / whole == 0.0 <==> part == 0.0
    ensures part / whole == 1.0 <==> part == whole
  {
    var q := part / whole;
    assert q * whole == part;
    assert (1.0 - q) * whole == whole - part;
  }

  predicate Distinct(s: seq<Keyword>)
  {
    forall i, j :: 0 <= i < j < |s| ==> s[i] != s[j]
  }

  /** Interest part: shared keywords over the length of the tag LIST. */
  function InterestScore(tags: seq<Keyword>, interests: seq<Keyword>): (r: real)
    ensures 0.0 <= r <= 1.0
    ensures tags == [] ==> r == 0.0
    ensures r == 0.0 <==> forall t :: t in tags ==> t !in interests
  {
    var common := Elements(tags) * Elements(interests);
    if tags == [] then 0.0
    else
      ElementsSize(tags);
      IntersectionSize(Elements(tags), Elements(interests));
      NoCommonElements(tags, interests);
      Fraction(|common| as real, |tags| as real);
      |common| as real / |tags| as real
  }

  /** Aspiration part: full credit as soon as one tag is an aspiration. */
  function AspirationScore(tags: seq<Keyword>, aspirations: seq<Keyword>): (r: real)
    ensures r == 0.0 || r == 1.0
    ensures r == 1.0 <==> exists t :: t in tags && t in aspirations
  {
    var common := Elements(tags) * Elements(aspirations);
    NoCommonElements(tags, aspirations);
    if common != {} then 1.0 else 0.0
  }

  /** The fitness score of `program` for `student`. */
  function Score(student: StudentProfile, program: Program): (r: real)
    ensures 0.0 <= r <= 1.0
    ensures program.minGrades == [] && program.tags == [] ==> r == 0.0
  {
    GradeWeight * GradeScore(program.minGrades, student.grades)
    + InterestWeight * InterestScore(program.tags, student.interests)
    + AspirationWeight * AspirationScore(program.tags, student.aspirations)
  }

  /** Program.score_for: collects the normalized values in a list, averages
      them, and adds the weighted interest and aspiration parts. */
  method ScoreFor(program: Program, student: StudentProfile) returns (finalScore: real)
    ensures finalScore == Score(student, program)
    ensures 0.0 <= finalScore <= 1.0
  {
    var gradeScore: real;
    if |program.minGrades| == 0 {
      gradeScore := 0.0;
    } else {
      var scores: seq<real> := [];
      var i := 0;
      while i < |program.minGrades|
        invariant 0 <= i <= |program.minGrades|
        invariant scores == Terms(program.minGrades[..i], student.grades)
      {
        var (subject, requiredGrade) := program.minGrades[i];
        var studentGrade := GradeOf(student.grades, subject);
        var diff := studentGrade - requiredGrade;
        var normalized := 0.5 + diff / 10.0;
        normalized := Clamp01(normalized);
        scores := scores + [normalized];
        i := i + 1;
      }
      assert program.minGrades[..i] == program.minGrades;
      gradeScore := Sum(scores) / |scores| as real;
    }

    var commonTags := Elements(program.tags) * Elements(student.interests);
    var interestScore: real;
    if |program.tags| != 0 {
      interestScore := |commonTags| as real / |program.tags| as real;
    } else {
      interestScore := 0.0;
    }

    var commonAspirations := Elements(program.tags) * Elements(student.aspirations);
    var aspirationScore := if commonAspirations != {} then 1.0 else 0.0;

    finalScore := GradeWeight * gradeScore + InterestWeight * interestScore
                  + AspirationWeight * aspirationScore;
  }

  // ---------------------------------------------------------------------------
  // Properties of the grade part
  // ---------------------------------------------------------------------------

  /** A required subject the student has no grade for is scored as grade 0.0:
      it keeps its place in the mean, exactly as if 0.0 had been entered. */
  lemma MissingSubjectCountsAsZero(minGrades: seq<(Subject, real)>, grades: map<Subject, real>, k: nat)
    requires k < |minGrades| && minGrades[k].0 !in grades
    ensures |Terms(minGrades, grades)| == |minGrades|
    ensures Terms(minGrades, grades)[k] == Normalized(0.0, minGrades[k].1)
    ensures GradeScore(minGrades, grades) == GradeScore(minGrades, grades[minGrades[k].0 := 0.0])
  {
    var g0 := grades[minGrades[k].0 := 0.0];
    assert Terms(minGrades, grades) == Terms(minGrades, g0);
  }

  lemma {:induction false} SumConstant(xs: seq<real>, c: real)
    requires forall i :: 0 <= i < |xs| ==> xs[i] == c
    ensures Sum(xs) == |xs| as real * c
  {
    if xs != [] {
      var init := xs[..|xs| - 1];
      SumConstant(init, c);
      OneMorePart(|init| as real, c);
    }
  }

  /** When every required subject contributes the same value c, the grade part is c. */
  lemma GradeScoreUniform(minGrades: seq<(Subject, real)>, grades: map<Subject, real>, c: real)
    requires minGrades != []
    requires forall i :: 0 <= i < |minGrades| ==>
               Normalized(GradeOf(grades, minGrades[i].0), minGrades[i].1) == c
    ensures GradeScore(minGrades, grades) == c
  {
    var terms := Terms(minGrades, grades);
    assert forall i :: 0 <= i < |terms| ==> terms[i] == c;
    SumConstant(terms, c);
    MeanOfEqualParts(Sum(terms), |minGrades| as real, c);
  }

  /** n equal parts c, divided by n, give back c. */
  lemma MeanOfEqualParts(total: real, n: real, c: real)
    requires 0.0 < n && total == n * c
    ensures total / n == c
  {
    var q := total / n;
    assert q * n == n * c;
    assert (q - c) * n == 0.0;
  }

  /** One more part c adds c to n parts. */
  lemma OneMorePart(n: real, c: real)
    ensures n * c + c == (n + 1.0) * c
  {
  }

  /** Every requirement exceeded by at least 5 points gives a full grade part;
      every requirement missed by at least 5 points gives none. */
  lemma GradeScoreSaturates(minGrades: seq<(Subject, real)>, grades: map<Subject, real>)
    requires minGrades != []
    ensures (forall i :: 0 <= i < |minGrades| ==> GradeOf(grades, minGrades[i].0) >= minGrades[i].1 + 5.0)
              ==> GradeScore(minGrades, grades) == 1.0
    ensures (forall i :: 0 <= i < |minGrades| ==> GradeOf(grades, minGrades[i].0) <= minGrades[i].1 - 5.0)
              ==> GradeScore(minGrades, grades) == 0.0
  {
    if forall i :: 0 <= i < |minGrades| ==> GradeOf(grades, minGrades[i].0) >= minGrades[i].1 + 5.0 {
      GradeScoreUniform(minGrades, grades, 1.0);
    }
    if forall i :: 0 <= i < |minGrades| ==> GradeOf(grades, minGrades[i].0) <= minGrades[i].1 - 5.0 {
      GradeScoreUniform(minGrades, grades, 0.0);
    }
  }

  lemma {:induction false} SumConcat(a: seq<real>, b: seq<real>)
    ensures Sum(a + b) == Sum(a) + Sum(b)
  {
    if b == [] {
      assert a + b == a;
    } else {
      assert (a + b)[..|a + b| - 1] == a + b[..|b| - 1];
      SumConcat(a, b[..|b| - 1]);
    }
  }

  /** Dropping the k-th requirement removes exactly its term from the sum. */
  lemma TermSumRemove(m: seq<(Subject, real)>, k: nat, grades: map<Subject, real>)
    requires k < |m|
    ensures Sum(Terms(m, grades))
              == Sum(Terms(m[..k] + m[k + 1..], grades)) + Normalized(GradeOf(grades, m[k].0), m[k].1)
  {
    var t := Normalized(GradeOf(grades, m[k].0), m[k].1);
    var front, back := Terms(m[..k], grades), Terms(m[k + 1..], grades);
    assert Terms(m, grades) == front + [t] + back;
    assert Terms(m[..k] + m[k + 1..], grades) == front + back;
    SumConcat(front + [t], back);
    SumConcat(front, [t]);
    SumConcat(front, back);
    assert Sum([t]) == t by { assert [t][..0] == []; }
  }

  lemma MultisetRemove(m: seq<(Subject, real)>, k: nat)
    requires k < |m|
    ensures multiset(m[..k] + m[k + 1..]) == multiset(m) - multiset{m[k]}
  {
    assert m == m[..k] + [m[k]] + m[k + 1..];
  }

  /** The sum of the normalized values does not depend on the order in which
      the requirements are listed. */
  lemma {:induction false} TermSumPermutation(m1: seq<(Subject, real)>, m2: seq<(Subject, real)>, grades: map<Subject, real>)
    requires multiset(m1) == multiset(m2)
    ensures Sum(Terms(m1, grades)) == Sum(Terms(m2, grades))
  {
    if m1 == [] {
      assert |m2| == |multiset(m2)| == 0;
    } else {
      var n := |m1|;
      var x := m1[n - 1];
      assert x in multiset(m2);
      var k :| 0 <= k < |m2| && m2[k] == x;
      var rest1, rest2 := m1[..n - 1], m2[..k] + m2[k + 1..];
      MultisetRemove(m1, n - 1);
      MultisetRemove(m2, k);
      assert m1[..n - 1] + m1[n..] == rest1;
      TermSumPermutation(rest1, rest2, grades);
      TermSumRemove(m1, n - 1, grades);
      TermSumRemove(m2, k, grades);
      var t := Normalized(GradeOf(grades, x.0), x.1);
      assert Sum(Terms(m1, grades)) == Sum(Terms(rest1, grades)) + t;
      assert Sum(Terms(m2, grades)) == Sum(Terms(rest2, grades)) + t;
    }
  }

  /** The grade part is the same for any ordering of the same requirements, so
      the dictionary's iteration order is irrelevant. */
  lemma GradeScoreOrderIndependent(m1: seq<(Subject, real)>, m2: seq<(Subject, real)>, grades: map<Subject, real>)
    requires multiset(m1) == multiset(m2)
    ensures GradeScore(m1, grades) == GradeScore(m2, grades)
  {
    assert |m1| == |multiset(m1)| == |multiset(m2)| == |m2|;
    if m1 != [] {
      TermSumPermutation(m1, m2, grades);
    }
  }

  // ---------------------------------------------------------------------------
  // Properties of the interest part
  // ---------------------------------------------------------------------------

  /** A list has no more distinct elements than entries, and exactly as many
      when no entry repeats. */
  lemma {:induction false} ElementsSize(s: seq<Keyword>)
    ensures |Elements(s)| <= |s|
    ensures |Elements(s)| == |s| <==> Distinct(s)
  {
    if s != [] {
      var tail := s[1..];
      ElementsSize(tail);
      assert Elements(s) == {s[0]} + Elements(tail);
      if s[0] in tail {
        assert Elements(s) == Elements(tail);
        var j :| 0 <= j < |tail| && tail[j] == s[0];
        assert s[0] == s[j + 1];
      } else {
        assert s[0] !in Elements(tail);
        assert |Elements(s)| == |Elements(tail)| + 1;
        if Distinct(tail) {
          forall i, j | 0 <= i < j < |s| ensures s[i] != s[j] {
            if i > 0 {
              assert s[i] == tail[i - 1] && s[j] == tail[j - 1];
            } else {
              assert s[j] == tail[j - 1];
            }
          }
        }
        if Distinct(s) {
          forall i, j | 0 <= i < j < |tail| ensures tail[i] != tail[j] {
            assert tail[i] == s[i + 1] && tail[j] == s[j + 1];
          }
        }
      }
    }
  }

  /** The interest part is full exactly when the tags are non-empty, free of
      repeats, and all of them are interests: a repeated tag keeps it below 1. */
  lemma InterestScoreFull(tags: seq<Keyword>, interests: seq<Keyword>)
    ensures InterestScore(tags, interests) == 1.0 <==>
              tags != [] && Distinct(tags) && forall t :: t in tags ==> t in interests
  {
    if tags != [] {
      var all := Elements(tags);
      var common := all * Elements(interests);
      ElementsSize(tags);
      IntersectionSize(all, Elements(interests));
      var n := |tags| as real;
      assert InterestScore(tags, interests) == |common| as real / n;
      Fraction(|common| as real, n);
      if InterestScore(tags, interests) == 1.0 {
        assert |common| as real == n;
        assert |all - common| == |all| - |common| == 0;
        assert all - common == {};
        forall t | t in tags ensures t in interests {
          assert t in all;
        }
      }
      if Distinct(tags) && forall t :: t in tags ==> t in interests {
        assert common == all;
        assert |common| as real == n;
      }
    }
  }

  // ---------------------------------------------------------------------------
  // Worked example: the "ing_info" program of the example catalog
  // ---------------------------------------------------------------------------

  const IngInfo: Program := Program(
    "ing_info",
    "Cycle Prépa + Ingénieur Informatique",
    "Informatique",
    [("maths", 14.0), ("physique", 12.0), ("francais", 10.0)],
    ["informatique", "programmation", "algorithmes", "intelligence artificielle"])

  const ExampleStudent: StudentProfile := StudentProfile(
    "",
    map["maths" := 16.0, "physique" := 14.0, "francais" := 12.0],
    ["informatique", "algorithmes"],
    ["ingénieur"])

  /** Two of the four ing_info tags are interests of the example student. */
  lemma IngInfoInterestPart()
    ensures InterestScore(IngInfo.tags, ExampleStudent.interests) == 0.5
  {
    var tags, interests := IngInfo.tags, ExampleStudent.interests;
    assert interests[0] in tags && interests[1] in tags;
    assert Elements(tags) * Elements(interests) == Elements(interests);
    assert interests[0] != interests[1];
    ElementsSize(interests);
  }

  /** No ing_info tag is an aspiration of the example student. */
  lemma IngInfoAspirationPart()
    ensures AspirationScore(IngInfo.tags, ExampleStudent.aspirations) == 0.0
  {
    assert forall t :: t in ExampleStudent.aspirations ==> t == "ingénieur";
    assert "ingénieur" !in IngInfo.tags;
  }

  /** Grades 2 points above each requirement give 0.7 each; two of four tags
      are interests; no tag is an aspiration: 0.6*0.7 + 0.25*0.5 + 0.15*0 = 0.545. */
  lemma IngInfoWorkedExample()
    ensures GradeScore(IngInfo.minGrades, ExampleStudent.grades) == 0.7
    ensures InterestScore(IngInfo.tags, ExampleStudent.interests) == 0.5
    ensures AspirationScore(IngInfo.tags, ExampleStudent.aspirations) == 0.0
    ensures Score(ExampleStudent, IngInfo) == 0.545
  {
    GradeScoreUniform(IngInfo.minGrades, ExampleStudent.grades, 0.7);
    IngInfoInterestPart();
    IngInfoAspirationPart();
  }
}
