/** Weighted-grade aggregation: Σ(score · ects) / Σ(ects) over the subscriptions whose course is
    found, or no grade when there are no subscriptions or the total weight is not positive. */
module Grades {
  import opened Lookup
  import opened Entities

  /** The course a subscription refers to: the first in list order with that id. */
  function FindCourse(courses: seq<Course>, id: int): (r: Option<Course>)
    ensures r.Some? ==> r.value.idCourse == id
    ensures r.Some? ==> exists i :: 0 <= i < |courses| && courses[i] == r.value
                                  && forall j :: 0 <= j < i ==> courses[j].idCourse != id
    ensures r.None? <==> forall j :: 0 <= j < |courses| ==> courses[j].idCourse != id
  {
    Find(courses, (c: Course) => c.idCourse == id)
  }

  /** What one subscription adds to the running (points, weight) sums: nothing when its course
      is not found. */
  function Contribution(s: Subscribe, courses: seq<Course>): (real, real) {
    match FindCourse(courses, s.courseId)
    case None => (0.0, 0.0)
    case Some(c) => (s.score * c.ectsCourse, c.ectsCourse)
  }

  /** No subscription's course is found. */
  predicate NoneResolved(subs: seq<Subscribe>, courses: seq<Course>) {
    forall i :: 0 <= i < |subs| ==> FindCourse(courses, subs[i].courseId).None?
  }

  /** The running sums (points, weight) after folding over `subs` left to right. */
  function Totals(subs: seq<Subscribe>, courses: seq<Course>): (r: (real, real))
    decreases |subs|
  {
    if |subs| == 0 then (0.0, 0.0)
    else
      var acc := Totals(subs[..|subs| - 1], courses);
      var d := Contribution(subs[|subs| - 1], courses);
      (acc.0 + d.0, acc.1 + d.1)
  }

  /** `calculateWeightedGrade`. */
  function WeightedGrade(subs: seq<Subscribe>, courses: seq<Course>): (r: Option<real>)
    ensures |subs| == 0 ==> r.None?
    ensures r.Some? <==> |subs| > 0 && Totals(subs, courses).1 > 0.0
    ensures r.Some? ==> r.value * Totals(subs, courses).1 == Totals(subs, courses).0
  {
    if |subs| == 0 then None
    else
      var (points, ects) := Totals(subs, courses);
      if ects > 0.0 then Some(Mean(points, ects)) else None
  }

  /** The quotient of points by a positive weight: the value that, times the weight, gives back
      the points. */
  function Mean(points: real, ects: real): (m: real)
    requires ects > 0.0
    ensures m * ects == points
  {
    points / ects
  }

  // ----- An independent reference: the (score, ects) pairs of the resolved subscriptions -----

  /** The (score, weight) pair of each subscription whose course is found, in list order. */
  function Resolved(subs: seq<Subscribe>, courses: seq<Course>): (r: seq<(real, real)>)
    ensures |r| <= |subs|
    decreases |subs|
  {
    if |subs| == 0 then []
    else
      var rest := Resolved(subs[1..], courses);
      match FindCourse(courses, subs[0].courseId)
      case None => rest
      case Some(c) => [(subs[0].score, c.ectsCourse)] + rest
  }

  function SumPoints(ps: seq<(real, real)>): real
    decreases |ps|
  {
    if |ps| == 0 then 0.0 else ps[0].0 * ps[0].1 + SumPoints(ps[1..])
  }

  function SumWeights(ps: seq<(real, real)>): real
    decreases |ps|
  {
    if |ps| == 0 then 0.0 else ps[0].1 + SumWeights(ps[1..])
  }

  lemma {:induction false} SumsAppend(a: seq<(real, real)>, b: seq<(real, real)>)
    ensures SumPoints(a + b) == SumPoints(a) + SumPoints(b)
    ensures SumWeights(a + b) == SumWeights(a) + SumWeights(b)
    decreases |a|
  {
    if |a| == 0 {
      assert a + b == b;
    } else {
      assert (a + b)[0] == a[0];
      assert (a + b)[1..] == a[1..] + b;
      SumsAppend(a[1..], b);
    }
  }

  lemma {:induction false} ResolvedAppend(subs: seq<Subscribe>, x: Subscribe, courses: seq<Course>)
    ensures Resolved(subs + [x], courses) == Resolved(subs, courses) + Resolved([x], courses)
    decreases |subs|
  {
    if |subs| > 0 {
      assert (subs + [x])[1..] == subs[1..] + [x];
      ResolvedAppend(subs[1..], x, courses);
    } else {
      assert subs + [x] == [x];
    }
  }

  /** The left fold computes exactly the sums over the resolved pairs. */
  lemma {:induction false} TotalsAreResolvedSums(subs: seq<Subscribe>, courses: seq<Course>)
    ensures Totals(subs, courses).0 == SumPoints(Resolved(subs, courses))
    ensures Totals(subs, courses).1 == SumWeights(Resolved(subs, courses))
    decreases |subs|
  {
    if |subs| > 0 {
      var init := subs[..|subs| - 1];
      var x := subs[|subs| - 1];
      TotalsAreResolvedSums(init, courses);
      ResolvedOfLast(subs, courses);
      SumsAppend(Resolved(init, courses), Resolved([x], courses));
      ResolvedSingleton(x, courses);
    }
  }

  /** The resolved pairs of a non-empty list: those of all but the last, then the last one's. */
  lemma ResolvedOfLast(subs: seq<Subscribe>, courses: seq<Course>)
    requires |subs| > 0
    ensures Resolved(subs, courses) == Resolved(subs[..|subs| - 1], courses) + Resolved([subs[|subs| - 1]], courses)
  {
    assert subs[..|subs| - 1] + [subs[|subs| - 1]] == subs;
    ResolvedAppend(subs[..|subs| - 1], subs[|subs| - 1], courses);
  }

  lemma ResolvedSingleton(x: Subscribe, courses: seq<Course>)
    ensures SumPoints(Resolved([x], courses)) == Contribution(x, courses).0
    ensures SumWeights(Resolved([x], courses)) == Contribution(x, courses).1
  {
    assert [x][1..] == [];
    assert Resolved([x][1..], courses) == [];
    match FindCourse(courses, x.courseId)
    case None =>
      assert Resolved([x], courses) == [];
    case Some(c) =>
      var pair := (x.score, c.ectsCourse);
      assert Resolved([x], courses) == [pair];
      assert [pair][1..] == [];
      assert SumPoints([pair]) == pair.0 * pair.1 + SumPoints([]);
      assert SumWeights([pair]) == pair.1 + SumWeights([]);
  }

  /** When the resolved weight is positive, the grade is the weighted mean of exactly the resolved
      subscriptions. */
  lemma WeightedGradeIsMean(subs: seq<Subscribe>, courses: seq<Course>)
    requires |subs| > 0 && SumWeights(Resolved(subs, courses)) > 0.0
    ensures WeightedGrade(subs, courses)
            == Some(SumPoints(Resolved(subs, courses)) / SumWeights(Resolved(subs, courses)))
  {
    TotalsAreResolvedSums(subs, courses);
  }

  /** When no subscription's course is found the weight is 0 and there is no grade. */
  lemma {:induction false} NothingResolvedNoGrade(subs: seq<Subscribe>, courses: seq<Course>)
    requires NoneResolved(subs, courses)
    ensures Totals(subs, courses) == (0.0, 0.0)
    ensures WeightedGrade(subs, courses).None?
    decreases |subs|
  {
    if |subs| > 0 {
      NothingResolvedNoGrade(subs[..|subs| - 1], courses);
    }
  }

  /** Appending a subscription whose course is not found never changes the grade. */
  lemma AppendUnresolved(subs: seq<Subscribe>, x: Subscribe, courses: seq<Course>)
    requires FindCourse(courses, x.courseId).None?
    ensures WeightedGrade(subs + [x], courses) == WeightedGrade(subs, courses)
  {
    assert (subs + [x])[..|subs|] == subs;
    if |subs| == 0 {
      assert Totals([], courses) == (0.0, 0.0);
    }
  }

  /** Every resolved subscription has a positive weight and a score in 0..20. */
  predicate WellScored(subs: seq<Subscribe>, courses: seq<Course>) {
    forall i :: 0 <= i < |subs| && FindCourse(courses, subs[i].courseId).Some? ==>
      FindCourse(courses, subs[i].courseId).value.ectsCourse > 0.0 && InScoreRange(subs[i].score)
  }

  lemma ContributionBounded(x: Subscribe, courses: seq<Course>)
    requires FindCourse(courses, x.courseId).Some? ==>
      FindCourse(courses, x.courseId).value.ectsCourse > 0.0 && InScoreRange(x.score)
    ensures 0.0 <= Contribution(x, courses).1
    ensures 0.0 <= Contribution(x, courses).0 <= MaxScore * Contribution(x, courses).1
  {
    match FindCourse(courses, x.courseId)
    case None =>
    case Some(c) =>
      ProductBounds(x.score, c.ectsCourse);
  }

  /** A score in 0..20 times a positive weight lies between 0 and 20 times that weight. */
  lemma ProductBounds(score: real, e: real)
    requires InScoreRange(score) && e > 0.0
    ensures 0.0 <= score * e <= MaxScore * e
  {
    assert 0.0 <= score * e;
    assert (MaxScore - score) * e >= 0.0;
  }

  lemma {:induction false} TotalsBounded(subs: seq<Subscribe>, courses: seq<Course>)
    requires WellScored(subs, courses)
    ensures 0.0 <= Totals(subs, courses).1
    ensures 0.0 <= Totals(subs, courses).0 <= MaxScore * Totals(subs, courses).1
    decreases |subs|
  {
    if |subs| > 0 {
      var init := subs[..|subs| - 1];
      assert WellScored(init, courses) by {
        forall i | 0 <= i < |init| ensures init[i] == subs[i] { }
      }
      TotalsBounded(init, courses);
      var x := subs[|subs| - 1];
      var acc := Totals(init, courses);
      var d := Contribution(x, courses);
      assert FindCourse(courses, x.courseId).Some? ==>
        FindCourse(courses, x.courseId).value.ectsCourse > 0.0 && InScoreRange(x.score);
      ContributionBounded(x, courses);
      assert 20.0 * (acc.1 + d.1) == 20.0 * acc.1 + 20.0 * d.1;
    }
  }

  /** With positive weights and scores in 0..20, the grade lies in 0..20. */
  lemma GradeInRange(subs: seq<Subscribe>, courses: seq<Course>)
    requires WellScored(subs, courses)
    ensures WeightedGrade(subs, courses).Some? ==> InScoreRange(WeightedGrade(subs, courses).value)
  {
    var r := WeightedGrade(subs, courses);
    if r.Some? {
      var t := Totals(subs, courses);
      TotalsBounded(subs, courses);
      var g, p, e := r.value, t.0, t.1;
      MeanBounds(g, p, e);
    }
  }

  /** A mean g with g * e == p, for points p between 0 and 20 * e, lies in 0..20. */
  lemma MeanBounds(g: real, p: real, e: real)
    requires e > 0.0 && g * e == p && 0.0 <= p <= MaxScore * e
    ensures InScoreRange(g)
  {
    assert (MaxScore - g) * e == MaxScore * e - p;
  }

  /** Two courses of 4 and 6 credits scored 16 and 10 give (16*4 + 10*6) / (4 + 6) = 12.4. */
  lemma TwoCourseExample()
    ensures WeightedGrade(
              [Subscribe(1, 7, 1, 16.0), Subscribe(2, 7, 2, 10.0)],
              [Course(1, "A", 4.0, P1, 0), Course(2, "B", 6.0, P1, 0)]) == Some(12.4)
  {
    var courses := [Course(1, "A", 4.0, P1, 0), Course(2, "B", 6.0, P1, 0)];
    var subs := [Subscribe(1, 7, 1, 16.0), Subscribe(2, 7, 2, 10.0)];
    assert FindCourse(courses, 1) == Some(courses[0]);
    assert FindCourse(courses, 2) == Some(courses[1]);
    assert subs[..1] == [subs[0]];
    assert [subs[0]][..0] == [];
    assert Totals(subs, courses) == (124.0, 10.0);
  }

  /** When two courses share an id, the first one in list order supplies the weight: dropping the
      later duplicate from the course list never changes the sums or the grade. */
  lemma FirstCourseWins(subs: seq<Subscribe>, courses: seq<Course>, i: nat, j: nat)
    requires i < j < |courses| && courses[i].idCourse == courses[j].idCourse
    ensures Totals(subs, courses) == Totals(subs, courses[..j] + courses[j + 1..])
    ensures WeightedGrade(subs, courses) == WeightedGrade(subs, courses[..j] + courses[j + 1..])
  {
    var rest := courses[..j] + courses[j + 1..];
    LaterDuplicateIgnored(courses, i, j);
    TotalsSameLookups(subs, courses, rest);
    assert Totals(subs, courses) == Totals(subs, rest);
  }

  /** Dropping a course that repeats an earlier course's id changes no lookup, so the later
      duplicate is never the course found. */
  lemma LaterDuplicateIgnored(courses: seq<Course>, i: nat, j: nat)
    requires i < j < |courses| && courses[i].idCourse == courses[j].idCourse
    ensures forall id: int :: FindCourse(courses[..j] + courses[j + 1..], id) == FindCourse(courses, id)
  {
    forall id: int ensures FindCourse(courses[..j] + courses[j + 1..], id) == FindCourse(courses, id) {
      var p := (c: Course) => c.idCourse == id;
      assert !p(courses[j]) || p(courses[i]);
      FindWithout(courses, p, j);
    }
  }

  /** Two course lists that resolve every id alike give the same sums. */
  lemma {:induction false} TotalsSameLookups(subs: seq<Subscribe>, c1: seq<Course>, c2: seq<Course>)
    requires forall id: int :: FindCourse(c1, id) == FindCourse(c2, id)
    ensures Totals(subs, c1).0 == Totals(subs, c2).0
    ensures Totals(subs, c1).1 == Totals(subs, c2).1
    decreases |subs|
  {
    if |subs| > 0 {
      var init := subs[..|subs| - 1];
      var x := subs[|subs| - 1];
      TotalsSameLookups(init, c1, c2);
      ContributionSameLookup(x, c1, c2);
      TotalsOfLast(subs, c1);
      TotalsOfLast(subs, c2);
    }
  }

  /** The sums of a non-empty list: those of all but the last plus the last one's contribution. */
  lemma TotalsOfLast(subs: seq<Subscribe>, courses: seq<Course>)
    requires |subs| > 0
    ensures Totals(subs, courses).0
            == Totals(subs[..|subs| - 1], courses).0 + Contribution(subs[|subs| - 1], courses).0
    ensures Totals(subs, courses).1
            == Totals(subs[..|subs| - 1], courses).1 + Contribution(subs[|subs| - 1], courses).1
  {
  }

  lemma ContributionSameLookup(x: Subscribe, c1: seq<Course>, c2: seq<Course>)
    requires FindCourse(c1, x.courseId) == FindCourse(c2, x.courseId)
    ensures Contribution(x, c1) == Contribution(x, c2)
  {
    match FindCourse(c1, x.courseId)
    case None =>
    case Some(c) =>
      ContributionOfFound(x, c1, c);
      ContributionOfFound(x, c2, c);
  }

  /** A subscription whose course is found adds its score times the course's credits, and the
      credits. */
  lemma ContributionOfFound(x: Subscribe, courses: seq<Course>, c: Course)
    requires FindCourse(courses, x.courseId) == Some(c)
    ensures Contribution(x, courses).0 == x.score * c.ectsCourse
    ensures Contribution(x, courses).1 == c.ectsCourse
  {
  }
}
