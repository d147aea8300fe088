/** The semester GPA: a credit-weighted mean of grade points over the rows
    that count, rounded to two decimals, or no result when no row counts. */
module CurrentSemester {
  import opened Wrappers
  import opened Rounding
  import opened GradeScale
  import opened CourseRows

  /** A row counts when its credit text parses to a number above zero and
      its grade is a key of the grade table; any other row is skipped. */
  predicate Counts(c: Course)
    ensures Counts(c) ==> c.grade in Letters
  {
    LettersAreKeys();
    c.credits.Some? && c.credits.value > 0.0 && c.grade in GradeTable
  }

  /** What one row adds to the points total and to the credit total. */
  function RowPoints(c: Course): real {
    if Counts(c) then GradePoint(c.grade) * c.credits.value else 0.0
  }

  function RowCredits(c: Course): real {
    if Counts(c) then c.credits.value else 0.0
  }

  /** Sum of points times credits over the rows, accumulated in row order. */
  function PointsSum(cs: seq<Course>): real {
    if cs == [] then 0.0 else PointsSum(cs[..|cs| - 1]) + RowPoints(cs[|cs| - 1])
  }

  /** Sum of credits over the rows that count. */
  function CreditsSum(cs: seq<Course>): real {
    if cs == [] then 0.0 else CreditsSum(cs[..|cs| - 1]) + RowCredits(cs[|cs| - 1])
  }

  /** The loop of the semester calculation: both totals, row by row. */
  method SumCourses(cs: seq<Course>) returns (totalPoints: real, totalCreditHours: real)
    ensures totalPoints == PointsSum(cs)
    ensures totalCreditHours == CreditsSum(cs)
  {
    totalPoints, totalCreditHours := 0.0, 0.0;
    var i := 0;
    while i < |cs|
      invariant 0 <= i <= |cs|
      invariant totalPoints == PointsSum(cs[..i])
      invariant totalCreditHours == CreditsSum(cs[..i])
    {
      var course := cs[i];
      if course.credits.Some? && course.credits.value > 0.0 && course.grade in GradeTable {
        totalPoints := totalPoints + GradePoint(course.grade) * course.credits.value;
        totalCreditHours := totalCreditHours + course.credits.value;
      }
      assert cs[..i + 1][..i] == cs[..i];
      i := i + 1;
    }
    assert cs[..|cs|] == cs;
  }

  /** Both totals are non-negative and the points never exceed four points
      per credit. */
  lemma {:induction false} SumsBounded(cs: seq<Course>)
    ensures 0.0 <= CreditsSum(cs)
    ensures 0.0 <= PointsSum(cs) <= 4.0 * CreditsSum(cs)
  {
    if cs != [] {
      SumsBounded(cs[..|cs| - 1]);
      var c := cs[|cs| - 1];
      if Counts(c) {
        assert 0.0 <= GradePoint(c.grade) * c.credits.value <= 4.0 * c.credits.value;
      }
    }
  }

  /** The credit total is above zero exactly when some row counts. */
  lemma {:induction false} CreditsPositiveIff(cs: seq<Course>)
    ensures CreditsSum(cs) > 0.0 <==> exists i :: 0 <= i < |cs| && Counts(cs[i])
  {
    if cs != [] {
      var init := cs[..|cs| - 1];
      CreditsPositiveIff(init);
      SumsBounded(init);
      if exists i :: 0 <= i < |init| && Counts(init[i]) {
        var i :| 0 <= i < |init| && Counts(init[i]);
        assert cs[i] == init[i];
      }
      if exists i :: 0 <= i < |cs| && Counts(cs[i]) {
        var i :| 0 <= i < |cs| && Counts(cs[i]);
        if i < |cs| - 1 {
          assert init[i] == cs[i];
        }
      }
    }
  }

  /** The totals of two row lists one after the other are the sums of their
      totals. */
  lemma {:induction false} SumsAppend(a: seq<Course>, b: seq<Course>)
    ensures PointsSum(a + b) == PointsSum(a) + PointsSum(b)
    ensures CreditsSum(a + b) == CreditsSum(a) + CreditsSum(b)
  {
    if b == [] {
      assert a + b == a;
    } else {
      var init := b[..|b| - 1];
      assert (a + b)[..|a + b| - 1] == a + init;
      assert (a + b)[|a + b| - 1] == b[|b| - 1];
      SumsAppend(a, init);
    }
  }

  /** Wherever a row stands, it adds exactly its own contribution to each
      total; a row that does not count changes neither total, and one that
      counts raises the credit total. */
  lemma RowContribution(a: seq<Course>, c: Course, b: seq<Course>)
    ensures PointsSum(a + [c] + b) == PointsSum(a + b) + RowPoints(c)
    ensures CreditsSum(a + [c] + b) == CreditsSum(a + b) + RowCredits(c)
    ensures !Counts(c) ==> (PointsSum(a + [c] + b) == PointsSum(a + b) &&
                            CreditsSum(a + [c] + b) == CreditsSum(a + b))
    ensures Counts(c) ==> CreditsSum(a + [c] + b) > CreditsSum(a + b)
  {
    SumsAppend(a + [c], b);
    SumsAppend(a, [c]);
    SumsAppend(a, b);
    assert [c][..0] == [];
  }

  /** The credit-weighted mean of the grade points, unrounded. */
  function Mean(cs: seq<Course>): real
    requires CreditsSum(cs) > 0.0
  {
    PointsSum(cs) / CreditsSum(cs)
  }

  /** The semester GPA of a list of rows (`null` when no row counts). */
  function SemesterGpa(cs: seq<Course>): (r: Option<real>)
    ensures r.Some? <==> CreditsSum(cs) > 0.0
    ensures r.Some? <==> exists i :: 0 <= i < |cs| && Counts(cs[i])
    ensures r.Some? ==> IsCents(r.value) && 0.0 <= r.value <= 4.0
    ensures r.Some? ==> CreditsSum(cs) > 0.0 && r.value - 0.005 <= Mean(cs) < r.value + 0.005
  {
    CreditsPositiveIff(cs);
    if CreditsSum(cs) > 0.0 then
      SumsBounded(cs);
      MeanBetween(PointsSum(cs), CreditsSum(cs), 0.0, 4.0);
      assert IsCents(4.0) by {
        assert 4.0 * 100.0 == 400.0;
      }
      Round2Between(Mean(cs), 0.0, 4.0);
      Some(Round2(Mean(cs)))
    else
      None
  }

  /** Worked example: 3 credits of "A" and 4 of "B" give 24/7, shown as 3.43. */
  lemma TwoCourseExample()
    ensures SemesterGpa([Course(0, "", Some(3.0), "A"), Course(1, "", Some(4.0), "B")]) == Some(3.43)
    ensures CreditsSum([Course(0, "", Some(3.0), "A"), Course(1, "", Some(4.0), "B")]) == 7.0
  {
    var cs := [Course(0, "", Some(3.0), "A"), Course(1, "", Some(4.0), "B")];
    assert cs[..1] == [cs[0]] && [cs[0]][..0] == [];
    assert PointsSum(cs) == 24.0 && CreditsSum(cs) == 7.0;
    assert Mean(cs) == 24.0 / 7.0;
    assert 3.43 - 0.005 <= 24.0 / 7.0 < 3.43 + 0.005;
    assert IsCents(3.43) by {
      assert 3.43 * 100.0 == 343.0;
    }
    Round2Unique(24.0 / 7.0, 3.43);
  }
}
