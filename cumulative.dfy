/** The semester archive and the cumulative GPA: a credit-weighted mean of
    the archived semester GPAs, rounded to two decimals, or `'N/A'` (here
    `None`) for an empty archive. */
module Cumulative {
  import opened Wrappers
  import opened Rounding

  /** One archived semester. */
  datatype Semester = Semester(gpa: real, credits: real)

  /** What both ways into the archive check: credits above zero and a GPA
      within the grade scale. */
  predicate EntryOk(s: Semester) {
    s.credits > 0.0 && 0.0 <= s.gpa <= 4.0
  }

  predicate ArchiveOk(past: seq<Semester>) {
    forall i :: 0 <= i < |past| ==> EntryOk(past[i])
  }

  predicate CreditsPositive(past: seq<Semester>) {
    forall i :: 0 <= i < |past| ==> past[i].credits > 0.0
  }

  /** Every semester GPA lies in [lo, hi]. */
  predicate GpasWithin(past: seq<Semester>, lo: real, hi: real) {
    forall i :: 0 <= i < |past| ==> lo <= past[i].gpa <= hi
  }

  /** A semester's grade points: its GPA times its credits. */
  function Points(s: Semester): real {
    s.gpa * s.credits
  }

  /** Sum of GPA times credits, accumulated in archive order. */
  function WeightedSum(past: seq<Semester>): real {
    if past == [] then 0.0 else WeightedSum(past[..|past| - 1]) + Points(past[|past| - 1])
  }

  /** Sum of credits; above zero on any non-empty archive of positive credits. */
  function CreditSum(past: seq<Semester>): (c: real)
    ensures CreditsPositive(past) ==> (c > 0.0 <==> past != [])
  {
    if past == [] then 0.0
    else
      var init := past[..|past| - 1];
      assert CreditsPositive(past) ==> CreditsPositive(init) by {
        forall i | 0 <= i < |init| ensures init[i] == past[i] { }
      }
      CreditSum(init) + past[|past| - 1].credits
  }

  /** The credit-weighted mean GPA of a non-empty archive, unrounded. */
  function Mean(past: seq<Semester>): real
    requires CreditsPositive(past) && past != []
  {
    WeightedSum(past) / CreditSum(past)
  }

  /** The cumulative GPA of an archive. */
  function Cgpa(past: seq<Semester>): (r: Option<real>)
    requires CreditsPositive(past)
    ensures r.None? <==> past == []
    ensures r.Some? ==> IsCents(r.value)
  {
    if past == [] then None else Some(Round2(Mean(past)))
  }

  /** The loop of the cumulative calculation. */
  method CalculateCgpa(past: seq<Semester>) returns (cgpa: Option<real>)
    requires CreditsPositive(past)
    ensures cgpa == Cgpa(past)
    ensures cgpa.None? <==> past == []
  {
    if |past| == 0 {
      return None;
    }
    var totalPoints, totalCredits := 0.0, 0.0;
    var i := 0;
    while i < |past|
      invariant 0 <= i <= |past|
      invariant totalPoints == WeightedSum(past[..i])
      invariant totalCredits == CreditSum(past[..i])
    {
      var sem := past[i];
      totalPoints := totalPoints + sem.gpa * sem.credits;
      totalCredits := totalCredits + sem.credits;
      assert past[..i + 1][..i] == past[..i];
      i := i + 1;
    }
    assert past[..|past|] == past;
    cgpa := Some(Round2(totalPoints / totalCredits));
  }

  /** When every semester GPA lies in [lo, hi], the weighted sum lies between
      lo and hi times the credit total. */
  lemma {:induction false} WeightedSumBetween(past: seq<Semester>, lo: real, hi: real)
    requires CreditsPositive(past) && GpasWithin(past, lo, hi)
    ensures lo * CreditSum(past) <= WeightedSum(past) <= hi * CreditSum(past)
  {
    if past != [] {
      var init, last := past[..|past| - 1], past[|past| - 1];
      PrefixKeepsChecks(past, lo, hi);
      WeightedSumBetween(init, lo, hi);
      ScaledStep(lo, hi, CreditSum(init), WeightedSum(init), last.gpa, last.credits);
    }
  }

  /** Dropping the last semester keeps both checks. */
  lemma PrefixKeepsChecks(past: seq<Semester>, lo: real, hi: real)
    requires past != []
    requires CreditsPositive(past) && GpasWithin(past, lo, hi)
    ensures CreditsPositive(past[..|past| - 1]) && GpasWithin(past[..|past| - 1], lo, hi)
    ensures past[|past| - 1].credits > 0.0 && lo <= past[|past| - 1].gpa <= hi
  {
    var init := past[..|past| - 1];
    forall i | 0 <= i < |init| ensures init[i] == past[i] { }
  }

  /** The unrounded mean lies between the lowest and the highest semester
      GPA (any bounds lo and hi on them), and the CGPA between their
      roundings; so a valid archive has its CGPA in [0, 4]. */
  lemma CgpaBetween(past: seq<Semester>, lo: real, hi: real)
    requires CreditsPositive(past) && past != []
    requires GpasWithin(past, lo, hi)
    ensures lo <= Mean(past) <= hi
    ensures Round2(lo) <= Cgpa(past).value <= Round2(hi)
  {
    WeightedSumBetween(past, lo, hi);
    MeanBetween(WeightedSum(past), CreditSum(past), lo, hi);
    Round2Monotone(lo, Mean(past));
    Round2Monotone(Mean(past), hi);
  }

  lemma CgpaInScale(past: seq<Semester>)
    requires ArchiveOk(past) && past != []
    ensures 0.0 <= Cgpa(past).value <= 4.0
  {
    CgpaBetween(past, 0.0, 4.0);
    Round2OfCents(0.0);
    assert IsCents(4.0) by {
      assert 4.0 * 100.0 == 400.0;
    }
    Round2OfCents(4.0);
  }

  lemma {:induction false} SumsAppend(a: seq<Semester>, b: seq<Semester>)
    ensures WeightedSum(a + b) == WeightedSum(a) + WeightedSum(b)
    ensures CreditSum(a + b) == CreditSum(a) + CreditSum(b)
  {
    if b == [] {
      assert a + b == a;
    } else {
      var init := b[..|b| - 1];
      assert (a + b)[..|a + b| - 1] == a + init;
      assert (a + b)[|a + b| - 1] == b[|b| - 1];
      SumsAppend(a, init);
    }
  }

  /** Reordering the archive changes neither total. */
  lemma {:induction false} SumsPermutation(a: seq<Semester>, b: seq<Semester>)
    requires multiset(a) == multiset(b)
    ensures WeightedSum(a) == WeightedSum(b)
    ensures CreditSum(a) == CreditSum(b)
    decreases |a|
  {
    if a == [] {
      assert |b| == |multiset(b)| == 0;
    } else {
      var init, x := a[..|a| - 1], a[|a| - 1];
      assert a == init + [x];
      assert x in multiset(b);
      var j :| 0 <= j < |b| && b[j] == x;
      var rest := b[..j] + b[j + 1..];
      assert b == b[..j] + [x] + b[j + 1..];
      SumsSplit(b[..j], x, b[j + 1..]);
      assert multiset(rest) == multiset(b) - multiset{x};
      assert multiset(init) == multiset(a) - multiset{x};
      SumsPermutation(init, rest);
    }
  }

  /** Wherever a semester stands in the archive, it adds exactly its own
      share to each total. */
  lemma SumsSplit(before: seq<Semester>, x: Semester, after: seq<Semester>)
    ensures WeightedSum(before + [x] + after) == WeightedSum(before + after) + Points(x)
    ensures CreditSum(before + [x] + after) == CreditSum(before + after) + x.credits
  {
    SumsAppend(before + [x], after);
    SumsAppend(before, [x]);
    SumsAppend(before, after);
    assert [x][..0] == [];
  }

  /** The cumulative GPA does not depend on the order of the archive. */
  lemma CgpaPermutation(a: seq<Semester>, b: seq<Semester>)
    requires CreditsPositive(a) && CreditsPositive(b)
    requires multiset(a) == multiset(b)
    ensures Cgpa(a) == Cgpa(b)
  {
    SumsPermutation(a, b);
    if a == [] {
      assert |b| == |multiset(b)| == 0;
    } else {
      assert |b| == |multiset(b)| == |multiset(a)| == |a|;
    }
  }
}
