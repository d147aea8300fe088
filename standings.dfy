/** The academic-standing ladder: thresholds checked top-down, inclusive
    lower bounds, the first band reached wins. */
module Standings {

  /** The labels the calculator shows: "Excellent", "Good", "Satisfactory",
      "Poor but passing", "Fail". */
  datatype Standing = Excellent | Good | Satisfactory | PoorButPassing | Fail

  /** Position on the ladder, Fail lowest. */
  function Rank(s: Standing): nat {
    match s
    case Fail => 0
    case PoorButPassing => 1
    case Satisfactory => 2
    case Good => 3
    case Excellent => 4
  }

  /** Lower bound of each band above Fail. */
  function Threshold(s: Standing): real
    requires s != Fail
  {
    match s
    case Excellent => 3.67
    case Good => 3.0
    case Satisfactory => 2.33
    case PoorButPassing => 1.0
  }

  /** A GPA reaches a band when it is at least the band's lower bound; every
      GPA reaches Fail. */
  predicate Reaches(gpa: real, s: Standing) {
    s == Fail || gpa >= Threshold(s)
  }

  /** Classify gives the highest band the GPA reaches. */
  function Classify(gpa: real): (s: Standing)
    ensures Reaches(gpa, s)
    ensures forall t :: Rank(t) > Rank(s) ==> !Reaches(gpa, t)
  {
    if gpa >= 3.67 then Excellent
    else if gpa >= 3.0 then Good
    else if gpa >= 2.33 then Satisfactory
    else if gpa >= 1.0 then PoorButPassing
    else Fail
  }

  /** A higher GPA never gets a lower standing. */
  lemma ClassifyMonotone(g1: real, g2: real)
    requires g1 <= g2
    ensures Rank(Classify(g1)) <= Rank(Classify(g2))
  {
  }

  /** Boundary values of the ladder. */
  lemma ClassifyBoundaries()
    ensures Classify(3.67) == Excellent && Classify(3.66) == Good
    ensures Classify(3.0) == Good && Classify(2.99) == Satisfactory
    ensures Classify(2.33) == Satisfactory && Classify(2.32) == PoorButPassing
    ensures Classify(1.0) == PoorButPassing && Classify(0.99) == Fail
  {
  }
}
