/** The letter-grade table of the calculator.  Three keys are written with
    U+2212 MINUS SIGN, not an ASCII hyphen: "A−", "B−", "C−".  The table's
    descriptive labels play no part in any computation and are not modelled. */
module GradeScale {

  /** Letter grade to grade point. */
  const GradeTable: map<string, real> := map[
    "A" := 4.0,
    "A\U{2212}" := 3.67,
    "B+" := 3.33,
    "B" := 3.0,
    "B\U{2212}" := 2.67,
    "C+" := 2.33,
    "C" := 2.0,
    "C\U{2212}" := 1.67,
    "D+" := 1.33,
    "D" := 1.0,
    "F" := 0.0
  ]

  /** The keys in the order the table declares them (the order the grade
      selector lists them in). */
  const Letters: seq<string> :=
    ["A", "A\U{2212}", "B+", "B", "B\U{2212}", "C+", "C", "C\U{2212}", "D+", "D", "F"]

  /** The point value of a letter; an unknown letter (the empty selection,
      say) is worth the zero-point default. */
  function GradePoint(letter: string): (p: real)
    ensures 0.0 <= p <= 4.0
    ensures letter in GradeTable ==> p == GradeTable[letter]
    ensures letter !in GradeTable ==> p == 0.0
  {
    if letter in GradeTable then GradeTable[letter] else 0.0
  }

  /** The table has exactly the eleven listed letters. */
  lemma LettersAreKeys()
    ensures |Letters| == 11
    ensures forall l :: l in GradeTable <==> l in Letters
  {
  }

  /** Every grade point of the table lies on the 0-4 scale, "A" at the top
      and "F" at the bottom. */
  lemma TableInScale()
    ensures forall l :: l in GradeTable ==> 0.0 <= GradeTable[l] <= 4.0
    ensures GradeTable["A"] == 4.0 && GradeTable["F"] == 0.0
  {
    LettersAreKeys();
    forall l | l in GradeTable
      ensures 0.0 <= GradeTable[l] <= 4.0
    {
      var p := GradePoint(l);
    }
  }

  /** Points fall strictly from "A" down to "F". */
  lemma PointsDescend()
    ensures forall i :: 0 <= i < |Letters| - 1 ==> GradePoint(Letters[i]) > GradePoint(Letters[i + 1])
  {
  }
}
