/** The calculator component: its state slots as fields and its event
    handlers as methods.  A handler that changes the course rows ends by
    recomputing the semester result, as the component's effect on `courses`
    does after every change of the rows. */
module Calculator {
  import opened Wrappers
  import opened Rounding
  import opened CourseRows
  import opened Standings
  import opened CurrentSemester
  import opened Cumulative

  class App {
    var courses: seq<Course>
    var pastSemesters: seq<Semester>
    /** The two manual-entry fields, as `parseFloat` reads them (`None` for
        the empty field and for text that is not a number). */
    var newSemesterGpa: Option<real>
    var newSemesterCredits: Option<real>
    /** `null` until some row counts. */
    var currentSemesterGpa: Option<real>
    /** `''` (here `None`) until a GPA is classified and after a save. */
    var academicStanding: Option<Standing>
    var totalCredits: real
    /** Source of row ids; every row's id is below it. */
    var nextId: nat

    /** The archive only holds checked entries, row ids are distinct and
        fresh, and the shown result is the one the rows determine. */
    ghost predicate Valid()
      reads this
    {
      && ArchiveOk(pastSemesters)
      && DistinctIds(courses)
      && IdsBelow(courses, nextId)
      && Synced()
    }

    /** The derived values agree with the rows.  When no row counts, the
        credit total and the standing keep whatever they last held. */
    ghost predicate Synced()
      reads this
    {
      && currentSemesterGpa == SemesterGpa(courses)
      && (currentSemesterGpa.Some? ==>
            totalCredits == CreditsSum(courses) &&
            academicStanding == Some(Classify(currentSemesterGpa.value)))
    }

    /** The initial state: one blank row, an empty archive, no result. */
    constructor ()
      ensures Valid()
      ensures courses == [Blank(0)] && nextId == 1
      ensures pastSemesters == []
      ensures newSemesterGpa == None && newSemesterCredits == None
      ensures currentSemesterGpa == None && academicStanding == None && totalCredits == 0.0
    {
      courses := [Blank(0)];
      pastSemesters := [];
      newSemesterGpa, newSemesterCredits := None, None;
      currentSemesterGpa, academicStanding, totalCredits := None, None, 0.0;
      nextId := 1;
      assert !Counts(Blank(0));
    }

    /** Sets the standing to the band of the given GPA. */
    method DetermineAcademicStanding(gpa: real)
      modifies this`academicStanding
      ensures academicStanding == Some(Classify(gpa))
    {
      academicStanding := Some(Classify(gpa));
    }

    /** Recomputes the semester result from the rows.  With no row counting,
        only the GPA is cleared. */
    method CalculateCurrentGpa()
      modifies this`currentSemesterGpa, this`totalCredits, this`academicStanding
      ensures Synced()
      ensures currentSemesterGpa.None? ==>
                totalCredits == old(totalCredits) && academicStanding == old(academicStanding)
    {
      var totalPoints, totalCreditHours := SumCourses(courses);
      if totalCreditHours > 0.0 {
        var gpa := Round2(totalPoints / totalCreditHours);
        currentSemesterGpa := Some(gpa);
        totalCredits := totalCreditHours;
        DetermineAcademicStanding(gpa);
      } else {
        currentSemesterGpa := None;
      }
    }

    /** Archives the current result and starts a new semester, provided
        there is a result and a non-zero credit total; otherwise nothing
        changes. */
    method SaveCurrentSemester()
      requires Valid()
      modifies this
      ensures Valid()
      ensures old(currentSemesterGpa.Some? && totalCredits != 0.0) ==>
                && pastSemesters == old(pastSemesters) + [Semester(old(currentSemesterGpa.value), old(totalCredits))]
                && courses == [Blank(old(nextId))] && nextId == old(nextId) + 1
                && currentSemesterGpa == None && academicStanding == None && totalCredits == 0.0
      ensures !old(currentSemesterGpa.Some? && totalCredits != 0.0) ==>
                && pastSemesters == old(pastSemesters) && courses == old(courses) && nextId == old(nextId)
                && currentSemesterGpa == old(currentSemesterGpa) && academicStanding == old(academicStanding)
                && totalCredits == old(totalCredits)
      ensures newSemesterGpa == old(newSemesterGpa) && newSemesterCredits == old(newSemesterCredits)
    {
      if currentSemesterGpa.Some? && totalCredits != 0.0 {
        pastSemesters := pastSemesters + [Semester(currentSemesterGpa.value, totalCredits)];
        courses := [Blank(nextId)];
        nextId := nextId + 1;
        currentSemesterGpa := None;
        academicStanding := None;
        totalCredits := 0.0;
        assert !Counts(courses[0]);
        CalculateCurrentGpa();
      }
    }

    /** Archives the manually typed semester when both fields parse, the
        credits are above zero and the GPA is within [0, 4], and then clears
        both fields; otherwise nothing changes. */
    method AddManualSemester()
      requires Valid()
      modifies this`pastSemesters, this`newSemesterGpa, this`newSemesterCredits
      ensures Valid()
      ensures old(newSemesterGpa.Some? && newSemesterCredits.Some?
                  && newSemesterCredits.value > 0.0
                  && 0.0 <= newSemesterGpa.value <= 4.0) ==>
                && pastSemesters == old(pastSemesters) + [Semester(old(newSemesterGpa.value), old(newSemesterCredits.value))]
                && newSemesterGpa == None && newSemesterCredits == None
      ensures !old(newSemesterGpa.Some? && newSemesterCredits.Some?
                   && newSemesterCredits.value > 0.0
                   && 0.0 <= newSemesterGpa.value <= 4.0) ==>
                && pastSemesters == old(pastSemesters)
                && newSemesterGpa == old(newSemesterGpa) && newSemesterCredits == old(newSemesterCredits)
    {
      if newSemesterGpa.Some? && newSemesterCredits.Some? {
        var gpa, credits := newSemesterGpa.value, newSemesterCredits.value;
        if credits > 0.0 && gpa >= 0.0 && gpa <= 4.0 {
          pastSemesters := pastSemesters + [Semester(gpa, credits)];
          newSemesterGpa := None;
          newSemesterCredits := None;
        }
      }
    }

    /** Typing into the manual-entry fields. */
    method SetNewSemesterGpa(parsed: Option<real>)
      modifies this`newSemesterGpa
      ensures newSemesterGpa == parsed
    {
      newSemesterGpa := parsed;
    }

    method SetNewSemesterCredits(parsed: Option<real>)
      modifies this`newSemesterCredits
      ensures newSemesterCredits == parsed
    {
      newSemesterCredits := parsed;
    }

    /** The cumulative GPA of the archive (`None` for `'N/A'`). */
    method CalculateCgpa() returns (cgpa: Option<real>)
      requires Valid()
      ensures cgpa == Cgpa(pastSemesters)
      ensures cgpa.None? <==> pastSemesters == []
      ensures cgpa.Some? ==> 0.0 <= cgpa.value <= 4.0
    {
      cgpa := Cumulative.CalculateCgpa(pastSemesters);
      if cgpa.Some? {
        CgpaInScale(pastSemesters);
      }
    }

    /** Edits one field of the row with the given id, then recomputes. */
    method HandleInputChange(id: nat, e: FieldEdit)
      requires Valid()
      modifies this`courses, this`currentSemesterGpa, this`totalCredits, this`academicStanding
      ensures Valid()
      ensures courses == UpdateById(old(courses), id, e)
      ensures currentSemesterGpa.None? ==>
                totalCredits == old(totalCredits) && academicStanding == old(academicStanding)
    {
      UpdateKeepsDistinct(courses, id, e);
      courses := UpdateById(courses, id, e);
      CalculateCurrentGpa();
    }

    /** Appends a blank row with a fresh id, then recomputes. */
    method AddCourse()
      requires Valid()
      modifies this`courses, this`nextId, this`currentSemesterGpa, this`totalCredits, this`academicStanding
      ensures Valid()
      ensures courses == old(courses) + [Blank(old(nextId))] && nextId == old(nextId) + 1
      ensures currentSemesterGpa == old(currentSemesterGpa)
      ensures totalCredits == old(totalCredits) && academicStanding == old(academicStanding)
    {
      var row := Blank(nextId);
      RowContribution(courses, row, []);
      assert courses + [row] + [] == courses + [row] && courses + [] == courses;
      courses := courses + [row];
      nextId := nextId + 1;
      CalculateCurrentGpa();
    }

    /** Drops the rows with the given id, then recomputes.  Ids being
        distinct (Valid), that is the one row carrying it, if any
        (CourseRows.RemoveOnlyThatRow). */
    method RemoveCourse(id: nat)
      requires Valid()
      modifies this`courses, this`currentSemesterGpa, this`totalCredits, this`academicStanding
      ensures Valid()
      ensures courses == RemoveById(old(courses), id)
      ensures currentSemesterGpa.None? ==>
                totalCredits == old(totalCredits) && academicStanding == old(academicStanding)
    {
      ghost var before := courses;
      var after := RemoveById(courses, id);
      RemoveKeepsDistinct(before, id);
      RemoveKeepsIdsBelow(before, id, nextId);
      courses := after;
      CalculateCurrentGpa();
    }
  }

  /** A user fills in two rows: 3 credits of "A", then a new row with
      4 credits of "B". */
  method EnterTwoCourses() returns (app: App)
    ensures fresh(app) && app.Valid()
    ensures app.courses == [Course(0, "", Some(3.0), "A"), Course(1, "", Some(4.0), "B")]
    ensures app.pastSemesters == [] && app.nextId == 2
  {
    app := new App();
    app.HandleInputChange(0, SetCredits(Some(3.0)));
    assert app.courses == [Course(0, "", Some(3.0), "")];
    app.HandleInputChange(0, SetGrade("A"));
    var first := Course(0, "", Some(3.0), "A");
    assert app.courses == [first];
    app.AddCourse();
    assert app.courses == [first, Blank(1)];
    app.HandleInputChange(1, SetCredits(Some(4.0)));
    assert app.courses == [first, Course(1, "", Some(4.0), "")];
    app.HandleInputChange(1, SetGrade("B"));
  }

  /** The session continued: the result is 3.43 over 7 credits, standing
      Good; saving it makes the archive's CGPA 3.43 and leaves one blank
      row. */
  method TwoCourseSession()
  {
    var app := EnterTwoCourses();
    TwoCourseExample();
    assert app.currentSemesterGpa == Some(3.43);
    assert app.totalCredits == 7.0 && app.academicStanding == Some(Good);

    app.SaveCurrentSemester();
    assert app.pastSemesters == [Semester(3.43, 7.0)];
    assert app.courses == [Blank(2)] && app.currentSemesterGpa == None;
    var cgpa := app.CalculateCgpa();
    assert [Semester(3.43, 7.0)][..0] == [];
    assert IsCents(3.43) by {
      assert 3.43 * 100.0 == 343.0;
    }
    Round2OfCents(3.43);
    assert cgpa == Some(3.43);
  }
}
