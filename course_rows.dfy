/** The course rows of the current semester and the three list operations
    the calculator applies to them: edit one field of the row with a given
    id (a `map`), append a blank row (a spread-append) and drop the rows with
    a given id (a `filter`). */
module CourseRows {
  import opened Wrappers

  /** One course row.  `credits` is what `parseFloat` makes of the typed
      credit text: `None` when it is not a number (the empty text included). */
  datatype Course = Course(id: nat, name: string, credits: Option<real>, grade: string)

  /** A freshly added row: empty name, empty credit text, no grade. */
  function Blank(id: nat): Course {
    Course(id, "", None, "")
  }

  /** One field edit: the field's name and its new value. */
  datatype FieldEdit = SetName(text: string) | SetCredits(parsed: Option<real>) | SetGrade(letter: string)

  /** `{ ...course, [field]: value }`: the named field takes the new value and
      every other field, the id included, is kept. */
  function ApplyEdit(c: Course, e: FieldEdit): (r: Course)
    ensures r.id == c.id
    ensures r.name == (if e.SetName? then e.text else c.name)
    ensures r.credits == (if e.SetCredits? then e.parsed else c.credits)
    ensures r.grade == (if e.SetGrade? then e.letter else c.grade)
  {
    match e
    case SetName(t) => c.(name := t)
    case SetCredits(p) => c.(credits := p)
    case SetGrade(l) => c.(grade := l)
  }

  /** The rows after editing one field of every row whose id is `id`. */
  function UpdateById(cs: seq<Course>, id: nat, e: FieldEdit): (r: seq<Course>)
    ensures |r| == |cs|
    ensures forall i :: 0 <= i < |cs| ==> r[i].id == cs[i].id
    ensures forall i :: 0 <= i < |cs| && cs[i].id != id ==> r[i] == cs[i]
    ensures forall i :: 0 <= i < |cs| && cs[i].id == id ==> r[i] == ApplyEdit(cs[i], e)
  {
    seq(|cs|, i requires 0 <= i < |cs| => if cs[i].id == id then ApplyEdit(cs[i], e) else cs[i])
  }

  /** The rows whose id is not `id`, in their original order. */
  function RemoveById(cs: seq<Course>, id: nat): (r: seq<Course>)
    ensures |r| <= |cs|
  {
    if cs == [] then []
    else if cs[0].id == id then RemoveById(cs[1..], id)
    else [cs[0]] + RemoveById(cs[1..], id)
  }

  /** No two rows share an id. */
  predicate DistinctIds(cs: seq<Course>) {
    forall i, j :: 0 <= i < j < |cs| ==> cs[i].id != cs[j].id
  }

  /** A row survives the filter exactly when it was there and does not
      carry the id. */
  lemma {:induction false} RemoveKeepsExactly(cs: seq<Course>, id: nat)
    ensures forall c :: c in RemoveById(cs, id) <==> c in cs && c.id != id
  {
    if cs != [] {
      RemoveKeepsExactly(cs[1..], id);
      assert cs == [cs[0]] + cs[1..];
    }
  }

  /** No row carries the id. */
  predicate NoRowWith(cs: seq<Course>, id: nat) {
    forall i :: 0 <= i < |cs| ==> cs[i].id != id
  }

  /** Every row's id is below n (n is the next id to hand out). */
  predicate IdsBelow(cs: seq<Course>, n: nat) {
    forall i :: 0 <= i < |cs| ==> cs[i].id < n
  }

  /** Removing rows keeps every remaining id below the bound. */
  lemma RemoveKeepsIdsBelow(cs: seq<Course>, id: nat, n: nat)
    requires IdsBelow(cs, n)
    ensures IdsBelow(RemoveById(cs, id), n)
  {
    var r := RemoveById(cs, id);
    RemoveKeepsExactly(cs, id);
    forall i | 0 <= i < |r| ensures r[i].id < n {
      assert r[i] in cs;
    }
  }

  /** An edit of an id no row carries changes nothing. */
  lemma UpdateAbsent(cs: seq<Course>, id: nat, e: FieldEdit)
    requires NoRowWith(cs, id)
    ensures UpdateById(cs, id, e) == cs
  {
  }

  /** Repeating an edit is the same as making it once. */
  lemma UpdateIdempotent(cs: seq<Course>, id: nat, e: FieldEdit)
    ensures UpdateById(UpdateById(cs, id, e), id, e) == UpdateById(cs, id, e)
  {
  }

  /** Edits of two different rows do not interfere. */
  lemma UpdatesCommute(cs: seq<Course>, a: nat, ea: FieldEdit, b: nat, eb: FieldEdit)
    requires a != b
    ensures UpdateById(UpdateById(cs, a, ea), b, eb) == UpdateById(UpdateById(cs, b, eb), a, ea)
  {
  }

  /** Editing keeps the ids, so it keeps them distinct. */
  lemma UpdateKeepsDistinct(cs: seq<Course>, id: nat, e: FieldEdit)
    requires DistinctIds(cs)
    ensures DistinctIds(UpdateById(cs, id, e))
  {
  }

  /** Removing an id no row carries changes nothing. */
  lemma {:induction false} RemoveAbsent(cs: seq<Course>, id: nat)
    requires NoRowWith(cs, id)
    ensures RemoveById(cs, id) == cs
  {
    if cs != [] {
      assert NoRowWith(cs[1..], id) by {
        forall i | 0 <= i < |cs| - 1 ensures cs[1..][i] == cs[i + 1] { }
      }
      RemoveAbsent(cs[1..], id);
    }
  }

  /** The filter works row by row, so it keeps the order of what it keeps. */
  lemma {:induction false} RemoveDistributes(a: seq<Course>, b: seq<Course>, id: nat)
    ensures RemoveById(a + b, id) == RemoveById(a, id) + RemoveById(b, id)
  {
    if a == [] {
      assert a + b == b;
    } else {
      assert (a + b)[0] == a[0];
      assert (a + b)[1..] == a[1..] + b;
      RemoveDistributes(a[1..], b, id);
    }
  }

  /** Removing keeps ids distinct. */
  lemma {:induction false} RemoveKeepsDistinct(cs: seq<Course>, id: nat)
    requires DistinctIds(cs)
    ensures DistinctIds(RemoveById(cs, id))
  {
    if cs != [] {
      var tail := cs[1..];
      assert DistinctIds(tail) by {
        forall i, j | 0 <= i < j < |tail| ensures tail[i].id != tail[j].id {
          assert tail[i] == cs[i + 1] && tail[j] == cs[j + 1];
        }
      }
      RemoveKeepsDistinct(tail, id);
      var rest := RemoveById(tail, id);
      RemoveKeepsExactly(tail, id);
      if cs[0].id != id {
        var r := [cs[0]] + rest;
        forall i, j | 0 <= i < j < |r| ensures r[i].id != r[j].id {
          if i == 0 {
            assert r[j] == rest[j - 1] && r[j] in tail;
            var k :| 0 <= k < |tail| && tail[k] == r[j];
            assert cs[k + 1] == r[j];
          } else {
            assert r[i] == rest[i - 1] && r[j] == rest[j - 1];
          }
        }
      }
    }
  }

  /** Removing from rows around one row x removes from each side and drops
      x exactly when it carries the id. */
  lemma RemoveAround(before: seq<Course>, x: Course, after: seq<Course>, id: nat)
    ensures RemoveById(before + [x] + after, id)
         == RemoveById(before, id) + (if x.id == id then [] else [x]) + RemoveById(after, id)
  {
    RemoveDistributes(before + [x], after, id);
    RemoveDistributes(before, [x], id);
    assert [x][1..] == [];
  }

  /** With distinct ids, removing the id of row k removes exactly that row
      and keeps all others in order. */
  lemma RemoveUniqueRow(cs: seq<Course>, k: nat)
    requires DistinctIds(cs)
    requires k < |cs|
    ensures RemoveById(cs, cs[k].id) == cs[..k] + cs[k + 1..]
  {
    OnlyRowWith(cs, k);
    RemoveLoneRow(cs, k);
  }

  /** When row k is the only row with its id, removing that id takes out
      row k alone. */
  lemma RemoveLoneRow(cs: seq<Course>, k: nat)
    requires k < |cs|
    requires NoRowWith(cs[..k], cs[k].id) && NoRowWith(cs[k + 1..], cs[k].id)
    ensures RemoveById(cs, cs[k].id) == cs[..k] + cs[k + 1..]
  {
    var id, x := cs[k].id, cs[k];
    var before, after := cs[..k], cs[k + 1..];
    assert cs == before + [x] + after;
    calc {
      RemoveById(cs, id);
    ==  { RemoveAround(before, x, after, id); }
      RemoveById(before, id) + [] + RemoveById(after, id);
    ==  { RemoveAbsent(before, id); RemoveAbsent(after, id); }
      before + [] + after;
    ==
      before + after;
    }
  }

  /** With distinct ids, no row before or after row k carries its id. */
  lemma OnlyRowWith(cs: seq<Course>, k: nat)
    requires DistinctIds(cs)
    requires k < |cs|
    ensures NoRowWith(cs[..k], cs[k].id) && NoRowWith(cs[k + 1..], cs[k].id)
  {
    var before, after := cs[..k], cs[k + 1..];
    forall i | 0 <= i < |before| ensures before[i].id != cs[k].id {
      assert before[i] == cs[i];
    }
    forall i | 0 <= i < |after| ensures after[i].id != cs[k].id {
      assert after[i] == cs[k + 1 + i];
    }
  }

  /** `r` is `cs` without exactly the row that carries `id`, the others in
      their order, or `cs` itself when no row carries it. */
  predicate RemovesOnly(cs: seq<Course>, id: nat, r: seq<Course>) {
    && (forall k :: 0 <= k < |cs| && cs[k].id == id ==> r == cs[..k] + cs[k + 1..])
    && (NoRowWith(cs, id) ==> r == cs)
  }

  /** With distinct ids, the filter removes only the row with the id. */
  lemma RemoveOnlyThatRow(cs: seq<Course>, id: nat)
    requires DistinctIds(cs)
    ensures RemovesOnly(cs, id, RemoveById(cs, id))
  {
    forall k | 0 <= k < |cs| && cs[k].id == id
      ensures RemoveById(cs, id) == cs[..k] + cs[k + 1..]
    {
      RemoveUniqueRow(cs, k);
    }
    if NoRowWith(cs, id) {
      RemoveAbsent(cs, id);
    }
  }

  // ---- Row ids taken from a millisecond clock ----

  /** Adding a row whose id is the current time in milliseconds, as the
      calculator does. */
  function AddCourseAt(cs: seq<Course>, now: nat): (r: seq<Course>)
    ensures |r| == |cs| + 1 && r[..|cs|] == cs && r[|cs|] == Blank(now)
  {
    cs + [Blank(now)]
  }

  /** Two rows added within the same millisecond share an id: removing one
      removes both, and editing one edits both. */
  lemma SameMillisecondRowsShareFate(cs: seq<Course>, now: nat, e: FieldEdit)
    requires NoRowWith(cs, now)
    ensures RemoveById(AddCourseAt(AddCourseAt(cs, now), now), now) == cs
    ensures UpdateById(AddCourseAt(AddCourseAt(cs, now), now), now, e)
         == cs + [ApplyEdit(Blank(now), e), ApplyEdit(Blank(now), e)]
  {
    var once := cs + [Blank(now)];
    assert AddCourseAt(cs, now) == once;
    assert AddCourseAt(once, now) == once + [Blank(now)] + [];
    RemoveAround(once, Blank(now), [], now);
    assert once == cs + [Blank(now)] + [];
    RemoveAround(cs, Blank(now), [], now);
    RemoveAbsent(cs, now);
  }
}
