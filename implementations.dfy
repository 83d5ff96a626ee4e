/** Indicator-area enrollment through the browser (`PageObjects/implementations.py`).
    The browser is abstracted: the form steps the code issues are recorded in
    order, and whether a student's enrollment goes through is an outcome the
    caller supplies per student id. */
module Implementations {
  import opened Base
  import opened Strings
  import opened Seqs

  /** A row of `indicator_area_roster.xlsx`. */
  datatype RosterRow = RosterRow(studentId: string, school: string, grade: int, lastName: string, ia: string)

  /** What `get_student_details` returns. */
  datatype Details = Details(school: string, grade: int, name: string, iaList: seq<string>)

  /** A call on the indicator-area form. */
  datatype FormStep =
    | WaitForLoad
    | SelectSchool(school: string)
    | SelectGrade(grade: string)
    | SelectFirstPage
    | SelectStudent(id: string)
    | AssignIa(ia: string)
    | Save

  /** How one student's enrollment ends: it goes through, raises one of the
      three caught errors, or is interrupted from the keyboard. */
  datatype Outcome = Success | Timeout | Stale | OtherError | Interrupted

  /** How the run ends. */
  datatype RunEnd = Finished | StoppedAtMax | StoppedByInterrupt

  /** The school whose students also get the next grade selected. */
  const GradeAheadSchool: string := "Schurz High School"

  // ---------------------------------------------------------------- student_list

  function StudentIds(data: seq<RosterRow>): (r: seq<string>)
    ensures |r| == |data| && forall k :: 0 <= k < |data| ==> r[k] == data[k].studentId
  {
    seq(|data|, k requires 0 <= k < |data| => data[k].studentId)
  }

  /** `data['Student: Student ID'].unique()`. */
  function StudentList(data: seq<RosterRow>): seq<string>
  {
    Unique(StudentIds(data))
  }

  /** Each roster student once, nobody else, in order of first appearance. */
  lemma StudentListFacts(data: seq<RosterRow>, i: nat, j: nat)
    ensures Distinct(StudentList(data))
    ensures forall id :: id in StudentList(data) <==> exists k :: 0 <= k < |data| && data[k].studentId == id
    ensures i < j < |StudentList(data)| ==>
      FirstIndex(StudentIds(data), StudentList(data)[i]) < FirstIndex(StudentIds(data), StudentList(data)[j])
  {
    var ids := StudentIds(data);
    forall id
      ensures id in StudentList(data) <==> exists k :: 0 <= k < |data| && data[k].studentId == id
    {
      if id in ids {
        var k := FirstIndex(ids, id);
        assert data[k].studentId == id;
      }
    }
    if i < j < |StudentList(data)| {
      UniqueFirstAppearance(ids, i, j);
      var a, b :| 0 <= a < b < |ids| && ids[a] == Unique(ids)[i] && ids[b] == Unique(ids)[j] &&
        Unique(ids)[i] !in ids[..a] && Unique(ids)[j] !in ids[..b];
      FirstIndexAt(ids, ids[a], a);
      FirstIndexAt(ids, ids[b], b);
    }
  }

  // ---------------------------------------------------------------- get_student_details

  predicate IsStudent(id: string, r: RosterRow)
  {
    r.studentId == id
  }

  /** `data[data['Student: Student ID'] == student_id]`. */
  function RecordsOf(data: seq<RosterRow>, id: string): seq<RosterRow>
  {
    Filter(data, r => IsStudent(id, r))
  }

  function IaOf(r: RosterRow): string
  {
    r.ia
  }

  /** `get_student_details`: school, grade and name are the first of their unique
      values, that is, those of the student's first row; an id with no row
      raises IndexError. */
  function GetStudentDetails(data: seq<RosterRow>, id: string): Result<Details>
  {
    var recs := RecordsOf(data, id);
    if |recs| == 0 then Err(IndexError)
    else Ok(Details(recs[0].school, recs[0].grade, recs[0].lastName, Map(recs, IaOf)))
  }

  /** The first selected row is the first row of the student in the roster. */
  lemma {:induction false} RecordsHead(data: seq<RosterRow>, id: string)
    requires id in StudentIds(data)
    ensures |RecordsOf(data, id)| > 0 && RecordsOf(data, id)[0] == data[FirstIndex(StudentIds(data), id)]
  {
    var ids := StudentIds(data);
    var p := r => IsStudent(id, r);
    assert |data| > 0 && ids[0] == data[0].studentId;
    assert Filter(data, p) == (if p(data[0]) then [data[0]] else []) + Filter(data[1..], p);
    if data[0].studentId != id {
      var tail := StudentIds(data[1..]);
      assert ids == [data[0].studentId] + tail;
      assert id in tail;
      RecordsHead(data[1..], id);
      FirstIndexAt(ids, id, FirstIndex(tail, id) + 1);
    }
  }

  /** The IA list is the student's rows' IAs in roster order: one entry per row. */
  lemma {:induction false} RecordsIas(data: seq<RosterRow>, id: string)
    ensures |Map(RecordsOf(data, id), IaOf)| == |Filter(data, r => IsStudent(id, r))|
    ensures forall r :: r in data && r.studentId == id ==> r.ia in Map(RecordsOf(data, id), IaOf)
    ensures forall x :: x in Map(RecordsOf(data, id), IaOf) ==> exists r :: r in data && r.studentId == id && r.ia == x
  {
    var recs := RecordsOf(data, id);
    forall r | r in data && r.studentId == id
      ensures r.ia in Map(recs, IaOf)
    {
      FilterIn(data, x => IsStudent(id, x), r);
      var k :| 0 <= k < |recs| && recs[k] == r;
      MapHas(recs, IaOf, k);
    }
    forall x | x in Map(recs, IaOf)
      ensures exists r :: r in data && r.studentId == id && r.ia == x
    {
      var k := MapSource(recs, IaOf, x);
      FilterIn(data, y => IsStudent(id, y), recs[k]);
    }
  }

  /** Details exist exactly for roster students, and come from the first row. */
  /** An id with no row selects nothing. */
  lemma {:induction false} RecordsNone(data: seq<RosterRow>, id: string)
    requires id !in StudentIds(data)
    ensures RecordsOf(data, id) == []
  {
    if |data| > 0 {
      assert StudentIds(data) == [data[0].studentId] + StudentIds(data[1..]);
      RecordsNone(data[1..], id);
    }
  }

  lemma DetailsOfRosterStudent(data: seq<RosterRow>, id: string)
    ensures GetStudentDetails(data, id).Ok? <==> id in StudentList(data)
    ensures GetStudentDetails(data, id).Err? ==> GetStudentDetails(data, id).exc == IndexError
    ensures id in StudentIds(data) ==>
      var d := GetStudentDetails(data, id).value;
      var first := data[FirstIndex(StudentIds(data), id)];
      d.school == first.school && d.grade == first.grade && d.name == first.lastName
  {
    if id in StudentIds(data) {
      RecordsHead(data, id);
    } else {
      RecordsNone(data, id);
    }
  }

  // ---------------------------------------------------------------- enroll_student

  /** One `select_student` and one `assign_indicator_area` per IA. */
  function IaSteps(id: string, ias: seq<string>): (r: seq<FormStep>)
  {
    if |ias| == 0 then []
    else IaSteps(id, ias[..|ias| - 1]) + [SelectStudent(id), AssignIa(ias[|ias| - 1])]
  }

  /** The select/assign pairs, in IA order, and no save among them. */
  lemma {:induction false} IaStepsAt(id: string, ias: seq<string>)
    ensures |IaSteps(id, ias)| == 2 * |ias|
    ensures forall k :: 0 <= k < |ias| ==>
      IaSteps(id, ias)[2 * k] == SelectStudent(id) && IaSteps(id, ias)[2 * k + 1] == AssignIa(ias[k])
    ensures Save !in IaSteps(id, ias)
  {
    if |ias| > 0 {
      IaStepsAt(id, ias[..|ias| - 1]);
    }
  }

  predicate GradesAhead(school: string)
  {
    school == GradeAheadSchool
  }

  /** The grade selections: the next grade first at `Schurz High School`. */
  function GradeSteps(school: string, grade: int): seq<FormStep>
  {
    (if GradesAhead(school) then [SelectGrade(IntToString(grade + 1))] else []) +
    [SelectGrade(IntToString(grade))]
  }

  /** The steps before the IA loop: wait, school, grades, first page. */
  function Prelude(d: Details): seq<FormStep>
  {
    [WaitForLoad, SelectSchool(d.school)] + GradeSteps(d.school, d.grade) + [SelectFirstPage]
  }

  /** The form steps of `enroll_student` once the details are known. */
  function EnrollSteps(id: string, d: Details): seq<FormStep>
  {
    Prelude(d) + IaSteps(id, d.iaList) + [Save]
  }

  lemma PreludeAt(d: Details)
    ensures var p := Prelude(d);
      var g := if GradesAhead(d.school) then 1 else 0;
      |p| == 4 + g && p[0] == WaitForLoad && p[1] == SelectSchool(d.school) &&
      (GradesAhead(d.school) ==> p[2] == SelectGrade(IntToString(d.grade + 1))) &&
      p[2 + g] == SelectGrade(IntToString(d.grade)) && p[3 + g] == SelectFirstPage && Save !in p
  {
  }

  /** `enroll_student` saves exactly once, at the end, after one select and one
      assign per IA in order; the school is chosen before the grade, and only
      for `Schurz High School` is the next grade selected, before the grade. */
  lemma EnrollStepsShape(id: string, d: Details)
    ensures var s := EnrollSteps(id, d);
      var g := if GradesAhead(d.school) then 1 else 0;
      |s| == 5 + g + 2 * |d.iaList| &&
      s[0] == WaitForLoad && s[1] == SelectSchool(d.school) &&
      (GradesAhead(d.school) ==> s[2] == SelectGrade(IntToString(d.grade + 1))) &&
      s[2 + g] == SelectGrade(IntToString(d.grade)) && s[3 + g] == SelectFirstPage &&
      (forall k :: 0 <= k < |d.iaList| ==>
        s[4 + g + 2 * k] == SelectStudent(id) && s[5 + g + 2 * k] == AssignIa(d.iaList[k])) &&
      s[|s| - 1] == Save && Save !in s[..|s| - 1]
  {
    PreludeAt(d);
    IaStepsAt(id, d.iaList);
    var s := EnrollSteps(id, d);
    var head := Prelude(d);
    var ias := IaSteps(id, d.iaList);
    assert s[..|s| - 1] == head + ias;
    forall k | 0 <= k < |head|
      ensures s[k] == head[k]
    {
    }
    forall k | 0 <= k < |d.iaList|
      ensures s[|head| + 2 * k] == SelectStudent(id) && s[|head| + 2 * k + 1] == AssignIa(d.iaList[k])
    {
      assert s[|head| + 2 * k] == ias[2 * k];
      assert s[|head| + 2 * k + 1] == ias[2 * k + 1];
    }
  }

  /** The steps `enroll_student` issues for `id`: only the wait when the id has
      no details. */
  function EnrollTrace(data: seq<RosterRow>, id: string): seq<FormStep>
  {
    var details := GetStudentDetails(data, id);
    if details.Ok? then EnrollSteps(id, details.value) else [WaitForLoad]
  }

  lemma Assoc<T>(a: seq<T>, b: seq<T>, c: seq<T>)
    ensures a + b + c == a + (b + c)
  {
  }

  lemma Append3<T>(a: seq<T>, b: seq<T>, c: seq<T>, d: seq<T>)
    ensures a + b + c + d == a + (b + c + d)
  {
  }

  /** The steps of the students that went through, among `ids`, in order. */
  function SuccessSteps(data: seq<RosterRow>, ids: seq<string>, outcome: string -> Outcome): seq<FormStep>
  {
    if |ids| == 0 then []
    else
      var id := ids[|ids| - 1];
      SuccessSteps(data, ids[..|ids| - 1], outcome) +
      (if outcome(id) == Success then EnrollTrace(data, id) else [])
  }

  lemma SuccessStepsNext(data: seq<RosterRow>, ids: seq<string>, k: nat, outcome: string -> Outcome)
    requires k < |ids|
    ensures outcome(ids[k]) == Success ==>
      SuccessSteps(data, ids[..k + 1], outcome) == SuccessSteps(data, ids[..k], outcome) + EnrollTrace(data, ids[k])
    ensures outcome(ids[k]) != Success ==>
      SuccessSteps(data, ids[..k + 1], outcome) == SuccessSteps(data, ids[..k], outcome)
  {
    assert ids[..k + 1][..k] == ids[..k];
    assert SuccessSteps(data, ids[..k], outcome) + [] == SuccessSteps(data, ids[..k], outcome);
  }

  // ---------------------------------------------------------------- enroll_all_students

  predicate IsFailure(o: Outcome)
  {
    o == Timeout || o == Stale || o == OtherError
  }

  /** The error-count loop from the `tried`-th student on, with `count` errors so far. */
  function Run(outs: seq<Outcome>, maxErrors: int, count: int, tried: nat): (r: (int, nat, RunEnd))
    requires tried <= |outs|
    ensures tried <= r.1 <= |outs|
    decreases |outs| - tried
  {
    if tried == |outs| then (count, tried, Finished)
    else if count == maxErrors then (count, tried, StoppedAtMax)
    else if outs[tried] == Interrupted then (count, tried + 1, StoppedByInterrupt)
    else if outs[tried] == Success then Run(outs, maxErrors, count, tried + 1)
    else Run(outs, maxErrors, count + 1, tried + 1)
  }

  /** The outcome of each listed student. */
  function Outcomes(ids: seq<string>, outcome: string -> Outcome): (r: seq<Outcome>)
    ensures |r| == |ids| && forall k :: 0 <= k < |ids| ==> r[k] == outcome(ids[k])
  {
    seq(|ids|, k requires 0 <= k < |ids| => outcome(ids[k]))
  }

  /** Every attempted student that failed adds one error, and nothing else does. */
  lemma {:induction false} RunCounts(outs: seq<Outcome>, maxErrors: int, count: int, tried: nat)
    requires tried <= |outs|
    ensures var r := Run(outs, maxErrors, count, tried);
      r.0 == count + CountWhere(outs[tried..r.1], IsFailure)
    decreases |outs| - tried
  {
    var r := Run(outs, maxErrors, count, tried);
    if tried == |outs| || count == maxErrors {
      assert outs[tried..r.1] == [];
    } else {
      var step := if IsFailure(outs[tried]) then 1 else 0;
      assert outs[tried..r.1][0] == outs[tried] && outs[tried..r.1][1..] == outs[tried + 1..r.1];
      if outs[tried] != Interrupted {
        RunCounts(outs, maxErrors, count + step, tried + 1);
      } else {
        assert outs[tried + 1..r.1] == [];
      }
    }
  }

  /** Starting at or below `max_errors`, the count never exceeds it. */
  lemma {:induction false} RunBounded(outs: seq<Outcome>, maxErrors: int, count: int, tried: nat)
    requires tried <= |outs| && count <= maxErrors
    ensures Run(outs, maxErrors, count, tried).0 <= maxErrors
    decreases |outs| - tried
  {
    if tried < |outs| && count != maxErrors && outs[tried] != Interrupted {
      RunBounded(outs, maxErrors, if outs[tried] == Success then count else count + 1, tried + 1);
    }
  }

  /** How the run ends: it stops at `max_errors` only with that many errors and
      students left; an interrupt is the last student attempted and the first one
      to interrupt; otherwise every student was attempted. */
  lemma {:induction false} RunEnds(outs: seq<Outcome>, maxErrors: int, count: int, tried: nat)
    requires tried <= |outs|
    ensures var r := Run(outs, maxErrors, count, tried);
      (r.2 == StoppedAtMax ==> r.0 == maxErrors && r.1 < |outs|) &&
      (r.2 == StoppedByInterrupt ==> r.1 > tried && outs[r.1 - 1] == Interrupted && Interrupted !in outs[tried..r.1 - 1]) &&
      (r.2 == Finished ==> r.1 == |outs| && Interrupted !in outs[tried..])
    decreases |outs| - tried
  {
    if tried < |outs| && count != maxErrors && outs[tried] != Interrupted {
      var r := Run(outs, maxErrors, count, tried);
      RunEnds(outs, maxErrors, if outs[tried] == Success then count else count + 1, tried + 1);
      assert outs[tried..] == [outs[tried]] + outs[tried + 1..];
      if r.2 == StoppedByInterrupt {
        assert outs[tried..r.1 - 1] == [outs[tried]] + outs[tried + 1..r.1 - 1];
      }
    } else if tried < |outs| && count != maxErrors {
      assert outs[tried..tried] == [];
    }
  }

  /** With a negative `max_errors` the error count never stops the run. */
  lemma {:induction false} RunNegativeMax(outs: seq<Outcome>, maxErrors: int, count: int, tried: nat)
    requires tried <= |outs| && maxErrors < 0 && count >= 0
    ensures Run(outs, maxErrors, count, tried).2 != StoppedAtMax
    decreases |outs| - tried
  {
    if tried < |outs| && outs[tried] != Interrupted {
      RunNegativeMax(outs, maxErrors, if outs[tried] == Success then count else count + 1, tried + 1);
    }
  }

  /** `IndicatorAreaEnrollment`: the roster, the error count, and the form steps
      issued so far. */
  class IndicatorAreaEnrollment {
    var data: seq<RosterRow>
    var errorCount: int
    var steps: seq<FormStep>

    /** The roster read by `__init__`; the error count is set before it is read. */
    constructor (roster: seq<RosterRow>)
      ensures data == roster && errorCount == 0 && steps == []
    {
      data := roster;
      errorCount := 0;
      steps := [];
    }

    /** `enroll_student`: wait for the form, look up the details, select school
        and grade, select and assign each IA, save. */
    method EnrollStudent(id: string) returns (res: Result<()>)
      modifies this
      ensures data == old(data) && errorCount == old(errorCount)
      ensures res == (if GetStudentDetails(data, id).Ok? then Ok(()) else Err(IndexError))
      ensures steps == old(steps) + EnrollTrace(data, id)
    {
      ghost var start := steps;
      steps := steps + [WaitForLoad];
      var details := GetStudentDetails(data, id);
      if details.Err? {
        return Err(details.exc);
      }
      var d := details.value;
      steps := steps + [SelectSchool(d.school)];
      if GradesAhead(d.school) {
        steps := steps + [SelectGrade(IntToString(d.grade + 1))];
      }
      steps := steps + [SelectGrade(IntToString(d.grade)), SelectFirstPage];
      ghost var head := Prelude(d);
      assert steps == start + head;
      AssignIndicatorAreas(id, d.iaList);
      ghost var mid := steps;
      steps := steps + [Save];
      Append3(start, head, IaSteps(id, d.iaList), [Save]);
      return Ok(());
    }

    /** The loop of `enroll_student` over the student's IAs. */
    method AssignIndicatorAreas(id: string, ias: seq<string>)
      modifies this
      ensures data == old(data) && errorCount == old(errorCount)
      ensures steps == old(steps) + IaSteps(id, ias)
    {
      var k := 0;
      while k < |ias|
        invariant k <= |ias| && steps == old(steps) + IaSteps(id, ias[..k])
        invariant data == old(data) && errorCount == old(errorCount)
      {
        assert ias[..k + 1][..k] == ias[..k];
        steps := steps + [SelectStudent(id), AssignIa(ias[k])];
        k := k + 1;
      }
      assert ias[..k] == ias;
    }

    /** `enroll_all_students`: the count is reset, then each listed student is
        tried unless the count has reached `max_errors`; a caught error adds one
        and the loop goes on, an interrupt ends the run. Returns how far it got. */
    method EnrollAllStudents(maxErrors: int, outcome: string -> Outcome) returns (tried: nat, end: RunEnd)
      modifies this
      ensures data == old(data)
      ensures var ids := StudentList(data);
        var r := Run(Outcomes(ids, outcome), maxErrors, 0, 0);
        tried == r.1 && end == r.2 && errorCount == r.0 &&
        steps == old(steps) + SuccessSteps(data, ids[..tried], outcome)
    {
      var ids := StudentList(data);
      ghost var outs := Outcomes(ids, outcome);
      ghost var start := steps;
      errorCount := 0;
      var k := 0;
      while k < |ids|
        invariant k <= |ids| && data == old(data)
        invariant Run(outs, maxErrors, 0, 0) == Run(outs, maxErrors, errorCount, k)
        invariant steps == start + SuccessSteps(data, ids[..k], outcome)
      {
        if errorCount == maxErrors {
          return k, StoppedAtMax;
        }
        var o := outcome(ids[k]);
        SuccessStepsNext(data, ids, k, outcome);
        if o == Interrupted {
          return k + 1, StoppedByInterrupt;
        }
        ghost var before := steps;
        ghost var x := if o == Success then EnrollTrace(data, ids[k]) else [];
        if o == Success {
          var res := EnrollStudent(ids[k]);
        } else {
          errorCount := errorCount + 1;
        }
        assert steps == before + x;
        Assoc(start, SuccessSteps(data, ids[..k], outcome), x);
        k := k + 1;
      }
      assert ids[..k] == ids;
      return k, Finished;
    }
  }

  /** A whole run: the count ends at most `max_errors` (when that is not
      negative) and equals the failures among the attempted students; a stop at
      the limit leaves students unattempted. */
  lemma EnrollAllFacts(ids: seq<string>, outcome: string -> Outcome, maxErrors: int)
    ensures var outs := Outcomes(ids, outcome);
      var r := Run(outs, maxErrors, 0, 0);
      (maxErrors >= 0 ==> r.0 <= maxErrors) &&
      r.0 == CountWhere(outs[..r.1], IsFailure) &&
      (r.2 == StoppedAtMax ==> r.0 == maxErrors && r.1 < |ids|) &&
      (r.2 == StoppedByInterrupt ==> outcome(ids[r.1 - 1]) == Interrupted) &&
      (r.2 == Finished ==> r.1 == |ids| && forall k :: 0 <= k < |ids| ==> outcome(ids[k]) != Interrupted) &&
      (maxErrors < 0 ==> r.2 != StoppedAtMax)
  {
    var outs := Outcomes(ids, outcome);
    var r := Run(outs, maxErrors, 0, 0);
    RunCounts(outs, maxErrors, 0, 0);
    RunEnds(outs, maxErrors, 0, 0);
    assert outs[0..r.1] == outs[..r.1];
    assert outs[0..] == outs;
    if maxErrors >= 0 {
      RunBounded(outs, maxErrors, 0, 0);
    } else {
      RunNegativeMax(outs, maxErrors, 0, 0);
    }
    if r.2 == Finished {
      forall k | 0 <= k < |ids|
        ensures outcome(ids[k]) != Interrupted
      {
        assert outs[k] == outcome(ids[k]);
      }
    }
  }
}
