/** Chicago indicator-area (IA) assignment: which enrolled students should get an
    indicator area, under per-program assessment, time and activity rules. */
module ChiIaAssignment {
  import opened Base
  import opened Strings
  import opened Seqs
  import opened Sorting

  // ----- SECTION_IA_DICT and its inversion -----

  /** `SECTION_IA_DICT.items()`, in insertion order: section name, IA type. */
  const SectionIaItems: seq<(string, string)> := [
    ("Coaching: Attendance", "Attendance"),
    ("SEL Check In Check Out", "Behavior"),
    ("Tutoring: Math", "Math"),
    ("Tutoring: Literacy", "ELA/Literacy")]

  /** `{v: k for k, v in items}`: later items overwrite earlier ones. */
  function Invert(items: seq<(string, string)>): (m: map<string, string>)
    ensures forall i :: 0 <= i < |items| ==> items[i].1 in m
    ensures forall v :: v in m ==> exists i :: 0 <= i < |items| && items[i] == (m[v], v)
  {
    if |items| == 0 then map[]
    else
      var pre := items[..|items| - 1];
      var last := items[|items| - 1];
      var m := Invert(pre);
      assert forall i :: 0 <= i < |pre| ==> pre[i] == items[i];
      m[last.1 := last.0]
  }

  /** `SECTION_IA_DICT.get(section_type)`. */
  function SectionIa(sectionType: string): Option<string>
  {
    if sectionType == "Coaching: Attendance" then Some("Attendance")
    else if sectionType == "SEL Check In Check Out" then Some("Behavior")
    else if sectionType == "Tutoring: Math" then Some("Math")
    else if sectionType == "Tutoring: Literacy" then Some("ELA/Literacy")
    else None
  }

  /** The dictionary literal and its items list agree. */
  lemma SectionIaItemsAgree(k: nat)
    requires k < |SectionIaItems|
    ensures SectionIa(SectionIaItems[k].0) == Some(SectionIaItems[k].1)
  {
  }

  predicate DistinctValues(items: seq<(string, string)>)
  {
    forall i, j :: 0 <= i < j < |items| ==> items[i].1 != items[j].1
  }

  /** With distinct values the inverted dictionary sends each value back to its key. */
  lemma {:induction false} InvertExact(items: seq<(string, string)>, i: nat)
    requires DistinctValues(items) && i < |items|
    ensures Invert(items)[items[i].1] == items[i].0
  {
    var pre := items[..|items| - 1];
    if i < |items| - 1 {
      assert DistinctValues(pre) by {
        assert forall a :: 0 <= a < |pre| ==> pre[a] == items[a];
      }
      assert pre[i] == items[i];
      InvertExact(pre, i);
    }
  }

  /** The four IA types map back to their section names. */
  lemma SectionIaInverse(k: nat)
    requires k < |SectionIaItems|
    ensures Invert(SectionIaItems)[SectionIaItems[k].1] == SectionIaItems[k].0
  {
    assert DistinctValues(SectionIaItems);
    InvertExact(SectionIaItems, k);
  }

  // ----- assessments -----

  datatype Assessment = Assessment(
    studentId: string, typeName: Option<string>, date: Option<int>,
    scaled: Option<int>, ada: Option<int>, sel: Option<int>)

  /** `sum(axis=1)`: missing scores are skipped, so all-missing sums to 0. */
  function Score(a: Assessment): int
  {
    a.scaled.GetOr(0) + a.ada.GetOr(0) + a.sel.GetOr(0)
  }

  /** `get_assessment_details`: assessments whose score sum is positive. */
  function AssessmentDetails(rows: seq<Assessment>): (r: seq<Assessment>)
    ensures forall i :: 0 <= i < |r| ==> Score(r[i]) > 0
    ensures multiset(r) <= multiset(rows)
  {
    FilterMultiset(rows, (a: Assessment) => Score(a) > 0);
    Filter(rows, (a: Assessment) => Score(a) > 0)
  }

  /** Every positive-score assessment is kept (and nothing else, by the ensures above). */
  lemma AssessmentKept(rows: seq<Assessment>, a: Assessment)
    ensures a in AssessmentDetails(rows) <==> a in rows && Score(a) > 0
  {
    FilterIn(rows, (a: Assessment) => Score(a) > 0, a);
  }

  // ----- enrollment details -----

  /** A student-section row after the section, student and school merges. */
  datatype StuSec = StuSec(
    studentId: string, active: bool, time: Option<int>, start: Option<int>, end: Option<int>,
    programId: Option<string>, programName: Option<string>,
    lastName: Option<string>, grade: Option<int>, school: Option<string>)

  /** `Student__c + "_" + Program__c`; missing when the program is missing. */
  function StudentProgram(r: StuSec): Option<string>
  {
    if r.programId.Some? then Some(r.studentId + "_" + r.programId.value) else None
  }

  /** An enrollment row with its per-Student_Program aggregates. */
  datatype Enrollment = Enrollment(
    studentProgram: Option<string>, studentId: string, active: bool,
    time: Option<int>, start: Option<int>, end: int, daysActive: Option<int>,
    programName: Option<string>, lastName: Option<string>, grade: Option<int>,
    school: Option<string>)

  /** The smallest present value, missing when none is present. */
  function MinOpt(s: seq<Option<int>>): (r: Option<int>)
    ensures r.Some? <==> exists i :: 0 <= i < |s| && s[i].Some?
    ensures r.Some? ==> (exists i :: 0 <= i < |s| && s[i] == r) &&
                        forall i :: 0 <= i < |s| && s[i].Some? ==> r.value <= s[i].value
  {
    if |s| == 0 then None
    else
      var t := MinOpt(s[1..]);
      assert forall i :: 1 <= i < |s| ==> s[i] == s[1..][i - 1];
      if s[0].None? then t
      else if t.None? || s[0].value <= t.value then s[0]
      else t
  }

  function MaxOf(s: seq<int>): (r: int)
    requires |s| > 0
    ensures (exists i :: 0 <= i < |s| && s[i] == r) && forall i :: 0 <= i < |s| ==> s[i] <= r
  {
    if |s| == 1 then s[0]
    else
      var t := MaxOf(s[1..]);
      assert forall i :: 1 <= i < |s| ==> s[i] == s[1..][i - 1];
      if s[0] >= t then s[0] else t
  }

  /** The rows of the group a key names. */
  function Group(rows: seq<StuSec>, key: Option<string>): (g: seq<StuSec>)
  {
    Filter(rows, (x: StuSec) => StudentProgram(x) == key)
  }

  /** One row of `get_student_enrollment_details`: the group's min start, max end
      (a missing end counts as `now`) and summed time overwrite the row's own;
      a row with a missing key belongs to no group and keeps its values. */
  function Aggregate(rows: seq<StuSec>, r: StuSec, now: int): Enrollment
    requires r in rows
  {
    var key := StudentProgram(r);
    var agg := if key.None? then (r.start, r.end.GetOr(now), r.time) else GroupAgg(rows, key, now);
    var start := agg.0;
    Enrollment(key, r.studentId, r.active, agg.2, start, agg.1,
               if start.Some? then Some(agg.1 - start.value) else None,
               r.programName, r.lastName, r.grade, r.school)
  }

  /** The aggregates of one key's group: (min start, max end, summed time). */
  function GroupAgg(rows: seq<StuSec>, key: Option<string>, now: int): (Option<int>, int, Option<int>)
    requires exists i :: 0 <= i < |rows| && StudentProgram(rows[i]) == key
  {
    var g := Group(rows, key);
    assert |g| > 0 by {
      var i :| 0 <= i < |rows| && StudentProgram(rows[i]) == key;
      FilterIn(rows, (x: StuSec) => StudentProgram(x) == key, rows[i]);
    }
    (MinOpt(Map(g, (x: StuSec) => x.start)),
     MaxOf(Map(g, (x: StuSec) => x.end.GetOr(now))),
     Some(Sum(Map(g, (x: StuSec) => x.time.GetOr(0)))))
  }

  /** The columns an enrollment row takes from its own student-section row, and
      Days Active as end minus start. A row with no Student_Program belongs to no
      group and keeps its own start, end (a missing end taken as now) and time. */
  predicate OwnColumns(x: StuSec, e: Enrollment, now: int)
  {
    e.studentProgram == StudentProgram(x) && e.studentId == x.studentId && e.active == x.active &&
    e.programName == x.programName && e.lastName == x.lastName && e.grade == x.grade && e.school == x.school &&
    e.daysActive == (if e.start.Some? then Some(e.end - e.start.value) else None) &&
    (StudentProgram(x).None? ==> e.start == x.start && e.end == x.end.GetOr(now) && e.time == x.time)
  }

  /** Two enrollment rows carry the same group aggregates. */
  predicate SameAggregates(e: Enrollment, f: Enrollment)
  {
    e.start == f.start && e.end == f.end && e.time == f.time && e.daysActive == f.daysActive
  }

  /** The aggregates of `e` bound the member `x` of its group: the end is at least
      its end (a missing end taken as now) and the start at most its present start. */
  predicate Bounds(e: Enrollment, x: StuSec, now: int)
  {
    e.end >= x.end.GetOr(now) && (x.start.Some? ==> e.start.Some? && e.start.value <= x.start.value)
  }

  /** `get_student_enrollment_details`: one row per student-section row, in order.
      Rows of one Student_Program share start, end, time and Days Active; the end
      is the latest of the group, the start the earliest present one, and the time
      the group's sum of present times. */
  function EnrollmentDetails(rows: seq<StuSec>, now: int): (r: seq<Enrollment>)
    ensures |r| == |rows|
    ensures forall i :: 0 <= i < |rows| ==> OwnColumns(rows[i], r[i], now)
    ensures forall i :: 0 <= i < |rows| && StudentProgram(rows[i]).Some? ==>
      r[i].time == Some(Sum(Map(Group(rows, StudentProgram(rows[i])), (x: StuSec) => x.time.GetOr(0))))
    ensures forall i, j :: (0 <= i < |rows| && 0 <= j < |rows| &&
                            StudentProgram(rows[i]).Some? && StudentProgram(rows[i]) == StudentProgram(rows[j])) ==>
      SameAggregates(r[i], r[j]) && Bounds(r[i], rows[j], now)
  {
    AggregatesAgree(rows, now);
    seq(|rows|, i requires 0 <= i < |rows| => Aggregate(rows, rows[i], now))
  }

  /** The group facts, row pair by row pair, about `Aggregate`. */
  lemma AggregatesAgree(rows: seq<StuSec>, now: int)
    ensures forall i :: 0 <= i < |rows| && StudentProgram(rows[i]).Some? ==>
      Aggregate(rows, rows[i], now).time == Some(Sum(Map(Group(rows, StudentProgram(rows[i])), (x: StuSec) => x.time.GetOr(0))))
    ensures forall i, j :: (0 <= i < |rows| && 0 <= j < |rows| &&
                            StudentProgram(rows[i]).Some? && StudentProgram(rows[i]) == StudentProgram(rows[j])) ==>
      SameAggregates(Aggregate(rows, rows[i], now), Aggregate(rows, rows[j], now)) &&
      Bounds(Aggregate(rows, rows[i], now), rows[j], now)
  {
    forall i, j | 0 <= i < |rows| && 0 <= j < |rows| &&
      StudentProgram(rows[i]).Some? && StudentProgram(rows[i]) == StudentProgram(rows[j])
      ensures SameAggregates(Aggregate(rows, rows[i], now), Aggregate(rows, rows[j], now)) &&
        Bounds(Aggregate(rows, rows[i], now), rows[j], now)
    {
      AggregatePair(rows, now, i, j);
    }
    forall i | 0 <= i < |rows| && StudentProgram(rows[i]).Some?
      ensures Aggregate(rows, rows[i], now).time ==
        Some(Sum(Map(Group(rows, StudentProgram(rows[i])), (x: StuSec) => x.time.GetOr(0))))
    {
      AggregateOfGroup(rows, rows[i], now);
      GroupAggBounds(rows, StudentProgram(rows[i]), now, i);
    }
  }

  /** Two rows of one group carry the same aggregates, and those bound the second. */
  lemma AggregatePair(rows: seq<StuSec>, now: int, i: nat, j: nat)
    requires i < |rows| && j < |rows| && StudentProgram(rows[i]).Some? && StudentProgram(rows[i]) == StudentProgram(rows[j])
    ensures SameAggregates(Aggregate(rows, rows[i], now), Aggregate(rows, rows[j], now)) &&
      Bounds(Aggregate(rows, rows[i], now), rows[j], now)
  {
    AggregateOfGroup(rows, rows[i], now);
    AggregateOfGroup(rows, rows[j], now);
    GroupAggBounds(rows, StudentProgram(rows[i]), now, j);
  }

  lemma AggregateOfGroup(rows: seq<StuSec>, r: StuSec, now: int)
    requires r in rows && StudentProgram(r).Some?
    ensures var e, agg := Aggregate(rows, r, now), GroupAgg(rows, StudentProgram(r), now);
      e.start == agg.0 && e.end == agg.1 && e.time == agg.2 &&
      e.daysActive == (if agg.0.Some? then Some(agg.1 - agg.0.value) else None)
  {
  }

  lemma GroupAggBounds(rows: seq<StuSec>, key: Option<string>, now: int, j: nat)
    requires j < |rows| && StudentProgram(rows[j]) == key
    ensures var agg := GroupAgg(rows, key, now);
      agg.1 >= rows[j].end.GetOr(now) &&
      (rows[j].start.Some? ==> agg.0.Some? && agg.0.value <= rows[j].start.value) &&
      agg.2 == Some(Sum(Map(Group(rows, key), (x: StuSec) => x.time.GetOr(0))))
  {
    var p := (x: StuSec) => StudentProgram(x) == key;
    var g := Group(rows, key);
    FilterIn(rows, p, rows[j]);
    var k := FirstIndex(g, rows[j]);
    var ends := Map(g, (x: StuSec) => x.end.GetOr(now));
    var starts := Map(g, (x: StuSec) => x.start);
    assert ends[k] == rows[j].end.GetOr(now);
    assert starts[k] == rows[j].start;
  }

  // ----- IA enrollment details -----

  datatype StudentIa = StudentIa(studentId: string, iaId: string)
  datatype IaRecord = IaRecord(id: string, iaType: Option<string>)
  datatype ProgramRecord = ProgramRecord(id: string, name: string)

  /** An IA row: its Student_Program and the section name its type maps back to. */
  datatype IaDetail = IaDetail(studentProgram: Option<string>, iaId: string, sectionName: Option<string>)

  /** The type of the first IA record with the id, missing when none has it. */
  function FirstIaType(ias: seq<IaRecord>, id: string): (r: Option<string>)
    ensures (forall k :: 0 <= k < |ias| ==> ias[k].id != id) ==> r.None?
    ensures forall k :: 0 <= k < |ias| && ias[k].id == id && (forall m :: 0 <= m < k ==> ias[m].id != id) ==>
      r == ias[k].iaType
  {
    if |ias| == 0 then None
    else if ias[0].id == id then ias[0].iaType
    else
      assert forall k :: 1 <= k < |ias| ==> ias[k] == ias[1..][k - 1];
      FirstIaType(ias[1..], id)
  }

  /** The IA type mapped through the inverted dictionary (unmapped types become missing). */
  function SectionOfIaType(t: Option<string>): (r: Option<string>)
    ensures r.Some? ==> t.Some? && exists k :: 0 <= k < |SectionIaItems| && SectionIaItems[k] == (r.value, t.value)
    ensures r.None? ==> t.None? || forall k :: 0 <= k < |SectionIaItems| ==> SectionIaItems[k].1 != t.value
  {
    var inv := Invert(SectionIaItems);
    if t.Some? && t.value in inv then Some(inv[t.value]) else None
  }

  /** The section the IA of a link maps back to: missing when the IA is unknown
      or its type unmapped. */
  function LinkSection(s: StudentIa, ias: seq<IaRecord>): Option<string>
  {
    SectionOfIaType(FirstIaType(ias, s.iaId))
  }

  /** The key of the program merge: the program is named after the link's section. */
  function NamedAfter(ias: seq<IaRecord>): (StudentIa, ProgramRecord) -> bool
  {
    (s: StudentIa, p: ProgramRecord) => LinkSection(s, ias) == Some(p.name)
  }

  /** A detail row from a link and the program it met, if any. */
  function DetailOf(ias: seq<IaRecord>): (StudentIa, Option<ProgramRecord>) -> IaDetail
  {
    (s: StudentIa, p: Option<ProgramRecord>) =>
      IaDetail(if p.Some? then Some(s.studentId + "_" + p.value.id) else None, s.iaId, LinkSection(s, ias))
  }

  /** `d` is a detail of link `s`: it has the link's IA id and section, and the
      Student_Program of the link's student and a program named after that
      section, or none when no program bears the name. */
  predicate LinkDetail(s: StudentIa, ias: seq<IaRecord>, programs: seq<ProgramRecord>, d: IaDetail)
  {
    d.iaId == s.iaId && d.sectionName == LinkSection(s, ias) &&
    ((exists j :: 0 <= j < |programs| && LinkSection(s, ias) == Some(programs[j].name) &&
        d.studentProgram == Some(s.studentId + "_" + programs[j].id)) ||
     ((forall j :: 0 <= j < |programs| ==> LinkSection(s, ias) != Some(programs[j].name)) &&
        d.studentProgram.None?))
  }

  /** `get_ia_enrollment_details`: the links left-merged with the programs on the
      section name. A link yields one detail per program named after its section,
      in program order, or a single detail with no Student_Program when no program
      has the name; program names need not be unique. When each section names at
      most one program, there is one detail per link, in order. */
  function IaEnrollmentDetails(links: seq<StudentIa>, ias: seq<IaRecord>, programs: seq<ProgramRecord>): (r: seq<IaDetail>)
    ensures |r| >= |links|
    ensures forall d :: d in r <==> exists i :: 0 <= i < |links| && LinkDetail(links[i], ias, programs, d)
    ensures (forall i :: 0 <= i < |links| ==> AtMostOneMatch(links[i], programs, NamedAfter(ias))) ==>
      |r| == |links| && forall i :: 0 <= i < |r| ==> LinkDetail(links[i], ias, programs, r[i])
  {
    IaDetailsFacts(links, ias, programs);
    LeftMerge(links, programs, NamedAfter(ias), DetailOf(ias))
  }

  /** The details one link contributes are exactly its `LinkDetail`s. */
  lemma LinkDetailsIn(s: StudentIa, ias: seq<IaRecord>, programs: seq<ProgramRecord>, d: IaDetail)
    ensures d in MergeOne(s, programs, NamedAfter(ias), DetailOf(ias)) <==> LinkDetail(s, ias, programs, d)
  {
    MergeOneIn(s, programs, NamedAfter(ias), DetailOf(ias), d);
    if LinkDetail(s, ias, programs, d) {
      var sp := d.studentProgram;
      if j :| 0 <= j < |programs| && LinkSection(s, ias) == Some(programs[j].name) && sp == Some(s.studentId + "_" + programs[j].id) {
        assert d == DetailOf(ias)(s, Some(programs[j]));
      } else {
        assert d == DetailOf(ias)(s, None);
      }
    }
  }

  lemma IaDetailsFacts(links: seq<StudentIa>, ias: seq<IaRecord>, programs: seq<ProgramRecord>)
    ensures var r := LeftMerge(links, programs, NamedAfter(ias), DetailOf(ias));
      |r| >= |links| &&
      (forall d :: d in r <==> exists i :: 0 <= i < |links| && LinkDetail(links[i], ias, programs, d)) &&
      ((forall i :: 0 <= i < |links| ==> AtMostOneMatch(links[i], programs, NamedAfter(ias))) ==>
        |r| == |links| && forall i :: 0 <= i < |r| ==> LinkDetail(links[i], ias, programs, r[i]))
  {
    var m := NamedAfter(ias);
    var c := DetailOf(ias);
    var r := LeftMerge(links, programs, m, c);
    LeftMergeLength(links, programs, m, c);
    forall d
      ensures d in r <==> exists i :: 0 <= i < |links| && LinkDetail(links[i], ias, programs, d)
    {
      LeftMergeIn(links, programs, m, c, d);
      forall i | 0 <= i < |links|
        ensures d in MergeOne(links[i], programs, m, c) <==> LinkDetail(links[i], ias, programs, d)
      {
        LinkDetailsIn(links[i], ias, programs, d);
      }
    }
    if forall i :: 0 <= i < |links| ==> AtMostOneMatch(links[i], programs, m) {
      LeftMergeOneEach(links, programs, m, c);
      forall i | 0 <= i < |r|
        ensures LinkDetail(links[i], ias, programs, r[i])
      {
        var head := MergeOne(links[i], programs, m, c);
        assert r[i] == head[0] && head[0] in head;
        LinkDetailsIn(links[i], ias, programs, r[i]);
      }
    }
  }

  /** Two programs with one name give a link two details, one Student_Program
      each, so an enrollment in either program meets its IA. */
  lemma IaDetailsSharedName()
    ensures IaEnrollmentDetails([StudentIa("S", "A")], [IaRecord("A", Some("Math"))],
        [ProgramRecord("P1", "Tutoring: Math"), ProgramRecord("P2", "Tutoring: Math")]) ==
      [IaDetail(Some("S_P1"), "A", Some("Tutoring: Math")), IaDetail(Some("S_P2"), "A", Some("Tutoring: Math"))]
  {
    var s := StudentIa("S", "A");
    var ias := [IaRecord("A", Some("Math"))];
    var p1 := ProgramRecord("P1", "Tutoring: Math");
    var p2 := ProgramRecord("P2", "Tutoring: Math");
    SharedNameSection();
    TwoDetails(s, ias, p1, p2);
    assert "S" + "_" + "P1" == "S_P1" && "S" + "_" + "P2" == "S_P2";
  }

  /** A link whose section names both of two programs gets one detail for each. */
  lemma TwoDetails(s: StudentIa, ias: seq<IaRecord>, p1: ProgramRecord, p2: ProgramRecord)
    requires NamedAfter(ias)(s, p1) && NamedAfter(ias)(s, p2)
    ensures IaEnrollmentDetails([s], ias, [p1, p2]) == [DetailOf(ias)(s, Some(p1)), DetailOf(ias)(s, Some(p2))]
  {
    var programs := [p1, p2];
    MergeOneAll(s, programs, NamedAfter(ias), DetailOf(ias));
    LeftMergeOne(s, programs, NamedAfter(ias), DetailOf(ias));
  }

  lemma SharedNameSection()
    ensures LinkSection(StudentIa("S", "A"), [IaRecord("A", Some("Math"))]) == Some("Tutoring: Math")
  {
    IaTypeToSection(2);
  }

  /** For ids free of `_`, an enrollment in a present program meets some IA detail
      in the merge exactly when a link of the same student has a section that
      names the enrollment's program. */
  lemma IaKeyMatchesEnrollment(links: seq<StudentIa>, ias: seq<IaRecord>, programs: seq<ProgramRecord>, x: StuSec)
    requires '_' !in x.studentId && forall i :: 0 <= i < |links| ==> '_' !in links[i].studentId
    requires x.programId.Some?
    ensures (exists d :: d in IaEnrollmentDetails(links, ias, programs) && d.studentProgram == StudentProgram(x)) <==>
      exists i, j :: 0 <= i < |links| && 0 <= j < |programs| && links[i].studentId == x.studentId &&
        LinkSection(links[i], ias) == Some(programs[j].name) && x.programId.value == programs[j].id
  {
    var r := IaEnrollmentDetails(links, ias, programs);
    if exists d :: d in r && d.studentProgram == StudentProgram(x) {
      var d :| d in r && d.studentProgram == StudentProgram(x);
      var i :| 0 <= i < |links| && LinkDetail(links[i], ias, programs, d);
      var j :| 0 <= j < |programs| && LinkSection(links[i], ias) == Some(programs[j].name) &&
        d.studentProgram == Some(links[i].studentId + "_" + programs[j].id);
      UnderscoreSplit(links[i].studentId, programs[j].id, x.studentId, x.programId.value);
    }
    if exists i, j :: 0 <= i < |links| && 0 <= j < |programs| && links[i].studentId == x.studentId &&
        LinkSection(links[i], ias) == Some(programs[j].name) && x.programId.value == programs[j].id {
      var i, j :| 0 <= i < |links| && 0 <= j < |programs| && links[i].studentId == x.studentId &&
        LinkSection(links[i], ias) == Some(programs[j].name) && x.programId.value == programs[j].id;
      var d := DetailOf(ias)(links[i], Some(programs[j]));
      assert LinkDetail(links[i], ias, programs, d);
    }
  }

  /** Ids free of `_` are recovered from `a + "_" + b`. */
  lemma UnderscoreSplit(a: string, b: string, c: string, d: string)
    requires '_' !in a && '_' !in c && a + "_" + b == c + "_" + d
    ensures a == c && b == d
  {
    var s := a + "_" + b;
    assert forall i :: 0 <= i < |a| ==> s[i] == a[i];
    assert forall i :: 0 <= i < |c| ==> s[i] == c[i];
    assert s[|a|] == '_' && s[|c|] == '_';
    assert a == (a + "_" + b)[..|a|];
    assert c == (c + "_" + d)[..|c|];
    assert b == (a + "_" + b)[|a| + 1..];
    assert d == (c + "_" + d)[|c| + 1..];
  }

  /** An IA of one of the four types is attributed to the section of that type. */
  lemma IaTypeToSection(k: nat)
    requires k < |SectionIaItems|
    ensures SectionOfIaType(Some(SectionIaItems[k].1)) == Some(SectionIaItems[k].0)
  {
    SectionIaInverse(k);
  }

  // ----- the working table -----

  /** A row of the merged table: enrollment, existing IA type, and the IA to assign. */
  datatype Row = Row(e: Enrollment, iaType: Option<string>, assign: Option<string>)

  predicate KeyMatch(e: Enrollment, d: IaDetail) { d.studentProgram == e.studentProgram }

  /** A left merge on Student_Program (missing keys match each other, as in
      pandas): one row per IA detail with the enrollment's key, carrying that
      detail's section as its IA type, or a single row with no IA type when no
      detail matches. */
  function MergeIa(e: Enrollment, ia: seq<IaDetail>): (r: seq<Row>)
    ensures |r| > 0
    ensures (forall d :: d in ia ==> !KeyMatch(e, d)) ==> r == [Row(e, None, None)]
    ensures (exists d :: d in ia && KeyMatch(e, d)) ==>
      forall y :: y in r <==> exists d :: d in ia && KeyMatch(e, d) && y == Row(e, d.sectionName, None)
  {
    MergeIaMembers(e, ia);
    if |Matched(e, ia)| == 0 then [Row(e, None, None)] else Matched(e, ia)
  }

  /** The rows the merge makes from the details with the enrollment's key. */
  function Matched(e: Enrollment, ia: seq<IaDetail>): seq<Row>
  {
    Map(Filter(ia, (d: IaDetail) => KeyMatch(e, d)), (d: IaDetail) => Row(e, d.sectionName, None))
  }

  lemma MergeIaMembers(e: Enrollment, ia: seq<IaDetail>)
    ensures |Matched(e, ia)| == 0 <==> forall d :: d in ia ==> !KeyMatch(e, d)
    ensures forall y :: y in Matched(e, ia) <==> exists d :: d in ia && KeyMatch(e, d) && y == Row(e, d.sectionName, None)
  {
    var p := (d: IaDetail) => KeyMatch(e, d);
    var f := (d: IaDetail) => Row(e, d.sectionName, None);
    var m := Filter(ia, p);
    forall d | d in ia
      ensures d in m <==> KeyMatch(e, d)
    {
      FilterIn(ia, p, d);
    }
    if |m| > 0 {
      FilterIn(ia, p, m[0]);
    }
    forall y
      ensures y in Matched(e, ia) <==> exists d :: d in ia && KeyMatch(e, d) && y == f(d)
    {
      MapFilterIn(ia, p, f, y);
    }
  }

  /** The merged rows of every enrollment row, in order. */
  function MergeAll(es: seq<Enrollment>, ia: seq<IaDetail>): (r: seq<Row>)
    ensures |r| >= |es|
  {
    if |es| == 0 then [] else MergeIa(es[0], ia) + MergeAll(es[1..], ia)
  }

  /** A merged row is a row of the merge of some enrollment row. */
  lemma {:induction false} MergeAllMembers(es: seq<Enrollment>, ia: seq<IaDetail>, y: Row)
    ensures y in MergeAll(es, ia) <==> exists k :: 0 <= k < |es| && y in MergeIa(es[k], ia)
  {
    if |es| > 0 {
      var t := es[1..];
      MergeAllMembers(t, ia, y);
      assert MergeAll(es, ia) == MergeIa(es[0], ia) + MergeAll(t, ia);
      if y in MergeAll(t, ia) {
        var k :| 0 <= k < |t| && y in MergeIa(t[k], ia);
        assert t[k] == es[k + 1];
      }
      if k :| 0 <= k < |es| && y in MergeIa(es[k], ia) {
        if k > 0 {
          assert es[k] == t[k - 1];
        }
      }
    }
  }

  /** The row kept for a key: an active row when the key has one. The code sorts
      by Active__c descending with pandas' default quicksort, which is not stable,
      and keeps the first row per key, so which active (or, when none is active,
      which) row survives is not specified; the model keeps the first in table
      order. */
  function PickRow(rows: seq<Row>, key: Option<string>): (r: Row)
    requires exists i :: 0 <= i < |rows| && rows[i].e.studentProgram == key
    ensures r in rows && r.e.studentProgram == key
    ensures r.e.active <==> exists i :: 0 <= i < |rows| && rows[i].e.studentProgram == key && rows[i].e.active
  {
    if exists i :: 0 <= i < |rows| && rows[i].e.studentProgram == key && rows[i].e.active then
      rows[FirstWhere(rows, (x: Row) => x.e.studentProgram == key && x.e.active)]
    else
      rows[FirstWhere(rows, (x: Row) => x.e.studentProgram == key)]
  }

  function Keys(rows: seq<Row>): (ks: seq<Option<string>>)
    ensures |ks| == |rows| && forall i :: 0 <= i < |rows| ==> ks[i] == rows[i].e.studentProgram
  {
    Map(rows, (x: Row) => x.e.studentProgram)
  }

  /** `drop_duplicates('Student_Program')` after the sort on Active__c. */
  function DedupPreferActive(rows: seq<Row>): (r: seq<Row>)
    ensures |r| <= |rows|
  {
    var ks := Unique(Keys(rows));
    assert forall i :: 0 <= i < |ks| ==> ks[i] in Keys(rows) by {
      forall i | 0 <= i < |ks|
        ensures ks[i] in Keys(rows)
      {
        assert ks[i] in ks;
      }
    }
    seq(|ks|, i requires 0 <= i < |ks| => PickRow(rows, ks[i]))
  }

  /** One row per Student_Program: every key of the input appears exactly once,
      and the kept row is active when any row of its key is. */
  lemma DedupOnePerKey(rows: seq<Row>)
    ensures forall i, j :: 0 <= i < j < |DedupPreferActive(rows)| ==>
      DedupPreferActive(rows)[i].e.studentProgram != DedupPreferActive(rows)[j].e.studentProgram
    ensures forall j :: 0 <= j < |rows| ==>
      exists i :: 0 <= i < |DedupPreferActive(rows)| && DedupPreferActive(rows)[i].e.studentProgram == rows[j].e.studentProgram
    ensures forall i :: 0 <= i < |DedupPreferActive(rows)| ==>
      DedupPreferActive(rows)[i] in rows &&
      (DedupPreferActive(rows)[i].e.active <==>
        (exists j :: 0 <= j < |rows| && rows[j].e.studentProgram == DedupPreferActive(rows)[i].e.studentProgram && rows[j].e.active))
  {
    var ks := Unique(Keys(rows));
    var d := DedupPreferActive(rows);
    assert forall i :: 0 <= i < |d| ==> d[i].e.studentProgram == ks[i];
    forall j | 0 <= j < |rows|
      ensures exists i :: 0 <= i < |d| && d[i].e.studentProgram == rows[j].e.studentProgram
    {
      assert Keys(rows)[j] == rows[j].e.studentProgram && Keys(rows)[j] in Keys(rows);
      var i := FirstIndex(ks, rows[j].e.studentProgram);
      assert d[i].e.studentProgram == rows[j].e.studentProgram;
    }
  }

  // ----- assign_ia_col -----

  /** The keyword arguments of one `assign_ia_col` call. */
  datatype IaRule = IaRule(
    sectionType: string, assmtName: string, priorTo: Option<int>,
    isActive: bool, minTime: Option<int>, minDaysActive: Option<int>)

  /** Python truthiness of an optional number: None and 0 add no condition. */
  predicate Truthy(o: Option<int>)
  {
    o.Some? && o.value != 0
  }

  predicate AssessmentMatches(a: Assessment, rule: IaRule)
  {
    a.typeName == Some(rule.assmtName) &&
    (rule.priorTo.Some? ==> a.date.Some? && a.date.value < rule.priorTo.value)
  }

  /** `stu_with_assmt`. */
  function StudentsWith(assessments: seq<Assessment>, rule: IaRule): seq<string>
  {
    Map(Filter(assessments, (a: Assessment) => AssessmentMatches(a, rule)), (a: Assessment) => a.studentId)
  }

  predicate IsTutoringType(sectionType: string)
  {
    Contains(sectionType, "Tutoring:")
  }

  /** The row mask of `assign_ia_col`. */
  predicate Selected(row: Row, rule: IaRule, studs: seq<string>)
  {
    row.e.programName == Some(rule.sectionType) &&
    (if IsTutoringType(rule.sectionType)
     then row.e.studentId in studs || (row.e.grade.Some? && row.e.grade.value > 8)
     else row.e.studentId in studs) &&
    (Truthy(rule.minDaysActive) ==> row.e.daysActive.Some? && row.e.daysActive.value > rule.minDaysActive.value) &&
    (Truthy(rule.minTime) ==> row.e.time.Some? && row.e.time.value >= rule.minTime.value) &&
    (rule.isActive ==> row.e.active)
  }

  /** The rule a row must meet to be written, stated on the assessments
      themselves: the program matches, an assessment of the named type (before the
      cutoff, if any) exists for the student or, for Tutoring, the grade is above
      8, and every given threshold holds. */
  predicate RuleHolds(row: Row, rule: IaRule, assessments: seq<Assessment>)
  {
    row.e.programName == Some(rule.sectionType) &&
    ((exists k :: 0 <= k < |assessments| && assessments[k].studentId == row.e.studentId &&
        assessments[k].typeName == Some(rule.assmtName) &&
        (rule.priorTo.Some? ==> assessments[k].date.Some? && assessments[k].date.value < rule.priorTo.value)) ||
     (IsTutoringType(rule.sectionType) && row.e.grade.Some? && row.e.grade.value > 8)) &&
    (Truthy(rule.minDaysActive) ==> row.e.daysActive.Some? && row.e.daysActive.value > rule.minDaysActive.value) &&
    (Truthy(rule.minTime) ==> row.e.time.Some? && row.e.time.value >= rule.minTime.value) &&
    (rule.isActive ==> row.e.active)
  }

  /** `assign_ia_col` on a value: the Tutoring branch converts every grade to int
      (a missing grade raises ValueError), then an unknown section type raises
      KeyError; otherwise exactly the rows meeting the rule get the IA type
      `SECTION_IA_DICT[section_type]` and every other row is unchanged. */
  function AssignIa(rows: seq<Row>, rule: IaRule, assessments: seq<Assessment>): (r: Result<seq<Row>>)
    ensures r.Ok? ==> |r.value| == |rows|
    ensures r.Ok? ==> forall i :: 0 <= i < |rows| ==>
      r.value[i] == (if RuleHolds(rows[i], rule, assessments) then rows[i].(assign := SectionIa(rule.sectionType))
                     else rows[i])
    ensures r.Err? ==>
      r.exc == (if IsTutoringType(rule.sectionType) && exists i :: 0 <= i < |rows| && rows[i].e.grade.None?
                then ValueError else KeyError(rule.sectionType))
  {
    SelectedRows(rows, rule, assessments);
    if IsTutoringType(rule.sectionType) && exists i :: 0 <= i < |rows| && rows[i].e.grade.None? then
      Err(ValueError)
    else
      match SectionIa(rule.sectionType)
      case None => Err(KeyError(rule.sectionType))
      case Some(v) =>
        var studs := StudentsWith(assessments, rule);
        Ok(seq(|rows|, i requires 0 <= i < |rows| =>
          if Selected(rows[i], rule, studs) then rows[i].(assign := Some(v)) else rows[i]))
  }

  /** The mask of `assign_ia_col`, built from `stu_with_assmt`, selects a row
      exactly when the row meets the rule. */
  lemma SelectedRule(row: Row, rule: IaRule, assessments: seq<Assessment>)
    ensures Selected(row, rule, StudentsWith(assessments, rule)) <==> RuleHolds(row, rule, assessments)
  {
    StudentsWithIff(assessments, rule, row.e.studentId);
  }

  lemma SelectedRows(rows: seq<Row>, rule: IaRule, assessments: seq<Assessment>)
    ensures forall i :: 0 <= i < |rows| ==>
      (Selected(rows[i], rule, StudentsWith(assessments, rule)) <==> RuleHolds(rows[i], rule, assessments))
  {
    forall i | 0 <= i < |rows|
      ensures Selected(rows[i], rule, StudentsWith(assessments, rule)) <==> RuleHolds(rows[i], rule, assessments)
    {
      SelectedRule(rows[i], rule, assessments);
    }
  }

  /** A student is in `stu_with_assmt` exactly when one of their assessments matches the rule. */
  lemma StudentsWithIff(assessments: seq<Assessment>, rule: IaRule, id: string)
    ensures id in StudentsWith(assessments, rule) <==>
      exists k :: 0 <= k < |assessments| && assessments[k].studentId == id && AssessmentMatches(assessments[k], rule)
  {
    var p := (a: Assessment) => AssessmentMatches(a, rule);
    var sid := (a: Assessment) => a.studentId;
    if id in StudentsWith(assessments, rule) {
      var k := MapFilterSource(assessments, p, sid, id);
      assert assessments[k].studentId == id && AssessmentMatches(assessments[k], rule);
    }
    if exists k :: 0 <= k < |assessments| && assessments[k].studentId == id && AssessmentMatches(assessments[k], rule) {
      var k :| 0 <= k < |assessments| && assessments[k].studentId == id && AssessmentMatches(assessments[k], rule);
      MapFilterHas(assessments, p, sid, k);
    }
  }

  /** Only rows of the call's program are written, and a written row gets exactly
      the IA type `SECTION_IA_DICT[section_type]`; everything else is unchanged. */
  lemma AssignWritesOnlyItsProgram(rows: seq<Row>, rule: IaRule, assessments: seq<Assessment>, i: nat)
    requires AssignIa(rows, rule, assessments).Ok? && i < |rows|
    ensures var t := AssignIa(rows, rule, assessments).value;
      (rows[i].e.programName != Some(rule.sectionType) ==> t[i] == rows[i]) &&
      (t[i] == rows[i] || t[i] == rows[i].(assign := SectionIa(rule.sectionType))) &&
      (RuleHolds(rows[i], rule, assessments) ==> t[i].assign == SectionIa(rule.sectionType)) &&
      SectionIa(rule.sectionType).Some?
  {
  }

  /** The call succeeds exactly when the section type is a dictionary key and,
      for Tutoring types, no grade is missing. */
  lemma AssignSucceedsIff(rows: seq<Row>, rule: IaRule, assessments: seq<Assessment>)
    ensures AssignIa(rows, rule, assessments).Ok? <==>
      SectionIa(rule.sectionType).Some? &&
      (IsTutoringType(rule.sectionType) ==> forall i :: 0 <= i < |rows| ==> rows[i].e.grade.Some?)
  {
  }

  function Then(r: Result<seq<Row>>, rule: IaRule, assessments: seq<Assessment>): Result<seq<Row>>
  {
    match r
    case Ok(t) => AssignIa(t, rule, assessments)
    case Err(x) => Err(x)
  }

  /** Two calls for different sections touch different rows, so their order does not matter. */
  lemma AssignCommutes(rows: seq<Row>, r1: IaRule, r2: IaRule, assessments: seq<Assessment>)
    requires r1.sectionType != r2.sectionType
    requires SectionIa(r1.sectionType).Some? && SectionIa(r2.sectionType).Some?
    ensures Then(AssignIa(rows, r1, assessments), r2, assessments) ==
            Then(AssignIa(rows, r2, assessments), r1, assessments)
  {
    var a := AssignIa(rows, r1, assessments);
    var b := AssignIa(rows, r2, assessments);
    AssignKeepsEnrollment(rows, r1, assessments);
    AssignKeepsEnrollment(rows, r2, assessments);
    if a.Ok? {
      AssignKeepsEnrollment(a.value, r2, assessments);
      SameEnrollmentSameOutcome(rows, a.value, r2, assessments);
    }
    if b.Ok? {
      AssignKeepsEnrollment(b.value, r1, assessments);
      SameEnrollmentSameOutcome(rows, b.value, r1, assessments);
    }
    if a.Ok? && b.Ok? {
      var ab := AssignIa(a.value, r2, assessments).value;
      var ba := AssignIa(b.value, r1, assessments).value;
      var s1 := StudentsWith(assessments, r1);
      var s2 := StudentsWith(assessments, r2);
      forall i | 0 <= i < |rows| ensures ab[i] == ba[i] {
        assert !(Selected(rows[i], r1, s1) && Selected(rows[i], r2, s2));
        assert Selected(a.value[i], r2, s2) == Selected(rows[i], r2, s2);
        assert Selected(b.value[i], r1, s1) == Selected(rows[i], r1, s1);
      }
      assert ab == ba;
    }
  }

  /** A call never changes the enrollment part of a row, only the IA to assign. */
  lemma AssignKeepsEnrollment(rows: seq<Row>, rule: IaRule, assessments: seq<Assessment>)
    ensures AssignIa(rows, rule, assessments).Ok? ==>
      forall i :: 0 <= i < |rows| ==>
        (AssignIa(rows, rule, assessments).value[i].e == rows[i].e &&
         AssignIa(rows, rule, assessments).value[i].iaType == rows[i].iaType)
    ensures SectionIa(rule.sectionType).Some? && AssignIa(rows, rule, assessments).Err? ==>
      AssignIa(rows, rule, assessments).exc == ValueError
  {
  }

  /** Whether a call raises depends only on the enrollment columns. */
  lemma SameEnrollmentSameOutcome(rows: seq<Row>, rows': seq<Row>, rule: IaRule, assessments: seq<Assessment>)
    requires |rows| == |rows'| && forall i :: 0 <= i < |rows| ==> rows[i].e == rows'[i].e
    ensures AssignIa(rows, rule, assessments).Ok? == AssignIa(rows', rule, assessments).Ok?
  {
    if IsTutoringType(rule.sectionType) {
      assert (exists i :: 0 <= i < |rows| && rows[i].e.grade.None?) <==>
             (exists i :: 0 <= i < |rows'| && rows'[i].e.grade.None?);
    }
  }

  /** The four calls of `get_ia_to_assign`. */
  const Cutoff: int := 737333  // 2019-10-01 as a proleptic Gregorian day number
  const AttendanceRule := IaRule("Coaching: Attendance", "Reporting Period ADA Tracker - ATTENDANCE", None, false, None, Some(56))
  const SelRule := IaRule("SEL Check In Check Out", "DESSA 40", None, false, None, Some(56))
  const MathRule := IaRule("Tutoring: Math", "NWEA - MATH", Some(Cutoff), true, Some(1), None)
  const LiteracyRule := IaRule("Tutoring: Literacy", "NWEA - ELA", Some(Cutoff), true, Some(1), None)

  // ----- the roster -----

  datatype RosterRow = RosterRow(
    school: Option<string>, studentId: string, grade: Option<int>,
    lastName: Option<string>, indicatorArea: Option<string>)

  predicate NeedsIa(r: Row)
  {
    r.iaType.None? && r.assign.Some?
  }

  function RosterOf(r: Row): RosterRow
  {
    RosterRow(r.e.school, r.e.studentId, r.e.grade, r.e.lastName, r.assign)
  }

  function RosterKey(r: RosterRow): (k: seq<Cell>)
    ensures |k| == 5
  {
    [OptText(r.school), Text(r.studentId), OptNum(r.grade), OptText(r.lastName), OptText(r.indicatorArea)]
  }

  /** Rows without an existing IA and with an IA to assign, in the five roster
      columns, sorted by them. */
  function Roster(t: seq<Row>): (r: seq<RosterRow>)
    ensures Sorted(r, RosterKey)
    ensures multiset(r) == multiset(Map(Filter(t, NeedsIa), RosterOf))
  {
    SortBy(Map(Filter(t, NeedsIa), RosterOf), RosterKey, 5)
  }

  lemma RosterMembers(t: seq<Row>, x: RosterRow)
    ensures x in Roster(t) <==> exists i :: 0 <= i < |t| && NeedsIa(t[i]) && RosterOf(t[i]) == x
  {
    var f := Filter(t, NeedsIa);
    var m := Map(f, RosterOf);
    SameMembers(Roster(t), m, x);
    if x in m {
      var j := MapSource(f, RosterOf, x);
      FilterIn(t, NeedsIa, f[j]);
      var i := FirstIndex(t, f[j]);
    }
    if exists i :: 0 <= i < |t| && NeedsIa(t[i]) && RosterOf(t[i]) == x {
      var i :| 0 <= i < |t| && NeedsIa(t[i]) && RosterOf(t[i]) == x;
      FilterIn(t, NeedsIa, t[i]);
      var j := FirstIndex(f, t[i]);
      MapHas(f, RosterOf, j);
    }
  }

  /** Every merged row is an enrollment row with nothing yet to assign, and every
      enrollment row gives at least one merged row. */
  lemma MergedRows(es: seq<Enrollment>, ia: seq<IaDetail>)
    ensures forall y :: y in MergeAll(es, ia) ==> y.assign.None? && y.e in es
    ensures forall k :: 0 <= k < |es| ==> exists y :: y in MergeAll(es, ia) && y.e == es[k]
  {
    forall y | y in MergeAll(es, ia)
      ensures y.assign.None? && y.e in es
    {
      MergeAllMembers(es, ia, y);
      var k :| 0 <= k < |es| && y in MergeIa(es[k], ia);
      MergeIaRow(es[k], ia, y);
    }
    forall k | 0 <= k < |es|
      ensures exists y :: y in MergeAll(es, ia) && y.e == es[k]
    {
      var y := MergeIa(es[k], ia)[0];
      MergeIaRow(es[k], ia, y);
      MergeAllMembers(es, ia, y);
    }
  }

  /** A row of one enrollment's merge is that enrollment with nothing to assign. */
  lemma MergeIaRow(e: Enrollment, ia: seq<IaDetail>, y: Row)
    requires y in MergeIa(e, ia)
    ensures y.e == e && y.assign.None?
  {
    if exists d :: d in ia && KeyMatch(e, d) {
      var d :| d in ia && KeyMatch(e, d) && y == Row(e, d.sectionName, None);
    }
  }

  /** The table the four calls start from: one row per Student_Program of the
      student-section rows, each an enrollment row with nothing yet to assign. */
  function Prepared(stuSec: seq<StuSec>, now: int, ia: seq<IaDetail>): (r: seq<Row>)
    ensures forall i, j :: 0 <= i < j < |r| ==> r[i].e.studentProgram != r[j].e.studentProgram
    ensures forall k :: 0 <= k < |stuSec| ==>
      exists i :: 0 <= i < |r| && r[i].e.studentProgram == StudentProgram(stuSec[k])
    ensures forall i :: 0 <= i < |r| ==> r[i].assign.None? && r[i].e in EnrollmentDetails(stuSec, now)
  {
    PreparedFacts(stuSec, now, ia);
    DedupPreferActive(MergeAll(EnrollmentDetails(stuSec, now), ia))
  }

  lemma PreparedFacts(stuSec: seq<StuSec>, now: int, ia: seq<IaDetail>)
    ensures var r := DedupPreferActive(MergeAll(EnrollmentDetails(stuSec, now), ia));
      (forall i, j :: 0 <= i < j < |r| ==> r[i].e.studentProgram != r[j].e.studentProgram) &&
      (forall k :: 0 <= k < |stuSec| ==>
         exists i :: 0 <= i < |r| && r[i].e.studentProgram == StudentProgram(stuSec[k])) &&
      (forall i :: 0 <= i < |r| ==> r[i].assign.None? && r[i].e in EnrollmentDetails(stuSec, now))
  {
    var es := EnrollmentDetails(stuSec, now);
    assert |es| == |stuSec| && forall k :: 0 <= k < |stuSec| ==> es[k].studentProgram == StudentProgram(stuSec[k]);
    PreparedOnKeys(es, ia, stuSec);
  }

  /** PreparedOn, with the keys of `es` read off the rows they come from. */
  lemma PreparedOnKeys(es: seq<Enrollment>, ia: seq<IaDetail>, stuSec: seq<StuSec>)
    requires |es| == |stuSec| && forall k :: 0 <= k < |stuSec| ==> es[k].studentProgram == StudentProgram(stuSec[k])
    ensures var r := DedupPreferActive(MergeAll(es, ia));
      (forall i, j :: 0 <= i < j < |r| ==> r[i].e.studentProgram != r[j].e.studentProgram) &&
      (forall k :: 0 <= k < |stuSec| ==>
         exists i :: 0 <= i < |r| && r[i].e.studentProgram == StudentProgram(stuSec[k])) &&
      (forall i :: 0 <= i < |r| ==> r[i].assign.None? && r[i].e in es)
  {
    PreparedOn(es, ia);
  }

  lemma PreparedOn(es: seq<Enrollment>, ia: seq<IaDetail>)
    ensures var r := DedupPreferActive(MergeAll(es, ia));
      (forall i, j :: 0 <= i < j < |r| ==> r[i].e.studentProgram != r[j].e.studentProgram) &&
      (forall k :: 0 <= k < |es| ==> exists i :: 0 <= i < |r| && r[i].e.studentProgram == es[k].studentProgram) &&
      (forall i :: 0 <= i < |r| ==> r[i].assign.None? && r[i].e in es)
  {
    var m := MergeAll(es, ia);
    DedupOnePerKey(m);
    MergedRows(es, ia);
    DedupCoversKeys(m, es);
    DedupFromMerge(m, es);
  }

  lemma DedupCoversKeys(m: seq<Row>, es: seq<Enrollment>)
    requires forall k :: 0 <= k < |es| ==> exists y :: y in m && y.e == es[k]
    ensures forall k :: 0 <= k < |es| ==>
      exists i :: 0 <= i < |DedupPreferActive(m)| && DedupPreferActive(m)[i].e.studentProgram == es[k].studentProgram
  {
    var r := DedupPreferActive(m);
    DedupOnePerKey(m);
    forall k | 0 <= k < |es|
      ensures exists i :: 0 <= i < |r| && r[i].e.studentProgram == es[k].studentProgram
    {
      var y :| y in m && y.e == es[k];
      var j := FirstIndex(m, y);
      var i :| 0 <= i < |r| && r[i].e.studentProgram == m[j].e.studentProgram;
    }
  }

  lemma DedupFromMerge(m: seq<Row>, es: seq<Enrollment>)
    requires forall y :: y in m ==> y.assign.None? && y.e in es
    ensures forall i :: 0 <= i < |DedupPreferActive(m)| ==>
      DedupPreferActive(m)[i].assign.None? && DedupPreferActive(m)[i].e in es
  {
    DedupOnePerKey(m);
  }

  /** The IA a chain of four calls leaves on a row: that of the rule the row
      meets, the last call winning, or the row's own when it meets none. */
  function IaAfter(row: Row, assess: seq<Assessment>, r1: IaRule, r2: IaRule, r3: IaRule, r4: IaRule): Option<string>
  {
    if RuleHolds(row, r4, assess) then SectionIa(r4.sectionType)
    else if RuleHolds(row, r3, assess) then SectionIa(r3.sectionType)
    else if RuleHolds(row, r2, assess) then SectionIa(r2.sectionType)
    else if RuleHolds(row, r1, assess) then SectionIa(r1.sectionType)
    else row.assign
  }

  /** The IA the four calls of `get_ia_to_assign` leave on a row. */
  function IaFor(row: Row, assess: seq<Assessment>): Option<string>
  {
    IaAfter(row, assess, AttendanceRule, SelRule, MathRule, LiteracyRule)
  }

  /** Four calls threaded on a value. */
  function Chain(rows: seq<Row>, assess: seq<Assessment>, r1: IaRule, r2: IaRule, r3: IaRule, r4: IaRule): Result<seq<Row>>
  {
    Then(Then(Then(AssignIa(rows, r1, assess), r2, assess), r3, assess), r4, assess)
  }

  /** The four calls of `get_ia_to_assign` on a value. */
  function FourCalls(rows: seq<Row>, assess: seq<Assessment>): Result<seq<Row>>
  {
    Chain(rows, assess, AttendanceRule, SelRule, MathRule, LiteracyRule)
  }

  /** One call's effect on one row, as `AssignIa` states it. */
  function Step(row: Row, rule: IaRule, assess: seq<Assessment>): Row
  {
    if RuleHolds(row, rule, assess) then row.(assign := SectionIa(rule.sectionType)) else row
  }

  /** Rules of four different programs: at most one applies to a row. */
  predicate DistinctPrograms(r1: IaRule, r2: IaRule, r3: IaRule, r4: IaRule)
  {
    r1.sectionType != r2.sectionType && r1.sectionType != r3.sectionType && r1.sectionType != r4.sectionType &&
    r2.sectionType != r3.sectionType && r2.sectionType != r4.sectionType && r3.sectionType != r4.sectionType
  }

  lemma StepsRow(row: Row, assess: seq<Assessment>, r1: IaRule, r2: IaRule, r3: IaRule, r4: IaRule)
    requires DistinctPrograms(r1, r2, r3, r4)
    ensures Step(Step(Step(Step(row, r1, assess), r2, assess), r3, assess), r4, assess) ==
      row.(assign := IaAfter(row, assess, r1, r2, r3, r4))
  {
  }

  /** The four calls raise exactly when some grade is missing (the Tutoring calls
      convert grades), and otherwise leave on each row the IA of the rule it meets. */
  lemma FourCallsResult(rows: seq<Row>, assess: seq<Assessment>)
    ensures FourCalls(rows, assess).Err? <==> exists i :: 0 <= i < |rows| && rows[i].e.grade.None?
    ensures FourCalls(rows, assess).Err? ==> FourCalls(rows, assess).exc == ValueError
    ensures FourCalls(rows, assess).Ok? ==>
      var t := FourCalls(rows, assess).value;
      |t| == |rows| && forall i :: 0 <= i < |rows| ==> t[i] == rows[i].(assign := IaFor(rows[i], assess))
  {
    var r1, r2, r3, r4 := AttendanceRule, SelRule, MathRule, LiteracyRule;
    assert DistinctPrograms(r1, r2, r3, r4);
    assert IsTutoringType(r3.sectionType) by {
      assert r3.sectionType[..9] == "Tutoring:";
    }
    assert SectionIa(r1.sectionType).Some? && SectionIa(r2.sectionType).Some?;
    assert SectionIa(r3.sectionType).Some? && SectionIa(r4.sectionType).Some?;
    if exists i :: 0 <= i < |rows| && rows[i].e.grade.None? {
      ChainErr(rows, assess, r1, r2, r3, r4);
    } else {
      ChainOk(rows, assess, r1, r2, r3, r4);
    }
  }

  lemma ChainOk(rows: seq<Row>, assess: seq<Assessment>, r1: IaRule, r2: IaRule, r3: IaRule, r4: IaRule)
    requires DistinctPrograms(r1, r2, r3, r4)
    requires SectionIa(r1.sectionType).Some? && SectionIa(r2.sectionType).Some?
    requires SectionIa(r3.sectionType).Some? && SectionIa(r4.sectionType).Some?
    requires forall i :: 0 <= i < |rows| ==> rows[i].e.grade.Some?
    ensures Chain(rows, assess, r1, r2, r3, r4).Ok?
    ensures var t := Chain(rows, assess, r1, r2, r3, r4).value;
      |t| == |rows| && forall i :: 0 <= i < |rows| ==> t[i] == rows[i].(assign := IaAfter(rows[i], assess, r1, r2, r3, r4))
  {
    var t1 := OneCall(rows, assess, r1);
    var t2 := OneCall(t1, assess, r2);
    var t3 := OneCall(t2, assess, r3);
    var t4 := OneCall(t3, assess, r4);
    forall i | 0 <= i < |rows|
      ensures t4[i] == rows[i].(assign := IaAfter(rows[i], assess, r1, r2, r3, r4))
    {
      StepsRow(rows[i], assess, r1, r2, r3, r4);
    }
  }

  /** A call with a known section type, on rows with every grade, succeeds and
      applies `Step` to each row. */
  lemma OneCall(rows: seq<Row>, assess: seq<Assessment>, rule: IaRule) returns (t: seq<Row>)
    requires SectionIa(rule.sectionType).Some?
    requires forall i :: 0 <= i < |rows| ==> rows[i].e.grade.Some?
    ensures AssignIa(rows, rule, assess) == Ok(t)
    ensures |t| == |rows| && forall i :: 0 <= i < |rows| ==> t[i] == Step(rows[i], rule, assess)
    ensures forall i :: 0 <= i < |rows| ==> t[i].e.grade.Some?
  {
    t := AssignIa(rows, rule, assess).value;
  }

  lemma ChainErr(rows: seq<Row>, assess: seq<Assessment>, r1: IaRule, r2: IaRule, r3: IaRule, r4: IaRule)
    requires SectionIa(r1.sectionType).Some? && SectionIa(r2.sectionType).Some?
    requires SectionIa(r3.sectionType).Some? && SectionIa(r4.sectionType).Some?
    requires IsTutoringType(r3.sectionType)
    requires exists i :: 0 <= i < |rows| && rows[i].e.grade.None?
    ensures Chain(rows, assess, r1, r2, r3, r4).Err? && Chain(rows, assess, r1, r2, r3, r4).exc == ValueError
  {
    var i :| 0 <= i < |rows| && rows[i].e.grade.None?;
    var t1 := AssignIa(rows, r1, assess);
    AssignKeepsEnrollment(rows, r1, assess);
    if t1.Ok? {
      var t2 := AssignIa(t1.value, r2, assess);
      AssignKeepsEnrollment(t1.value, r2, assess);
      if t2.Ok? {
        assert t2.value[i].e.grade.None?;
        AssignKeepsEnrollment(t2.value, r3, assess);
      } 
    }
  }

  /** Whether a row meets a rule depends only on its enrollment columns. */
  lemma RuleHoldsOnEnrollment(rows: seq<Row>, rows': seq<Row>, assess: seq<Assessment>)
    requires |rows| == |rows'| && forall i :: 0 <= i < |rows| ==> rows[i].e == rows'[i].e
    ensures forall i, rule :: 0 <= i < |rows| ==> (RuleHolds(rows'[i], rule, assess) <==> RuleHolds(rows[i], rule, assess))
  {
  }

  /** `get_ia_to_assign` on values (the Excel write is left out): it raises
      ValueError exactly when a prepared row has no grade; otherwise the roster is
      sorted by its five columns and lists exactly the prepared rows with no
      existing IA that meet one of the four rules, each with that rule's IA. */
  function IaToAssign(stuSec: seq<StuSec>, now: int, ia: seq<IaDetail>, assessments: seq<Assessment>): (r: Result<seq<RosterRow>>)
    ensures var p := Prepared(stuSec, now, ia);
      r.Err? <==> exists i :: 0 <= i < |p| && p[i].e.grade.None?
    ensures r.Err? ==> r.exc == ValueError
    ensures r.Ok? ==> Sorted(r.value, RosterKey)
    ensures r.Ok? ==> var p, assess := Prepared(stuSec, now, ia), AssessmentDetails(assessments);
      forall x :: x in r.value <==>
        exists i :: 0 <= i < |p| && p[i].iaType.None? && IaFor(p[i], assess).Some? &&
          x == RosterOf(p[i].(assign := IaFor(p[i], assess)))
  {
    var assess := AssessmentDetails(assessments);
    var p := Prepared(stuSec, now, ia);
    FourCallsResult(p, assess);
    match FourCalls(p, assess)
    case Ok(rows) =>
      IaToAssignRoster(p, rows, assess);
      Ok(Roster(rows))
    case Err(x) => Err(x)
  }

  lemma IaToAssignRoster(p: seq<Row>, rows: seq<Row>, assess: seq<Assessment>)
    requires |rows| == |p| && forall i :: 0 <= i < |p| ==> rows[i] == p[i].(assign := IaFor(p[i], assess))
    requires forall i :: 0 <= i < |p| ==> p[i].assign.None?
    ensures forall x :: x in Roster(rows) <==>
      exists i :: 0 <= i < |p| && p[i].iaType.None? && IaFor(p[i], assess).Some? &&
        x == RosterOf(p[i].(assign := IaFor(p[i], assess)))
  {
    forall x
      ensures x in Roster(rows) <==>
        exists i :: 0 <= i < |p| && p[i].iaType.None? && IaFor(p[i], assess).Some? &&
          x == RosterOf(p[i].(assign := IaFor(p[i], assess)))
    {
      RosterMembers(rows, x);
    }
  }

  /** `assign_ia_col` as the code runs it: one masked write into the table in place. */
  method AssignIaCol(a: array<Row>, rule: IaRule, assessments: seq<Assessment>) returns (err: Option<Exc>)
    modifies a
    ensures AssignIa(old(a[..]), rule, assessments).Ok? ==>
      err == None && a[..] == AssignIa(old(a[..]), rule, assessments).value
    ensures AssignIa(old(a[..]), rule, assessments).Err? ==>
      err == Some(AssignIa(old(a[..]), rule, assessments).exc) && a[..] == old(a[..])
  {
    if IsTutoringType(rule.sectionType) && exists i :: 0 <= i < a.Length && a[i].e.grade.None? {
      assert exists i :: 0 <= i < |a[..]| && a[..][i].e.grade.None?;
      return Some(ValueError);
    }
    var v := SectionIa(rule.sectionType);
    if v.None? {
      return Some(KeyError(rule.sectionType));
    }
    var studs := StudentsWith(assessments, rule);
    forall i | 0 <= i < a.Length && Selected(a[i], rule, studs) {
      a[i] := a[i].(assign := Some(v.value));
    }
    err := None;
  }

  /** The four calls threaded through one table, then the roster. */
  method GetIaToAssign(stuSec: seq<StuSec>, now: int, ia: seq<IaDetail>, assessments: seq<Assessment>)
    returns (r: Result<seq<RosterRow>>)
    ensures r == IaToAssign(stuSec, now, ia, assessments)
  {
    var df := Prepared(stuSec, now, ia);
    var assess := AssessmentDetails(assessments);
    var c := FourCallsInPlace(df, assess);
    IaToAssignOf(stuSec, now, ia, assessments);
    r := if c.Ok? then Ok(Roster(c.value)) else Err(c.exc);
  }

  /** The four `assign_ia_col` calls of `get_ia_to_assign`, each writing into
      one table in place; the first error ends the run. */
  method FourCallsInPlace(df: seq<Row>, assess: seq<Assessment>) returns (r: Result<seq<Row>>)
    ensures r == FourCalls(df, assess)
  {
    var a := new Row[|df|](i requires 0 <= i < |df| => df[i]);
    assert a[..] == df;
    ghost var t := AssignIa(df, AttendanceRule, assess);
    var err := AssignIaCol(a, AttendanceRule, assess);
    if err.Some? { return Err(err.value); }
    t := Then(t, SelRule, assess);
    err := AssignIaCol(a, SelRule, assess);
    if err.Some? { return Err(err.value); }
    t := Then(t, MathRule, assess);
    err := AssignIaCol(a, MathRule, assess);
    if err.Some? { return Err(err.value); }
    t := Then(t, LiteracyRule, assess);
    err := AssignIaCol(a, LiteracyRule, assess);
    if err.Some? { return Err(err.value); }
    assert t == Ok(a[..]);
    return Ok(a[..]);
  }

  /** IaToAssign as the outcome of the four calls on the prepared table. */
  lemma IaToAssignOf(stuSec: seq<StuSec>, now: int, ia: seq<IaDetail>, assessments: seq<Assessment>)
    ensures var c := FourCalls(Prepared(stuSec, now, ia), AssessmentDetails(assessments));
      IaToAssign(stuSec, now, ia, assessments) == if c.Ok? then Ok(Roster(c.value)) else Err(c.exc)
  {
  }
}
