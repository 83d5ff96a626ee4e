/** Time-on-task audit: tags each intervention-session result with the data-entry
    errors it shows, joins the tags into one Error string, drops accepted errors
    and splits the table per school. */
module TotAudit {
  import opened Base
  import opened Strings
  import opened Seqs
  import opened Sorting

  /** One row of the merged session-result table (left merges leave cells missing). */
  datatype Session = Session(
    time: Option<int>,          // Amount_of_Time__c, in minutes
    sessionDate: Option<int>,   // Intervention_Session_Date__c, as a day number
    createdDate: Option<int>,   // CreatedDate, as a day number
    student: Option<string>,    // Related_Student_s_Name__c
    sessionId: Option<string>,  // Intervention_Session__c_Name
    comment: Option<string>,    // Comments__c
    school: Option<string>,     // School_Name__c
    acm: Option<string>,        // Staff__c_Name
    program: Option<string>)    // Program__c_Name

  // ----- the comment column -----

  /** The comment column as the code assigns it: `fillna(..., inplace=True)`
      returns None, so every comment is replaced by None. */
  function FillCommentsAsWritten(rows: seq<Session>): (r: seq<Session>)
    ensures |r| == |rows|
    ensures forall i :: 0 <= i < |r| ==> r[i].comment == None && r[i] == rows[i].(comment := None)
  {
    seq(|rows|, i requires 0 <= i < |rows| => rows[i].(comment := None))
  }

  /** The intended `fillna('')`: a missing comment becomes the empty string and
      every present comment is kept. */
  function FillComments(rows: seq<Session>): (r: seq<Session>)
    ensures |r| == |rows|
    ensures forall i :: 0 <= i < |r| ==> r[i] == rows[i].(comment := Some(rows[i].comment.GetOr("")))
  {
    seq(|rows|, i requires 0 <= i < |rows| => rows[i].(comment := Some(rows[i].comment.GetOr(""))))
  }

  /** As written, a session whose comment lists its tier code loses it, and the
      audit of a table holding it raises; once corrected the comment is kept and
      the session is not missing its code. */
  lemma CommentLostAsWritten(s: Session, accepted: seq<string>)
    requires s.comment == Some("T1")
    ensures FillCommentsAsWritten([s])[0].comment == None
    ensures ErrorTableAsWritten([s], accepted) == Err(TypeError)
    ensures FillComments([s])[0].comment == Some("T1") && !MissingCode(FillComments([s])[0])
  {
    assert Contains("T1", "T1") by {
      assert "T1"[0..2] == "T1";
    }
  }

  // ----- per-row tags -----

  function Comment(r: Session): string { r.comment.GetOr("") }

  /** `str.contains('Tutoring')`; a missing program matches nothing. */
  predicate IsTutoring(r: Session)
  {
    r.program.Some? && Contains(r.program.value, "Tutoring")
  }

  predicate MissingCode(r: Session)
  {
    IsTutoring(r) && !(Contains(Comment(r), "T1") || Contains(Comment(r), "T2"))
  }

  predicate ListedBoth(r: Session)
  {
    IsTutoring(r) && Contains(Comment(r), "T1") && Contains(Comment(r), "T2")
  }

  /** A missing time compares false with every bound. */
  predicate UnderTen(r: Session)
  {
    IsTutoring(r) && r.time.Some? && r.time.value < 10
  }

  predicate OverOneTwenty(r: Session)
  {
    IsTutoring(r) && r.time.Some? && r.time.value > 120
  }

  predicate LoggedInFuture(r: Session)
  {
    r.sessionDate.Some? && r.createdDate.Some? && r.sessionDate.value > r.createdDate.value
  }

  predicate WrongSection(r: Session)
  {
    r.program.Some? && r.program.value in ["DESSA", "Math Inventory", "Reading Inventory"]
  }

  /** `error_cols`, in the order the Error string lists them. */
  const ErrorCols: seq<string> :=
    ["Missing T1/T2 Code", "Listed T1 and T2", "<10 Minutes", ">120 Minutes", "Logged in Future", "Wrong Section"]

  function Tag(b: bool, name: string): Option<string>
  {
    if b then Some(name) else None
  }

  /** The six tag cells of a row: each holds its own column name or is missing. */
  function Tags(r: Session): (t: seq<Option<string>>)
    ensures |t| == |ErrorCols|
    ensures forall k :: 0 <= k < |t| ==> t[k] == None || t[k] == Some(ErrorCols[k])
  {
    [Tag(MissingCode(r), ErrorCols[0]), Tag(ListedBoth(r), ErrorCols[1]),
     Tag(UnderTen(r), ErrorCols[2]), Tag(OverOneTwenty(r), ErrorCols[3]),
     Tag(LoggedInFuture(r), ErrorCols[4]), Tag(WrongSection(r), ErrorCols[5])]
  }

  /** The values of the present cells, in order (what `str.cat` joins). */
  function Present(t: seq<Option<string>>): (r: seq<string>)
    ensures |r| <= |t|
  {
    if |t| == 0 then []
    else (if t[0].Some? then [t[0].value] else []) + Present(t[1..])
  }

  /** The Error column: the set tags joined with " & ", empty exactly when no tag is set. */
  function Error(r: Session): (e: string)
    ensures e == "" <==> forall k :: 0 <= k < |ErrorCols| ==> Tags(r)[k] == None
  {
    TagCellsEmptyIff(Tags(r));
    Join(Present(Tags(r)), " & ")
  }

  /** Only a Tutoring session can be missing its code; a Tutoring one is
      exactly when the comment holds neither "T1" nor "T2". */
  lemma MissingCodeRule(r: Session)
    ensures Tags(r)[0].Some? <==> IsTutoring(r) && !Contains(Comment(r), "T1") && !Contains(Comment(r), "T2")
    ensures !IsTutoring(r) ==> Tags(r)[0] == None && Tags(r)[1] == None
  {
  }

  /** The two code tags are never set on the same row. */
  lemma CodeTagsExclusive(r: Session)
    ensures !(Tags(r)[0].Some? && Tags(r)[1].Some?)
  {
  }

  /** The time tags need Tutoring, exclude each other, and 10..120 minutes gets neither. */
  lemma TimeTags(r: Session)
    ensures Tags(r)[2].Some? <==> IsTutoring(r) && r.time.Some? && r.time.value < 10
    ensures Tags(r)[3].Some? <==> IsTutoring(r) && r.time.Some? && r.time.value > 120
    ensures !(Tags(r)[2].Some? && Tags(r)[3].Some?)
    ensures r.time.Some? && 10 <= r.time.value <= 120 ==> Tags(r)[2] == None && Tags(r)[3] == None
  {
  }

  /** "Logged in Future" and "Wrong Section" apply to every program. */
  lemma AnyProgramTags(r: Session)
    ensures Tags(r)[4].Some? <==> r.sessionDate.Some? && r.createdDate.Some? && r.sessionDate.value > r.createdDate.value
    ensures Tags(r)[5].Some? <==> r.program in {Some("DESSA"), Some("Math Inventory"), Some("Reading Inventory")}
  {
  }

  lemma {:induction false} PresentEmptyIff(t: seq<Option<string>>)
    ensures Present(t) == [] <==> forall k :: 0 <= k < |t| ==> t[k] == None
  {
    if |t| > 0 {
      PresentEmptyIff(t[1..]);
      assert forall k :: 1 <= k < |t| ==> t[k] == t[1..][k - 1];
    }
  }

  /** Present values are the tag names themselves, none of them empty. */
  lemma {:induction false} PresentNonEmpty(t: seq<Option<string>>)
    requires forall k :: 0 <= k < |t| ==> t[k] == None || (t[k].Some? && t[k].value != "")
    ensures forall k :: 0 <= k < |Present(t)| ==> Present(t)[k] != ""
  {
    if |t| > 0 {
      assert forall k :: 1 <= k < |t| ==> t[k] == t[1..][k - 1];
      PresentNonEmpty(t[1..]);
    }
  }

  /** Joined tag cells are empty exactly when every cell is missing. */
  lemma TagCellsEmptyIff(t: seq<Option<string>>)
    requires |t| == |ErrorCols| && forall k :: 0 <= k < |t| ==> t[k] == None || t[k] == Some(ErrorCols[k])
    ensures Join(Present(t), " & ") == "" <==> forall k :: 0 <= k < |t| ==> t[k] == None
  {
    assert forall k :: 0 <= k < |ErrorCols| ==> ErrorCols[k] != "";
    PresentEmptyIff(t);
    PresentNonEmpty(t);
    JoinEmptyIff(Present(t), " & ");
  }

  /** A row with only one tag set has that tag as its whole Error string. */
  lemma ErrorSingleTag(r: Session, k: nat)
    requires k < |ErrorCols| && Tags(r)[k].Some?
    requires forall j :: 0 <= j < |ErrorCols| && j != k ==> Tags(r)[j] == None
    ensures Error(r) == ErrorCols[k]
  {
    var t := Tags(r);
    assert Present(t) == [ErrorCols[k]] by {
      PresentAt(t, k);
    }
  }

  lemma {:induction false} PresentAt(t: seq<Option<string>>, k: nat)
    requires k < |t| && t[k].Some?
    requires forall j :: 0 <= j < |t| && j != k ==> t[j] == None
    ensures Present(t) == [t[k].value]
  {
    if k == 0 {
      assert forall j :: 0 <= j < |t[1..]| ==> t[1..][j] == t[j + 1];
      PresentEmptyIff(t[1..]);
    } else {
      assert forall j :: 0 <= j < |t[1..]| && j != k - 1 ==> t[1..][j] == t[j + 1];
      PresentAt(t[1..], k - 1);
    }
  }

  // ----- the error table -----

  /** One row of the returned table, in `col_friendly_names` order. */
  datatype AuditRow = AuditRow(
    school: Option<string>, acm: Option<string>, program: Option<string>,
    sessionId: Option<string>, student: Option<string>, submissionDate: Option<int>,
    sessionDate: Option<int>, tot: Option<int>, error: string)

  /** A row survives when it has an error that is not in the accepted list
      (a missing session id is never accepted). */
  predicate Survives(r: Session, accepted: seq<string>)
  {
    Error(r) != "" && !(r.sessionId.Some? && r.sessionId.value in accepted)
  }

  function Friendly(r: Session): AuditRow
  {
    AuditRow(r.school, r.acm, r.program, r.sessionId, r.student, r.createdDate,
             r.sessionDate, r.time, Error(r))
  }

  /** The nine sort columns, in order. */
  function AuditKey(a: AuditRow): (k: seq<Cell>)
    ensures |k| == 9
  {
    [OptText(a.school), OptText(a.acm), OptText(a.program), OptText(a.sessionId),
     OptText(a.student), OptNum(a.submissionDate), OptNum(a.sessionDate), OptNum(a.tot), Text(a.error)]
  }

  /** `get_error_table` after the merges: tag, filter, rename and sort. */
  function ErrorTable(rows: seq<Session>, accepted: seq<string>): (r: seq<AuditRow>)
    ensures Sorted(r, AuditKey)
    ensures multiset(r) == multiset(Map(Filter(FillComments(rows), (s: Session) => Survives(s, accepted)), Friendly))
  {
    var kept := Map(Filter(FillComments(rows), (s: Session) => Survives(s, accepted)), Friendly);
    SortBy(kept, AuditKey, 9)
  }

  /** `get_error_table` as written: once every comment is None,
      `str.contains('T1|T2')` yields a missing value on each row and the `~` of the
      missing-code mask raises TypeError on it, so only an empty table gets
      through (to an empty result). */
  function ErrorTableAsWritten(rows: seq<Session>, accepted: seq<string>): (r: Result<seq<AuditRow>>)
    ensures r.Err? <==> |rows| > 0
    ensures r.Err? ==> r.exc == TypeError
    ensures r.Ok? ==> r.value == []
  {
    if |FillCommentsAsWritten(rows)| > 0 then Err(TypeError) else Ok(ErrorTable(rows, accepted))
  }

  /** A row of the error table comes from a surviving session, and every
      surviving session is in the error table. */
  lemma ErrorTableMembers(rows: seq<Session>, accepted: seq<string>, a: AuditRow)
    ensures a in ErrorTable(rows, accepted) <==>
      exists i :: 0 <= i < |rows| && Survives(FillComments(rows)[i], accepted) && Friendly(FillComments(rows)[i]) == a
  {
    var filled := FillComments(rows);
    var p := (s: Session) => Survives(s, accepted);
    SameMembers(ErrorTable(rows, accepted), Map(Filter(filled, p), Friendly), a);
    if a in ErrorTable(rows, accepted) {
      var i := MapFilterSource(filled, p, Friendly, a);
      assert Survives(filled[i], accepted) && Friendly(filled[i]) == a;
    }
    if exists i :: 0 <= i < |rows| && Survives(FillComments(rows)[i], accepted) && Friendly(FillComments(rows)[i]) == a {
      var i :| 0 <= i < |rows| && Survives(filled[i], accepted) && Friendly(filled[i]) == a;
      MapFilterHas(filled, p, Friendly, i);
    }
  }

  /** No row of the error table has an empty Error. */
  lemma ErrorTableHasErrors(rows: seq<Session>, accepted: seq<string>, a: AuditRow)
    requires a in ErrorTable(rows, accepted)
    ensures a.error != ""
    ensures a.sessionId.Some? ==> a.sessionId.value !in accepted
  {
    ErrorTableMembers(rows, accepted, a);
  }

  // ----- per-school tables -----

  /** A row of a school's table: the School column removed. */
  datatype SchoolRow = SchoolRow(
    acm: Option<string>, program: Option<string>, sessionId: Option<string>,
    student: Option<string>, submissionDate: Option<int>, sessionDate: Option<int>,
    tot: Option<int>, error: string)

  function DropSchool(a: AuditRow): SchoolRow
  {
    SchoolRow(a.acm, a.program, a.sessionId, a.student, a.submissionDate, a.sessionDate, a.tot, a.error)
  }

  /** `df.loc[df['School'] == school]` without its School column: each row is a
      row of that school with the column dropped, and the table is empty exactly
      when the school has no row. */
  function SchoolTable(df: seq<AuditRow>, school: string): (r: seq<SchoolRow>)
    ensures |r| <= |df|
    ensures forall k :: 0 <= k < |r| ==>
      exists i :: 0 <= i < |df| && df[i].school == Some(school) && DropSchool(df[i]) == r[k]
    ensures |r| == 0 <==> forall i :: 0 <= i < |df| ==> df[i].school != Some(school)
  {
    var p := (a: AuditRow) => a.school == Some(school);
    SchoolFilterRows(df, school, p);
    Map(Filter(df, p), DropSchool)
  }

  lemma SchoolFilterRows(df: seq<AuditRow>, school: string, p: AuditRow -> bool)
    requires forall a :: p(a) <==> a.school == Some(school)
    ensures var t := Map(Filter(df, p), DropSchool);
      (forall k :: 0 <= k < |t| ==>
        exists i :: 0 <= i < |df| && df[i].school == Some(school) && DropSchool(df[i]) == t[k]) &&
      (|t| == 0 <==> forall i :: 0 <= i < |df| ==> df[i].school != Some(school))
  {
    var t := Map(Filter(df, p), DropSchool);
    forall k | 0 <= k < |t|
      ensures exists i :: 0 <= i < |df| && df[i].school == Some(school) && DropSchool(df[i]) == t[k]
    {
      assert t[k] in t;
      var i := MapFilterSource(df, p, DropSchool, t[k]);
    }
    if i :| 0 <= i < |df| && df[i].school == Some(school) {
      MapFilterHas(df, p, DropSchool, i);
    }
  }

  /** A school's table holds exactly the rows of that school. */
  lemma SchoolTableMembers(df: seq<AuditRow>, school: string, x: SchoolRow)
    ensures x in SchoolTable(df, school) <==>
      exists i :: 0 <= i < |df| && df[i].school == Some(school) && DropSchool(df[i]) == x
  {
    var p := (a: AuditRow) => a.school == Some(school);
    if x in SchoolTable(df, school) {
      var i := MapFilterSource(df, p, DropSchool, x);
      assert df[i].school == Some(school) && DropSchool(df[i]) == x;
    }
    if exists i :: 0 <= i < |df| && df[i].school == Some(school) && DropSchool(df[i]) == x {
      var i :| 0 <= i < |df| && df[i].school == Some(school) && DropSchool(df[i]) == x;
      MapFilterHas(df, p, DropSchool, i);
    }
  }

  /** A row of the school reference table. */
  datatype SchoolRef = SchoolRef(school: string, informal: string)

  function ErrorPath(year: string, informal: string): string
  {
    "Z:/" + informal + " Team Documents/" + year + " ToT Audit Errors - " + informal + ".xlsx"
  }

  /** `write_error_tables_to_cyconnect`: one workbook per reference school, in order.
      Each write is returned as (path, table) instead of touching the file system. */
  method WriteErrorTables(df: seq<AuditRow>, schools: seq<SchoolRef>, year: string)
    returns (writes: seq<(string, seq<SchoolRow>)>)
    ensures |writes| == |schools|
    ensures forall i :: 0 <= i < |schools| ==>
      writes[i] == (ErrorPath(year, schools[i].informal), SchoolTable(df, schools[i].school))
  {
    writes := [];
    var i := 0;
    while i < |schools|
      invariant 0 <= i <= |schools|
      invariant |writes| == i
      invariant forall k :: 0 <= k < i ==>
        writes[k] == (ErrorPath(year, schools[k].informal), SchoolTable(df, schools[k].school))
    {
      var row := schools[i];
      writes := writes + [(ErrorPath(year, row.informal), SchoolTable(df, row.school))];
      i := i + 1;
    }
  }
}
