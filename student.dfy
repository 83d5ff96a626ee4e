/** The student upload (`student.py`): the spreadsheet of new students is
    reshaped into the 13 columns the bulk loader expects, students the system
    already knows are dropped, and students missing an external id get one. */
module Student {
  import opened Base
  import opened Seqs
  import opened Frames

  // ---------------------------------------------------------------- import_parameters

  const LocalId: string := "*REQ* Local Student ID"
  const FirstName: string := "*REQ* First Name"
  const LastName: string := "*REQ* Last Name"
  const Grade: string := "*REQ* Grade"
  const StudentId: string := "*REQ* Student Id"
  const TypeCol: string := "*REQ* Type"
  const EntryDate: string := "*REQ* Entry Date"

  /** The four spreadsheet headings and their loader names. */
  const ColumnRename: map<string, string> := map[
    "Student CPS ID" := LocalId,
    "Student First Name" := FirstName,
    "Student Last Name" := LastName,
    "Student Grade Level" := Grade]

  /** Columns the loader accepts empty. */
  const OptionalColumns: seq<string> := ["Date of Birth", "Gender", "Ethnicity", "Disability Flag", "ELL"]

  /** The loader's column order. */
  const ColOrder: seq<string> := [
    "School", StudentId, LocalId, FirstName, LastName, Grade,
    "Date of Birth", "Gender", "Ethnicity", "Disability Flag", "ELL",
    EntryDate, TypeCol]

  /** The loader's column names are pairwise different. */
  lemma NamesApart(c: string)
    ensures c in OptionalColumns ==> c != StudentId && c != TypeCol && c != EntryDate && c != LocalId
    ensures c in ["School", FirstName, LastName, Grade] ==>
      c !in OptionalColumns && c != StudentId && c != TypeCol && c != EntryDate && c != LocalId
    ensures c in [StudentId, LocalId, TypeCol, EntryDate] ==> c !in OptionalColumns
    ensures StudentId != LocalId && StudentId != TypeCol && StudentId != EntryDate
    ensures LocalId != TypeCol && LocalId != EntryDate && TypeCol != EntryDate
  {
  }

  /** `df.rename(columns=column_rename)`. */
  function RenamedInput(df: Frame): (r: Frame)
    requires WellFormed(df)
    ensures WellFormed(r) && r.rows == df.rows
  {
    Rename(df, ColumnRename)
  }

  /** The student id copied from the local id, and the type `Student`. */
  function WithIds(f: Frame): (r: Result<Frame>)
    requires WellFormed(f)
    ensures r.Err? <==> LocalId !in f.cols
    ensures r.Err? ==> r.exc == KeyError(LocalId)
    ensures r.Ok? ==> WellFormed(r.value) && |r.value.rows| == |f.rows|
  {
    match Column(f, LocalId)
    case Err(e) => Err(e)
    case Ok(ids) => Ok(SetConst(SetColumn(f, StudentId, ids), TypeCol, Str("Student")))
  }

  /** The entry date, only where the spreadsheet has none. */
  function WithEntryDate(f: Frame, enrollmentDate: string): (r: Frame)
    requires WellFormed(f)
    ensures WellFormed(r) && |r.rows| == |f.rows|
  {
    if EntryDate in f.cols then f else SetConst(f, EntryDate, Str(enrollmentDate))
  }

  /** The optional-column loop: each absent column is added empty. */
  function AddMissing(f: Frame, cols: seq<string>): (g: Frame)
    requires WellFormed(f)
    ensures WellFormed(g) && |g.rows| == |f.rows|
  {
    if |cols| == 0 then f
    else
      var h := AddMissing(f, cols[..|cols| - 1]);
      var c := cols[|cols| - 1];
      if c in h.cols then h else SetConst(h, c, Null)
  }

  /** `import_parameters` on the spreadsheet already read into `df`. */
  function ImportSpec(df: Frame, enrollmentDate: string): (r: Result<Frame>)
    requires WellFormed(df)
    ensures LocalId !in RenamedInput(df).cols ==> r == Err(KeyError(LocalId))
    ensures r.Ok? ==> WellFormed(r.value) && r.value.cols == ColOrder && |r.value.rows| == |df.rows|
  {
    match WithIds(RenamedInput(df))
    case Err(e) => Err(e)
    case Ok(f1) => Select(AddMissing(WithEntryDate(f1, enrollmentDate), OptionalColumns), ColOrder)
  }

  /** `import_parameters`: the frame is reshaped step by step. */
  method ImportParameters(df: Frame, enrollmentDate: string) returns (r: Result<Frame>)
    requires WellFormed(df)
    ensures r == ImportSpec(df, enrollmentDate)
  {
    var f := RenamedInput(df);
    var ids := Column(f, LocalId);
    if ids.Err? {
      return Err(ids.exc);
    }
    f := SetColumn(f, StudentId, ids.value);
    f := SetConst(f, TypeCol, Str("Student"));
    if EntryDate !in f.cols {
      f := SetConst(f, EntryDate, Str(enrollmentDate));
    }
    f := FillMissingColumns(f, OptionalColumns);
    r := Select(f, ColOrder);
  }

  /** The optional-column loop of `import_parameters`. */
  method FillMissingColumns(f0: Frame, cols: seq<string>) returns (f: Frame)
    requires WellFormed(f0)
    ensures f == AddMissing(f0, cols)
  {
    f := f0;
    var k := 0;
    while k < |cols|
      invariant k <= |cols| && f == AddMissing(f0, cols[..k])
    {
      assert cols[..k + 1][..k] == cols[..k];
      if cols[k] !in f.cols {
        f := SetConst(f, cols[k], Null);
      }
      k := k + 1;
    }
    assert cols[..k] == cols;
  }

  /** After the loop the columns are those there before and the listed ones. */
  lemma {:induction false} AddMissingHas(f: Frame, cols: seq<string>, c: string)
    requires WellFormed(f)
    ensures c in AddMissing(f, cols).cols <==> c in f.cols || c in cols
  {
    if |cols| > 0 {
      var init := cols[..|cols| - 1];
      assert cols == init + [cols[|cols| - 1]];
      AddMissingHas(f, init, c);
      AddMissingHas(f, init, cols[|cols| - 1]);
    }
  }

  /** A column that was there keeps its cells and a listed column that was not
      is empty. */
  lemma {:induction false} AddMissingCells(f: Frame, cols: seq<string>, c: string, i: nat)
    requires WellFormed(f) && i < |f.rows| && (c in f.cols || c in cols)
    ensures c in AddMissing(f, cols).cols
    ensures c in f.cols ==> Cell(AddMissing(f, cols), i, c) == Cell(f, i, c)
    ensures c !in f.cols ==> Cell(AddMissing(f, cols), i, c) == Null
  {
    AddMissingHas(f, cols, c);
    if |cols| > 0 {
      var init := cols[..|cols| - 1];
      var d := cols[|cols| - 1];
      assert cols == init + [d];
      AddMissingHas(f, init, c);
      AddMissingHas(f, init, d);
      if c in f.cols || c in init {
        AddMissingCells(f, init, c, i);
      }
    }
  }

  /** The copy and the type add exactly those two columns. */
  lemma WithIdsHas(f: Frame, c: string)
    requires WellFormed(f) && LocalId in f.cols
    ensures c in WithIds(f).value.cols <==> c in f.cols || c == StudentId || c == TypeCol
  {
  }

  /** The copy and the type: every other column keeps its cells. */
  lemma WithIdsCells(f: Frame, i: nat, c: string)
    requires WellFormed(f) && LocalId in f.cols && i < |f.rows|
    ensures var g := WithIds(f).value;
      StudentId in g.cols && TypeCol in g.cols && LocalId in g.cols &&
      Cell(g, i, StudentId) == Cell(f, i, LocalId) &&
      Cell(g, i, LocalId) == Cell(f, i, LocalId) &&
      Cell(g, i, TypeCol) == Str("Student") &&
      (c in f.cols && c != StudentId && c != TypeCol ==> c in g.cols && Cell(g, i, c) == Cell(f, i, c))
  {
    var ids := Column(f, LocalId).value;
    var f1 := SetColumn(f, StudentId, ids);
    SetColumnKeeps(f, StudentId, ids, LocalId, i);
    if c in f.cols && c != StudentId {
      SetColumnKeeps(f, StudentId, ids, c, i);
    }
  }

  /** Loader output: exactly the 13 columns in order, one row per input row; the
      student id repeats the local id, the type is `Student`, and an entry date
      of the spreadsheet wins over `enrollmentDate`. */
  lemma ImportCells(df: Frame, enrollmentDate: string, i: nat)
    requires WellFormed(df) && ImportSpec(df, enrollmentDate).Ok? && i < |df.rows|
    ensures var f0 := RenamedInput(df);
      var r := ImportSpec(df, enrollmentDate).value;
      r.cols == ColOrder && |r.rows| == |df.rows| && LocalId in f0.cols &&
      Cell(r, i, StudentId) == Cell(f0, i, LocalId) &&
      Cell(r, i, LocalId) == Cell(f0, i, LocalId) &&
      Cell(r, i, TypeCol) == Str("Student") &&
      Cell(r, i, EntryDate) == (if EntryDate in f0.cols then Cell(f0, i, EntryDate) else Str(enrollmentDate))
  {
    var f0 := RenamedInput(df);
    var f1 := WithIds(f0).value;
    var f2 := WithEntryDate(f1, enrollmentDate);
    var f3 := AddMissing(f2, OptionalColumns);
    NamesApart(StudentId);
    NamesApart(LocalId);
    NamesApart(TypeCol);
    NamesApart(EntryDate);
    WithIdsHas(f0, EntryDate);
    WithIdsCells(f0, i, EntryDate);
    assert Cell(f2, i, StudentId) == Cell(f0, i, LocalId) && Cell(f2, i, LocalId) == Cell(f0, i, LocalId);
    assert Cell(f2, i, TypeCol) == Str("Student");
    AddMissingCells(f2, OptionalColumns, StudentId, i);
    AddMissingCells(f2, OptionalColumns, LocalId, i);
    AddMissingCells(f2, OptionalColumns, TypeCol, i);
    AddMissingCells(f2, OptionalColumns, EntryDate, i);
    SelectCell(f3, ColOrder, StudentId, i);
    SelectCell(f3, ColOrder, LocalId, i);
    SelectCell(f3, ColOrder, TypeCol, i);
    SelectCell(f3, ColOrder, EntryDate, i);
  }

  /** An optional column keeps the spreadsheet's cells if present and is empty
      otherwise. */
  lemma ImportOptional(df: Frame, enrollmentDate: string, i: nat, c: string)
    requires WellFormed(df) && ImportSpec(df, enrollmentDate).Ok? && i < |df.rows|
    requires c in OptionalColumns
    ensures var f0 := RenamedInput(df);
      var r := ImportSpec(df, enrollmentDate).value;
      c in r.cols && Cell(r, i, c) == (if c in f0.cols then Cell(f0, i, c) else Null)
  {
    var f0 := RenamedInput(df);
    var f1 := WithIds(f0).value;
    var f2 := WithEntryDate(f1, enrollmentDate);
    NamesApart(c);
    WithIdsHas(f0, c);
    assert c in f2.cols <==> c in f0.cols;
    if c in f0.cols {
      WithIdsCells(f0, i, c);
      assert Cell(f2, i, c) == Cell(f0, i, c);
    }
    AddMissingCells(f2, OptionalColumns, c, i);
    SelectCell(AddMissing(f2, OptionalColumns), ColOrder, c, i);
  }

  /** The school, the names and the grade come from the renamed spreadsheet. */
  lemma ImportCopied(df: Frame, enrollmentDate: string, i: nat, c: string)
    requires WellFormed(df) && ImportSpec(df, enrollmentDate).Ok? && i < |df.rows|
    requires c in ["School", FirstName, LastName, Grade]
    ensures var f0 := RenamedInput(df);
      var r := ImportSpec(df, enrollmentDate).value;
      c in f0.cols && c in r.cols && Cell(r, i, c) == Cell(f0, i, c)
  {
    var f0 := RenamedInput(df);
    var f1 := WithIds(f0).value;
    var f2 := WithEntryDate(f1, enrollmentDate);
    ImportFails(df, enrollmentDate);
    NamesApart(c);
    WithIdsHas(f0, c);
    WithIdsCells(f0, i, c);
    assert Cell(f2, i, c) == Cell(f0, i, c);
    AddMissingCells(f2, OptionalColumns, c, i);
    SelectCell(AddMissing(f2, OptionalColumns), ColOrder, c, i);
  }

  /** The projection succeeds exactly when the renamed spreadsheet has the
      columns the reshaping does not add. */
  lemma SelectsAll(f0: Frame, f3: Frame)
    requires forall c :: c in f3.cols <==>
      (c in f0.cols || c == StudentId || c == TypeCol || c == EntryDate || c in OptionalColumns)
    requires LocalId in f0.cols
    ensures (forall j :: 0 <= j < |ColOrder| ==> ColOrder[j] in f3.cols) <==>
      "School" in f0.cols && FirstName in f0.cols && LastName in f0.cols && Grade in f0.cols
  {
    NamesApart("School");
    NamesApart(FirstName);
    NamesApart(LastName);
    NamesApart(Grade);
    var front := ["School", StudentId, LocalId, FirstName, LastName, Grade];
    assert ColOrder == front + OptionalColumns + [EntryDate, TypeCol];
    if "School" in f0.cols && FirstName in f0.cols && LastName in f0.cols && Grade in f0.cols {
      forall j | 0 <= j < |ColOrder|
        ensures ColOrder[j] in f3.cols
      {
        if j < 6 {
          assert ColOrder[j] == front[j];
        } else if j < 11 {
          assert ColOrder[j] == OptionalColumns[j - 6];
        }
      }
    } else {
      assert ColOrder[0] == "School" && ColOrder[3] == FirstName && ColOrder[4] == LastName && ColOrder[5] == Grade;
    }
  }

  /** The reshaping adds the copies, the entry date and the optional columns. */
  lemma ReshapedHas(f0: Frame, enrollmentDate: string, c: string)
    requires WellFormed(f0) && LocalId in f0.cols
    ensures c in AddMissing(WithEntryDate(WithIds(f0).value, enrollmentDate), OptionalColumns).cols <==>
      (c in f0.cols || c == StudentId || c == TypeCol || c == EntryDate || c in OptionalColumns)
  {
    WithIdsHas(f0, c);
    AddMissingHas(WithEntryDate(WithIds(f0).value, enrollmentDate), OptionalColumns, c);
  }

  /** The import fails exactly when the renamed spreadsheet lacks the local id,
      the school, a name or the grade; the local id is looked up first. */
  lemma ImportFails(df: Frame, enrollmentDate: string)
    requires WellFormed(df)
    ensures var f0 := RenamedInput(df);
      (ImportSpec(df, enrollmentDate).Ok? <==>
        LocalId in f0.cols && "School" in f0.cols && FirstName in f0.cols && LastName in f0.cols && Grade in f0.cols) &&
      (LocalId !in f0.cols ==> ImportSpec(df, enrollmentDate) == Err(KeyError(LocalId))) &&
      (ImportSpec(df, enrollmentDate).Err? ==> ImportSpec(df, enrollmentDate).exc.KeyError?)
  {
    var f0 := RenamedInput(df);
    if LocalId in f0.cols {
      var f3 := AddMissing(WithEntryDate(WithIds(f0).value, enrollmentDate), OptionalColumns);
      forall c
        ensures c in f3.cols <==> (c in f0.cols || c == StudentId || c == TypeCol || c == EntryDate || c in OptionalColumns)
      {
        ReshapedHas(f0, enrollmentDate, c);
      }
      SelectsAll(f0, f3);
    }
  }

  // ---------------------------------------------------------------- remove_extant_students

  function IsNew(existing: seq<Value>, v: Value): bool
  {
    v !in existing
  }

  /** `remove_extant_students`, with the system's local ids given as `existing`. */
  /** A row is kept exactly when its local id is unknown to the system. */
  function RemoveExtant(df: Frame, existing: seq<Value>): (r: Result<Frame>)
    requires WellFormed(df)
    ensures r.Err? <==> LocalId !in df.cols
    ensures r.Err? ==> r.exc == KeyError(LocalId)
    ensures r.Ok? ==> WellFormed(r.value) && r.value.cols == df.cols
    ensures r.Ok? ==> forall x :: x in r.value.rows <==> x in df.rows && x[ColIndex(df.cols, LocalId).value] !in existing
  {
    KeepWhere(df, LocalId, v => IsNew(existing, v))
  }

  // ---------------------------------------------------------------- update_student_External_Id

  const DefaultPrefix: string := "CPS_"

  /** A student record as the system returns it. */
  datatype StudentRec = StudentRec(id: string, localId: Option<string>, externalId: Option<string>)

  /** One `Student__c.update(id, {'External_Id__c': value})` request. */
  datatype Update = Update(id: string, externalId: string)

  function LocalIds(students: seq<StudentRec>): seq<Option<string>>
  {
    seq(|students|, i requires 0 <= i < |students| => students[i].localId)
  }

  /** `Series.duplicated()`: true at every repeat of an earlier value. */
  function Duplicated<T(==)>(s: seq<T>): (m: seq<bool>)
    ensures |m| == |s|
  {
    seq(|s|, i requires 0 <= i < |s| => s[i] in s[..i])
  }

  /** Some entry of the mask is set exactly when the values are not distinct. */
  lemma DuplicatedIff<T>(s: seq<T>)
    ensures true in Duplicated(s) <==> !Distinct(s)
  {
    if !Distinct(s) {
      var i, j :| 0 <= i < j < |s| && s[i] == s[j];
      assert s[j] in s[..j] by {
        assert s[..j][i] == s[i];
      }
      assert Duplicated(s)[j];
    }
    if true in Duplicated(s) {
      var j :| 0 <= j < |s| && Duplicated(s)[j];
      var i :| 0 <= i < j && s[..j][i] == s[j];
      assert s[i] == s[j];
    }
  }

  /** Students with no external id and a local id of exactly 8 characters. */
  predicate IsCandidate(s: StudentRec)
  {
    s.externalId.None? && s.localId.Some? && |s.localId.value| == 8
  }

  function UpdateFor(prefix: string, s: StudentRec): Update
  {
    Update(s.id, prefix + s.localId.GetOr(""))
  }

  /** The updates after the duplicate check: None when there is no candidate. */
  function CandidateUpdates(students: seq<StudentRec>, prefix: string): Option<seq<Update>>
  {
    var c := Filter(students, IsCandidate);
    if |c| == 0 then None else Some(Map(c, s => UpdateFor(prefix, s)))
  }

  /** `update_student_External_Id` as written: the check tests the length of the
      duplicate mask, which is the number of students. */
  function UpdateExternalIdAsWritten(students: seq<StudentRec>, prefix: string): (r: Result<Option<seq<Update>>>)
    ensures r.Err? <==> |students| > 0
    ensures r.Err? ==> r.exc == ValueError
    ensures r.Ok? ==> r.value.None?
  {
    if |Duplicated(LocalIds(students))| > 0 then Err(ValueError) else Ok(CandidateUpdates(students, prefix))
  }

  /** `update_student_External_Id` with the check it intends: raise only when some
      local id repeats. */
  function UpdateExternalIdSpec(students: seq<StudentRec>, prefix: string): (r: Result<Option<seq<Update>>>)
    ensures r.Err? <==> !Distinct(LocalIds(students))
    ensures r.Err? ==> r.exc == ValueError
    ensures r.Ok? && r.value.Some? ==> CandidatesOnly(students, prefix, r.value.value)
  {
    DuplicatedIff(LocalIds(students));
    CandidatesFrom(students, prefix);
    if true in Duplicated(LocalIds(students)) then Err(ValueError) else Ok(CandidateUpdates(students, prefix))
  }

  lemma CandidatesFrom(students: seq<StudentRec>, prefix: string)
    ensures CandidateUpdates(students, prefix).Some? ==> CandidatesOnly(students, prefix, CandidateUpdates(students, prefix).value)
  {
    var c := Filter(students, IsCandidate);
    var us := CandidateUpdates(students, prefix);
    if us.Some? {
      forall u | u in us.value
        ensures exists s :: s in students && IsCandidate(s) && u == Update(s.id, prefix + s.localId.value)
      {
        var k :| 0 <= k < |us.value| && us.value[k] == u;
        FilterIn(students, IsCandidate, c[k]);
        assert u == UpdateFor(prefix, c[k]);
      }
    }
  }

  /** Every update is that of a candidate student: its id, and the prefix before its local id. */
  predicate CandidatesOnly(students: seq<StudentRec>, prefix: string, us: seq<Update>)
  {
    forall u :: u in us ==>
      exists s :: s in students && IsCandidate(s) && u == Update(s.id, prefix + s.localId.value)
  }

  /** As written, any non-empty student table raises, even with distinct local ids. */
  lemma AsWrittenRaisesOnAnyStudent(students: seq<StudentRec>, prefix: string)
    requires |students| > 0
    ensures UpdateExternalIdAsWritten(students, prefix) == Err(ValueError)
  {
  }

  /** One student with a fresh 8-character id: the written check raises, the
      intended one sends the update. */
  lemma AsWrittenExample()
    ensures var s := [StudentRec("a", Some("12345678"), None)];
      UpdateExternalIdAsWritten(s, DefaultPrefix) == Err(ValueError) &&
      UpdateExternalIdSpec(s, DefaultPrefix) == Ok(Some([Update("a", "CPS_12345678")]))
  {
    var s := [StudentRec("a", Some("12345678"), None)];
    assert s[1..] == [];
    assert Filter(s, IsCandidate) == [s[0]];
    assert LocalIds(s)[0] == Some("12345678");
    assert Duplicated(LocalIds(s))[0] == false;
    assert !(true in Duplicated(LocalIds(s)));
    assert DefaultPrefix + "12345678" == "CPS_12345678";
    var us := Map([s[0]], (x: StudentRec) => UpdateFor(DefaultPrefix, x));
    assert us[0] == Update("a", "CPS_12345678");
    assert us == [Update("a", "CPS_12345678")];
  }

  /** The intended update: ValueError exactly when local ids repeat; otherwise
      None when no student is a candidate, and else one request per candidate,
      in order, setting the prefix followed by the local id. */
  lemma UpdateExternalIdContents(students: seq<StudentRec>, prefix: string)
    ensures UpdateExternalIdSpec(students, prefix).Err? <==> !Distinct(LocalIds(students))
    ensures UpdateExternalIdSpec(students, prefix) == Ok(None) <==>
      Distinct(LocalIds(students)) && forall k :: 0 <= k < |students| ==> !IsCandidate(students[k])
    ensures UpdateExternalIdSpec(students, prefix).Ok? && UpdateExternalIdSpec(students, prefix).value.Some? ==>
      var us := UpdateExternalIdSpec(students, prefix).value.value;
      var c := Filter(students, IsCandidate);
      |us| == |c| &&
      forall k :: 0 <= k < |us| ==>
        c[k] in students && IsCandidate(c[k]) && us[k].id == c[k].id && us[k].externalId == prefix + c[k].localId.value
  {
    DuplicatedIff(LocalIds(students));
    var c := Filter(students, IsCandidate);
    forall k | 0 <= k < |c|
      ensures c[k] in students
    {
      FilterIn(students, IsCandidate, c[k]);
    }
    if |c| == 0 {
      forall k | 0 <= k < |students|
        ensures !IsCandidate(students[k])
      {
        FilterIn(students, IsCandidate, students[k]);
      }
    } else {
      FilterIn(students, IsCandidate, c[0]);
    }
  }

  /** `update_student_External_Id` with the intended check: the loop issues one
      request per candidate, appending each to the results. */
  method UpdateStudentExternalIds(students: seq<StudentRec>, prefix: string) returns (r: Result<Option<seq<Update>>>)
    ensures r == UpdateExternalIdSpec(students, prefix)
  {
    if true in Duplicated(LocalIds(students)) {
      return Err(ValueError);
    }
    var c := Filter(students, IsCandidate);
    if |c| == 0 {
      return Ok(None);
    }
    var results: seq<Update> := [];
    var k := 0;
    while k < |c|
      invariant k <= |c| && results == Map(c[..k], s => UpdateFor(prefix, s))
    {
      results := results + [UpdateFor(prefix, c[k])];
      k := k + 1;
    }
    assert c[..k] == c;
    return Ok(Some(results));
  }
}
