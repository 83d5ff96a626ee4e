/** The Thrive data share (`chi_thrive_datashare.py`): a data dictionary maps the
    combined CRM table onto the five Thrive files (PROGRAM, ATTENDANCE,
    MEMBERSHIP, PARTICIPANT, FACILITY), and each file is then cleaned. */
module ChiThriveDatashare {
  import opened Base
  import opened Strings
  import opened Seqs
  import opened Frames

  // ---------------------------------------------------------------- the data dictionary

  /** A row of the 'Program Data Elements' sheet: the Thrive file, the data
      element, and the optional CY column name and CY column values. */
  datatype DictRow = DictRow(file: string, element: string, cyColumn: Option<string>, cyValues: Option<string>)

  /** `data_dict.loc[data_dict['PROGRAM DATA FILE'] == data_file]`. */
  function FileRows(dict: seq<DictRow>, file: string): (r: seq<DictRow>)
    ensures forall i :: 0 <= i < |r| ==> r[i].file == file
    ensures forall x :: x in r <==> x in dict && x.file == file
  {
    if |dict| == 0 then []
    else
      var u := FileRows(dict[..|dict| - 1], file);
      assert dict == dict[..|dict| - 1] + [dict[|dict| - 1]];
      if dict[|dict| - 1].file == file then u + [dict[|dict| - 1]] else u
  }

  /** Rows of other files do not reach the selection. */
  lemma {:induction false} FileRowsOthers(a: seq<DictRow>, b: seq<DictRow>, file: string)
    requires forall i :: 0 <= i < |b| ==> b[i].file != file
    ensures FileRows(a + b, file) == FileRows(a, file)
  {
    if |b| > 0 {
      var ab := a + b;
      assert ab[..|ab| - 1] == a + b[..|b| - 1];
      assert ab[|ab| - 1] == b[|b| - 1];
      assert FileRows(ab, file) == FileRows(ab[..|ab| - 1], file);
      FileRowsOthers(a, b[..|b| - 1], file);
    } else {
      assert a + b == a;
    }
  }

  /** A Python dict from CY column name to data element: the keys in insertion
      order and the current value of each. */
  datatype PyDict = PyDict(order: seq<string>, m: map<string, string>)

  ghost predicate DictValid(d: PyDict)
  {
    Distinct(d.order) && forall k :: k in d.m <==> k in d.order
  }

  /** `d[k] = v`: a new key goes last, an existing one keeps its place and takes `v`. */
  function Put(d: PyDict, k: string, v: string): PyDict
  {
    PyDict(if k in d.m then d.order else d.order + [k], d.m[k := v])
  }

  /** `d.values()`, in key order. */
  function Values(d: PyDict): (r: seq<string>)
    requires DictValid(d)
    ensures |r| == |d.order|
  {
    seq(|d.order|, i requires 0 <= i < |d.order| => d.m[d.order[i]])
  }

  /** The `rename_dict` built from the rows that name a CY column. */
  function RenameDict(rows: seq<DictRow>): (d: PyDict)
    ensures DictValid(d)
  {
    if |rows| == 0 then PyDict([], map[])
    else
      var d := RenameDict(rows[..|rows| - 1]);
      var r := rows[|rows| - 1];
      if r.cyColumn.Some? then
        assert r.cyColumn.value !in d.m ==> r.cyColumn.value !in d.order;
        Put(d, r.cyColumn.value, r.element)
      else d
  }

  /** The CY column names of the rows, in order, repeats included. */
  function CyColumns(rows: seq<DictRow>): seq<string>
  {
    if |rows| == 0 then []
    else
      var r := rows[|rows| - 1];
      CyColumns(rows[..|rows| - 1]) + (if r.cyColumn.Some? then [r.cyColumn.value] else [])
  }

  /** The data element of the last row naming CY column `k`. */
  function LastElement(rows: seq<DictRow>, k: string): Option<string>
  {
    if |rows| == 0 then None
    else if rows[|rows| - 1].cyColumn == Some(k) then Some(rows[|rows| - 1].element)
    else LastElement(rows[..|rows| - 1], k)
  }

  /** The keys of `rename_dict` are the CY column names in order of first
      appearance, and each maps to the element of its last row. */
  lemma {:induction false} RenameDictContents(rows: seq<DictRow>, k: string)
    ensures RenameDict(rows).order == Unique(CyColumns(rows))
    ensures k in RenameDict(rows).m <==> LastElement(rows, k).Some?
    ensures k in RenameDict(rows).m ==> RenameDict(rows).m[k] == LastElement(rows, k).value
  {
    if |rows| > 0 {
      var init := rows[..|rows| - 1];
      var r := rows[|rows| - 1];
      RenameDictContents(init, k);
      var d := RenameDict(init);
      if r.cyColumn.Some? {
        var c := r.cyColumn.value;
        RenameDictContents(init, c);
        assert CyColumns(rows) == CyColumns(init) + [c];
        assert (CyColumns(init) + [c])[..|CyColumns(init)|] == CyColumns(init);
        assert c in d.m <==> c in Unique(CyColumns(init));
      } else {
        assert CyColumns(rows) == CyColumns(init);
      }
    }
  }

  // ---------------------------------------------------------------- convert_table

  const ProgramId: string := "PROGRAM_SYSTEM_ID"
  const ParticipantId: string := "PARTICIPANT_SYSTEM_ID"
  const MembershipId: string := "PROGRAM_MEMBERSHIP_SYSTEM_ID"
  const AllPrefix: string := "All: "

  /** `a + "_" + b` on two cells of object columns: a missing id gives a missing
      result; a cell that is not text raises TypeError. */
  function JoinIds(a: Value, b: Value): Result<Value>
  {
    match a
    case Null => Ok(Null)
    case Str(x) =>
      (match b
       case Null => Ok(Null)
       case Str(y) => Ok(Str(x + "_" + y))
       case _ => Err(TypeError))
    case _ => Err(TypeError)
  }

  /** The joined column, row by row. */
  function JoinColumns(a: seq<Value>, b: seq<Value>): (r: Result<seq<Value>>)
    requires |a| == |b|
    ensures r.Ok? <==> forall i :: 0 <= i < |a| ==> JoinIds(a[i], b[i]).Ok?
    ensures r.Err? ==> r.exc == TypeError
    ensures r.Ok? ==> |r.value| == |a| && forall i :: 0 <= i < |a| ==> JoinIds(a[i], b[i]) == Ok(r.value[i])
  {
    if |a| == 0 then Ok([])
    else
      var n := |a| - 1;
      match JoinColumns(a[..n], b[..n])
      case Err(e) => Err(e)
      case Ok(v) =>
        match JoinIds(a[n], b[n])
        case Err(e) => Err(e)
        case Ok(x) => Ok(v + [x])
  }

  /** `df['PROGRAM_MEMBERSHIP_SYSTEM_ID'] = df['PROGRAM_SYSTEM_ID'] + "_" + df['PARTICIPANT_SYSTEM_ID']`. */
  function AddMembershipId(f: Frame): (r: Result<Frame>)
    requires WellFormed(f)
    ensures r.Ok? ==> WellFormed(r.value) && |r.value.rows| == |f.rows|
  {
    match Column(f, ProgramId)
    case Err(e) => Err(e)
    case Ok(p) =>
      match Column(f, ParticipantId)
      case Err(e) => Err(e)
      case Ok(q) =>
        match JoinColumns(p, q)
        case Err(e) => Err(e)
        case Ok(v) => Ok(SetColumn(f, MembershipId, v))
  }

  /** The membership id of every row is the program id, `_` and the participant id;
      a missing id column raises KeyError, a cell that is not text TypeError. */
  lemma MembershipIdCells(f: Frame)
    requires WellFormed(f)
    ensures AddMembershipId(f).Ok? <==>
      ProgramId in f.cols && ParticipantId in f.cols &&
      forall i :: 0 <= i < |f.rows| ==> JoinIds(Cell(f, i, ProgramId), Cell(f, i, ParticipantId)).Ok?
    ensures ProgramId !in f.cols ==> AddMembershipId(f) == Err(KeyError(ProgramId))
    ensures ProgramId in f.cols && ParticipantId !in f.cols ==> AddMembershipId(f) == Err(KeyError(ParticipantId))
    ensures AddMembershipId(f).Ok? ==> var g := AddMembershipId(f).value;
      MembershipId in g.cols &&
      forall i :: 0 <= i < |f.rows| ==> JoinIds(Cell(f, i, ProgramId), Cell(f, i, ParticipantId)) == Ok(Cell(g, i, MembershipId))
  {
    if ProgramId in f.cols && ParticipantId in f.cols {
      var p := Column(f, ProgramId).value;
      var q := Column(f, ParticipantId).value;
      assert forall i :: 0 <= i < |f.rows| ==> p[i] == Cell(f, i, ProgramId) && q[i] == Cell(f, i, ParticipantId);
    }
  }

  /** A dictionary row whose CY column value starts with `All: `. */
  predicate ConstRow(r: DictRow)
  {
    r.cyValues.Some? && StartsWith(r.cyValues.value, AllPrefix)
  }

  /** `value.replace('All: ', '')`. */
  function ConstValue(r: DictRow): string
    requires ConstRow(r)
  {
    ReplaceAll(r.cyValues.value, AllPrefix, "")
  }

  /** The constant-fill loop over the file's rows. */
  function FillConstants(f: Frame, rows: seq<DictRow>): (g: Frame)
    requires WellFormed(f)
    ensures WellFormed(g) && |g.rows| == |f.rows|
  {
    if |rows| == 0 then f
    else
      var h := FillConstants(f, rows[..|rows| - 1]);
      var r := rows[|rows| - 1];
      if ConstRow(r) then SetConst(h, r.element, Str(ConstValue(r))) else h
  }

  /** The elements the constant rows write, in order, repeats included. */
  function ConstElements(rows: seq<DictRow>): seq<string>
  {
    if |rows| == 0 then []
    else
      var r := rows[|rows| - 1];
      ConstElements(rows[..|rows| - 1]) + (if ConstRow(r) then [r.element] else [])
  }

  /** The value the last constant row for element `c` writes. */
  function LastConst(rows: seq<DictRow>, c: string): Option<string>
  {
    if |rows| == 0 then None
    else
      var r := rows[|rows| - 1];
      if ConstRow(r) && r.element == c then Some(ConstValue(r)) else LastConst(rows[..|rows| - 1], c)
  }

  /** The filled frame keeps the columns in front and appends only elements of
      constant rows; the rows not written keep their cells. */
  lemma {:induction false} FillConstantsShape(f: Frame, rows: seq<DictRow>)
    requires WellFormed(f)
    ensures var g := FillConstants(f, rows);
      |g.cols| >= |f.cols| && g.cols[..|f.cols|] == f.cols &&
      (forall j :: |f.cols| <= j < |g.cols| ==> g.cols[j] in ConstElements(rows)) &&
      (forall i, j :: 0 <= i < |f.rows| && 0 <= j < |f.cols| && f.cols[j] !in ConstElements(rows) ==> g.rows[i][j] == f.rows[i][j])
  {
    if |rows| > 0 {
      var init := rows[..|rows| - 1];
      var r := rows[|rows| - 1];
      FillConstantsShape(f, init);
      var h := FillConstants(f, init);
      assert ConstElements(rows) == ConstElements(init) + (if ConstRow(r) then [r.element] else []);
      if ConstRow(r) {
        var g := SetConst(h, r.element, Str(ConstValue(r)));
        assert g.cols[..|h.cols|] == h.cols;
        assert g.cols[..|f.cols|] == h.cols[..|f.cols|];
      }
    }
  }

  /** A constant row fills its element's whole column with its value, and the last
      one for an element wins. */
  lemma {:induction false} FillConstantsCell(f: Frame, rows: seq<DictRow>, c: string, i: nat)
    requires WellFormed(f) && LastConst(rows, c).Some? && i < |f.rows|
    ensures c in FillConstants(f, rows).cols && Cell(FillConstants(f, rows), i, c) == Str(LastConst(rows, c).value)
  {
    var init := rows[..|rows| - 1];
    var r := rows[|rows| - 1];
    var h := FillConstants(f, init);
    if !(ConstRow(r) && r.element == c) {
      FillConstantsCell(f, init, c, i);
      if ConstRow(r) {
        SetColumnKeeps(h, r.element, seq(|h.rows|, _ => Str(ConstValue(r))), c, i);
      }
    }
  }

  /** The input with the CY columns renamed to data elements. */
  function Renamed(df: Frame, file: string, dict: seq<DictRow>): (r: Frame)
    requires WellFormed(df)
    ensures WellFormed(r) && r.rows == df.rows
  {
    Rename(df, RenameDict(FileRows(dict, file)).m)
  }

  /** The renamed frame, with the membership id added when it is a target. */
  function WithMembershipId(df: Frame, file: string, dict: seq<DictRow>): (r: Result<Frame>)
    requires WellFormed(df)
    ensures r.Ok? ==> WellFormed(r.value) && |r.value.rows| == |df.rows|
  {
    var renamed := Renamed(df, file, dict);
    if MembershipId in Values(RenameDict(FileRows(dict, file))) then AddMembershipId(renamed) else Ok(renamed)
  }

  /** The frame before the constants are filled: exactly the data elements. */
  function Selected(df: Frame, file: string, dict: seq<DictRow>): (r: Result<Frame>)
    requires WellFormed(df)
    ensures r.Ok? ==> (WellFormed(r.value) && |r.value.rows| == |df.rows| &&
                       r.value.cols == Values(RenameDict(FileRows(dict, file))))
  {
    match WithMembershipId(df, file, dict)
    case Err(e) => Err(e)
    case Ok(w) => Select(w, Values(RenameDict(FileRows(dict, file))))
  }

  /** A column that no constant row names keeps its cells. */
  lemma FillKeeps(f: Frame, rows: seq<DictRow>, c: string, i: nat)
    requires WellFormed(f) && c in f.cols && c !in ConstElements(rows) && i < |f.rows|
    ensures c in FillConstants(f, rows).cols && Cell(FillConstants(f, rows), i, c) == Cell(f, i, c)
  {
    FillConstantsShape(f, rows);
    ColIndexPrefix(FillConstants(f, rows).cols, f.cols, c);
  }

  /** Adding the membership id leaves every other column alone. */
  lemma WithMembershipIdKeeps(df: Frame, file: string, dict: seq<DictRow>, c: string, i: nat)
    requires WellFormed(df) && WithMembershipId(df, file, dict).Ok? && i < |df.rows|
    requires c in Renamed(df, file, dict).cols && c != MembershipId
    ensures c in WithMembershipId(df, file, dict).value.cols &&
      Cell(WithMembershipId(df, file, dict).value, i, c) == Cell(Renamed(df, file, dict), i, c)
  {
    var renamed := Renamed(df, file, dict);
    if MembershipId in Values(RenameDict(FileRows(dict, file))) {
      var p := Column(renamed, ProgramId).value;
      var q := Column(renamed, ParticipantId).value;
      SetColumnKeeps(renamed, MembershipId, JoinColumns(p, q).value, c, i);
    }
  }

  /** `convert_table(df, data_file, data_dict)`. The input frame is a value, so the
      copy the source takes first is implicit. */
  function ConvertSpec(df: Frame, file: string, dict: seq<DictRow>): (r: Result<Frame>)
    requires WellFormed(df)
    ensures r.Ok? ==> WellFormed(r.value) && |r.value.rows| == |df.rows|
  {
    match Selected(df, file, dict)
    case Err(e) => Err(e)
    case Ok(p) => Ok(FillConstants(p, FileRows(dict, file)))
  }

  /** The `rename_dict` loop of `convert_table`. */
  method BuildRenameDict(rows: seq<DictRow>) returns (d: PyDict)
    ensures d == RenameDict(rows)
  {
    d := PyDict([], map[]);
    var i := 0;
    while i < |rows|
      invariant i <= |rows| && d == RenameDict(rows[..i])
    {
      assert rows[..i + 1][..i] == rows[..i];
      if rows[i].cyColumn.Some? {
        d := Put(d, rows[i].cyColumn.value, rows[i].element);
      }
      i := i + 1;
    }
    assert rows[..|rows|] == rows;
  }

  /** The constant-fill loop of `convert_table`. */
  method FillConstantColumns(f: Frame, rows: seq<DictRow>) returns (g: Frame)
    requires WellFormed(f)
    ensures g == FillConstants(f, rows)
  {
    g := f;
    var i := 0;
    while i < |rows|
      invariant i <= |rows| && g == FillConstants(f, rows[..i])
    {
      assert rows[..i + 1][..i] == rows[..i];
      if ConstRow(rows[i]) {
        g := SetConst(g, rows[i].element, Str(ConstValue(rows[i])));
      }
      i := i + 1;
    }
    assert rows[..|rows|] == rows;
  }

  /** `convert_table`: rename, add the membership id when it is a target, select
      the targets, fill the constants. */
  method ConvertTable(df: Frame, dataFile: string, dict: seq<DictRow>) returns (r: Result<Frame>)
    requires WellFormed(df)
    ensures r == ConvertSpec(df, dataFile, dict)
  {
    var rows := FileRows(dict, dataFile);
    var d := BuildRenameDict(rows);
    var f := Rename(df, d.m);
    if MembershipId in Values(d) {
      var withId := AddMembershipId(f);
      if withId.Err? {
        return Err(withId.exc);
      }
      f := withId.value;
    }
    var sel := Select(f, Values(d));
    if sel.Err? {
      return Err(sel.exc);
    }
    var g := FillConstantColumns(sel.value, rows);
    return Ok(g);
  }

  /** Only the rows of the requested file matter: two dictionaries whose rows for
      the file are the same, in the same order, convert the table alike. */
  lemma ConvertSameFileRows(df: Frame, file: string, dict: seq<DictRow>, dict': seq<DictRow>)
    requires WellFormed(df)
    requires FileRows(dict, file) == FileRows(dict', file)
    ensures ConvertSpec(df, file, dict) == ConvertSpec(df, file, dict')
  {
  }

  /** In particular, rows of other files appended to the dictionary change
      nothing. */
  lemma ConvertOtherFiles(df: Frame, file: string, dict: seq<DictRow>, other: seq<DictRow>)
    requires WellFormed(df)
    requires forall i :: 0 <= i < |other| ==> other[i].file != file
    ensures ConvertSpec(df, file, dict + other) == ConvertSpec(df, file, dict)
  {
    FileRowsOthers(dict, other, file);
    ConvertSameFileRows(df, file, dict + other, dict);
  }

  /** The output starts with exactly the mapped data elements, in dictionary
      order, and any further column is an element filled with a constant. */
  lemma ConvertColumns(df: Frame, file: string, dict: seq<DictRow>)
    requires WellFormed(df) && ConvertSpec(df, file, dict).Ok?
    ensures var rows := FileRows(dict, file);
      var vs := Values(RenameDict(rows));
      var g := ConvertSpec(df, file, dict).value;
      |g.cols| >= |vs| && g.cols[..|vs|] == vs &&
      (forall j :: |vs| <= j < |g.cols| ==> g.cols[j] in ConstElements(rows))
  {
    FillConstantsShape(Selected(df, file, dict).value, FileRows(dict, file));
  }

  /** A mapped element that is not the membership id and not filled with a
      constant carries the cells of the renamed input column. */
  lemma ConvertCopies(df: Frame, file: string, dict: seq<DictRow>, i: nat, j: nat)
    requires WellFormed(df) && ConvertSpec(df, file, dict).Ok?
    requires var vs := Values(RenameDict(FileRows(dict, file)));
      i < |df.rows| && j < |vs| && vs[j] != MembershipId && vs[j] !in ConstElements(FileRows(dict, file))
    ensures var vs := Values(RenameDict(FileRows(dict, file)));
      vs[j] in Renamed(df, file, dict).cols && j < |ConvertSpec(df, file, dict).value.cols| &&
      ConvertSpec(df, file, dict).value.rows[i][j] == Cell(Renamed(df, file, dict), i, vs[j])
  {
    var rows := FileRows(dict, file);
    var vs := Values(RenameDict(rows));
    var w := WithMembershipId(df, file, dict).value;
    var p := Selected(df, file, dict).value;
    FillConstantsShape(p, rows);
    assert p.rows[i][j] == Cell(w, i, vs[j]);
    MembershipIdCells(Renamed(df, file, dict));
    WithMembershipIdKeeps(df, file, dict, vs[j], i);
  }

  /** When the membership id is a target and no constant overwrites it, every row's
      id is its program id, `_` and its participant id. */
  lemma ConvertMembershipId(df: Frame, file: string, dict: seq<DictRow>, i: nat)
    requires WellFormed(df) && ConvertSpec(df, file, dict).Ok? && i < |df.rows|
    requires var rows := FileRows(dict, file);
      MembershipId in Values(RenameDict(rows)) && MembershipId !in ConstElements(rows)
    ensures var renamed := Renamed(df, file, dict);
      var g := ConvertSpec(df, file, dict).value;
      ProgramId in renamed.cols && ParticipantId in renamed.cols && MembershipId in g.cols &&
      JoinIds(Cell(renamed, i, ProgramId), Cell(renamed, i, ParticipantId)) == Ok(Cell(g, i, MembershipId))
  {
    var vs := Values(RenameDict(FileRows(dict, file)));
    var w := WithMembershipId(df, file, dict).value;
    MembershipIdCells(Renamed(df, file, dict));
    SelectCell(w, vs, MembershipId, i);
    FillKeeps(Selected(df, file, dict).value, FileRows(dict, file), MembershipId, i);
  }

  /** A constant row fills its element's column in every row of the output; the
      last one for an element wins. */
  lemma ConvertConstant(df: Frame, file: string, dict: seq<DictRow>, c: string, i: nat)
    requires WellFormed(df) && ConvertSpec(df, file, dict).Ok? && i < |df.rows|
    requires LastConst(FileRows(dict, file), c).Some?
    ensures var g := ConvertSpec(df, file, dict).value;
      c in g.cols && Cell(g, i, c) == Str(LastConst(FileRows(dict, file), c).value)
  {
    FillConstantsCell(Selected(df, file, dict).value, FileRows(dict, file), c, i);
  }

  // ---------------------------------------------------------------- parse_omni_df

  const Duration: string := "DELIVERY_OVERALL_DURATION"
  const Weeks: string := "DELIVERY_WEEKS"
  const Level: string := "PROGRAM_INTERVENTION_LEVEL"
  const Group: string := "PROGRAM_GROUP"
  const AttendanceDate: string := "ATTENDANCE_DATE"
  const ExitReasons: string := "MEMBERSHIP_EXIT_REASONS"
  const FacilityId: string := "FACILITY_SYSTEM_ID"

  /** `fillna(0.0).astype(int)` on a column of whole numbers. */
  function ZeroIfNull(v: Value): Value
  {
    if v == Null then Int(0) else v
  }

  function IsHomework(v: Value): bool
  {
    v == Str("Homework Assistance")
  }

  /** `str.contains('SEL|Attendance') == True`: missing and non-text cells give False. */
  function IsSelOrAttendance(v: Value): bool
  {
    v.Str? && (Contains(v.s, "SEL") || Contains(v.s, "Attendance"))
  }

  /** The de-duplicated programs with missing durations and weeks as 0. */
  function ProgramFilled(g: Frame): Result<Frame>
    requires WellFormed(g)
  {
    match MapColumn(g, Duration, ZeroIfNull)
    case Err(e) => Err(e)
    case Ok(g1) => MapColumn(g1, Weeks, ZeroIfNull)
  }

  /** The intervention level and the 8 weeks of the SEL and Attendance groups. */
  function ProgramLevels(g2: Frame): Result<Frame>
    requires WellFormed(g2)
  {
    var g3 := SetConst(g2, Level, Str("Tier2"));
    match Column(g3, Group)
    case Err(e) => Err(e)
    case Ok(groups) =>
      if Weeks in g3.cols then
        var g4 := SetWhere(g3, Level, Str("Tier1"), Map(groups, IsHomework));
        Ok(SetWhere(g4, Weeks, Int(8), Map(groups, IsSelOrAttendance)))
      else Err(KeyError(Weeks))
  }

  /** The PROGRAM file: one row per program id, durations and weeks filled with 0,
      the intervention level, and 8 weeks for the SEL and Attendance groups. */
  function ProgramTable(f: Frame): Result<Frame>
    requires WellFormed(f)
  {
    match DedupOn(f, ProgramId)
    case Err(e) => Err(e)
    case Ok(g) =>
      match ProgramFilled(g)
      case Err(e) => Err(e)
      case Ok(g2) => ProgramLevels(g2)
  }

  /** Filling leaves one row per input row: durations and weeks with a missing
      value as 0, any other column `c` unchanged. */
  lemma ProgramFilledCells(g: Frame, i: nat, c: string)
    requires WellFormed(g) && ProgramFilled(g).Ok? && i < |g.rows|
    ensures var g2 := ProgramFilled(g).value;
      WellFormed(g2) && g2.cols == g.cols && |g2.rows| == |g.rows| &&
      Duration in g.cols && Weeks in g.cols &&
      Cell(g2, i, Duration) == ZeroIfNull(Cell(g, i, Duration)) &&
      Cell(g2, i, Weeks) == ZeroIfNull(Cell(g, i, Weeks)) &&
      (c in g.cols && c != Duration && c != Weeks ==> Cell(g2, i, c) == Cell(g, i, c))
  {
  }

  /** The level is Tier1 exactly for Homework Assistance and Tier2 otherwise; the
      weeks are 8 for SEL or Attendance groups; any other column `c` is kept. */
  lemma ProgramLevelsCells(g2: Frame, i: nat, c: string)
    requires WellFormed(g2) && ProgramLevels(g2).Ok? && i < |g2.rows|
    ensures var r := ProgramLevels(g2).value;
      Group in g2.cols && Weeks in g2.cols && Level in r.cols && |r.rows| == |g2.rows| &&
      Cell(r, i, Level) == (if IsHomework(Cell(g2, i, Group)) then Str("Tier1") else Str("Tier2")) &&
      Cell(r, i, Weeks) == (if IsSelOrAttendance(Cell(g2, i, Group)) then Int(8) else Cell(g2, i, Weeks)) &&
      (c in g2.cols && c != Level && c != Weeks ==> c in r.cols && Cell(r, i, c) == Cell(g2, i, c))
  {
    var g3 := SetConst(g2, Level, Str("Tier2"));
    assert Cell(g3, i, Group) == Cell(g2, i, Group);
  }

  /** Each PROGRAM row: Tier1 exactly for Homework Assistance and Tier2 otherwise,
      8 weeks for SEL or Attendance groups and otherwise the weeks with a missing
      value as 0, the duration with a missing value as 0; the program id and
      group of the de-duplicated row are kept. */
  lemma ProgramTableRows(f: Frame, i: nat)
    requires WellFormed(f) && ProgramTable(f).Ok?
    ensures ProgramId in f.cols && DedupOn(f, ProgramId).Ok?
    ensures var g := DedupOn(f, ProgramId).value;
      var r := ProgramTable(f).value;
      |r.rows| == |g.rows| &&
      (i < |g.rows| ==>
        Duration in g.cols && Weeks in g.cols && Group in g.cols &&
        Level in r.cols && Duration in r.cols && Weeks in r.cols && Group in r.cols && ProgramId in r.cols &&
        Cell(r, i, Level) == (if IsHomework(Cell(g, i, Group)) then Str("Tier1") else Str("Tier2")) &&
        Cell(r, i, Weeks) == (if IsSelOrAttendance(Cell(g, i, Group)) then Int(8) else ZeroIfNull(Cell(g, i, Weeks))) &&
        Cell(r, i, Duration) == ZeroIfNull(Cell(g, i, Duration)) &&
        Cell(r, i, Group) == Cell(g, i, Group) &&
        Cell(r, i, ProgramId) == Cell(g, i, ProgramId))
  {
    var g := DedupOn(f, ProgramId).value;
    var g2 := ProgramFilled(g).value;
    assert |ProgramLevels(g2).value.rows| == |g2.rows| by {
      var g3 := SetConst(g2, Level, Str("Tier2"));
    }
    if i < |g.rows| {
      ProgramFilledCells(g, i, Group);
      ProgramFilledCells(g, i, ProgramId);
      ProgramLevelsCells(g2, i, Group);
      ProgramLevelsCells(g2, i, ProgramId);
      ProgramLevelsCells(g2, i, Duration);
    }
  }

  /** `drop_duplicates(c)` leaves one row per value of `c`: the values are distinct
      and are exactly the values of the input, in order of first appearance. */
  lemma DedupOnKeys(f: Frame, c: string)
    requires WellFormed(f) && c in f.cols
    ensures var g := DedupOn(f, c).value;
      var k := ColIndex(f.cols, c).value;
      KeysAt(g.rows, k) == Unique(KeysAt(f.rows, k)) &&
      forall i, j :: 0 <= i < j < |g.rows| ==> Cell(g, i, c) != Cell(g, j, c)
  {
    var g := DedupOn(f, c).value;
    var k := ColIndex(f.cols, c).value;
    FirstByKeyKeys(f.rows, k);
    forall i, j | 0 <= i < j < |g.rows|
      ensures Cell(g, i, c) != Cell(g, j, c)
    {
      assert KeysAt(g.rows, k)[i] == Cell(g, i, c) && KeysAt(g.rows, k)[j] == Cell(g, j, c);
    }
  }

  function NotNull(v: Value): bool
  {
    v != Null
  }

  /** The ATTENDANCE file: rows with a date, exact duplicates removed. */
  function AttendanceTable(f: Frame): Result<Frame>
    requires WellFormed(f)
  {
    match KeepWhere(f, AttendanceDate, NotNull)
    case Err(e) => Err(e)
    case Ok(g) => Ok(DedupRows(g))
  }

  /** ATTENDANCE holds each dated input row exactly once and nothing else. */
  lemma AttendanceTableRows(f: Frame, x: seq<Value>)
    requires WellFormed(f)
    ensures AttendanceTable(f).Err? <==> AttendanceDate !in f.cols
    ensures AttendanceTable(f).Ok? ==> var r := AttendanceTable(f).value;
      Distinct(r.rows) && r.cols == f.cols &&
      (x in r.rows <==> x in f.rows && x[ColIndex(f.cols, AttendanceDate).value] != Null)
  {
  }

  /** `str.slice(0, 50)`: text is cut to 50 characters; other cells become missing. */
  function Cut50(v: Value): Value
  {
    if v.Str? then Str(v.s[..if |v.s| < 50 then |v.s| else 50]) else Null
  }

  /** The MEMBERSHIP file: one row per membership id, exit reasons cut to 50 characters. */
  function MembershipTable(f: Frame): Result<Frame>
    requires WellFormed(f)
  {
    match DedupOn(f, MembershipId)
    case Err(e) => Err(e)
    case Ok(g) => MapColumn(g, ExitReasons, Cut50)
  }

  /** Each MEMBERSHIP exit reason is a prefix of the de-duplicated one, at most 50
      characters long, and the whole text when it was shorter. */
  lemma MembershipTableRows(f: Frame, i: nat)
    requires WellFormed(f) && MembershipTable(f).Ok?
    ensures MembershipId in f.cols
    ensures var g := DedupOn(f, MembershipId).value;
      var r := MembershipTable(f).value;
      |r.rows| == |g.rows| && r.cols == f.cols && ExitReasons in f.cols &&
      (i < |g.rows| ==>
        var before := Cell(g, i, ExitReasons);
        var after := Cell(r, i, ExitReasons);
        (before.Str? ==> (after.Str? && |after.s| <= 50 && before.s[..|after.s|] == after.s &&
          (|before.s| <= 50 ==> after == before))) &&
        (!before.Str? ==> after == Null))
  {
  }

  /** The PARTICIPANT file: one row per participant id. */
  function ParticipantTable(f: Frame): Result<Frame>
    requires WellFormed(f)
  {
    DedupOn(f, ParticipantId)
  }

  /** The FACILITY file: rows with no missing cell, then one row per facility id. */
  function FacilityTable(f: Frame): Result<Frame>
    requires WellFormed(f)
  {
    DedupOn(DropNa(f), FacilityId)
  }

  /** FACILITY rows are input rows without missing cells, with distinct facility ids. */
  lemma FacilityTableRows(f: Frame)
    requires WellFormed(f) && FacilityId in f.cols
    ensures var r := FacilityTable(f).value;
      (forall x :: x in r.rows ==> x in f.rows && NoNull(x)) &&
      forall i, j :: 0 <= i < j < |r.rows| ==> Cell(r, i, FacilityId) != Cell(r, j, FacilityId)
  {
    DedupOnKeys(DropNa(f), FacilityId);
  }

  /** The five files `parse_omni_df` returns. */
  datatype OmniTables = OmniTables(program: Frame, attendance: Frame, membership: Frame, participant: Frame, facility: Frame)

  /** `convert_table` and the cleaning of each file, in the source's order; the
      first exception ends the run. */
  function ParseOmni(all: Frame, dict: seq<DictRow>): (r: Result<OmniTables>)
    requires WellFormed(all)
    ensures r.Ok? ==> ConvertSpec(all, "PROGRAM", dict).Ok? && ProgramTable(ConvertSpec(all, "PROGRAM", dict).value) == Ok(r.value.program)
    ensures r.Ok? ==> ConvertSpec(all, "ATTENDANCE", dict).Ok? && AttendanceTable(ConvertSpec(all, "ATTENDANCE", dict).value) == Ok(r.value.attendance)
    ensures r.Ok? ==> ConvertSpec(all, "MEMBERSHIP", dict).Ok? && MembershipTable(ConvertSpec(all, "MEMBERSHIP", dict).value) == Ok(r.value.membership)
    ensures r.Ok? ==> ConvertSpec(all, "PARTICIPANT", dict).Ok? && ParticipantTable(ConvertSpec(all, "PARTICIPANT", dict).value) == Ok(r.value.participant)
    ensures r.Ok? ==> ConvertSpec(all, "FACILITY", dict).Ok? && FacilityTable(ConvertSpec(all, "FACILITY", dict).value) == Ok(r.value.facility)
  {
    match ConvertSpec(all, "PROGRAM", dict)
    case Err(e) => Err(e)
    case Ok(p0) =>
      match ProgramTable(p0)
      case Err(e) => Err(e)
      case Ok(program) =>
        match ConvertSpec(all, "ATTENDANCE", dict)
        case Err(e) => Err(e)
        case Ok(a0) =>
          match AttendanceTable(a0)
          case Err(e) => Err(e)
          case Ok(attendance) =>
            match ConvertSpec(all, "MEMBERSHIP", dict)
            case Err(e) => Err(e)
            case Ok(m0) =>
              match MembershipTable(m0)
              case Err(e) => Err(e)
              case Ok(membership) =>
                match ConvertSpec(all, "PARTICIPANT", dict)
                case Err(e) => Err(e)
                case Ok(q0) =>
                  match ParticipantTable(q0)
                  case Err(e) => Err(e)
                  case Ok(participant) =>
                    match ConvertSpec(all, "FACILITY", dict)
                    case Err(e) => Err(e)
                    case Ok(f0) =>
                      match FacilityTable(f0)
                      case Err(e) => Err(e)
                      case Ok(facility) => Ok(OmniTables(program, attendance, membership, participant, facility))
  }

  // ---------------------------------------------------------------- load_omni_df

  /** The five programs the share covers. */
  const OmniPrograms: seq<string> :=
    ["Coaching: Attendance", "Tutoring: Math", "Tutoring: Literacy", "Homework Assistance", "SEL Check In Check Out"]

  /** `isin(sections)`: a missing program is not in the list. */
  function InOmniPrograms(v: Value): bool
  {
    v.Str? && v.s in OmniPrograms
  }

  /** `all_df.loc[all_df['Program'].isin(sections)]`. */
  function SectionsOfInterest(all: Frame): Result<Frame>
    requires WellFormed(all)
  {
    KeepWhere(all, "Program", InOmniPrograms)
  }

  /** A merged row enters the share exactly when its program is one of the five. */
  lemma SectionsOfInterestRows(all: Frame, x: seq<Value>)
    requires WellFormed(all) && "Program" in all.cols && |x| == |all.cols|
    ensures SectionsOfInterest(all).Ok?
    ensures var p := x[ColIndex(all.cols, "Program").value];
      (x in SectionsOfInterest(all).value.rows <==>
        x in all.rows &&
        (p == Str("Coaching: Attendance") || p == Str("Tutoring: Math") || p == Str("Tutoring: Literacy") ||
         p == Str("Homework Assistance") || p == Str("SEL Check In Check Out")))
  {
  }

  /** `replace({0: np.nan})`. */
  function ZeroToNull(v: Value): Value
  {
    if v == Int(0) then Null else v
  }

  /** A section's target dosage goal of 0 becomes missing. */
  function BlankZeroDosage(section: Frame): Result<Frame>
    requires WellFormed(section)
  {
    MapColumn(section, "Target_Dosage_Section_Goal__c", ZeroToNull)
  }

  /** No goal of 0 remains, and every other goal is kept. */
  lemma BlankZeroDosageCells(section: Frame, i: nat)
    requires WellFormed(section) && "Target_Dosage_Section_Goal__c" in section.cols && i < |section.rows|
    ensures BlankZeroDosage(section).Ok?
    ensures var c := "Target_Dosage_Section_Goal__c";
      var before := Cell(section, i, c);
      var after := Cell(BlankZeroDosage(section).value, i, c);
      after != Int(0) && (before != Int(0) ==> after == before) && (before == Int(0) ==> after == Null)
  {
  }
}
