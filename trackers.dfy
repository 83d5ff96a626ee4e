/** The school-team trackers: where each tracker file lives, the ACM list of a
    validation sheet, the ACM sheets and rollup of a coaching log, the section
    enrollment table behind the weekly service tracker and the capacity-bounded
    pages of one ACM's tracker. */
module Trackers {
  import opened Base
  import opened Strings
  import opened Seqs
  import opened Sorting
  import opened SimpleCysh
  import opened Sheets

  // ---------------------------------------------------------------- tracker paths

  /** A file path: the root directory, a folder below it and the file name. */
  datatype TrackerPath = TrackerPath(root: string, folder: string, file: string)

  /** The four tracker kinds, with the defaults each class passes to `Tracker`. */
  datatype TrackerKind = AttendanceTracker | LeadershipTracker | CoachingLog | WeeklyServiceTracker

  function KindName(k: TrackerKind): string
  {
    match k
    case AttendanceTracker => "Attendance Tracker"
    case LeadershipTracker => "Leadership Tracker"
    case CoachingLog => "Coaching Log"
    case WeeklyServiceTracker => "Weekly Service Tracker"
  }

  function KindFolder(k: TrackerKind): string
  {
    if k == AttendanceTracker || k == WeeklyServiceTracker then "Team Documents" else "Leadership Team Documents"
  }

  function KindFileType(k: TrackerKind): string
  {
    if k == WeeklyServiceTracker then ".pdf" else ".xlsx"
  }

  /** The `tracker_path` of a school: the temporary folder in test mode and
      `Z:/` otherwise, then `"{informal} {folder}"`, then
      `"{year} {kind} - {informal}{filetype}"`. */
  function MakeTrackerPath(test: bool, tempPath: string, year: string, kind: string, folder: string,
                           filetype: string, informal: string): (p: TrackerPath)
    ensures p.root == (if test then tempPath else "Z:/")
    ensures EndsWith(p.folder, " " + folder) && informal <= p.folder
  {
    var dir := informal + " " + folder;
    assert dir[|dir| - |" " + folder|..] == " " + folder;
    TrackerPath(if test then tempPath else "Z:/", dir, year + " " + kind + " - " + informal + filetype)
  }

  predicate EndsWith(s: string, suffix: string)
  {
    |suffix| <= |s| && s[|s| - |suffix|..] == suffix
  }

  /** The template a tracker is deployed from. */
  function TemplateFile(year: string, kind: string): string
  {
    year + " " + kind + " Template.xlsx"
  }

  /** The index of the last `c` in `s`. */
  function LastIndex(s: string, c: char): (k: Option<nat>)
    ensures k.Some? ==> k.value < |s| && s[k.value] == c && c !in s[k.value + 1..]
    ensures k.None? ==> c !in s
  {
    if |s| == 0 then None
    else if s[|s| - 1] == c then Some(|s| - 1)
    else
      var k := LastIndex(s[..|s| - 1], c);
      if k.Some? then
        assert s[k.value + 1..] == s[..|s| - 1][k.value + 1..] + [s[|s| - 1]];
        k
      else
        assert s == s[..|s| - 1] + [s[|s| - 1]];
        None
  }

  /** `Path.stem` of a file name: the name without its last suffix; a leading dot
      or a trailing dot does not start a suffix. */
  function Stem(name: string): string
  {
    var k := LastIndex(name, '.');
    if k.Some? && 0 < k.value < |name| - 1 then name[..k.value] else name
  }

  /** The title written to a deployed tracker is its file name without the file type. */
  lemma TrackerStem(test: bool, tempPath: string, year: string, kind: string, folder: string,
                    ext: string, informal: string)
    requires |ext| > 0 && '.' !in ext
    ensures Stem(MakeTrackerPath(test, tempPath, year, kind, folder, "." + ext, informal).file) ==
      year + " " + kind + " - " + informal
  {
    var base := year + " " + kind + " - " + informal;
    var name := base + "." + ext;
    assert name == MakeTrackerPath(test, tempPath, year, kind, folder, "." + ext, informal).file;
    assert name[|base|] == '.';
    assert |base| >= 3;
    assert name[|base| + 1..] == ext;
    assert name[..|base|] == base;
  }

  /** Different schools get different tracker folders. */
  lemma TrackerPathsDistinct(test: bool, tempPath: string, year: string, kind: string, folder: string,
                             filetype: string, informal1: string, informal2: string)
    requires informal1 != informal2
    ensures MakeTrackerPath(test, tempPath, year, kind, folder, filetype, informal1) !=
      MakeTrackerPath(test, tempPath, year, kind, folder, filetype, informal2)
  {
  }

  // ---------------------------------------------------------------- _get_staff_df

  /** The roles `_get_staff_df` asks for. */
  const TrackerRoles: seq<string> := ["Corps Member", "Second Year Corps Member", "Senior Corps Team Leader"]

  /** `first + " " + last.astype(str).str[0] + "."`: a missing first name gives a
      missing result; a missing last name, a null in the query's object column,
      becomes the text "None", so its initial is 'N' ("Ann N."); an empty last
      name has no first character, which gives a missing result. */
  function DisplayName(first: Option<string>, last: Option<string>): (r: Option<string>)
    ensures r.Some? <==> first.Some? && last != Some("")
    ensures r.Some? ==> r.value == first.value + " " + [if last.None? then 'N' else last.value[0]] + "."
  {
    if first.None? then None
    else if last.None? then Some(first.value + " N.")
    else if last.value == "" then None
    else Some(first.value + " " + [last.value[0]] + ".")
  }

  /** A row of an ACM validation sheet: `Individual__c`, the display name and `Staff__c_Name`. */
  datatype ValidationRow = ValidationRow(individual: Option<string>, display: Option<string>, staffName: string)

  function ValidationRowOf(r: StaffRow): ValidationRow
  {
    ValidationRow(r.staff.individual, DisplayName(r.staff.firstName, r.staff.lastName), r.staff.name)
  }

  function DisplayKey(v: ValidationRow): (k: seq<Cell>)
    ensures |k| == 1
  {
    [OptText(v.display)]
  }

  /** The staff of one school with the three roles, with the evidently intended
      filter of `get_staff_df(schools=..., roles=...)`. */
  function TrackerStaffRows(accounts: seq<Account>, staff: seq<StaffRec>, school: string): seq<StaffRow>
  {
    FilterStaff(StaffTable(accounts, staff), Some(TrackerRoles), Some([school]))
  }

  /** `_get_staff_df`: the school's staff as validation rows, sorted by display
      name with missing names last. */
  function TrackerStaff(accounts: seq<Account>, staff: seq<StaffRec>, school: string): (r: seq<ValidationRow>)
    ensures Sorted(r, DisplayKey)
    ensures multiset(r) == multiset(Map(TrackerStaffRows(accounts, staff, school), ValidationRowOf))
  {
    SortBy(Map(TrackerStaffRows(accounts, staff, school), ValidationRowOf), DisplayKey, 1)
  }

  /** A validation row lists exactly a staff member of the school with one of the three roles. */
  lemma TrackerStaffMembers(accounts: seq<Account>, staff: seq<StaffRec>, school: string, v: ValidationRow)
    ensures v in TrackerStaff(accounts, staff, school) <==>
      exists r :: r in StaffTable(accounts, staff) && r.staff.role.Some? && r.staff.role.value in TrackerRoles &&
        r.school == Some(school) && v == ValidationRowOf(r)
  {
    var rows := TrackerStaffRows(accounts, staff, school);
    var m := Map(rows, ValidationRowOf);
    SameMembers(TrackerStaff(accounts, staff, school), m, v);
    if v in m {
      var k := MapSource(rows, ValidationRowOf, v);
      assert rows[k] in rows;
      FilterStaffMembers(StaffTable(accounts, staff), Some(TrackerRoles), Some([school]), rows[k]);
    }
    if exists r :: r in StaffTable(accounts, staff) && r.staff.role.Some? && r.staff.role.value in TrackerRoles &&
        r.school == Some(school) && v == ValidationRowOf(r) {
      var r :| r in StaffTable(accounts, staff) && r.staff.role.Some? && r.staff.role.value in TrackerRoles &&
        r.school == Some(school) && v == ValidationRowOf(r);
      FilterStaffMembers(StaffTable(accounts, staff), Some(TrackerRoles), Some([school]), r);
      var k := FirstIndex(rows, r);
      MapHas(rows, ValidationRowOf, k);
    }
  }

  // ---------------------------------------------------------------- CoachingLog ACM sheets

  const DevMap: string := "Dev Map"
  const AcmTemplate: string := "ACM Template"
  const AcmValidation: string := "ACM Validation"
  const AcmRollup: string := "ACM Rollup"

  /** The name Excel gives the copy of the template. */
  const CopyName: string := "ACM Template (2)"

  /** The sheets, A1 values and error after some rows of the sheet-add loop. */
  datatype AddState = AddState(sheets: seq<string>, a1: map<string, string>, err: Option<Exc>)

  /** One row of the loop: a display name whose lower-case form was not among
      the lower-cased sheet names read before the loop gets a copy of the
      template, inserted before Dev Map and renamed to it, with the staff name in A1.
      A missing display name has no `lower` (AttributeError); a name another sheet
      has already is refused by Excel, leaving the copy under its default name. */
  function AddStep(st: AddState, r: ValidationRow, lowerOld: seq<string>): (next: AddState)
    ensures st.err.Some? ==> next == st
    ensures |next.sheets| == |st.sheets| ==> next.sheets == st.sheets && next.a1 == st.a1
    ensures |next.sheets| != |st.sheets| ==> |next.sheets| == |st.sheets| + 1 && st.err.None?
    ensures st.err.None? && next.err.None? && |next.sheets| != |st.sheets| ==>
      r.display.Some? && Lower(r.display.value) !in Map(st.sheets, Lower) && r.display.value in next.sheets &&
      next.a1 == st.a1[r.display.value := r.staffName]
  {
    if st.err.Some? then st
    else if r.display.None? then st.(err := Some(AttributeError))
    else if Lower(r.display.value) in lowerOld then st
    else if DevMap !in st.sheets then st.(err := Some(KeyError(DevMap)))
    else
      var d := FirstIndex(st.sheets, DevMap);
      if Lower(r.display.value) in Map(st.sheets, Lower) then
        AddState(st.sheets[..d] + [CopyName] + st.sheets[d..], st.a1, Some(ComError))
      else
        AddState(st.sheets[..d] + [r.display.value] + st.sheets[d..], st.a1[r.display.value := r.staffName], None)
  }

  /** The first `n` rows of the loop: the workbook never loses a sheet and gains
      at most one per row, and an exception raised before the loop stops it at once. */
  function AddUpTo(st0: AddState, rows: seq<ValidationRow>, lowerOld: seq<string>, n: nat): (st: AddState)
    requires n <= |rows|
    ensures st0.err.Some? ==> st == st0
    ensures |st0.sheets| <= |st.sheets| <= |st0.sheets| + n
  {
    if n == 0 then st0 else AddStep(AddUpTo(st0, rows, lowerOld, n - 1), rows[n - 1], lowerOld)
  }

  lemma {:induction false} AddStopped(st0: AddState, rows: seq<ValidationRow>, lowerOld: seq<string>, k: nat, n: nat)
    requires k <= n <= |rows| && AddUpTo(st0, rows, lowerOld, k).err.Some?
    ensures AddUpTo(st0, rows, lowerOld, n) == AddUpTo(st0, rows, lowerOld, k)
  {
    if n > k {
      AddStopped(st0, rows, lowerOld, k, n - 1);
    }
  }

  /** A row whose display name is new to the workbook. */
  predicate NewName(r: ValidationRow, lowerOld: seq<string>)
  {
    r.display.Some? && Lower(r.display.value) !in lowerOld
  }

  function NewRows(rows: seq<ValidationRow>, lowerOld: seq<string>): seq<ValidationRow>
  {
    Filter(rows, (r: ValidationRow) => NewName(r, lowerOld))
  }

  function DisplayOf(r: ValidationRow): string
  {
    r.display.GetOr("")
  }

  /** No two rows have display names equal up to case. */
  predicate LowerDistinct(rs: seq<ValidationRow>)
  {
    forall i, j :: 0 <= i < j < |rs| ==> Lower(DisplayOf(rs[i])) != Lower(DisplayOf(rs[j]))
  }

  predicate AllNamed(rows: seq<ValidationRow>)
  {
    forall i :: 0 <= i < |rows| ==> rows[i].display.Some?
  }

  lemma NewRowsSnoc(rows: seq<ValidationRow>, lowerOld: seq<string>, n: nat)
    requires 0 < n <= |rows|
    ensures NewRows(rows[..n], lowerOld) ==
      NewRows(rows[..n - 1], lowerOld) + (if NewName(rows[n - 1], lowerOld) then [rows[n - 1]] else [])
  {
    assert rows[..n] == rows[..n - 1] + [rows[n - 1]];
    FilterConcat(rows[..n - 1], [rows[n - 1]], (r: ValidationRow) => NewName(r, lowerOld));
    assert [rows[n - 1]][1..] == [];
  }

  /** Inserting a name that is new up to case (`key`) just before a marker
      sheet, after names already inserted there. */
  lemma InsertBeforeMarker(s0: seq<string>, ds: seq<string>, x: string, marker: string, key: string -> string)
    requires marker in s0
    requires forall k :: 0 <= k < |ds| ==> key(ds[k]) !in Map(s0, key) && key(ds[k]) != key(x)
    requires key(x) !in Map(s0, key)
    ensures var d := FirstIndex(s0, marker);
      var sh := s0[..d] + ds + s0[d..];
      marker in sh && FirstIndex(sh, marker) == d + |ds| && key(x) !in Map(sh, key) &&
      sh[..d + |ds|] + [x] + sh[d + |ds|..] == s0[..d] + (ds + [x]) + s0[d..]
  {
    var d := FirstIndex(s0, marker);
    var sh := s0[..d] + ds + s0[d..];
    assert key(marker) in Map(s0, key) by {
      assert Map(s0, key)[d] == key(marker);
    }
    MarkerAfterInserted(s0, ds, marker, key, d, sh);
    InsertedKeyFresh(s0, ds, x, key, d, sh);
    InsertAtSeam(s0[..d], ds, s0[d..], x);
  }

  /** Inserting names that are not the marker just before it moves it by their number. */
  lemma MarkerAfterInserted(s0: seq<string>, ds: seq<string>, marker: string, key: string -> string, d: nat, sh: seq<string>)
    requires marker in s0 && d == FirstIndex(s0, marker)
    requires forall k :: 0 <= k < |ds| ==> key(ds[k]) != key(marker)
    requires sh == s0[..d] + ds + s0[d..]
    ensures marker in sh && FirstIndex(sh, marker) == d + |ds|
  {
    assert sh[d + |ds|] == marker;
    var pre := sh[..d + |ds|];
    forall k | 0 <= k < |pre|
      ensures pre[k] != marker
    {
      if k < d {
        assert sh[k] == s0[..d][k];
      } else {
        assert sh[k] == ds[k - d];
      }
    }
    FirstIndexAt(sh, marker, d + |ds|);
  }

  /** A key found neither in the old names nor among the inserted ones is not in the result. */
  lemma InsertedKeyFresh(s0: seq<string>, ds: seq<string>, x: string, key: string -> string, d: nat, sh: seq<string>)
    requires d <= |s0|
    requires forall k :: 0 <= k < |ds| ==> key(ds[k]) != key(x)
    requires key(x) !in Map(s0, key)
    requires sh == s0[..d] + ds + s0[d..]
    ensures key(x) !in Map(sh, key)
  {
    forall k | 0 <= k < |sh|
      ensures Map(sh, key)[k] != key(x)
    {
      if k < d {
        assert sh[k] == s0[k] && Map(s0, key)[k] == key(s0[k]);
      } else if k < d + |ds| {
        assert sh[k] == ds[k - d];
      } else {
        assert sh[k] == s0[k - |ds|] && Map(s0, key)[k - |ds|] == key(s0[k - |ds|]);
      }
    }
  }

  /** A named row new to the workbook, with Dev Map present and its name not
      already a sheet's up to case, inserts the name just before Dev Map. */
  lemma AddStepInserts(st: AddState, r: ValidationRow, lowerOld: seq<string>)
    requires st.err.None? && NewName(r, lowerOld) && DevMap in st.sheets
    requires Lower(r.display.value) !in Map(st.sheets, Lower)
    ensures var d := FirstIndex(st.sheets, DevMap);
      AddStep(st, r, lowerOld).err.None? &&
      AddStep(st, r, lowerOld).sheets == st.sheets[..d] + [r.display.value] + st.sheets[d..]
  {
  }

  /** The sheets after `n` rows are the old ones with the new names of those
      rows inserted just before Dev Map, and no error. */
  predicate InsertedSoFar(s0: seq<string>, a10: map<string, string>, rows: seq<ValidationRow>, n: nat)
    requires n <= |rows| && DevMap in s0
  {
    var st := AddUpTo(AddState(s0, a10, None), rows, Map(s0, Lower), n);
    var d := FirstIndex(s0, DevMap);
    st.err.None? && st.sheets == s0[..d] + Map(NewRows(rows[..n], Map(s0, Lower)), DisplayOf) + s0[d..]
  }

  /** One more row with a new name keeps the closed form. */
  lemma InsertedNext(s0: seq<string>, a10: map<string, string>, rows: seq<ValidationRow>, n: nat)
    requires 0 < n <= |rows| && DevMap in s0 && NewName(rows[n - 1], Map(s0, Lower))
    requires LowerDistinct(NewRows(rows[..n], Map(s0, Lower)))
    requires InsertedSoFar(s0, a10, rows, n - 1)
    ensures InsertedSoFar(s0, a10, rows, n)
  {
    var lowerOld := Map(s0, Lower);
    var d := FirstIndex(s0, DevMap);
    NewRowsSnoc(rows, lowerOld, n);
    var prev := NewRows(rows[..n - 1], lowerOld);
    var cur := NewRows(rows[..n], lowerOld);
    var st := AddUpTo(AddState(s0, a10, None), rows, lowerOld, n - 1);
    var r := rows[n - 1];
    assert cur == prev + [r];
    var ds := Map(prev, DisplayOf);
    var x := r.display.value;
    forall k | 0 <= k < |ds|
      ensures Lower(ds[k]) !in lowerOld && Lower(ds[k]) != Lower(x)
    {
      assert NewName(prev[k], lowerOld);
      assert cur[k] == prev[k] && cur[|prev|] == r;
    }
    assert st.sheets == s0[..d] + ds + s0[d..];
    InsertBeforeMarker(s0, ds, x, DevMap, Lower);
    AddStepInserts(st, r, lowerOld);
    MapSnoc(prev, r, DisplayOf);
  }

  lemma LowerDistinctPrefix(rows: seq<ValidationRow>, lowerOld: seq<string>, n: nat)
    requires 0 < n <= |rows| && LowerDistinct(NewRows(rows[..n], lowerOld))
    ensures LowerDistinct(NewRows(rows[..n - 1], lowerOld))
  {
    NewRowsSnoc(rows, lowerOld, n);
    var prev := NewRows(rows[..n - 1], lowerOld);
    var cur := NewRows(rows[..n], lowerOld);
    forall i, j | 0 <= i < j < |prev|
      ensures Lower(DisplayOf(prev[i])) != Lower(DisplayOf(prev[j]))
    {
      assert prev[i] == cur[i] && prev[j] == cur[j];
    }
  }

  lemma {:induction false} InsertedUpTo(s0: seq<string>, a10: map<string, string>, rows: seq<ValidationRow>, n: nat)
    requires n <= |rows| && DevMap in s0 && AllNamed(rows)
    requires LowerDistinct(NewRows(rows[..n], Map(s0, Lower)))
    ensures InsertedSoFar(s0, a10, rows, n)
  {
    if n == 0 {
      var d := FirstIndex(s0, DevMap);
      assert rows[..0] == [];
      assert s0 == s0[..d] + s0[d..];
    } else {
      LowerDistinctPrefix(rows, Map(s0, Lower), n);
      InsertedUpTo(s0, a10, rows, n - 1);
      assert rows[n - 1].display.Some?;
      if NewName(rows[n - 1], Map(s0, Lower)) {
        InsertedNext(s0, a10, rows, n);
      } else {
        InsertedSkip(s0, a10, rows, n);
      }
    }
  }

  /** A row whose name the workbook had already adds nothing. */
  lemma InsertedSkip(s0: seq<string>, a10: map<string, string>, rows: seq<ValidationRow>, n: nat)
    requires 0 < n <= |rows| && DevMap in s0 && rows[n - 1].display.Some?
    requires !NewName(rows[n - 1], Map(s0, Lower))
    requires InsertedSoFar(s0, a10, rows, n - 1)
    ensures InsertedSoFar(s0, a10, rows, n)
  {
    NewRowsSnoc(rows, Map(s0, Lower), n);
    var st := AddUpTo(AddState(s0, a10, None), rows, Map(s0, Lower), n - 1);
    assert AddUpTo(AddState(s0, a10, None), rows, Map(s0, Lower), n) == st;
  }

  /** When every row has a display name and the new names differ up to case, the
      loop inserts exactly the new names, in staff order, just before Dev Map,
      and keeps every existing sheet. */
  lemma AddUpToClosedForm(s0: seq<string>, a10: map<string, string>, rows: seq<ValidationRow>, n: nat)
    requires n <= |rows| && DevMap in s0 && AllNamed(rows)
    requires LowerDistinct(NewRows(rows[..n], Map(s0, Lower)))
    ensures var st := AddUpTo(AddState(s0, a10, None), rows, Map(s0, Lower), n);
      var d := FirstIndex(s0, DevMap);
      st.err.None? && st.sheets == s0[..d] + Map(NewRows(rows[..n], Map(s0, Lower)), DisplayOf) + s0[d..]
  {
    InsertedUpTo(s0, a10, rows, n);
  }

  /** The sheets the rollup does not treat as ACM sheets: the coaching log's own
      sheets and Excel's default names Sheet1 to Sheet8. */
  const TrackerSkip: seq<string> :=
    [DevMap, "Dev Tracker", AcmTemplate, AcmValidation, AcmRollup, "Calendar Validation", "Log Validation"] +
    seq(8, k requires 0 <= k < 8 => "Sheet" + NatToString(k + 1))

  /** `CoachingLog._fill_acm_rollup_sheet`: the header, the lookup down A2:A3002,
      then one 300-row block per ACM sheet, the row counter advancing by 300. */
  method FillAcmRollupSheet(sheets: seq<string>) returns (err: Option<Exc>, ws: seq<Write>)
    ensures AcmRollup !in sheets ==> err == Some(KeyError(AcmRollup)) && ws == []
    ensures AcmRollup in sheets ==> err.None? && ws == RollupWrites(sheets, TrackerSkip, 3002)
  {
    if AcmRollup !in sheets {
      return Some(KeyError(AcmRollup)), [];
    }
    ws := FillRollup(AcmSheets(sheets, TrackerSkip), 3002);
    err := None;
  }

  /** The A1 values once the ACM Validation sheet is cleared and the staff table
      is written at its A1 without a header: A1 holds the first row's
      `Individual__c`, and is empty (no entry) when there is no row or that value
      is missing. No other sheet's A1 changes. */
  function ValidationWritten(a1: map<string, string>, rows: seq<ValidationRow>): (r: map<string, string>)
    ensures AcmValidation in r <==> |rows| > 0 && rows[0].individual.Some?
    ensures AcmValidation in r ==> r[AcmValidation] == rows[0].individual.value
    ensures forall n :: n != AcmValidation ==> (n in r <==> n in a1)
    ensures forall n :: n != AcmValidation && n in a1 ==> r[n] == a1[n]
  {
    if |rows| > 0 && rows[0].individual.Some? then a1[AcmValidation := rows[0].individual.value]
    else a1 - {AcmValidation}
  }

  /** `range('A1,A3:J300').clear_contents()` on the template empties its A1, so
      every copy of it starts with an empty A1. */
  function TemplateCleared(a1: map<string, string>): (r: map<string, string>)
    ensures AcmTemplate !in r
    ensures forall n :: n != AcmTemplate ==> (n in r <==> n in a1)
    ensures forall n :: n != AcmTemplate && n in a1 ==> r[n] == a1[n]
  {
    a1 - {AcmTemplate}
  }

  /** `CoachingLog.update_one_acm_validation_sheet` on an open workbook: the
      staff table is written to the ACM Validation sheet, the template's A1 is
      cleared, the ACM sheets are added row by row, then the rollup is filled.
      A missing ACM Validation sheet raises before anything is written; a
      missing template raises after the staff table is written. */
  method UpdateAcmValidationSheet(wb: Workbook, rows: seq<ValidationRow>) returns (err: Option<Exc>, rollup: seq<Write>)
    modifies wb
    ensures AcmValidation !in old(wb.sheets) ==>
      err == Some(KeyError(AcmValidation)) && wb.sheets == old(wb.sheets) && wb.a1 == old(wb.a1) && rollup == []
    ensures AcmValidation in old(wb.sheets) && AcmTemplate !in old(wb.sheets) ==>
      err == Some(KeyError(AcmTemplate)) && wb.sheets == old(wb.sheets) &&
      wb.a1 == ValidationWritten(old(wb.a1), rows) && rollup == []
    ensures AcmValidation in old(wb.sheets) && AcmTemplate in old(wb.sheets) ==>
      var a10 := TemplateCleared(ValidationWritten(old(wb.a1), rows));
      var st := AddUpTo(AddState(old(wb.sheets), a10, None), rows, Map(old(wb.sheets), Lower), |rows|);
      wb.sheets == st.sheets && wb.a1 == st.a1 &&
      (st.err.Some? ==> err == st.err && rollup == []) &&
      (st.err.None? && AcmRollup in st.sheets ==> err.None? && rollup == RollupWrites(st.sheets, TrackerSkip, 3002)) &&
      (st.err.None? && AcmRollup !in st.sheets ==> err == Some(KeyError(AcmRollup)) && rollup == [])
  {
    rollup := [];
    if AcmValidation !in wb.sheets {
      return Some(KeyError(AcmValidation)), rollup;
    }
    wb.a1 := ValidationWritten(wb.a1, rows);
    if AcmTemplate !in wb.sheets {
      return Some(KeyError(AcmTemplate)), rollup;
    }
    wb.a1 := TemplateCleared(wb.a1);
    ghost var st0 := AddState(wb.sheets, wb.a1, None);
    var lowerOld := Map(wb.sheets, Lower);
    var i := 0;
    err := None;
    while i < |rows| && err.None?
      invariant 0 <= i <= |rows|
      invariant AddUpTo(st0, rows, lowerOld, i) == AddState(wb.sheets, wb.a1, err)
    {
      var r := rows[i];
      if r.display.None? {
        err := Some(AttributeError);
      } else if Lower(r.display.value) !in lowerOld {
        if DevMap !in wb.sheets {
          err := Some(KeyError(DevMap));
        } else {
          var d := FirstIndex(wb.sheets, DevMap);
          if Lower(r.display.value) in Map(wb.sheets, Lower) {
            wb.sheets := wb.sheets[..d] + [CopyName] + wb.sheets[d..];
            err := Some(ComError);
          } else {
            wb.sheets := wb.sheets[..d] + [r.display.value] + wb.sheets[d..];
            wb.a1 := wb.a1[r.display.value := r.staffName];
          }
        }
      }
      i := i + 1;
    }
    if i < |rows| {
      AddStopped(st0, rows, lowerOld, i, |rows|);
    }
    if err.None? {
      err, rollup := FillAcmRollupSheet(wb.sheets);
    }
  }

  /** As set up by the coaching log template, a new ACM sheet appears in the
      rollup: no display name of the form "first initial." is in the skip list. */
  lemma NewSheetInRollup(sheets: seq<string>, name: string)
    requires name in sheets && name !in TrackerSkip
    ensures name in AcmSheets(sheets, TrackerSkip)
  {
    AcmSheetsMembers(sheets, TrackerSkip, name);
  }

  // ---------------------------------------------------------------- the section enrollment table

  /** A row of `get_student_section_staff_df`, with the columns the table uses.
      Dosage is whole minutes; dates are day numbers. The grade is the CRM's
      text value of `Student_Grade__c`. */
  datatype Enrollment = Enrollment(
    studentProgram: Option<string>, dosage: Option<int>, active: Option<bool>, endDate: Option<int>,
    program: string, school: Option<string>, staff: Option<string>, grade: Option<string>, student: Option<string>)

  /** A row of the table: school, ACM, program, student and the text written to the tracker. */
  datatype TrackerRow = TrackerRow(school: Option<string>, staff: Option<string>, program: string,
                                   student: Option<string>, dosageText: string)

  predicate SameEnrollment(x: Enrollment, key: string)
  {
    x.studentProgram == Some(key)
  }

  function DosageOf(x: Enrollment): int
  {
    x.dosage.GetOr(0)
  }

  /** `groupby('Student_Program__c')['Dosage_to_Date__c'].sum()` joined back on the
      row: the sum over every row of the enrollment, missing dosages counting 0;
      a row with no enrollment id has no group, and `fillna(0)` makes it 0. */
  function DosageTotal(rows: seq<Enrollment>, r: Enrollment): (t: int)
    ensures r.studentProgram.None? ==> t == 0
    ensures (forall k :: 0 <= k < |rows| ==> DosageOf(rows[k]) >= 0) ==> t >= 0
  {
    if r.studentProgram.None? then 0
    else
      DosagesNonNegative(rows, r);
      Sum(Map(Filter(rows, (x: Enrollment) => SameEnrollment(x, r.studentProgram.value)), DosageOf))
  }

  lemma DosagesNonNegative(rows: seq<Enrollment>, r: Enrollment)
    requires r.studentProgram.Some?
    ensures (forall k :: 0 <= k < |rows| ==> DosageOf(rows[k]) >= 0) ==>
      Sum(Map(Filter(rows, (x: Enrollment) => SameEnrollment(x, r.studentProgram.value)), DosageOf)) >= 0
  {
    var g := Filter(rows, (x: Enrollment) => SameEnrollment(x, r.studentProgram.value));
    if forall k :: 0 <= k < |rows| ==> DosageOf(rows[k]) >= 0 {
      forall k | 0 <= k < |g|
        ensures DosageOf(g[k]) >= 0
      {
        FilterIn(rows, (x: Enrollment) => SameEnrollment(x, r.studentProgram.value), g[k]);
      }
      SumNonNegative(Map(g, DosageOf));
    }
  }

  /** `Active__c == True` and no enrollment end date. */
  predicate Current(r: Enrollment)
  {
    r.active == Some(true) && r.endDate.None?
  }

  /** The program names the tracker shows. */
  function ProgramLabel(p: string): (r: string)
    ensures p == "Tutoring: Math" ==> r == "Math"
    ensures p == "Tutoring: Literacy" ==> r == "ELA"
    ensures p != "Tutoring: Math" && p != "Tutoring: Literacy" ==> r == p
  {
    if p == "Tutoring: Math" then "Math" else if p == "Tutoring: Literacy" then "ELA" else p
  }

  /** A table row before the grade column is dropped. */
  datatype Graded = Graded(row: TrackerRow, grade: Option<string>)

  function GradedOf(rows: seq<Enrollment>, r: Enrollment): Graded
  {
    var shown := ProgramLabel(r.program);
    Graded(TrackerRow(r.school, r.staff, shown, r.student, IntToString(DosageTotal(rows, r)) + "\r\n" + shown), r.grade)
  }

  /** The sort key of the five columns; the grade is text, so it sorts by
      character code. */
  function EnrollmentKey(g: Graded): (k: seq<Cell>)
    ensures |k| == 5
  {
    [OptText(g.row.school), OptText(g.row.staff), Text(g.row.program), OptText(g.grade), OptText(g.row.student)]
  }

  /** Grades sort as text: in one ACM's program, a grade-10 student comes before
      a grade-9 one, whatever their names. */
  lemma GradeSortsAsText(row10: TrackerRow, row9: TrackerRow)
    requires row10.school == row9.school && row10.staff == row9.staff && row10.program == row9.program
    ensures KeyLe(EnrollmentKey(Graded(row10, Some("10"))), EnrollmentKey(Graded(row9, Some("9"))))
    ensures !KeyLe(EnrollmentKey(Graded(row9, Some("9"))), EnrollmentKey(Graded(row10, Some("10"))))
  {
    var k10 := EnrollmentKey(Graded(row10, Some("10")));
    var k9 := EnrollmentKey(Graded(row9, Some("9")));
    assert StrLe("10", "9") && "10" != "9";
    assert !StrLe("9", "10");
    assert CellLt(k10[3], k9[3]) && !CellLt(k9[3], k10[3]) && k9[3] != k10[3];
    assert KeyLe(k10[3..], k9[3..]) && !KeyLe(k9[3..], k10[3..]);
    assert k10[2..][1..] == k10[3..] && k9[2..][1..] == k9[3..];
    assert KeyLe(k10[2..], k9[2..]) && !KeyLe(k9[2..], k10[2..]);
    assert k10[1..][1..] == k10[2..] && k9[1..][1..] == k9[2..];
    assert KeyLe(k10[1..], k9[1..]) && !KeyLe(k9[1..], k10[1..]);
  }

  /** The current rows, labelled, with their totals. */
  function CurrentRows(rows: seq<Enrollment>): seq<Graded>
  {
    Map(Filter(rows, Current), (r: Enrollment) => GradedOf(rows, r))
  }

  /** The current rows sorted by school, ACM, program, grade and student. */
  function SortedEnrollment(rows: seq<Enrollment>): (r: seq<Graded>)
    ensures Sorted(r, EnrollmentKey)
    ensures multiset(r) == multiset(CurrentRows(rows))
  {
    SortBy(CurrentRows(rows), EnrollmentKey, 5)
  }

  function RowOf(g: Graded): TrackerRow
  {
    g.row
  }

  /** `_process_section_enrollment_table` (and `get_section_enrollment_table`):
      the five columns of the sorted current rows. */
  function EnrollmentTable(rows: seq<Enrollment>): (r: seq<TrackerRow>)
    ensures |r| == |Filter(rows, Current)|
  {
    var s := SortedEnrollment(rows);
    assert |s| == |multiset(s)| == |multiset(CurrentRows(rows))| == |CurrentRows(rows)|;
    Map(s, RowOf)
  }

  lemma CurrentRowsIn(rows: seq<Enrollment>, g: Graded)
    ensures g in CurrentRows(rows) <==> exists r :: r in rows && Current(r) && g == GradedOf(rows, r)
  {
    var f := Filter(rows, Current);
    var cur := CurrentRows(rows);
    if g in cur {
      var j := FirstIndex(cur, g);
      FilterIn(rows, Current, f[j]);
    }
    if exists r :: r in rows && Current(r) && g == GradedOf(rows, r) {
      var r :| r in rows && Current(r) && g == GradedOf(rows, r);
      FilterIn(rows, Current, r);
      var j := FirstIndex(f, r);
      assert cur[j] == g;
    }
  }

  /** The table holds exactly the current rows, each with the ACM's program
      label and the total dosage of its enrollment over all rows, active or not. */
  lemma EnrollmentTableMembers(rows: seq<Enrollment>, t: TrackerRow)
    ensures t in EnrollmentTable(rows) <==> exists r :: r in rows && Current(r) && t == GradedOf(rows, r).row
  {
    var s := SortedEnrollment(rows);
    var cur := CurrentRows(rows);
    if t in EnrollmentTable(rows) {
      var k :| 0 <= k < |s| && s[k].row == t;
      assert s[k] in multiset(s);
      CurrentRowsIn(rows, s[k]);
    }
    if exists r :: r in rows && Current(r) && t == GradedOf(rows, r).row {
      var r :| r in rows && Current(r) && t == GradedOf(rows, r).row;
      CurrentRowsIn(rows, GradedOf(rows, r));
      assert GradedOf(rows, r) in multiset(cur);
      var k := FirstIndex(s, GradedOf(rows, r));
      assert EnrollmentTable(rows)[k] == t;
    }
  }

  /** Dosage is summed before the filter: adding an inactive or ended row of an
      enrollment adds its dosage to the enrollment's total. */
  lemma DosageCountsEveryRow(rows: seq<Enrollment>, r: Enrollment, extra: Enrollment)
    requires r.studentProgram.Some? && extra.studentProgram == r.studentProgram
    ensures DosageTotal(rows + [extra], r) == DosageTotal(rows, r) + extra.dosage.GetOr(0)
  {
    var p := (x: Enrollment) => SameEnrollment(x, r.studentProgram.value);
    FilterConcat(rows, [extra], p);
    assert Filter([extra], p) == [extra] by {
      assert [extra][1..] == [];
    }
    var a := Map(Filter(rows, p), DosageOf);
    assert Map(Filter(rows, p) + [extra], DosageOf) == a + [DosageOf(extra)];
    SumConcat(a, [DosageOf(extra)]);
  }

  // ---------------------------------------------------------------- one ACM's tracker pages

  /** The capacity warnings `_fill_one_acm_wb` logs. */
  datatype Overflow = TooManyCp | TooManySel | TooManyAttendance

  /** What one ACM's tracker pages receive: the header, up to 12 Course
      Performance rows (student, dosage text), up to 6 SEL names, up to 3
      Attendance names in column B and 3 more in column F, and the warnings. */
  datatype AcmPages = AcmPages(header: string, cp: seq<(Option<string>, string)>, sel: seq<Option<string>>,
                               attendanceB: seq<Option<string>>, attendanceF: seq<Option<string>>,
                               warnings: set<Overflow>)

  predicate IsCourse(t: TrackerRow) { t.program == "Math" || t.program == "ELA" }
  predicate IsSel(t: TrackerRow) { Contains(t.program, "SEL") }
  predicate IsAttendance(t: TrackerRow) { Contains(t.program, "Attendance") }

  function CpCells(t: TrackerRow): (Option<string>, string) { (t.student, t.dosageText) }
  function StudentOf(t: TrackerRow): Option<string> { t.student }

  /** `_fill_one_acm_wb` (and `fill_one_acm_wb`). */
  function FillOneAcm(rows: seq<TrackerRow>, acmName: string): (p: AcmPages)
    ensures p.header == acmName
    ensures |p.cp| <= 12 && |p.sel| <= 6 && |p.attendanceB| <= 3 && |p.attendanceF| <= 3
    ensures TooManyCp in p.warnings <==> |Filter(rows, IsCourse)| > 12
    ensures TooManySel in p.warnings <==> |Filter(rows, IsSel)| > 6
    ensures TooManyAttendance in p.warnings <==> |Filter(rows, IsAttendance)| > 6
  {
    var cp := Filter(rows, IsCourse);
    var sel := Filter(rows, IsSel);
    var att := Map(Filter(rows, IsAttendance), StudentOf);
    AcmPages(acmName, Slice(Map(cp, CpCells), 0, 12), Slice(Map(sel, StudentOf), 0, 6),
             Slice(att, 0, 3), Slice(att, 3, 6),
             (if |cp| > 12 then {TooManyCp} else {}) + (if |sel| > 6 then {TooManySel} else {}) +
             (if |att| > 6 then {TooManyAttendance} else {}))
  }

  /** The pages hold the first rows of each kind, in table order: the first
      twelve Course Performance rows, the first six SEL names, and the first six
      Attendance names split three and three between columns B and F. */
  lemma FillOneAcmFirstRows(rows: seq<TrackerRow>, acmName: string)
    ensures var p := FillOneAcm(rows, acmName);
      var cp := Map(Filter(rows, IsCourse), CpCells);
      var att := Map(Filter(rows, IsAttendance), StudentOf);
      |p.cp| == (if |cp| < 12 then |cp| else 12) &&
      (forall i :: 0 <= i < |p.cp| ==> p.cp[i] == cp[i]) &&
      (forall i :: 0 <= i < |p.sel| ==> p.sel[i] == Map(Filter(rows, IsSel), StudentOf)[i]) &&
      p.attendanceB + p.attendanceF == Slice(att, 0, 6) &&
      |p.attendanceB + p.attendanceF| == (if |att| < 6 then |att| else 6)
  {
    var att := Map(Filter(rows, IsAttendance), StudentOf);
    SliceHead(Map(Filter(rows, IsCourse), CpCells), 12);
    SliceHead(Map(Filter(rows, IsSel), StudentOf), 6);
    SliceAdjacent(att, 0, 3, 6);
    SliceHead(att, 6);
  }

  // ---------------------------------------------------------------- wb_save_and_close

  /** How `wb.save` ended. */
  datatype SaveOutcome = Saved | SaveFailed | SaveInterrupted

  datatype SaveStep = ActivateFirstSheet | SaveWorkbook | LogFailure | CloseWorkbook

  /** What `wb_save_and_close` did, and what it raised. */
  datatype SaveRun = SaveRun(steps: seq<SaveStep>, raised: Option<Exc>)

  /** `wb_save_and_close`: a failed save is logged and swallowed, an interrupt is
      raised again, and in every case the workbook is closed last. */
  function SaveAndClose(outcome: SaveOutcome): (r: SaveRun)
    ensures |r.steps| >= 3 && r.steps[|r.steps| - 1] == CloseWorkbook && CloseWorkbook !in r.steps[..|r.steps| - 1]
    ensures r.steps[..2] == [ActivateFirstSheet, SaveWorkbook]
    ensures r.raised.Some? <==> outcome == SaveInterrupted
    ensures r.raised.Some? ==> r.raised.value == Interrupt
    ensures LogFailure in r.steps <==> outcome == SaveFailed
  {
    match outcome
    case Saved => SaveRun([ActivateFirstSheet, SaveWorkbook, CloseWorkbook], None)
    case SaveFailed => SaveRun([ActivateFirstSheet, SaveWorkbook, LogFailure, CloseWorkbook], None)
    case SaveInterrupted => SaveRun([ActivateFirstSheet, SaveWorkbook, CloseWorkbook], Some(Interrupt))
  }
}
