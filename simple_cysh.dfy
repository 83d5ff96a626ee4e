/** The CRM access layer: SOQL query text, projection of query records onto a
    field list, column renames, the school-year switch between the live CRM and
    end-of-year CSV exports, the field list of an object, the retry-once session
    wrapper, and the program / section / staff tables built from them. The CRM
    itself is a set of functions from request to response. */
module SimpleCysh {
  import opened Base
  import opened Strings
  import opened Seqs
  import opened Sorting
  import opened Frames

  /** One query record: field name to value. */
  type Record = map<string, Value>

  /** The CRM and the file share, as functions from request to response. */
  datatype Crm = Crm(
    query: string -> seq<Record>,          // sf.query(q)['records']
    queryAll: string -> seq<Record>,       // sf.query_all(q)['records']
    get: (string, Value) -> seq<string>,   // the keys, in order, of getattr(sf, object).get(id)
    readCsv: string -> Frame)              // pd.read_csv(path)

  /** Every CSV export parses into a frame with one cell per column. */
  ghost predicate CsvWellFormed(crm: Crm)
  {
    forall p :: WellFormed(crm.readCsv(p))
  }

  // ---------------------------------------------------------------- query text

  /** Python truthiness of an optional string argument. */
  predicate Given(w: Option<string>)
  {
    w.Some? && w.value != ""
  }

  /** `SELECT <fields joined by ", "> FROM <object>`, plus ` WHERE <clause>` when a clause is given. */
  function Query(fields: seq<string>, obj: string, where: Option<string>): (q: string)
    ensures StartsWith(q, "SELECT ")
  {
    var base := "SELECT " + Join(fields, ", ") + " FROM " + obj;
    assert base[..|"SELECT "|] == "SELECT ";
    if Given(where) then base + " WHERE " + where.value else base
  }

  /** A clause given adds exactly ` WHERE <clause>` to the clause-free query;
      an empty clause is no clause. */
  lemma QueryWhere(fields: seq<string>, obj: string, w: string)
    ensures w != "" ==> Query(fields, obj, Some(w)) == Query(fields, obj, None) + " WHERE " + w
    ensures Query(fields, obj, Some("")) == Query(fields, obj, None)
    ensures |Query(fields, obj, Some(w))| ==
      |"SELECT "| + |Join(fields, ", ")| + |" FROM "| + |obj| + (if w == "" then 0 else |" WHERE "| + |w|)
  {
  }

  /** The field list sits between `SELECT ` and ` FROM <object>`. */
  lemma QueryFields(fields: seq<string>, obj: string)
    ensures var q := Query(fields, obj, None);
      q[|"SELECT "|..|q| - |" FROM "| - |obj|] == Join(fields, ", ") &&
      q[|q| - |obj|..] == obj
  {
  }

  // ---------------------------------------------------------------- projection

  /** The first of `fields` that `rec` does not have (`row[column]` raises KeyError on it). */
  function MissingField(rec: Record, fields: seq<string>): (m: Option<string>)
    ensures m.None? <==> forall j :: 0 <= j < |fields| ==> fields[j] in rec
    ensures m.Some? ==> m.value in fields && m.value !in rec
  {
    if |fields| == 0 then None
    else if fields[0] !in rec then Some(fields[0])
    else
      assert forall j :: 1 <= j < |fields| ==> fields[j] == fields[1..][j - 1];
      MissingField(rec, fields[1..])
  }

  /** The field whose absence stops the projection first: the first record with a
      missing field, and its first missing field. */
  function RecordsError(records: seq<Record>, fields: seq<string>): (m: Option<string>)
    ensures m.None? <==> forall i, j :: 0 <= i < |records| && 0 <= j < |fields| ==> fields[j] in records[i]
    ensures m.Some? ==> m.value in fields && exists i :: 0 <= i < |records| && m.value !in records[i]
  {
    if |records| == 0 then None
    else match MissingField(records[0], fields)
      case Some(c) => Some(c)
      case None =>
        var m := RecordsError(records[1..], fields);
        assert forall i :: 1 <= i < |records| ==> records[i] == records[1..][i - 1];
        assert forall i :: 0 <= i < |records[1..]| ==> records[1..][i] == records[i + 1];
        m
  }

  /** The cells of records that have every field, in `fields` order. */
  function Cells(records: seq<Record>, fields: seq<string>): seq<seq<Value>>
    requires RecordsError(records, fields).None?
  {
    seq(|records|, i requires 0 <= i < |records| =>
      seq(|fields|, j requires 0 <= j < |fields| => records[i][fields[j]]))
  }

  /** `pd.DataFrame(query_list, columns=field_list)` over the nested append loops. */
  function Projection(records: seq<Record>, fields: seq<string>): (r: Result<Frame>)
    ensures r.Ok? <==> forall i, j :: 0 <= i < |records| && 0 <= j < |fields| ==> fields[j] in records[i]
    ensures r.Ok? ==>
      WellFormed(r.value) && r.value.cols == fields && |r.value.rows| == |records| &&
      forall i, j :: 0 <= i < |records| && 0 <= j < |fields| ==> r.value.rows[i][j] == records[i][fields[j]]
    ensures r.Err? ==>
      r.exc.KeyError? && r.exc.key in fields &&
      exists i :: 0 <= i < |records| && r.exc.key !in records[i]
  {
    match RecordsError(records, fields)
    case Some(c) => Err(KeyError(c))
    case None => Ok(Frame(fields, Cells(records, fields)))
  }

  /** The inner loop of `get_object_df`: one record's values, in `fields` order,
      or the first field it lacks. */
  method ProjectRecord(row: Record, fields: seq<string>) returns (missing: Option<string>, record: seq<Value>)
    ensures missing == MissingField(row, fields)
    ensures missing.None? ==> |record| == |fields| && forall j :: 0 <= j < |fields| ==> record[j] == row[fields[j]]
  {
    record := [];
    var j := 0;
    while j < |fields|
      invariant 0 <= j <= |fields|
      invariant MissingField(row, fields) == MissingField(row, fields[j..])
      invariant |record| == j
      invariant forall j' :: 0 <= j' < j ==> fields[j'] in row && record[j'] == row[fields[j']]
    {
      var column := fields[j];
      if column !in row {
        assert fields[j..][0] == column;
        return Some(column), record;
      }
      assert fields[j..][1..] == fields[j + 1..];
      record := record + [row[column]];
      j := j + 1;
    }
    missing := None;
  }

  /** The loops of `get_object_df`: one list of values per record, one value per field. */
  method ProjectRecords(records: seq<Record>, fields: seq<string>) returns (r: Result<Frame>)
    ensures r == Projection(records, fields)
  {
    var rows: seq<seq<Value>> := [];
    var i := 0;
    while i < |records|
      invariant 0 <= i <= |records|
      invariant RecordsError(records, fields) == RecordsError(records[i..], fields)
      invariant RowsOf(records, fields, rows, i)
    {
      var missing, record := ProjectRecord(records[i], fields);
      RecordsErrorAt(records, fields, i);
      if missing.Some? {
        return Err(KeyError(missing.value));
      }
      RowsOfSnoc(records, fields, rows, i, record);
      rows := rows + [record];
      i := i + 1;
    }
    CellsAre(records, fields, rows);
    r := Ok(Frame(fields, rows));
  }

  /** `rows` holds the values of the first `i` records, in `fields` order. */
  predicate RowsOf(records: seq<Record>, fields: seq<string>, rows: seq<seq<Value>>, i: nat)
  {
    i <= |records| && |rows| == i &&
    forall k :: 0 <= k < i ==> (|rows[k]| == |fields| &&
      forall j :: 0 <= j < |fields| ==> fields[j] in records[k] && rows[k][j] == records[k][fields[j]])
  }

  lemma RowsOfSnoc(records: seq<Record>, fields: seq<string>, rows: seq<seq<Value>>, i: nat, record: seq<Value>)
    requires RowsOf(records, fields, rows, i) && i < |records|
    requires |record| == |fields| && forall j :: 0 <= j < |fields| ==> fields[j] in records[i] && record[j] == records[i][fields[j]]
    ensures RowsOf(records, fields, rows + [record], i + 1)
  {
    var rows' := rows + [record];
    forall k | 0 <= k < i + 1
      ensures (|rows'[k]| == |fields| &&
        forall j :: 0 <= j < |fields| ==> fields[j] in records[k] && rows'[k][j] == records[k][fields[j]])
    {
      if k < i {
        assert rows'[k] == rows[k];
      }
    }
  }

  /** The error of the records from `i` on is the first missing field of record
      `i`, or the error of the records after it. */
  lemma RecordsErrorAt(records: seq<Record>, fields: seq<string>, i: nat)
    requires i < |records|
    ensures MissingField(records[i], fields).Some? ==>
      RecordsError(records[i..], fields) == MissingField(records[i], fields)
    ensures MissingField(records[i], fields).None? ==>
      RecordsError(records[i..], fields) == RecordsError(records[i + 1..], fields)
  {
    assert records[i..][0] == records[i] && records[i..][1..] == records[i + 1..];
  }

  lemma CellsAre(records: seq<Record>, fields: seq<string>, rows: seq<seq<Value>>)
    requires RecordsError(records, fields).None?
    requires RowsOf(records, fields, rows, |records|)
    ensures rows == Cells(records, fields)
  {
    var c := Cells(records, fields);
    forall k | 0 <= k < |rows|
      ensures rows[k] == c[k]
    {
    }
  }

  // ---------------------------------------------------------------- renames

  /** The name a column ends up with after `rename_id` and then `rename_name`. */
  function RenamedColumn(c: string, obj: string, renameId: bool, renameName: bool): string
  {
    var c1 := if renameId && c == "Id" then obj else c;
    if renameName && c1 == "Name" then obj + "_Name" else c1
  }

  /** `rename(columns={'Id': obj})` when asked, then `rename(columns={'Name': obj + '_Name'})` when asked. */
  function Renames(f: Frame, obj: string, renameId: bool, renameName: bool): (r: Frame)
    ensures r.rows == f.rows && |r.cols| == |f.cols|
    ensures forall j :: 0 <= j < |f.cols| ==> r.cols[j] == RenamedColumn(f.cols[j], obj, renameId, renameName)
  {
    var f1 := if renameId then Rename(f, map["Id" := obj]) else f;
    if renameName then Rename(f1, map["Name" := obj + "_Name"]) else f1
  }

  /** Only `Id` and `Name` columns are renamed, to the object name and the object
      name plus `_Name`; no flag, no rename. */
  lemma RenamesOnlyIdAndName(f: Frame, obj: string, renameId: bool, renameName: bool, j: nat)
    requires j < |f.cols| && obj != "Name"
    ensures var c := Renames(f, obj, renameId, renameName).cols[j];
      (f.cols[j] == "Id" && renameId ==> c == obj) &&
      (f.cols[j] == "Name" && renameName ==> c == obj + "_Name") &&
      (f.cols[j] != "Id" && f.cols[j] != "Name" ==> c == f.cols[j]) &&
      (!renameId && !renameName ==> c == f.cols[j])
  {
  }

  // ---------------------------------------------------------------- object fields

  /** `get_object_fields`: the keys of one record of the object, sorted, without
      `attributes`; ValueError when the object has no record. */
  function ObjectFields(crm: Crm, obj: string): (r: Result<seq<string>>)
    ensures |crm.query("SELECT Id FROM " + obj + " LIMIT 1")| == 0 ==> r == Err(ValueError)
    ensures r.Ok? ==>
      var sample := crm.query("SELECT Id FROM " + obj + " LIMIT 1");
      |sample| > 0 && "Id" in sample[0] &&
      multiset(r.value) + multiset{"attributes"} == multiset(crm.get(obj, sample[0]["Id"])) &&
      Sorted(r.value, StrKey)
    ensures r.Err? ==> r.exc == ValueError || r.exc == KeyError("Id")
  {
    var sample := crm.query("SELECT Id FROM " + obj + " LIMIT 1");
    if |sample| == 0 then Err(ValueError)
    else if "Id" !in sample[0] then Err(KeyError("Id"))
    else
      var keys := crm.get(obj, sample[0]["Id"]);
      assert KeyShape(keys, StrKey, 1);
      var fields := SortBy(keys, StrKey, 1);
      if "attributes" !in fields then Err(ValueError)
      else
        SortedRemove(fields, StrKey, FirstIndex(fields, "attributes"));
        Ok(RemoveFirst(fields, "attributes"))
  }

  /** A record whose keys are distinct loses `attributes` entirely. */
  lemma ObjectFieldsDropsAttributes(crm: Crm, obj: string)
    requires ObjectFields(crm, obj).Ok?
    requires Distinct(crm.get(obj, crm.query("SELECT Id FROM " + obj + " LIMIT 1")[0]["Id"]))
    ensures "attributes" !in ObjectFields(crm, obj).value
  {
    var keys := crm.get(obj, crm.query("SELECT Id FROM " + obj + " LIMIT 1")[0]["Id"]);
    var r := ObjectFields(crm, obj).value;
    assert multiset(r) + multiset{"attributes"} == multiset(keys);
    DistinctCount(keys, "attributes");
    assert multiset(keys)["attributes"] <= 1;
  }

  lemma {:induction false} DistinctCount<T>(s: seq<T>, x: T)
    requires Distinct(s)
    ensures multiset(s)[x] <= 1
  {
    if |s| > 0 {
      assert s == [s[0]] + s[1..];
      DistinctCount(s[1..], x);
      if s[0] == x {
        assert x !in s[1..];
      }
    }
  }

  // ---------------------------------------------------------------- get_object_df

  const ValidYears: seq<string> := ["SY17", "SY18", "SY19"]

  /** The end-of-year export of an object for a past school year. */
  function CsvPath(year: string, obj: string): string
  {
    "Z:/ChiPrivate/Chicago Data and Evaluation/Whole Site End of Year Data/Salesforce Objects/" +
    year + "/" + obj + ".csv"
  }

  /** The SY19 branch: the live query over the given fields, or over all fields
      of the object when none are given. */
  function LiveFrame(crm: Crm, obj: string, fieldList: Option<seq<string>>, where: Option<string>): Result<Frame>
  {
    var fields := if fieldList.None? || |fieldList.value| == 0 then ObjectFields(crm, obj) else Ok(fieldList.value);
    match fields
    case Err(e) => Err(e)
    case Ok(fs) => Projection(crm.queryAll(Query(fs, obj, where)), fs)
  }

  /** The SY17/SY18 branch: the CSV export, projected when a field list is given. */
  function CsvFrame(crm: Crm, obj: string, fieldList: Option<seq<string>>, year: string): Result<Frame>
    requires CsvWellFormed(crm)
  {
    var csv := crm.readCsv(CsvPath(year, obj));
    if fieldList.Some? then Select(csv, fieldList.value) else Ok(csv)
  }

  /** `get_object_df`: for SY19 the live query, for SY17/SY18 the CSV export,
      ValueError for any other year; then the optional renames. */
  function GetObjectDf(crm: Crm, obj: string, fieldList: Option<seq<string>>, where: Option<string>,
                       renameId: bool, renameName: bool, year: string): (r: Result<Frame>)
    requires CsvWellFormed(crm)
    ensures year != "SY19" && year !in ValidYears ==> r == Err(ValueError)
    ensures r.Ok? ==> WellFormed(r.value)
  {
    var df: Result<Frame> :=
      if year == "SY19" then LiveFrame(crm, obj, fieldList, where)
      else if year !in ValidYears then Err(ValueError)
      else CsvFrame(crm, obj, fieldList, year);
    match df
    case Err(e) => Err(e)
    case Ok(f) => Ok(Renames(f, obj, renameId, renameName))
  }

  /** SY19 with a field list: the frame exists iff every record has every field;
      it has one row per record, one column per field (renamed), each cell the record's value. */
  lemma GetObjectDfLive(crm: Crm, obj: string, fs: seq<string>, where: Option<string>,
                        renameId: bool, renameName: bool)
    requires CsvWellFormed(crm) && |fs| > 0
    ensures var r := GetObjectDf(crm, obj, Some(fs), where, renameId, renameName, "SY19");
      var records := crm.queryAll(Query(fs, obj, where));
      (r.Ok? <==> forall i, j :: 0 <= i < |records| && 0 <= j < |fs| ==> fs[j] in records[i]) &&
      (r.Ok? ==>
        |r.value.rows| == |records| && |r.value.cols| == |fs| &&
        (forall j :: 0 <= j < |fs| ==> r.value.cols[j] == RenamedColumn(fs[j], obj, renameId, renameName)) &&
        forall i, j :: 0 <= i < |records| && 0 <= j < |fs| ==> r.value.rows[i][j] == records[i][fs[j]])
  {
  }

  /** SY19 without a field list queries every field `get_object_fields` reports. */
  lemma GetObjectDfAllFields(crm: Crm, obj: string, where: Option<string>, renameId: bool, renameName: bool)
    requires CsvWellFormed(crm) && ObjectFields(crm, obj).Ok?
    ensures var fs := ObjectFields(crm, obj).value;
      var r := GetObjectDf(crm, obj, None, where, renameId, renameName, "SY19");
      r.Ok? ==> |r.value.cols| == |fs| && |r.value.rows| == |crm.queryAll(Query(fs, obj, where))|
    ensures ObjectFields(crm, obj).Err? ==> GetObjectDf(crm, obj, None, where, renameId, renameName, "SY19").Err?
  {
  }

  /** SY17/SY18: the export of that year is read; a field list must name existing columns. */
  lemma GetObjectDfCsv(crm: Crm, obj: string, fieldList: Option<seq<string>>, renameId: bool, renameName: bool,
                       year: string)
    requires CsvWellFormed(crm) && (year == "SY17" || year == "SY18")
    ensures var r := GetObjectDf(crm, obj, fieldList, None, renameId, renameName, year);
      var csv := crm.readCsv(CsvPath(year, obj));
      (fieldList.None? ==> r == Ok(Renames(csv, obj, renameId, renameName))) &&
      (fieldList.Some? ==>
        (r.Ok? <==> forall j :: 0 <= j < |fieldList.value| ==> fieldList.value[j] in csv.cols) &&
        (r.Ok? ==> |r.value.rows| == |csv.rows| && |r.value.cols| == |fieldList.value|))
  {
  }

  // ---------------------------------------------------------------- session

  /** What one call of a wrapped CRM function does with a given session. */
  datatype Outcome<T> = Returned(value: T) | Expired | Raised(exc: Exc)

  /** `check_sf_session`: the result, the session generation afterwards and the
      number of calls made, starting from session generation `g`. */
  function Retried<T>(func: nat -> Outcome<T>, g: nat): (r: (Outcome<T>, nat, nat))
    ensures r.2 == (if func(g).Expired? then 2 else 1)
    ensures r.1 == g + r.2 - 1
    ensures r.0 == func(r.1)
    ensures r.0.Expired? <==> func(g).Expired? && func(g + 1).Expired?
  {
    if func(g).Expired? then (func(g + 1), g + 1, 2) else (func(g), g, 1)
  }

  /** The module-level `sf` session. */
  class Session {
    /** How many times `init_sf_session` has run. */
    var generation: nat

    constructor ()
      ensures generation == 0
    {
      generation := 0;
    }

    /** Call `func`; on an expired session rebuild the session and call it once more. */
    method Call<T>(func: nat -> Outcome<T>) returns (r: Outcome<T>, calls: nat)
      modifies this
      ensures (r, generation, calls) == Retried(func, old(generation))
    {
      calls := 1;
      r := func(generation);
      if r.Expired? {
        generation := generation + 1;
        calls := 2;
        r := func(generation);
      }
    }
  }

  /** Anything but an expiry passes through untouched on the first call; an
      expiry is retried exactly once, on a new session. */
  lemma RetriedOnce<T>(func: nat -> Outcome<T>, g: nat)
    ensures !func(g).Expired? ==> Retried(func, g) == (func(g), g, 1)
    ensures func(g).Expired? ==> Retried(func, g).0 == func(g + 1) && Retried(func, g).2 == 2
    ensures Retried(func, g).0.Raised? ==>
      Retried(func, g).0 == func(g) || (func(g).Expired? && Retried(func, g).0 == func(g + 1))
  {
  }

  // ---------------------------------------------------------------- programs and sections

  /** A `sections_of_interest` argument: one program name or a list of them. */
  datatype Interest = OneName(name: string) | Names(names: seq<string>)

  /** `get_section_df` as written: `list(s)` turns a string into its characters. */
  function SectionsOfInterestAsWritten(arg: Interest): (r: seq<string>)
    ensures arg.OneName? ==> |r| == |arg.name| && forall i :: 0 <= i < |r| ==> r[i] == [arg.name[i]]
    ensures arg.Names? ==> r == arg.names
  {
    match arg
    case OneName(s) => seq(|s|, i requires 0 <= i < |s| => [s[i]])
    case Names(l) => l
  }

  /** A program name longer than one character is never among the names the
      as-written conversion produces from it. */
  lemma AsWrittenLosesName(s: string)
    requires |s| > 1
    ensures s !in SectionsOfInterestAsWritten(OneName(s))
  {
  }

  lemma AsWrittenTutoringMath()
    ensures |SectionsOfInterestAsWritten(OneName("Tutoring: Math"))| == 14
    ensures "Tutoring: Math" !in SectionsOfInterestAsWritten(OneName("Tutoring: Math"))
  {
    AsWrittenLosesName("Tutoring: Math");
  }

  /** The conversion `get_student_section_staff_df` does, which `get_section_df`
      evidently intends too: a string becomes a one-element list. */
  function SectionsOfInterest(arg: Interest): (r: seq<string>)
    ensures arg.OneName? ==> r == [arg.name]
    ensures arg.Names? ==> r == arg.names
  {
    match arg
    case OneName(s) => [s]
    case Names(l) => l
  }

  /** A lone name is the one name the query asks for; a list is passed through. */
  lemma SectionsOfInterestKeepsName(arg: Interest, n: string)
    ensures n in SectionsOfInterest(arg) <==>
      (arg.OneName? && n == arg.name) || (arg.Names? && n in arg.names)
  {
  }

  /** One `Program__c` record: `Program__c` (Id) and `Program__c_Name` (Name). */
  datatype Program = Program(id: string, name: string)

  /** One `Section__c` record, renamed. */
  datatype SectionRec = SectionRec(id: string, name: string, staff: Option<string>, program: Option<string>)

  /** A row of `get_section_df`. */
  datatype SectionRow = SectionRow(section: SectionRec, programName: Option<string>)

  /** `IN ({str(values)[1:-1]})`: an empty list gives `IN ()`, which the CRM
      rejects as a malformed query; otherwise the query returns `rows`. */
  function InQuery<T>(values: seq<string>, rows: seq<T>): (r: Result<seq<T>>)
    ensures r.Err? <==> |values| == 0
    ensures r.Err? ==> r.exc == MalformedQuery
    ensures r.Ok? ==> r.value == rows
  {
    if |values| == 0 then Err(MalformedQuery) else Ok(rows)
  }

  /** The programs whose name is among `names`. */
  function ProgramRows(programs: seq<Program>, names: seq<string>): (r: seq<Program>)
    ensures forall p :: p in r <==> p in programs && p.name in names
  {
    var keep := (p: Program) => p.name in names;
    forall p ensures p in Filter(programs, keep) <==> p in programs && p.name in names {
      FilterIn(programs, keep, p);
    }
    Filter(programs, keep)
  }

  /** No program carries one of the names. */
  predicate NoneNamed(programs: seq<Program>, names: seq<string>)
  {
    forall p :: p in programs ==> p.name !in names
  }

  lemma ProgramRowsEmpty(programs: seq<Program>, names: seq<string>)
    ensures |ProgramRows(programs, names)| == 0 <==> NoneNamed(programs, names)
  {
    var r := ProgramRows(programs, names);
    if |r| > 0 {
      assert r[0] in r;
    }
  }

  /** The program query `Name IN (...)`: malformed for an empty name list,
      otherwise the programs carrying one of the names. */
  function ProgramsNamed(programs: seq<Program>, names: seq<string>): (r: Result<seq<Program>>)
    ensures r.Err? <==> |names| == 0
    ensures r.Err? ==> r.exc == MalformedQuery
    ensures r.Ok? ==> forall p :: p in r.value <==> p in programs && p.name in names
  {
    InQuery(names, ProgramRows(programs, names))
  }

  function ProgramIds(programs: seq<Program>): seq<string>
  {
    Map(programs, (p: Program) => p.id)
  }

  function SectionRowOf(s: SectionRec, p: Option<Program>): SectionRow
  {
    SectionRow(s, if p.Some? then Some(p.value.name) else None)
  }

  predicate SectionOfProgram(s: SectionRec, p: Program)
  {
    s.program == Some(p.id)
  }

  /** The sections of the given programs, left-merged with them on `Program__c`. */
  function SectionRows(progs: seq<Program>, sections: seq<SectionRec>): seq<SectionRow>
  {
    var ids := ProgramIds(progs);
    var secs := Filter(sections, (s: SectionRec) => s.program.Some? && s.program.value in ids);
    LeftMerge(secs, progs, SectionOfProgram, SectionRowOf)
  }

  /** The `Section__c` query `Program__c IN (...)` over the given programs, then
      the left merge. */
  function SectionsOf(progs: seq<Program>, sections: seq<SectionRec>): Result<seq<SectionRow>>
  {
    InQuery(ProgramIds(progs), SectionRows(progs, sections))
  }

  /** The section query is malformed exactly when there is no program; otherwise
      each row is a section of one of the programs paired with that program's
      name, and every such pair is a row. */
  lemma SectionsOfMembers(progs: seq<Program>, sections: seq<SectionRec>, y: SectionRow)
    ensures SectionsOf(progs, sections).Err? <==> |progs| == 0
    ensures SectionsOf(progs, sections).Err? ==> SectionsOf(progs, sections).exc == MalformedQuery
    ensures SectionsOf(progs, sections).Ok? ==> SectionsOf(progs, sections).value == SectionRows(progs, sections)
    ensures y in SectionRows(progs, sections) <==>
      exists s, p :: s in sections && p in progs && s.program == Some(p.id) && y == SectionRow(s, Some(p.name))
  {
    var ids := ProgramIds(progs);
    var keep := (s: SectionRec) => s.program.Some? && s.program.value in ids;
    var secs := Filter(sections, keep);
    forall i | 0 <= i < |secs|
      ensures HasMatch(secs[i], progs, SectionOfProgram)
    {
      var k := FirstIndex(ids, secs[i].program.value);
      assert SectionOfProgram(secs[i], progs[k]);
    }
    if y in SectionRows(progs, sections) {
      var i, j := LeftMergeSource(secs, progs, SectionOfProgram, SectionRowOf, y);
      assert HasMatch(secs[i], progs, SectionOfProgram);
      assert j < |progs|;
      FilterIn(sections, keep, secs[i]);
      assert secs[i] in sections && progs[j] in progs;
    }
    if exists s, p :: s in sections && p in progs && s.program == Some(p.id) && y == SectionRow(s, Some(p.name)) {
      var s, p :| s in sections && p in progs && s.program == Some(p.id) && y == SectionRow(s, Some(p.name));
      var j := FirstIndex(progs, p);
      assert ids[j] == p.id;
      FilterIn(sections, keep, s);
      var i := FirstIndex(secs, s);
      assert SectionOfProgram(secs[i], progs[j]) && y == SectionRowOf(secs[i], Some(progs[j]));
      LeftMergeHas(secs, progs, SectionOfProgram, SectionRowOf, i, j);
    }
  }

  /** The two queries of `get_section_df` on a list of names: the program query,
      then the section query over the programs it found. */
  function SectionQueries(programs: seq<Program>, sections: seq<SectionRec>, names: seq<string>): Result<seq<SectionRow>>
  {
    match ProgramsNamed(programs, names)
    case Err(e) => Err(e)
    case Ok(progs) => SectionsOf(progs, sections)
  }

  /** The rows `get_section_df` returns when its queries are well formed: the
      sections of the named programs, each with its program name. */
  function SectionTable(programs: seq<Program>, sections: seq<SectionRec>, arg: Interest): seq<SectionRow>
  {
    SectionRows(ProgramRows(programs, SectionsOfInterest(arg)), sections)
  }

  /** Both queries succeed exactly when some program carries one of the names;
      otherwise one of them is `IN ()` and raises. */
  lemma SectionQueriesResult(programs: seq<Program>, sections: seq<SectionRec>, names: seq<string>)
    ensures var r := SectionQueries(programs, sections, names);
      (r.Err? <==> NoneNamed(programs, names)) && (r.Err? ==> r.exc == MalformedQuery) &&
      (r.Ok? ==> r.value == SectionRows(ProgramRows(programs, names), sections))
  {
    ProgramRowsEmpty(programs, names);
    var p := ProgramRows(programs, names);
    if |names| > 0 {
      assert |ProgramIds(p)| == |p|;
    }
  }

  /** `get_section_df` with the intended string handling: it raises
      MalformedQuery exactly when no program carries a name of interest, and
      otherwise returns the section table. */
  function GetSectionDf(programs: seq<Program>, sections: seq<SectionRec>, arg: Interest): (r: Result<seq<SectionRow>>)
    ensures r.Err? <==> NoneNamed(programs, SectionsOfInterest(arg))
    ensures r.Err? ==> r.exc == MalformedQuery
    ensures r.Ok? ==> r.value == SectionTable(programs, sections, arg)
  {
    SectionQueriesResult(programs, sections, SectionsOfInterest(arg));
    SectionQueries(programs, sections, SectionsOfInterest(arg))
  }

  /** Each row of the section table is a section of a program of interest
      paired with that program's name, and every such pair is a row. */
  lemma GetSectionDfMembers(programs: seq<Program>, sections: seq<SectionRec>, arg: Interest, y: SectionRow)
    ensures y in SectionTable(programs, sections, arg) <==>
      exists s, p :: s in sections && p in programs && p.name in SectionsOfInterest(arg) &&
        s.program == Some(p.id) && y == SectionRow(s, Some(p.name))
  {
    SectionsOfMembers(ProgramRows(programs, SectionsOfInterest(arg)), sections, y);
  }

  /** `get_section_df` as written: the programs named by the characters of a string argument. */
  function GetSectionDfAsWritten(programs: seq<Program>, sections: seq<SectionRec>, arg: Interest): (r: Result<seq<SectionRow>>)
    ensures r.Err? <==> NoneNamed(programs, SectionsOfInterestAsWritten(arg))
    ensures r.Err? ==> r.exc == MalformedQuery
    ensures r.Ok? ==> r.value == SectionRows(ProgramRows(programs, SectionsOfInterestAsWritten(arg)), sections)
  {
    SectionQueriesResult(programs, sections, SectionsOfInterestAsWritten(arg));
    SectionQueries(programs, sections, SectionsOfInterestAsWritten(arg))
  }

  /** As written, a string argument longer than one character raises unless some
      program has a one-character name from it; and even then no returned row
      belongs to the program the string names. */
  lemma GetSectionDfAsWrittenMissesProgram(programs: seq<Program>, sections: seq<SectionRec>, name: string, y: SectionRow)
    requires |name| > 1
    ensures var r := GetSectionDfAsWritten(programs, sections, OneName(name));
      r.Ok? && y in r.value ==> y.programName != Some(name)
  {
    var names := SectionsOfInterestAsWritten(OneName(name));
    SectionsOfMembers(ProgramRows(programs, names), sections, y);
    AsWrittenLosesName(name);
  }

  /** When no program has a one-character name, `get_section_df('Tutoring: Math')`
      as written raises: the section query is `Program__c IN ()`. With the intended
      conversion, a program of that name makes the call succeed. */
  lemma GetSectionDfAsWrittenRaises(programs: seq<Program>, sections: seq<SectionRec>, p: Program)
    requires forall q :: q in programs ==> |q.name| != 1
    requires p in programs && p.name == "Tutoring: Math"
    ensures GetSectionDfAsWritten(programs, sections, OneName("Tutoring: Math")) == Err(MalformedQuery)
    ensures GetSectionDf(programs, sections, OneName("Tutoring: Math")).Ok?
  {
    assert p.name in SectionsOfInterest(OneName("Tutoring: Math"));
  }

  /** `get_student_section_staff_df` loads the programs named by its argument and
      then queries `Program__c IN (...)` over them; the joins that follow are not
      part of this model. */
  function StudentSectionPrograms(programs: seq<Program>, arg: Interest): (r: Result<seq<Program>>)
    ensures r.Err? <==> NoneNamed(programs, SectionsOfInterest(arg))
    ensures r.Err? ==> r.exc == MalformedQuery
    ensures r.Ok? ==> forall p :: p in r.value <==> p in programs && p.name in SectionsOfInterest(arg)
  {
    var names := SectionsOfInterest(arg);
    ProgramRowsEmpty(programs, names);
    match ProgramsNamed(programs, names)
    case Err(e) => Err(e)
    case Ok(progs) =>
      assert |ProgramIds(progs)| == |progs|;
      InQuery(ProgramIds(progs), progs)
  }

  // ---------------------------------------------------------------- staff

  /** One `Account` record renamed: `Organization__c` and `School`. */
  datatype Account = Account(id: string, name: string)

  /** One `Staff__c` record renamed (`Staff__c`, `Staff__c_Name`, ...). */
  datatype StaffRec = StaffRec(id: string, individual: Option<string>, name: string,
                               firstName: Option<string>, lastName: Option<string>,
                               role: Option<string>, email: Option<string>, org: Option<string>)

  /** A row of `get_staff_df`: the staff record and its school's name. */
  datatype StaffRow = StaffRow(staff: StaffRec, school: Option<string>)

  predicate StaffAt(s: StaffRec, a: Account)
  {
    s.org == Some(a.id)
  }

  function StaffRowOf(s: StaffRec, a: Option<Account>): StaffRow
  {
    StaffRow(s, if a.Some? then Some(a.value.name) else None)
  }

  /** The staff whose organisation is an account, left-merged with the account
      name as School. */
  function StaffTable(accounts: seq<Account>, staff: seq<StaffRec>): seq<StaffRow>
  {
    var ids := Map(accounts, (a: Account) => a.id);
    var kept := Filter(staff, (s: StaffRec) => s.org.Some? && s.org.value in ids);
    LeftMerge(kept, accounts, StaffAt, StaffRowOf)
  }

  /** `get_staff_df`: the staff query `Organization__c IN (...)` over every
      account, then the merge. With no account the query is malformed. */
  function GetStaffDf(accounts: seq<Account>, staff: seq<StaffRec>): (r: Result<seq<StaffRow>>)
    ensures r.Err? <==> |accounts| == 0
    ensures r.Err? ==> r.exc == MalformedQuery
    ensures r.Ok? ==> r.value == StaffTable(accounts, staff)
  {
    InQuery(Map(accounts, (a: Account) => a.id), StaffTable(accounts, staff))
  }

  /** Each row of the staff table is a staff member at an account paired with
      that account's name, and every such pair is a row. */
  lemma GetStaffDfMembers(accounts: seq<Account>, staff: seq<StaffRec>, y: StaffRow)
    ensures y in StaffTable(accounts, staff) <==>
      exists s, a :: s in staff && a in accounts && s.org == Some(a.id) && y == StaffRow(s, Some(a.name))
  {
    var ids := Map(accounts, (a: Account) => a.id);
    var keep := (s: StaffRec) => s.org.Some? && s.org.value in ids;
    var kept := Filter(staff, keep);
    forall i | 0 <= i < |kept|
      ensures HasMatch(kept[i], accounts, StaffAt)
    {
      var k := FirstIndex(ids, kept[i].org.value);
      assert StaffAt(kept[i], accounts[k]);
    }
    if y in StaffTable(accounts, staff) {
      var i, j := LeftMergeSource(kept, accounts, StaffAt, StaffRowOf, y);
      assert HasMatch(kept[i], accounts, StaffAt);
      assert j < |accounts|;
      FilterIn(staff, keep, kept[i]);
      assert kept[i] in staff && accounts[j] in accounts;
    }
    if exists s, a :: s in staff && a in accounts && s.org == Some(a.id) && y == StaffRow(s, Some(a.name)) {
      var s, a :| s in staff && a in accounts && s.org == Some(a.id) && y == StaffRow(s, Some(a.name));
      var j := FirstIndex(accounts, a);
      assert ids[j] == a.id;
      FilterIn(staff, keep, s);
      var i := FirstIndex(kept, s);
      assert StaffAt(kept[i], accounts[j]) && y == StaffRowOf(kept[i], Some(accounts[j]));
      LeftMergeHas(kept, accounts, StaffAt, StaffRowOf, i, j);
    }
  }

  /** `get_staff_df(roles=..., schools=...)` as its callers write it: the function
      takes no arguments, so any keyword raises TypeError. */
  function GetStaffDfCalledAsWritten(accounts: seq<Account>, staff: seq<StaffRec>,
                                     roles: Option<seq<string>>, schools: Option<seq<string>>): (r: Result<seq<StaffRow>>)
    ensures roles.Some? || schools.Some? ==> r == Err(TypeError)
    ensures roles.None? && schools.None? ==> r == GetStaffDf(accounts, staff)
  {
    if roles.Some? || schools.Some? then Err(TypeError) else GetStaffDf(accounts, staff)
  }

  lemma RolesKeywordRaises(accounts: seq<Account>, staff: seq<StaffRec>)
    ensures GetStaffDfCalledAsWritten(accounts, staff, Some(["Corps Member"]), None) == Err(TypeError)
  {
  }

  predicate StaffWanted(r: StaffRow, roles: Option<seq<string>>, schools: Option<seq<string>>)
  {
    (roles.None? || (r.staff.role.Some? && r.staff.role.value in roles.value)) &&
    (schools.None? || (r.school.Some? && r.school.value in schools.value))
  }

  /** The filter those callers intend: role among `roles` and school among `schools`,
      each only when given. */
  function FilterStaff(rows: seq<StaffRow>, roles: Option<seq<string>>, schools: Option<seq<string>>): (r: seq<StaffRow>)
    ensures |r| <= |rows|
  {
    Filter(rows, (x: StaffRow) => StaffWanted(x, roles, schools))
  }

  /** Kept rows are exactly the rows with a wanted role and school; with neither
      keyword the filter is the unfiltered table, which is what the as-written call returns. */
  lemma FilterStaffMembers(rows: seq<StaffRow>, roles: Option<seq<string>>, schools: Option<seq<string>>, y: StaffRow)
    ensures y in FilterStaff(rows, roles, schools) <==>
      y in rows &&
      (roles.None? || (y.staff.role.Some? && y.staff.role.value in roles.value)) &&
      (schools.None? || (y.school.Some? && y.school.value in schools.value))
    ensures roles.None? && schools.None? ==> FilterStaff(rows, roles, schools) == rows
  {
    var keep := (x: StaffRow) => StaffWanted(x, roles, schools);
    FilterIn(rows, keep, y);
    if roles.None? && schools.None? {
      FilterAll(rows, keep);
    }
  }
}
