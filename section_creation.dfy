/** Automated section creation: a `Section` validates its dates, looks itself up
    by program, staff name and school, and is created through the browser form
    only when the lookup finds nothing; `Sections` plans which staff members of
    a program still need a section; the batch loops try every row in turn. */
module SectionCreation {
  import opened Base
  import opened Strings
  import opened Seqs
  import opened SimpleCysh
  import opened ChiSectionCreation

  // ---------------------------------------------------------------- validate_date

  /** A calendar date. */
  datatype CalDate = CalDate(year: nat, month: nat, day: nat)

  predicate AllDigits(s: string)
  {
    forall i :: 0 <= i < |s| ==> IsDigit(s[i])
  }

  predicate LeapYear(y: nat)
  {
    y % 4 == 0 && (y % 100 != 0 || y % 400 == 0)
  }

  function DaysIn(month: nat, year: nat): nat
  {
    if month == 2 then (if LeapYear(year) then 29 else 28)
    else if month == 4 || month == 6 || month == 9 || month == 11 then 30
    else 31
  }

  /** A date `datetime` accepts: year from 1, month 1-12, day within the month. */
  predicate RealDate(d: CalDate)
  {
    1 <= d.year && 1 <= d.month <= 12 && 1 <= d.day <= DaysIn(d.month, d.year)
  }

  /** `%m`: one or two digits, 1 to 12. */
  function MonthField(s: string): (r: Option<nat>)
    ensures r.Some? ==> 1 <= r.value <= 12
  {
    if (|s| == 1 || |s| == 2) && AllDigits(s) && 1 <= DigitsValue(s) <= 12 then Some(DigitsValue(s)) else None
  }

  /** `%d`: one or two digits, 1 to 31, or a space and a digit 1 to 9. */
  function DayField(s: string): (r: Option<nat>)
    ensures r.Some? ==> 1 <= r.value <= 31
  {
    if |s| == 2 && s[0] == ' ' && IsDigit(s[1]) && s[1] != '0' then Some(s[1] as int - '0' as int)
    else if (|s| == 1 || |s| == 2) && AllDigits(s) && 1 <= DigitsValue(s) <= 31 then Some(DigitsValue(s))
    else None
  }

  /** `%Y`: exactly four digits. */
  function YearField(s: string): Option<nat>
  {
    if |s| == 4 && AllDigits(s) then Some(DigitsValue(s)) else None
  }

  /** `datetime.strptime(s, '%m/%d/%Y')`: the whole text must match, and the
      fields must name a real date. */
  function ParseDate(s: string): (r: Option<CalDate>)
    ensures r.Some? ==> RealDate(r.value)
  {
    var parts := Split(s, '/');
    if |parts| != 3 then None
    else
      match (MonthField(parts[0]), DayField(parts[1]), YearField(parts[2]))
      case (Some(m), Some(d), Some(y)) =>
        if 1 <= y && d <= DaysIn(m, y) then Some(CalDate(y, m, d)) else None
      case _ => None
  }

  /** `validate_date`: raises ValueError unless the text parses. */
  predicate ValidDate(s: string)
  {
    ParseDate(s).Some?
  }

  function Pad2(n: nat): (r: string)
    requires n < 100
    ensures |r| == 2 && AllDigits(r)
  {
    [DigitChar(n / 10), DigitChar(n % 10)]
  }

  /** `strftime('%m/%d/%Y')` of a date with a four-digit year. */
  function FormatDate(d: CalDate): string
    requires 1000 <= d.year <= 9999 && d.month < 100 && d.day < 100
  {
    Join([Pad2(d.month), Pad2(d.day), NatToString(d.year)], "/")
  }

  lemma Pad2Value(n: nat)
    requires n < 100
    ensures DigitsValue(Pad2(n)) == n
  {
    var r := Pad2(n);
    assert r[..1] == [DigitChar(n / 10)];
    assert r[..1][..0] == [];
    assert DigitsValue(r[..1]) == n / 10;
  }

  lemma {:induction false} FourDigits(y: nat)
    requires 1000 <= y <= 9999
    ensures |NatToString(y)| == 4
  {
    assert NatToString(y) == NatToString(y / 10) + [DigitChar(y % 10)];
    assert NatToString(y / 10) == NatToString(y / 100) + [DigitChar(y / 10 % 10)];
    assert NatToString(y / 100) == NatToString(y / 1000) + [DigitChar(y / 100 % 10)];
  }

  /** Formatting a real date and validating it reads the same date back. */
  lemma ParseFormatDate(d: CalDate)
    requires RealDate(d) && 1000 <= d.year <= 9999
    ensures ParseDate(FormatDate(d)) == Some(d)
  {
    var parts := [Pad2(d.month), Pad2(d.day), NatToString(d.year)];
    forall k | 0 <= k < 3
      ensures '/' !in parts[k]
    {
      if k == 2 {
        var t := NatToString(d.year);
        assert forall i :: 0 <= i < |t| ==> IsDigit(t[i]);
      }
    }
    SplitJoin(parts, '/');
    Pad2Value(d.month);
    Pad2Value(d.day);
    FourDigits(d.year);
    DigitsValueNat(d.year);
    assert Pad2(d.day)[0] != ' ';
  }

  // ---------------------------------------------------------------- Section

  /** The fields `Section.__init__` stores; the school is missing when the staff
      table had no school for the row. */
  datatype Section = Section(school: Option<string>, corpsMember: string, program: string,
                             inAfterSch: string, startDate: string, endDate: string, nickname: string)

  /** `Section(...)`: both dates are validated, the start date first. */
  function MakeSection(school: Option<string>, corpsMember: string, program: string, inAfterSch: string,
                       startDate: string, endDate: string, nickname: string): (r: Result<Section>)
    ensures r.Ok? <==> ValidDate(startDate) && ValidDate(endDate)
    ensures r.Err? ==> r.exc == ValueError
    ensures r.Ok? ==> r.value == Section(school, corpsMember, program, inAfterSch, startDate, endDate, nickname)
  {
    if !ValidDate(startDate) then Err(ValueError)
    else if !ValidDate(endDate) then Err(ValueError)
    else Ok(Section(school, corpsMember, program, inAfterSch, startDate, endDate, nickname))
  }

  /** `s.replace("'", "\\'")`, as written: a backslash in the value is left as it is. */
  function Quoted(s: string): string
  {
    Escape(s, '\'', '\\')
  }

  /** The escaping a SOQL literal needs: each backslash and each quote gets a
      backslash before it. */
  function SoqlQuoted(s: string): (r: string)
    ensures |r| >= |s|
  {
    if |s| == 0 then ""
    else (if s[0] == '\\' || s[0] == '\'' then ['\\', s[0]] else [s[0]]) + SoqlQuoted(s[1..])
  }

  /** On a value without a backslash, the escaping as written is the escaping
      SOQL needs. */
  lemma {:induction false} QuotedAgrees(s: string)
    requires '\\' !in s
    ensures Quoted(s) == SoqlQuoted(s)
  {
    if |s| > 0 {
      assert '\\' !in s[1..] by {
        forall i | 0 <= i < |s[1..]| ensures s[1..][i] != '\\' {
          assert s[1..][i] == s[i + 1];
        }
      }
      QuotedAgrees(s[1..]);
    }
  }

  /** How SOQL reads a string literal from just after its opening quote: a
      backslash takes the next character literally and the first other `'` closes
      the literal. The result is the value read and the index of the closing
      quote, or nothing when the text ends first. */
  function ReadLiteral(s: string): (r: Option<(string, nat)>)
    ensures r.Some? ==> r.value.1 < |s| && s[r.value.1] == '\''
    decreases |s|
  {
    if |s| == 0 then None
    else if s[0] == '\'' then Some(("", 0))
    else if s[0] == '\\' && |s| >= 2 then
      match ReadLiteral(s[2..])
      case None => None
      case Some(p) => Some(([s[1]] + p.0, p.1 + 2))
    else
      match ReadLiteral(s[1..])
      case None => None
      case Some(p) => Some(([s[0]] + p.0, p.1 + 1))
  }

  /** An escaped value followed by the closing quote reads back as exactly the
      value, and its literal closes at that quote, whatever text follows. */
  lemma {:induction false} SoqlQuotedReadsBack(x: string, rest: string)
    ensures var r := ReadLiteral(SoqlQuoted(x) + "'" + rest);
      r.Some? && r.value.0 == x && r.value.1 == |SoqlQuoted(x)|
  {
    if |x| == 0 {
      assert SoqlQuoted(x) + "'" + rest == "'" + rest;
    } else {
      var e := if x[0] == '\\' || x[0] == '\'' then ['\\', x[0]] else [x[0]];
      var q := SoqlQuoted(x[1..]);
      var tail := q + "'" + rest;
      SoqlQuotedReadsBack(x[1..], rest);
      var p := ReadLiteral(tail).value;
      assert SoqlQuoted(x) == e + q;
      assert SoqlQuoted(x) + "'" + rest == e + tail by {
        PrefixAssoc(e, q, "'", rest);
      }
      if x[0] == '\\' || x[0] == '\'' {
        ReadPair(x[0], tail);
      } else {
        ReadPlain(x[0], tail);
      }
      assert [x[0]] + p.0 == x;
    }
  }

  /** Regrouping an escaped prefix and the rest of the query text. */
  lemma PrefixAssoc(e: string, q: string, c: string, rest: string)
    ensures (e + q) + c + rest == e + (q + c + rest)
  {
  }

  /** Reading a backslash pair takes its second character literally. */
  lemma ReadPair(c: char, t: string)
    ensures ReadLiteral(['\\', c] + t) ==
      match ReadLiteral(t) case None => None case Some(p) => Some(([c] + p.0, p.1 + 2))
  {
    assert (['\\', c] + t)[2..] == t;
  }

  /** Reading a character that is neither a backslash nor a quote keeps it. */
  lemma ReadPlain(c: char, t: string)
    requires c != '\\' && c != '\''
    ensures ReadLiteral([c] + t) ==
      match ReadLiteral(t) case None => None case Some(p) => Some(([c] + p.0, p.1 + 1))
  {
    assert ([c] + t)[1..] == t;
  }

  /** As written, the value `x\'` is sent as `x\\'`: SOQL reads `x\` and the
      value's own quote closes the literal one character early. */
  lemma QuotedEndsEarly()
    ensures Quoted("x\\'") == "x\\\\'"
    ensures var r := ReadLiteral(Quoted("x\\'") + "'"); r.Some? && r.value.0 == "x\\" && r.value.1 == 3
    ensures var r := ReadLiteral(SoqlQuoted("x\\'") + "'");
      r.Some? && r.value.0 == "x\\'" && r.value.1 == |SoqlQuoted("x\\'")|
  {
    assert Quoted("x\\'") == "x\\\\'" by {
      assert "x\\'"[1..] == "\\'";
      assert "\\'"[1..] == "'";
      assert "'"[1..] == "";
    }
    assert Quoted("x\\'") + "'" == ['x'] + (['\\', '\\'] + "''");
    assert ReadLiteral("''") == Some(("", 0));
    ReadPair('\\', "''");
    ReadPlain('x', ['\\', '\\'] + "''");
    SoqlQuotedReadsBack("x\\'", "");
    assert SoqlQuoted("x\\'") + "'" + "" == SoqlQuoted("x\\'") + "'";
  }

  const QueryHead: string := "        SELECT Id\n        FROM Section__c\n        WHERE Program__r.Name = '"
  const QueryStaff: string := "'" + StaffCondition
  const StaffCondition: string := "\n          AND Intervention_Primary_Staff__r.Name = '"
  const QuerySchool: string := "'\n          AND School__r.Name = '"
  const QueryTail: string := "'\n        "

  /** The query of `check_exists`, with the values escaped as SOQL needs; a
      missing school has no `replace` (AttributeError). Read from just after the
      opening quote of the program's literal, the query gives back the program
      and closes that literal where the staff condition begins. */
  function CheckExistsQuery(sec: Section): (r: Result<string>)
    ensures r.Err? <==> sec.school.None?
    ensures r.Err? ==> r.exc == AttributeError
    ensures r.Ok? ==> StartsWith(r.value, QueryHead + SoqlQuoted(sec.program) + QueryStaff)
    ensures r.Ok? ==> |QueryHead| <= |r.value|
    ensures r.Ok? ==> var p := ReadLiteral(r.value[|QueryHead|..]);
      p.Some? && p.value.0 == sec.program && p.value.1 == |SoqlQuoted(sec.program)|
  {
    if sec.school.None? then Err(AttributeError)
    else
      QueryOfReadsProgram(sec.program, sec.corpsMember, sec.school.value);
      Ok(QueryOf(sec.program, sec.corpsMember, sec.school.value))
  }

  function QueryOf(program: string, staff: string, school: string): string
  {
    QueryHead + (SoqlQuoted(program) + (QueryStaff + QueryRest(staff, school)))
  }

  function QueryRest(staff: string, school: string): string
  {
    SoqlQuoted(staff) + QuerySchool + SoqlQuoted(school) + QueryTail
  }

  lemma QueryOfReadsProgram(program: string, staff: string, school: string)
    ensures StartsWith(QueryOf(program, staff, school), QueryHead + SoqlQuoted(program) + QueryStaff)
    ensures |QueryHead| <= |QueryOf(program, staff, school)|
    ensures var p := ReadLiteral(QueryOf(program, staff, school)[|QueryHead|..]);
      p.Some? && p.value.0 == program && p.value.1 == |SoqlQuoted(program)|
  {
    var rest := QueryRest(staff, school);
    Regroup(QueryHead, SoqlQuoted(program), StaffCondition, rest);
    SoqlQuotedReadsBack(program, StaffCondition + rest);
  }

  /** The query of `check_exists` as the source builds it, with `Quoted`. */
  function QueryOfAsWritten(program: string, staff: string, school: string): string
  {
    QueryHead + (Quoted(program) + (QueryStaff + (Quoted(staff) + QuerySchool + Quoted(school) + QueryTail)))
  }

  /** When no value holds a backslash, the query modelled is the very text the
      source sends. */
  lemma CheckExistsQueryAsSent(sec: Section)
    requires sec.school.Some?
    requires '\\' !in sec.program && '\\' !in sec.corpsMember && '\\' !in sec.school.value
    ensures CheckExistsQuery(sec) == Ok(QueryOfAsWritten(sec.program, sec.corpsMember, sec.school.value))
  {
    QuotedAgrees(sec.program);
    QuotedAgrees(sec.corpsMember);
    QuotedAgrees(sec.school.value);
  }

  /** The query text split at the program's literal, on any strings. */
  lemma Regroup(h: string, v: string, c: string, x: string)
    ensures var q := h + (v + (("'" + c) + x));
      q[|h|..] == v + "'" + (c + x) && StartsWith(q, h + v + ("'" + c))
  {
    var q := h + (v + (("'" + c) + x));
    assert q[|h|..] == v + (("'" + c) + x);
    assert q[..|h + v + ("'" + c)|] == h + v + ("'" + c);
  }

  /** Every quote in a value escaped as written is preceded by a backslash, and
      reading the pairs `\'` back gives the value. This does not keep the literal
      closed: a backslash already in the value pairs with the added one (see
      QuotedEndsEarly). */
  lemma QuotedValueSafe(x: string)
    ensures Unescape(Quoted(x), '\'', '\\') == x
    ensures forall i :: 0 <= i < |Quoted(x)| && Quoted(x)[i] == '\'' ==> i > 0 && Quoted(x)[i - 1] == '\\'
  {
    UnescapeEscape(x, '\'', '\\');
    EscapedQuotesGuarded(x, '\'', '\\');
  }

  /** `check_exists`: the first record's Id, or nothing when the query returns no
      records. `execute` gives the Ids of the records a query returns, in order. */
  function CheckExists(sec: Section, execute: string -> seq<string>): (r: Result<Option<string>>)
    ensures r.Err? <==> sec.school.None?
    ensures r.Ok? ==> (r.value.None? <==> |execute(CheckExistsQuery(sec).value)| == 0)
    ensures r.Ok? && r.value.Some? ==> r.value.value == execute(CheckExistsQuery(sec).value)[0]
  {
    match CheckExistsQuery(sec)
    case Err(e) => Err(e)
    case Ok(q) =>
      var ids := execute(q);
      if |ids| == 0 then Ok(None) else Ok(Some(ids[0]))
  }

  /** One browser action of `create`. */
  datatype Step =
    | OpenDriver      // get_driver() and open_cyschoolhouse
    | OpenForm        // the IM_AddStudentsToPrograms page
    | SetSchool | SetProgram | SetCorpsMember | SetStartDate | SetEndDate | SetInAfterSch
    | SaveSection
    | SetNickname

  const FormSteps: seq<Step> :=
    [OpenForm, SetSchool, SetProgram, SetCorpsMember, SetStartDate, SetEndDate, SetInAfterSch, SaveSection]

  /** `if exists_as_id:` — an Id that is present and not empty. */
  predicate Truthy(found: Option<string>)
  {
    found.Some? && found.value != ""
  }

  /** What `create` did: the value it returned and the browser actions it took. */
  datatype Created = Created(returned: Option<string>, steps: seq<Step>)

  /** `Section.create`: an existing section's Id is returned with no browser
      action; otherwise the form is filled and saved, after opening a driver when
      none was given, and the nickname is set only when there is one. */
  function Create(sec: Section, execute: string -> seq<string>, haveDriver: bool): (r: Result<Created>)
    ensures r.Err? <==> sec.school.None?
    ensures r.Ok? && Truthy(CheckExists(sec, execute).value) ==>
      r.value == Created(CheckExists(sec, execute).value, [])
    ensures r.Ok? && !Truthy(CheckExists(sec, execute).value) ==>
      r.value.returned.None? &&
      (OpenDriver in r.value.steps <==> !haveDriver) &&
      (SetNickname in r.value.steps <==> sec.nickname != "")
  {
    match CheckExists(sec, execute)
    case Err(e) => Err(e)
    case Ok(found) =>
      if Truthy(found) then Ok(Created(found, []))
      else
        var steps := (if haveDriver then [] else [OpenDriver]) + FormSteps +
          (if sec.nickname != "" then [SetNickname] else []);
        Ok(Created(None, steps))
  }

  /** When a section is created the form is saved before the nickname is set,
      and the nickname step, if any, is the last. */
  lemma CreateOrder(sec: Section, execute: string -> seq<string>, haveDriver: bool)
    requires Create(sec, execute, haveDriver).Ok?
    requires !Truthy(CheckExists(sec, execute).value)
    ensures var st := Create(sec, execute, haveDriver).value.steps;
      SaveSection in st &&
      (sec.nickname != "" ==> st[|st| - 1] == SetNickname && st[|st| - 2] == SaveSection) &&
      (sec.nickname == "" ==> st[|st| - 1] == SaveSection)
  {
    var st := Create(sec, execute, haveDriver).value.steps;
    var pre := if haveDriver then [] else [OpenDriver];
    assert st[|pre| + 7] == SaveSection;
  }

  // ---------------------------------------------------------------- Sections

  const SectionPrograms: seq<string> := [
    "Tutoring: Math", "Tutoring: Literacy", "Coaching: Attendance", "SEL Check In Check Out",
    "Homework Assistance", "Math Inventory", "Reading Inventory", "DESSA"]

  /** An argument that may be one string or a list of strings. */
  datatype StrOrList = One(s: string) | Many(items: seq<string>)

  /** `if isinstance(x, str): x = [x]`. */
  function AsList(x: StrOrList): (r: seq<string>)
    ensures x.One? ==> r == [x.s]
    ensures x.Many? ==> r == x.items
  {
    match x
    case One(s) => [s]
    case Many(l) => l
  }

  /** The fields `Sections.__init__` stores. */
  datatype Sections = Sections(program: string, acmRoles: seq<string>, schools: Option<seq<string>>)

  /** `Sections(program, acm_roles, schools)`: only the eight listed programs. */
  function MakeSections(program: string, acmRoles: StrOrList, schools: Option<StrOrList>): (r: Result<Sections>)
    ensures r.Ok? <==> program in SectionPrograms
    ensures r.Err? ==> r.exc == AssertionError
    ensures r.Ok? ==> (r.value.program == program && r.value.acmRoles == AsList(acmRoles) &&
      (schools.None? <==> r.value.schools.None?) &&
      (schools.Some? ==> r.value.schools == Some(AsList(schools.value))))
  {
    if program !in SectionPrograms then Err(AssertionError)
    else Ok(Sections(program, AsList(acmRoles), if schools.Some? then Some(AsList(schools.value)) else None))
  }

  /** `miri_map`: the tutoring program an inventory program follows. */
  function TutoringFor(program: string): (r: string)
    requires program in MiriSections
    ensures r in CpSections && Inventory(r) == program
  {
    if program == "Math Inventory" then "Tutoring: Math" else "Tutoring: Literacy"
  }

  /** The `Intervention_Primary_Staff__c` column of a section table. */
  function SectionStaff(rows: seq<SectionRow>): seq<Option<string>>
  {
    Map(rows, (r: SectionRow) => r.section.staff)
  }

  /** Some section of a program named `name` has `staff` as primary staff. */
  predicate HoldsSection(staff: Option<string>, programs: seq<Program>, sections: seq<SectionRec>, name: string)
  {
    exists s, p :: s in sections && p in programs && p.name == name && s.program == Some(p.id) && s.staff == staff
  }

  lemma SectionStaffIn(programs: seq<Program>, sections: seq<SectionRec>, name: string, x: Option<string>)
    ensures x in SectionStaff(SectionTable(programs, sections, OneName(name))) <==>
      HoldsSection(x, programs, sections, name)
  {
    var rows := SectionTable(programs, sections, OneName(name));
    if x in SectionStaff(rows) {
      var k :| 0 <= k < |rows| && rows[k].section.staff == x;
      GetSectionDfMembers(programs, sections, OneName(name), rows[k]);
    }
    if HoldsSection(x, programs, sections, name) {
      var s, p :| s in sections && p in programs && p.name == name && s.program == Some(p.id) && s.staff == x;
      GetSectionDfMembers(programs, sections, OneName(name), SectionRow(s, Some(p.name)));
      var k := FirstIndex(rows, SectionRow(s, Some(p.name)));
      assert SectionStaff(rows)[k] == x;
    }
  }

  predicate NotIn(x: Option<string>, l: seq<Option<string>>) { x !in l }

  /** The tutoring sections of the program an inventory follows, minus those whose
      staff member already has a section of the inventory program. */
  function TutoringWithoutInventory(program: string, programs: seq<Program>, sections: seq<SectionRec>): seq<SectionRow>
    requires program in MiriSections
  {
    var miri := SectionTable(programs, sections, OneName(program));
    var cp := SectionTable(programs, sections, OneName(TutoringFor(program)));
    Filter(cp, (s: SectionRow) => NotIn(s.section.staff, SectionStaff(miri)))
  }

  predicate HasStaffIn(r: StaffRow, l: seq<Option<string>>) { Some(r.staff.id) in l }

  /** The staff members who still need a section of the program. */
  function Candidates(program: string, programs: seq<Program>, sections: seq<SectionRec>, rows: seq<StaffRow>): seq<StaffRow>
  {
    if program in MiriSections then
      Filter(rows, (r: StaffRow) => HasStaffIn(r, SectionStaff(TutoringWithoutInventory(program, programs, sections))))
    else
      Filter(rows, (r: StaffRow) => !HasStaffIn(r, SectionStaff(SectionTable(programs, sections, OneName(program)))))
  }

  predicate AtSchoolIn(r: StaffRow, schools: seq<string>)
  {
    r.school.Some? && r.school.value in schools
  }

  /** `if self.schools: staff_df.query("School in @self.schools")`. */
  function SchoolFiltered(rows: seq<StaffRow>, schools: Option<seq<string>>): seq<StaffRow>
  {
    if schools.Some? && |schools.value| > 0 then Filter(rows, (r: StaffRow) => AtSchoolIn(r, schools.value))
    else rows
  }

  predicate SchoolOk(r: StaffRow, schools: Option<seq<string>>)
  {
    schools.None? || |schools.value| == 0 || AtSchoolIn(r, schools.value)
  }

  /** The staff rows `create_all` creates sections for, with the evidently intended
      role filter of `get_staff_df(roles=...)`. */
  function StaffToCreate(cfg: Sections, programs: seq<Program>, sections: seq<SectionRec>,
                         accounts: seq<Account>, staff: seq<StaffRec>): seq<StaffRow>
  {
    var rows := FilterStaff(StaffTable(accounts, staff), Some(cfg.acmRoles), None);
    SchoolFiltered(Candidates(cfg.program, programs, sections, rows), cfg.schools)
  }

  lemma SchoolFilteredIn(rows: seq<StaffRow>, schools: Option<seq<string>>, y: StaffRow)
    ensures y in SchoolFiltered(rows, schools) <==> y in rows && SchoolOk(y, schools)
  {
    if schools.Some? && |schools.value| > 0 {
      FilterIn(rows, (r: StaffRow) => AtSchoolIn(r, schools.value), y);
    }
  }

  /** For an inventory program: exactly the staff rows with a wanted role and
      school whose staff member has a section of the matching tutoring program and
      none of the inventory program. */
  lemma StaffToCreateMiri(cfg: Sections, programs: seq<Program>, sections: seq<SectionRec>,
                          accounts: seq<Account>, staff: seq<StaffRec>, y: StaffRow)
    requires cfg.program in MiriSections
    ensures y in StaffToCreate(cfg, programs, sections, accounts, staff) <==>
      y in FilterStaff(StaffTable(accounts, staff), Some(cfg.acmRoles), None) &&
      HoldsSection(Some(y.staff.id), programs, sections, TutoringFor(cfg.program)) &&
      !HoldsSection(Some(y.staff.id), programs, sections, cfg.program) &&
      SchoolOk(y, cfg.schools)
  {
    var rows := FilterStaff(StaffTable(accounts, staff), Some(cfg.acmRoles), None);
    var miriStaff := SectionStaff(SectionTable(programs, sections, OneName(cfg.program)));
    var cp := SectionTable(programs, sections, OneName(TutoringFor(cfg.program)));
    var keep := (s: SectionRow) => NotIn(s.section.staff, miriStaff);
    var left := TutoringWithoutInventory(cfg.program, programs, sections);
    var x := Some(y.staff.id);
    SchoolFilteredIn(Candidates(cfg.program, programs, sections, rows), cfg.schools, y);
    FilterIn(rows, (r: StaffRow) => HasStaffIn(r, SectionStaff(left)), y);
    SectionStaffIn(programs, sections, cfg.program, x);
    SectionStaffIn(programs, sections, TutoringFor(cfg.program), x);
    if x in SectionStaff(left) {
      var k :| 0 <= k < |left| && left[k].section.staff == x;
      FilterIn(cp, keep, left[k]);
      var j := FirstIndex(cp, left[k]);
      assert SectionStaff(cp)[j] == x;
    }
    if x in SectionStaff(cp) && x !in miriStaff {
      var j :| 0 <= j < |cp| && cp[j].section.staff == x;
      FilterIn(cp, keep, cp[j]);
      var k := FirstIndex(left, cp[j]);
      assert SectionStaff(left)[k] == x;
    }
  }

  /** For any other program: exactly the staff rows with a wanted role and school
      whose staff member has no section of the program. */
  lemma StaffToCreateOther(cfg: Sections, programs: seq<Program>, sections: seq<SectionRec>,
                           accounts: seq<Account>, staff: seq<StaffRec>, y: StaffRow)
    requires cfg.program !in MiriSections
    ensures y in StaffToCreate(cfg, programs, sections, accounts, staff) <==>
      y in FilterStaff(StaffTable(accounts, staff), Some(cfg.acmRoles), None) &&
      !HoldsSection(Some(y.staff.id), programs, sections, cfg.program) &&
      SchoolOk(y, cfg.schools)
  {
    var rows := FilterStaff(StaffTable(accounts, staff), Some(cfg.acmRoles), None);
    var held := SectionStaff(SectionTable(programs, sections, OneName(cfg.program)));
    SchoolFilteredIn(Candidates(cfg.program, programs, sections, rows), cfg.schools, y);
    FilterIn(rows, (r: StaffRow) => !HasStaffIn(r, held), y);
    SectionStaffIn(programs, sections, cfg.program, Some(y.staff.id));
  }

  /** The section `create_all` builds for a staff row. */
  function SectionFor(cfg: Sections, inSch: string, startDate: string, endDate: string, r: StaffRow): Section
  {
    Section(r.school, r.staff.name, cfg.program, inSch, startDate, endDate, "")
  }

  /** Some query `create_all` makes has an empty `IN ()`: no program bears the
      name asked for (the inventory program or, for an inventory, its tutoring
      program), or there is no account to take staff from. */
  predicate QueriesFail(cfg: Sections, programs: seq<Program>, accounts: seq<Account>)
  {
    NoneNamed(programs, [cfg.program]) ||
    (cfg.program in MiriSections && NoneNamed(programs, [TutoringFor(cfg.program)])) ||
    |accounts| == 0
  }

  /** The checks and planning of `create_all`, with the evidently intended calls
      `get_section_df(program)` and the role filter. The queries run in the
      source's order: for an inventory the two section tables then the staff
      table, otherwise the staff table then the sections of the program. */
  function CreateAllPlan(cfg: Sections, inSch: string, startDate: string, endDate: string,
                         programs: seq<Program>, sections: seq<SectionRec>,
                         accounts: seq<Account>, staff: seq<StaffRec>): (r: Result<seq<Section>>)
    ensures r.Err? <==>
      (inSch !in InSchoolOptions || !ValidDate(startDate) || !ValidDate(endDate) || QueriesFail(cfg, programs, accounts))
    ensures inSch !in InSchoolOptions ==> r == Err(AssertionError)
    ensures inSch in InSchoolOptions && (!ValidDate(startDate) || !ValidDate(endDate)) ==> r == Err(ValueError)
    ensures (inSch in InSchoolOptions && ValidDate(startDate) && ValidDate(endDate) &&
             QueriesFail(cfg, programs, accounts)) ==> r == Err(MalformedQuery)
    ensures r.Ok? ==> var rows := StaffToCreate(cfg, programs, sections, accounts, staff);
      |r.value| == |rows| &&
      forall i :: 0 <= i < |rows| ==> r.value[i] == SectionFor(cfg, inSch, startDate, endDate, rows[i])
  {
    if inSch !in InSchoolOptions then Err(AssertionError)
    else if !ValidDate(startDate) || !ValidDate(endDate) then Err(ValueError)
    else if cfg.program in MiriSections then
      match GetSectionDf(programs, sections, OneName(cfg.program))
      case Err(e) => Err(e)
      case Ok(_) =>
        match GetSectionDf(programs, sections, OneName(TutoringFor(cfg.program)))
        case Err(e) => Err(e)
        case Ok(_) =>
          match GetStaffDf(accounts, staff)
          case Err(e) => Err(e)
          case Ok(_) => Plan(cfg, inSch, startDate, endDate, programs, sections, accounts, staff)
    else
      match GetStaffDf(accounts, staff)
      case Err(e) => Err(e)
      case Ok(_) =>
        match GetSectionDf(programs, sections, OneName(cfg.program))
        case Err(e) => Err(e)
        case Ok(_) => Plan(cfg, inSch, startDate, endDate, programs, sections, accounts, staff)
  }

  /** The sections planned once every query has succeeded. */
  function Plan(cfg: Sections, inSch: string, startDate: string, endDate: string,
                programs: seq<Program>, sections: seq<SectionRec>,
                accounts: seq<Account>, staff: seq<StaffRec>): Result<seq<Section>>
  {
    Ok(Map(StaffToCreate(cfg, programs, sections, accounts, staff),
           (r: StaffRow) => SectionFor(cfg, inSch, startDate, endDate, r)))
  }

  /** `create_all` as written: once the checks pass, `get_section_df(programs=...)`
      and `get_staff_df(roles=...)` pass keywords neither function takes. */
  function CreateAllPlanAsWritten(cfg: Sections, inSch: string, startDate: string, endDate: string): (r: Result<seq<Section>>)
    ensures r.Err?
  {
    if inSch !in InSchoolOptions then Err(AssertionError)
    else if !ValidDate(startDate) || !ValidDate(endDate) then Err(ValueError)
    else Err(TypeError)
  }

  /** As written, every call that passes the checks raises TypeError, so no section is planned. */
  lemma CreateAllAsWrittenRaises(cfg: Sections, inSch: string, startDate: string, endDate: string)
    requires inSch in InSchoolOptions && ValidDate(startDate) && ValidDate(endDate)
    ensures CreateAllPlanAsWritten(cfg, inSch, startDate, endDate) == Err(TypeError)
  {
  }

  // ---------------------------------------------------------------- the batch loops

  /** How one `section.create(driver)` call ended. */
  datatype Attempt = Done | Failed | Interrupted

  /** Where a batch stopped, and what it raised. */
  datatype Stop = Stop(at: nat, exc: Exc)

  /** A batch run: the row positions `create` was called on, the positions logged
      as failed, and the stop, if the loop did not finish. */
  datatype BatchRun = BatchRun(calls: seq<nat>, failed: seq<nat>, stop: Option<Stop>)

  /** A row whose `Section(...)` raised fails without a call to `create`. */
  function RowResult(item: Result<Section>, attempt: Section -> Attempt): Attempt
  {
    if item.Err? then Failed else attempt(item.value)
  }

  /** A row ends the loop: an interrupt, or a failure whose handler itself raises. */
  predicate Stops(item: Result<Section>, attempt: Section -> Attempt, handler: Option<Exc>)
  {
    RowResult(item, attempt) == Interrupted || (RowResult(item, attempt) == Failed && handler.Some?)
  }

  /** The first `n` rows of the loop. `handler` is what the `except Exception`
      branch raises itself (nothing for a handler that only logs). */
  function BatchUpTo(items: seq<Result<Section>>, attempt: Section -> Attempt, handler: Option<Exc>, n: nat): BatchRun
    requires n <= |items|
  {
    if n == 0 then BatchRun([], [], None)
    else
      var b := BatchUpTo(items, attempt, handler, n - 1);
      var k := n - 1;
      if b.stop.Some? then b
      else
        var calls := b.calls + (if items[k].Ok? then [k] else []);
        match RowResult(items[k], attempt)
        case Done => BatchRun(calls, b.failed, None)
        case Interrupted => BatchRun(calls, b.failed, Some(Stop(k, Interrupt)))
        case Failed =>
          if handler.Some? then BatchRun(calls, b.failed, Some(Stop(k, handler.value)))
          else BatchRun(calls, b.failed + [k], None)
  }

  function Batch(items: seq<Result<Section>>, attempt: Section -> Attempt, handler: Option<Exc>): BatchRun
  {
    BatchUpTo(items, attempt, handler, |items|)
  }

  predicate NoStopBefore(items: seq<Result<Section>>, attempt: Section -> Attempt, handler: Option<Exc>, i: nat)
    requires i <= |items|
  {
    forall j :: 0 <= j < i ==> !Stops(items[j], attempt, handler)
  }

  /** Where the loop stops: at the first row that ends it, raising an interrupt
      for an interrupted call and otherwise what the handler raises. */
  lemma {:induction false} BatchStopShape(items: seq<Result<Section>>, attempt: Section -> Attempt,
                                          handler: Option<Exc>, n: nat)
    requires n <= |items|
    ensures var b := BatchUpTo(items, attempt, handler, n);
      (b.stop.None? <==> NoStopBefore(items, attempt, handler, n)) &&
      (b.stop.Some? ==>
        b.stop.value.at < n && Stops(items[b.stop.value.at], attempt, handler) &&
        NoStopBefore(items, attempt, handler, b.stop.value.at) &&
        b.stop.value.exc == (if RowResult(items[b.stop.value.at], attempt) == Interrupted then Interrupt else handler.value))
  {
    if n > 0 {
      BatchStopShape(items, attempt, handler, n - 1);
      var b := BatchUpTo(items, attempt, handler, n - 1);
      if b.stop.None? {
        assert NoStopBefore(items, attempt, handler, n) <==> !Stops(items[n - 1], attempt, handler);
      }
    }
  }

  /** `create` is called on exactly the constructed rows the loop reaches. */
  lemma {:induction false} BatchCallsShape(items: seq<Result<Section>>, attempt: Section -> Attempt,
                                           handler: Option<Exc>, n: nat)
    requires n <= |items|
    ensures forall i: nat :: i in BatchUpTo(items, attempt, handler, n).calls <==>
      i < n && items[i].Ok? && NoStopBefore(items, attempt, handler, i)
  {
    if n > 0 {
      BatchCallsShape(items, attempt, handler, n - 1);
      BatchStopShape(items, attempt, handler, n - 1);
      var b := BatchUpTo(items, attempt, handler, n - 1);
      var c := BatchUpTo(items, attempt, handler, n);
      var tail := if b.stop.None? && items[n - 1].Ok? then [n - 1] else [];
      assert c.calls == b.calls + tail;
      forall i: nat
        ensures i in c.calls <==> i < n && items[i].Ok? && NoStopBefore(items, attempt, handler, i)
      {
        assert i in c.calls <==> i in b.calls || i in tail;
        if i == n - 1 {
          assert i !in b.calls;
          assert i in tail <==> items[i].Ok? && NoStopBefore(items, attempt, handler, i);
        } else {
          assert i !in tail;
        }
      }
    }
  }

  /** Exactly the failing rows the loop reaches are logged, and only when the
      handler does not raise. */
  lemma {:induction false} BatchFailedShape(items: seq<Result<Section>>, attempt: Section -> Attempt,
                                            handler: Option<Exc>, n: nat)
    requires n <= |items|
    ensures forall i: nat :: i in BatchUpTo(items, attempt, handler, n).failed <==>
      i < n && RowResult(items[i], attempt) == Failed && handler.None? && NoStopBefore(items, attempt, handler, i)
  {
    if n > 0 {
      BatchFailedShape(items, attempt, handler, n - 1);
      BatchStopShape(items, attempt, handler, n - 1);
    }
  }

  /** Once the loop has stopped, later rows change nothing. */
  lemma {:induction false} BatchStopped(items: seq<Result<Section>>, attempt: Section -> Attempt,
                                        handler: Option<Exc>, k: nat, n: nat)
    requires k <= n <= |items|
    requires BatchUpTo(items, attempt, handler, k).stop.Some?
    ensures BatchUpTo(items, attempt, handler, n) == BatchUpTo(items, attempt, handler, k)
  {
    if n > k {
      BatchStopped(items, attempt, handler, k, n - 1);
    }
  }

  /** The `for _, row in ...iterrows()` loop with its `try`/`except`. */
  method RunBatch(items: seq<Result<Section>>, attempt: Section -> Attempt, handler: Option<Exc>)
    returns (run: BatchRun)
    ensures run == Batch(items, attempt, handler)
  {
    run := BatchRun([], [], None);
    var i := 0;
    while i < |items| && run.stop.None?
      invariant 0 <= i <= |items|
      invariant run == BatchUpTo(items, attempt, handler, i)
    {
      var item := items[i];
      var result := Failed;
      if item.Ok? {
        run := run.(calls := run.calls + [i]);
        result := attempt(item.value);
      }
      if result == Interrupted {
        run := run.(stop := Some(Stop(i, Interrupt)));
      } else if result == Failed {
        if handler.Some? {
          run := run.(stop := Some(Stop(i, handler.value)));
        } else {
          run := run.(failed := run.failed + [i]);
        }
      }
      i := i + 1;
    }
    if i < |items| {
      BatchStopped(items, attempt, handler, i, |items|);
    }
  }

  function OkOf(s: Section): Result<Section> { Ok(s) }

  /** `create_all` with the evidently intended calls and a handler that only logs:
      a failed check raises before anything else; an empty plan returns before a
      driver is opened; otherwise a driver is opened when none was given and every
      planned section is tried. */
  method CreateAll(cfg: Sections, inSch: string, startDate: string, endDate: string,
                   programs: seq<Program>, sections: seq<SectionRec>,
                   accounts: seq<Account>, staff: seq<StaffRec>,
                   attempt: Section -> Attempt, haveDriver: bool)
    returns (err: Option<Exc>, openedDriver: bool, run: BatchRun)
    ensures var plan := CreateAllPlan(cfg, inSch, startDate, endDate, programs, sections, accounts, staff);
      (plan.Err? ==> err == Some(plan.exc) && !openedDriver && run == BatchRun([], [], None)) &&
      (plan.Ok? && |plan.value| == 0 ==> err.None? && !openedDriver && run == BatchRun([], [], None)) &&
      (plan.Ok? && |plan.value| > 0 ==>
        err.None? && openedDriver == !haveDriver && run == Batch(Map(plan.value, OkOf), attempt, None))
  {
    var plan := CreateAllPlan(cfg, inSch, startDate, endDate, programs, sections, accounts, staff);
    run := BatchRun([], [], None);
    openedDriver := false;
    if plan.Err? {
      return Some(plan.exc), openedDriver, run;
    }
    if |plan.value| == 0 {
      return None, openedDriver, run;
    }
    openedDriver := !haveDriver;
    run := RunBatch(Map(plan.value, OkOf), attempt, None);
    err := None;
  }

  /** The handler of `create_all` as written: its log message reads `row['ACM']`,
      which the staff table does not have. */
  const CreateAllHandlerAsWritten: Option<Exc> := Some(KeyError("ACM"))

  /** Two planned sections, the first failing: as written the handler's KeyError
      ends the loop before the second is tried; a handler that only logs goes on. */
  lemma HandlerKeyErrorStopsBatch(s1: Section, s2: Section, attempt: Section -> Attempt)
    requires attempt(s1) == Failed && attempt(s2) == Done
    ensures Batch([Ok(s1), Ok(s2)], attempt, CreateAllHandlerAsWritten) ==
      BatchRun([0], [], Some(Stop(0, KeyError("ACM"))))
    ensures Batch([Ok(s1), Ok(s2)], attempt, None) == BatchRun([0, 1], [0], None)
  {
    var items := [Ok(s1), Ok(s2)];
    assert BatchUpTo(items, attempt, CreateAllHandlerAsWritten, 0) == BatchRun([], [], None);
    assert RowResult(items[0], attempt) == Failed;
    assert BatchUpTo(items, attempt, CreateAllHandlerAsWritten, 1) == BatchRun([0], [], Some(Stop(0, KeyError("ACM"))));
    assert BatchUpTo([Ok(s1), Ok(s2)], attempt, None, 1) == BatchRun([0], [0], None);
  }

  /** One row of the section-creator spreadsheet, as `read_excel` gives it; dates are
      the values `pd.to_datetime` parsed, or missing. */
  datatype InputRow = InputRow(
    school: Option<string>, acm: Option<string>, sectionName: Option<string>, inSchOrExt: Option<string>,
    startDate: Option<CalDate>, endDate: Option<CalDate>)

  predicate Formattable(d: CalDate)
  {
    1000 <= d.year <= 9999 && d.month < 100 && d.day < 100
  }

  /** `.dt.strftime('%m/%d/%Y')` then `fillna('')`: a missing date becomes empty text. */
  function DateText(d: Option<CalDate>): string
  {
    if d.Some? && Formattable(d.value) then FormatDate(d.value) else ""
  }

  /** The `Section(...)` the batch builds from a spreadsheet row, missing cells filled with ''. */
  function InputSection(row: InputRow): Result<Section>
  {
    MakeSection(Some(row.school.GetOr("")), row.acm.GetOr(""), row.sectionName.GetOr(""),
                row.inSchOrExt.GetOr(""), DateText(row.startDate), DateText(row.endDate), "")
  }

  /** A row with two real dates becomes a section; a row with a missing date fails
      its `Section(...)` and is logged without a call to `create`. */
  lemma InputSectionDates(row: InputRow)
    ensures (row.startDate.Some? && row.endDate.Some? &&
      RealDate(row.startDate.value) && 1000 <= row.startDate.value.year <= 9999 &&
      RealDate(row.endDate.value) && 1000 <= row.endDate.value.year <= 9999) ==> InputSection(row).Ok?
    ensures row.startDate.None? || row.endDate.None? ==> InputSection(row) == Err(ValueError)
  {
    if row.startDate.Some? && RealDate(row.startDate.value) && 1000 <= row.startDate.value.year <= 9999 {
      ParseFormatDate(row.startDate.value);
    }
    if row.endDate.Some? && RealDate(row.endDate.value) && 1000 <= row.endDate.value.year <= 9999 {
      ParseFormatDate(row.endDate.value);
    }
    assert !ValidDate("") by {
      assert Split("", '/') == [""];
    }
  }

  /** `create_all_sections`: a driver is opened when none was given, and every
      spreadsheet row is tried; a failing row is logged and the loop goes on. */
  method CreateAllSections(rows: seq<InputRow>, attempt: Section -> Attempt, haveDriver: bool)
    returns (openedDriver: bool, run: BatchRun)
    ensures openedDriver == !haveDriver
    ensures run == Batch(Map(rows, InputSection), attempt, None)
  {
    openedDriver := !haveDriver;
    run := RunBatch(Map(rows, InputSection), attempt, None);
  }
}
