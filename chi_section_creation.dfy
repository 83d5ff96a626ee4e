/** Chicago section planning: which (staff member, program) sections still need
    creating. Academic sections come from the ACM deployment sheet, non-academic
    sections pair every Corps Member with two programs, and MI/RI sections follow
    existing tutoring sections in high schools. Each plan drops the pairs whose key
    an existing section already has, and is formatted into the section-creator table. */
module ChiSectionCreation {
  import opened Base
  import opened Strings
  import opened Seqs
  import opened SimpleCysh

  // ---------------------------------------------------------------- format_df

  /** A planned section before formatting: School, ACM and SectionName. */
  datatype Planned = Planned(school: Option<string>, acm: Option<string>, sectionName: Option<string>)

  /** One row of the section-creator table. */
  datatype SectionToCreate = SectionToCreate(
    school: Option<string>, acm: Option<string>, sectionName: Option<string>,
    inSchoolOrExtendedLearning: string, startDate: string, endDate: string, targetDosage: int)

  const InSchoolOptions: seq<string> := ["In School", "Extended Learning", "Curriculum"]

  /** `format_df`: the three planned columns and four constant ones, after
      asserting the in-school / extended-learning value. */
  function FormatDf(rows: seq<Planned>, startDate: string, endDate: string, inSchExtLrn: string,
                    targetDosage: int): (r: Result<seq<SectionToCreate>>)
    ensures r.Err? <==> inSchExtLrn !in InSchoolOptions
    ensures r.Err? ==> r.exc == AssertionError
    ensures r.Ok? ==>
      |r.value| == |rows| &&
      forall i :: 0 <= i < |rows| ==>
        r.value[i].inSchoolOrExtendedLearning == inSchExtLrn &&
        r.value[i].startDate == startDate && r.value[i].endDate == endDate &&
        r.value[i].targetDosage == targetDosage
  {
    if inSchExtLrn !in InSchoolOptions then Err(AssertionError)
    else Ok(Map(rows, (p: Planned) =>
      SectionToCreate(p.school, p.acm, p.sectionName, inSchExtLrn, startDate, endDate, targetDosage)))
  }

  function Unformat(s: SectionToCreate): Planned
  {
    Planned(s.school, s.acm, s.sectionName)
  }

  /** The planned rows survive formatting unchanged and in order. */
  lemma FormatDfKeepsRows(rows: seq<Planned>, startDate: string, endDate: string, inSchExtLrn: string,
                          targetDosage: int)
    requires inSchExtLrn in InSchoolOptions
    ensures Map(FormatDf(rows, startDate, endDate, inSchExtLrn, targetDosage).value, Unformat) == rows
  {
  }

  // ---------------------------------------------------------------- academic sections

  /** One row of the ACM deployment sheet, renamed: Staff__c_Name, Staff__c and
      the "Related IA (ELA/Math)" text. */
  datatype DepRow = DepRow(staffName: Option<string>, staffId: Option<string>, ia: Option<string>)

  /** A deployment row after cleaning. */
  datatype Deployed = Deployed(staffName: string, staffId: Option<string>, ia: string)

  predicate Named(d: DepRow)
  {
    d.staffName.Some?
  }

  /** Some kept row has no IA text. */
  predicate IaMissing(kept: seq<DepRow>)
  {
    exists i :: 0 <= i < |kept| && kept[i].ia.None?
  }

  /** A sheet with rows whose staff-name column or IA column is blank in every
      row: that column is read as numbers, and `.str` fails on it. */
  predicate BlankColumn(dep: seq<DepRow>)
  {
    |dep| > 0 && ((forall i :: 0 <= i < |dep| ==> dep[i].staffName.None?) ||
                  (forall i :: 0 <= i < |dep| ==> dep[i].ia.None?))
  }

  /** Rows without a staff name are dropped; names are trimmed and the IA text is
      trimmed and upper-cased. A column blank throughout makes `.str` raise
      AttributeError; otherwise a kept row without IA text makes the
      `str.contains` mask hold a missing value, which `.loc` rejects with
      ValueError. */
  function CleanDeployment(dep: seq<DepRow>): (r: Result<seq<Deployed>>)
    ensures var kept := Filter(dep, Named);
      (r.Err? <==> BlankColumn(dep) || IaMissing(kept)) &&
      (r.Err? ==> r.exc == (if BlankColumn(dep) then AttributeError else ValueError)) &&
      (r.Ok? ==>
        |r.value| == |kept| &&
        forall i :: 0 <= i < |kept| ==>
          r.value[i] == Deployed(Strip(kept[i].staffName.value), kept[i].staffId, Upper(Strip(kept[i].ia.value))))
  {
    var kept := Filter(dep, Named);
    if BlankColumn(dep) then Err(AttributeError)
    else if IaMissing(kept) then Err(ValueError)
    else Ok(seq(|kept|, i requires 0 <= i < |kept| =>
      Deployed(Strip(kept[i].staffName.value), kept[i].staffId, Upper(Strip(kept[i].ia.value)))))
  }

  /** Every named row reaches the cleaned table, trimmed and upper-cased; no
      unnamed row does. */
  lemma CleanDeploymentRows(dep: seq<DepRow>, d: DepRow)
    requires CleanDeployment(dep).Ok? && d in dep
    ensures d.staffName.Some? ==>
      d.ia.Some? &&
      Deployed(Strip(d.staffName.value), d.staffId, Upper(Strip(d.ia.value))) in CleanDeployment(dep).value
  {
    FilterIn(dep, Named, d);
    if d.staffName.Some? {
      var kept := Filter(dep, Named);
      var i := FirstIndex(kept, d);
      assert CleanDeployment(dep).value[i] == Deployed(Strip(d.staffName.value), d.staffId, Upper(Strip(d.ia.value)));
    }
  }

  /** A (staff, program) pair: Staff__c_Name, Staff__c and Program__c_Name. */
  datatype Pair = Pair(staffName: string, staffId: Option<string>, program: string)

  predicate WantsMath(d: Deployed) { Contains(d.ia, "MATH") }
  predicate WantsEla(d: Deployed) { Contains(d.ia, "ELA") }

  function MathPair(d: Deployed): Pair { Pair(d.staffName, d.staffId, "Tutoring: Math") }
  function ElaPair(d: Deployed): Pair { Pair(d.staffName, d.staffId, "Tutoring: Literacy") }

  /** `pd.melt` over SectionName_MATH then SectionName_ELA, dropping missing values:
      every MATH row first, then every ELA row. */
  function Melt(rows: seq<Deployed>): (r: seq<Pair>)
    ensures |r| == CountWhere(rows, WantsMath) + CountWhere(rows, WantsEla)
  {
    Map(Filter(rows, WantsMath), MathPair) + Map(Filter(rows, WantsEla), ElaPair)
  }

  /** One deployment row yields a Math pair when its text contains MATH, a Literacy
      pair when it contains ELA, both or neither. */
  lemma MeltOne(d: Deployed)
    ensures Melt([d]) == (if WantsMath(d) then [MathPair(d)] else []) + (if WantsEla(d) then [ElaPair(d)] else [])
  {
    assert [d][1..] == [];
  }

  /** A pair is planned exactly when some deployment row asks for it. */
  lemma MeltMembers(rows: seq<Deployed>, p: Pair)
    ensures p in Melt(rows) <==>
      exists i :: 0 <= i < |rows| &&
        ((WantsMath(rows[i]) && p == MathPair(rows[i])) || (WantsEla(rows[i]) && p == ElaPair(rows[i])))
  {
    MapFilterIn(rows, WantsMath, MathPair, p);
    MapFilterIn(rows, WantsEla, ElaPair, p);
  }

  /** `Staff__c + '_' + Program__c_Name`, missing when the staff id is. */
  function PairKey(p: Pair): Option<string>
  {
    if p.staffId.Some? then Some(p.staffId.value + "_" + p.program) else None
  }

  /** `Intervention_Primary_Staff__c + sep + Program__c_Name`, missing when either part is. */
  function SectionKey(s: SectionRow, sep: string): Option<string>
  {
    if s.section.staff.Some? && s.programName.Some? then Some(s.section.staff.value + sep + s.programName.value)
    else None
  }

  function SectionKeys(sections: seq<SectionRow>, sep: string): seq<Option<string>>
  {
    Map(sections, (s: SectionRow) => SectionKey(s, sep))
  }

  /** `~key.isin(section_df['key'])` (a missing key matches a missing key). */
  function NotYetCreated(pairs: seq<Pair>, sections: seq<SectionRow>): (r: seq<Pair>)
    ensures |r| <= |pairs|
  {
    Filter(pairs, (p: Pair) => PairKey(p) !in SectionKeys(sections, "_"))
  }

  /** A pair is dropped exactly when an existing section has its key. */
  lemma NotYetCreatedMembers(pairs: seq<Pair>, sections: seq<SectionRow>, p: Pair)
    ensures p in NotYetCreated(pairs, sections) <==>
      p in pairs && forall j :: 0 <= j < |sections| ==> SectionKey(sections[j], "_") != PairKey(p)
  {
    FilterIn(pairs, (x: Pair) => PairKey(x) !in SectionKeys(sections, "_"), p);
  }

  predicate SameName(p: Pair, s: StaffRow) { s.staff.name == p.staffName }

  function Joined(p: Pair, s: StaffRow): Planned
  {
    Planned(s.school, Some(p.staffName), Some(p.program))
  }

  function JoinOne(p: Pair, staff: seq<StaffRow>): seq<Planned>
  {
    Map(Filter(staff, (s: StaffRow) => SameName(p, s)), (s: StaffRow) => Joined(p, s))
  }

  /** The inner join with the staff table on Staff__c_Name, adding School. */
  function JoinSchool(pairs: seq<Pair>, staff: seq<StaffRow>): seq<Planned>
  {
    FlatMap(pairs, (p: Pair) => JoinOne(p, staff))
  }

  /** A joined row is a pair and a staff row with the same name; unmatched pairs are dropped. */
  lemma JoinSchoolMembers(pairs: seq<Pair>, staff: seq<StaffRow>, y: Planned)
    ensures y in JoinSchool(pairs, staff) <==>
      exists i, k :: 0 <= i < |pairs| && 0 <= k < |staff| && SameName(pairs[i], staff[k]) &&
        y == Joined(pairs[i], staff[k])
  {
    FlatMapIn(pairs, (p: Pair) => JoinOne(p, staff), y);
    forall i | 0 <= i < |pairs|
      ensures y in JoinOne(pairs[i], staff) <==>
        exists k :: 0 <= k < |staff| && SameName(pairs[i], staff[k]) && y == Joined(pairs[i], staff[k])
    {
      MapFilterIn(staff, (s: StaffRow) => SameName(pairs[i], s), (s: StaffRow) => Joined(pairs[i], s), y);
    }
  }

  /** A planned row names a tutoring program and takes ACM and school from one staff row. */
  predicate TutoringOfStaff(y: Planned, staff: seq<StaffRow>)
  {
    (y.sectionName == Some("Tutoring: Math") || y.sectionName == Some("Tutoring: Literacy")) &&
    exists k :: 0 <= k < |staff| && y.acm == Some(staff[k].staff.name) && y.school == staff[k].school
  }

  /** The plan of `academic_sections_to_create` before formatting: it fails as
      cleaning the sheet does, and otherwise plans tutoring sections of staff
      members found in the staff table, with their school. */
  function AcademicPlan(dep: seq<DepRow>, sections: seq<SectionRow>, staff: seq<StaffRow>): (r: Result<seq<Planned>>)
    ensures r.Err? <==> CleanDeployment(dep).Err?
    ensures r.Err? ==> r.exc == (if BlankColumn(dep) then AttributeError else ValueError)
    ensures r.Ok? ==> forall y :: y in r.value ==> TutoringOfStaff(y, staff)
  {
    match CleanDeployment(dep)
    case Err(e) => Err(e)
    case Ok(rows) =>
      AcademicRows(rows, sections, staff);
      Ok(JoinSchool(NotYetCreated(Melt(rows), sections), staff))
  }

  lemma AcademicRows(rows: seq<Deployed>, sections: seq<SectionRow>, staff: seq<StaffRow>)
    ensures forall y :: y in JoinSchool(NotYetCreated(Melt(rows), sections), staff) ==> TutoringOfStaff(y, staff)
  {
    var kept := NotYetCreated(Melt(rows), sections);
    forall y | y in JoinSchool(kept, staff)
      ensures TutoringOfStaff(y, staff)
    {
      JoinSchoolMembers(kept, staff, y);
      var i, k :| 0 <= i < |kept| && 0 <= k < |staff| && SameName(kept[i], staff[k]) && y == Joined(kept[i], staff[k]);
      NotYetCreatedMembers(Melt(rows), sections, kept[i]);
      MeltMembers(rows, kept[i]);
    }
  }

  const AcademicPrograms: seq<string> := ["Tutoring: Literacy", "Tutoring: Math"]

  /** `academic_sections_to_create`: the deployment sheet is cleaned first, then
      the existing sections of the two tutoring programs and `get_staff_df()` are
      queried, and the plan is formatted in school with dosage 900. A sheet whose
      name or IA column is blank throughout raises AttributeError, one with a
      named row lacking its IA ValueError; a query with an empty `IN ()` raises
      MalformedQuery. */
  function AcademicSectionsToCreate(dep: seq<DepRow>, programs: seq<Program>, sections: seq<SectionRec>,
                                    accounts: seq<Account>, staff: seq<StaffRec>,
                                    startDate: string, endDate: string): (r: Result<seq<SectionToCreate>>)
    ensures CleanDeployment(dep).Err? ==> r == Err(if BlankColumn(dep) then AttributeError else ValueError)
    ensures CleanDeployment(dep).Ok? && (NoneNamed(programs, AcademicPrograms) || |accounts| == 0) ==>
      r == Err(MalformedQuery)
    ensures r.Ok? ==> !NoneNamed(programs, AcademicPrograms) && |accounts| > 0
    ensures r.Ok? ==>
      var plan := AcademicPlan(dep, SectionTable(programs, sections, Names(AcademicPrograms)), StaffTable(accounts, staff));
      plan.Ok? && r == FormatDf(plan.value, startDate, endDate, "In School", 900)
  {
    match CleanDeployment(dep)
    case Err(e) => Err(e)
    case Ok(_) =>
      match GetSectionDf(programs, sections, Names(AcademicPrograms))
      case Err(e) => Err(e)
      case Ok(existing) =>
        match GetStaffDf(accounts, staff)
        case Err(e) => Err(e)
        case Ok(staffDf) =>
          match AcademicPlan(dep, existing, staffDf)
          case Err(e) => Err(e)
          case Ok(plan) => FormatDf(plan, startDate, endDate, "In School", 900)
  }

  /** Every planned academic row is a tutoring section for a named deployed staff
      member whose key no existing section has, in school, with target dosage 900. */
  lemma AcademicPlanSound(dep: seq<DepRow>, sections: seq<SectionRow>, staff: seq<StaffRow>, y: Planned)
    requires AcademicPlan(dep, sections, staff).Ok? && y in AcademicPlan(dep, sections, staff).value
    ensures y.sectionName == Some("Tutoring: Math") || y.sectionName == Some("Tutoring: Literacy")
    ensures exists p :: (p in Melt(CleanDeployment(dep).value) &&
      y.acm == Some(p.staffName) && y.sectionName == Some(p.program) &&
      forall j :: 0 <= j < |sections| ==> SectionKey(sections[j], "_") != PairKey(p))
  {
    var rows := CleanDeployment(dep).value;
    var kept := NotYetCreated(Melt(rows), sections);
    JoinSchoolMembers(kept, staff, y);
    var p, s :| p in kept && s in staff && s.staff.name == p.staffName &&
      y == Planned(s.school, Some(p.staffName), Some(p.program));
    NotYetCreatedMembers(Melt(rows), sections, p);
    MeltMembers(rows, p);
  }

  lemma AcademicConstants(dep: seq<DepRow>, programs: seq<Program>, sections: seq<SectionRec>,
                          accounts: seq<Account>, staff: seq<StaffRec>, startDate: string, endDate: string)
    ensures var r := AcademicSectionsToCreate(dep, programs, sections, accounts, staff, startDate, endDate);
      r.Ok? ==> forall i :: 0 <= i < |r.value| ==>
        r.value[i].inSchoolOrExtendedLearning == "In School" && r.value[i].targetDosage == 900
  {
  }

  // ---------------------------------------------------------------- non-academic sections

  const NonAcademicPrograms: seq<string> := ["Coaching: Attendance", "SEL Check In Check Out"]

  /** `Role__c.str.contains('Corps Member') == True` (a missing role is not a match). */
  predicate IsCorpsMember(s: StaffRow)
  {
    s.staff.role.Some? && Contains(s.staff.role.value, "Corps Member")
  }

  /** A staff row paired with a section name. */
  datatype StaffSection = StaffSection(staff: StaffRow, sectionName: string)

  function WithEach(s: StaffRow, programs: seq<string>): seq<StaffSection>
  {
    Map(programs, (n: string) => StaffSection(s, n))
  }

  /** The `key=1` cross join: each staff row with each program, staff-major. */
  function CrossJoin(staff: seq<StaffRow>, programs: seq<string>): seq<StaffSection>
  {
    FlatMap(staff, (s: StaffRow) => WithEach(s, programs))
  }

  lemma {:induction false} CrossJoinLength(staff: seq<StaffRow>, programs: seq<string>)
    ensures |CrossJoin(staff, programs)| == |staff| * |programs|
  {
    if |staff| > 0 {
      CrossJoinLength(staff[1..], programs);
      assert |staff| * |programs| == |programs| + (|staff| - 1) * |programs|;
    }
  }

  /** `Staff__c + SectionName`, with no separator. */
  function StaffSectionKey(x: StaffSection): Option<string>
  {
    Some(x.staff.staff.id + x.sectionName)
  }

  /** A planned row names a non-academic program and takes ACM and school from a Corps Member. */
  predicate NonAcademicOfStaff(y: Planned, staff: seq<StaffRow>)
  {
    y.sectionName.Some? && y.sectionName.value in NonAcademicPrograms &&
    exists t :: t in staff && IsCorpsMember(t) && y.acm == Some(t.staff.name) && y.school == t.school
  }

  /** The plan of `non_academic_sections_to_create` before formatting: at most
      the two programs for each Corps Member, and nothing for anyone else. */
  function NonAcademicPlan(staff: seq<StaffRow>, sections: seq<SectionRow>): (r: seq<Planned>)
    ensures |r| <= |NonAcademicPrograms| * |staff|
    ensures forall y :: y in r ==> NonAcademicOfStaff(y, staff)
  {
    var pairs := CrossJoin(Filter(staff, IsCorpsMember), NonAcademicPrograms);
    var keep := (x: StaffSection) => StaffSectionKey(x) !in SectionKeys(sections, "");
    var kept := Filter(pairs, keep);
    FilterSubset(pairs, keep);
    NonAcademicKept(staff, pairs, kept);
    PairsLength(Filter(staff, IsCorpsMember), staff, NonAcademicPrograms);
    Map(kept, (x: StaffSection) => Planned(x.staff.school, Some(x.staff.staff.name), Some(x.sectionName)))
  }

  lemma PairsLength(corps: seq<StaffRow>, staff: seq<StaffRow>, programs: seq<string>)
    requires |corps| <= |staff|
    ensures |CrossJoin(corps, programs)| <= |programs| * |staff|
  {
    CrossJoinLength(corps, programs);
    assert |corps| * |programs| <= |staff| * |programs| by {
      MulMono(|corps|, |staff|, |programs|);
    }
  }

  lemma {:induction false} MulMono(a: nat, b: nat, c: nat)
    requires a <= b
    ensures a * c <= b * c
  {
    if c > 0 {
      MulMono(a, b, c - 1);
    }
  }

  lemma NonAcademicKept(staff: seq<StaffRow>, pairs: seq<StaffSection>, kept: seq<StaffSection>)
    requires pairs == CrossJoin(Filter(staff, IsCorpsMember), NonAcademicPrograms)
    requires forall x :: x in kept ==> x in pairs
    ensures forall x :: x in kept ==> x.staff in staff && IsCorpsMember(x.staff) && x.sectionName in NonAcademicPrograms
  {
    forall x | x in kept
      ensures x.staff in staff && IsCorpsMember(x.staff) && x.sectionName in NonAcademicPrograms
    {
      CrossJoinMembers(Filter(staff, IsCorpsMember), NonAcademicPrograms, x);
      FilterIn(staff, IsCorpsMember, x.staff);
    }
  }

  /** `non_academic_sections_to_create`: `get_staff_df()` then the existing
      sections of the two programs are queried, and the plan is formatted with
      the defaults of `format_df` (in school, dosage 0). A query with an empty
      `IN ()` raises MalformedQuery. */
  function NonAcademicSectionsToCreate(programs: seq<Program>, sections: seq<SectionRec>,
                                       accounts: seq<Account>, staff: seq<StaffRec>,
                                       startDate: string, endDate: string): (r: Result<seq<SectionToCreate>>)
    ensures r.Err? <==> |accounts| == 0 || NoneNamed(programs, NonAcademicPrograms)
    ensures r.Err? ==> r.exc == MalformedQuery
    ensures r.Ok? ==>
      var plan := NonAcademicPlan(StaffTable(accounts, staff), SectionTable(programs, sections, Names(NonAcademicPrograms)));
      |r.value| == |plan| &&
      forall i :: 0 <= i < |plan| ==> r.value[i].inSchoolOrExtendedLearning == "In School" && r.value[i].targetDosage == 0
  {
    match GetStaffDf(accounts, staff)
    case Err(e) => Err(e)
    case Ok(staffDf) =>
      match GetSectionDf(programs, sections, Names(NonAcademicPrograms))
      case Err(e) => Err(e)
      case Ok(existing) => FormatDf(NonAcademicPlan(staffDf, existing), startDate, endDate, "In School", 0)
  }

  /** A pair is in the cross join exactly when its staff row and program are. */
  lemma CrossJoinMembers(staff: seq<StaffRow>, programs: seq<string>, x: StaffSection)
    ensures x in CrossJoin(staff, programs) <==> x.staff in staff && x.sectionName in programs
  {
    FlatMapIn(staff, (s: StaffRow) => WithEach(s, programs), x);
    if x.staff in staff && x.sectionName in programs {
      var i := FirstIndex(staff, x.staff);
      var j := FirstIndex(programs, x.sectionName);
      assert WithEach(staff[i], programs)[j] == x;
    }
  }

  /** Every Corps Member gets each of the two programs unless an existing section
      already has that staff id and program name run together. */
  lemma NonAcademicPlanMembers(staff: seq<StaffRow>, sections: seq<SectionRow>, s: StaffRow, n: string)
    ensures Planned(s.school, Some(s.staff.name), Some(n)) in NonAcademicPlan(staff, sections) <==>
      exists t :: t in staff && IsCorpsMember(t) && t.school == s.school && t.staff.name == s.staff.name &&
        n in NonAcademicPrograms && Some(t.staff.id + n) !in SectionKeys(sections, "")
  {
    var y := Planned(s.school, Some(s.staff.name), Some(n));
    var corps := Filter(staff, IsCorpsMember);
    var pairs := CrossJoin(corps, NonAcademicPrograms);
    var keep := (x: StaffSection) => StaffSectionKey(x) !in SectionKeys(sections, "");
    var kept := Filter(pairs, keep);
    var out := (x: StaffSection) => Planned(x.staff.school, Some(x.staff.staff.name), Some(x.sectionName));
    if y in NonAcademicPlan(staff, sections) {
      var k :| 0 <= k < |kept| && out(kept[k]) == y;
      FilterIn(pairs, keep, kept[k]);
      CrossJoinMembers(corps, NonAcademicPrograms, kept[k]);
      FilterIn(staff, IsCorpsMember, kept[k].staff);
    }
    if exists t :: t in staff && IsCorpsMember(t) && t.school == s.school && t.staff.name == s.staff.name &&
        n in NonAcademicPrograms && Some(t.staff.id + n) !in SectionKeys(sections, "") {
      var t :| t in staff && IsCorpsMember(t) && t.school == s.school && t.staff.name == s.staff.name &&
        n in NonAcademicPrograms && Some(t.staff.id + n) !in SectionKeys(sections, "");
      FilterIn(staff, IsCorpsMember, t);
      CrossJoinMembers(corps, NonAcademicPrograms, StaffSection(t, n));
      FilterIn(pairs, keep, StaffSection(t, n));
      var k := FirstIndex(kept, StaffSection(t, n));
      assert NonAcademicPlan(staff, sections)[k] == y;
    }
  }

  // ---------------------------------------------------------------- MI/RI sections

  const CpSections: seq<string> := ["Tutoring: Math", "Tutoring: Literacy"]
  const MiriSections: seq<string> := ["Math Inventory", "Reading Inventory"]

  predicate ProgramIn(s: SectionRow, names: seq<string>)
  {
    s.programName.Some? && s.programName.value in names
  }

  /** The program map as written: both tutoring programs become 'Math Inventory'. */
  function InventoryAsWritten(program: string): string
  {
    if program == "Tutoring: Literacy" then "Math Inventory"
    else "Math Inventory"
  }

  /** The program map the older planner uses and the docstring describes:
      Literacy to 'Reading Inventory', Math to 'Math Inventory'. */
  function Inventory(program: string): (r: string)
    requires program in CpSections
    ensures r in MiriSections
    ensures r == "Reading Inventory" <==> program == "Tutoring: Literacy"
  {
    if program == "Tutoring: Literacy" then "Reading Inventory" else "Math Inventory"
  }

  /** A section row with its program name passed through the inventory map. */
  function Renamed(s: SectionRow, inventory: string -> string): SectionRow
  {
    if s.programName.Some? then SectionRow(s.section, Some(inventory(s.programName.value))) else s
  }

  predicate StaffOf(s: SectionRow, t: StaffRow)
  {
    s.section.staff == Some(t.staff.id)
  }

  function PlannedOf(s: SectionRow, t: Option<StaffRow>): Planned
  {
    if t.Some? then Planned(t.value.school, Some(t.value.staff.name), s.programName)
    else Planned(None, None, s.programName)
  }

  predicate InHighSchool(p: Planned, highschools: seq<string>)
  {
    p.school.Some? && p.school.value in highschools
  }

  predicate IsCp(s: SectionRow) { ProgramIn(s, CpSections) }
  predicate IsMiri(s: SectionRow) { ProgramIn(s, MiriSections) }

  /** The tutoring sections, renamed to the inventory program the map gives. */
  function CpRenamed(sect: seq<SectionRow>, inventory: string -> string): seq<SectionRow>
  {
    Map(Filter(sect, IsCp), (s: SectionRow) => Renamed(s, inventory))
  }

  /** The keys `staff_program` of the existing inventory sections. */
  function MiriKeys(sect: seq<SectionRow>): seq<Option<string>>
  {
    SectionKeys(Filter(sect, IsMiri), "_")
  }

  predicate KeyAbsent(s: SectionRow, keys: seq<Option<string>>)
  {
    SectionKey(s, "_") !in keys
  }

  /** The renamed tutoring sections whose key no inventory section has. */
  function MiriTodo(sect: seq<SectionRow>, inventory: string -> string): seq<SectionRow>
  {
    Filter(CpRenamed(sect, inventory), (s: SectionRow) => KeyAbsent(s, MiriKeys(sect)))
  }

  /** MI/RI planning given the tutoring-to-inventory map: tutoring sections renamed
      to their inventory, dropped when the staff member already has that inventory
      section, merged with staff name and school, restricted to high schools. */
  function MiriPlanWith(sect: seq<SectionRow>, staff: seq<StaffRow>, highschools: seq<string>,
                        inventory: string -> string): seq<Planned>
  {
    Filter(LeftMerge(MiriTodo(sect, inventory), staff, StaffOf, PlannedOf),
           (p: Planned) => InHighSchool(p, highschools))
  }

  /** `MIRI_sections_to_create` as written: every planned row is a Math
      Inventory section in a high school. */
  function MiriPlanAsWritten(sect: seq<SectionRow>, staff: seq<StaffRow>, highschools: seq<string>): (r: seq<Planned>)
    ensures forall y :: y in r ==> InHighSchool(y, highschools) && y.sectionName == Some("Math Inventory")
  {
    MiriPlanWithAll(sect, staff, highschools, InventoryAsWritten);
    MiriPlanWith(sect, staff, highschools, InventoryAsWritten)
  }

  function InventoryOrSame(program: string): string
  {
    if program in CpSections then Inventory(program) else program
  }

  /** `MIRI_sections_to_create` with Literacy sections leading to Reading
      Inventory: every planned row is an inventory section in a high school, and
      the tutoring section it follows has the matching program. */
  function MiriPlan(sect: seq<SectionRow>, staff: seq<StaffRow>, highschools: seq<string>): (r: seq<Planned>)
    ensures forall y :: y in r ==> InHighSchool(y, highschools) && InventoryOfTutoring(y, sect)
  {
    MiriPlanWithAll(sect, staff, highschools, InventoryOrSame);
    MiriPlanWith(sect, staff, highschools, InventoryOrSame)
  }

  /** A Reading Inventory row follows a Literacy tutoring section, a Math Inventory row a Math one. */
  predicate InventoryOfTutoring(y: Planned, sect: seq<SectionRow>)
  {
    (y.sectionName == Some("Reading Inventory") && exists s :: s in sect && s.programName == Some("Tutoring: Literacy")) ||
    (y.sectionName == Some("Math Inventory") && exists s :: s in sect && s.programName == Some("Tutoring: Math"))
  }

  /** Every row of a plan is in a high school and carries the inventory the map
      gives some tutoring section. */
  lemma MiriPlanWithAll(sect: seq<SectionRow>, staff: seq<StaffRow>, highschools: seq<string>,
                        inventory: string -> string)
    ensures forall y :: y in MiriPlanWith(sect, staff, highschools, inventory) ==>
      InHighSchool(y, highschools) && exists s :: s in sect && IsCp(s) && y.sectionName == Some(inventory(s.programName.value))
  {
    forall y | y in MiriPlanWith(sect, staff, highschools, inventory)
      ensures InHighSchool(y, highschools) && exists s :: s in sect && IsCp(s) && y.sectionName == Some(inventory(s.programName.value))
    {
      MiriPlanWithSound(sect, staff, highschools, inventory, y);
      var i :| 0 <= i < |sect| && IsCp(sect[i]) && y.sectionName == Some(inventory(sect[i].programName.value));
      assert sect[i] in sect;
    }
  }

  /** `MIRI_sections_to_create` with the corrected inventory mapping: the
      sections of the four programs, then `get_staff_df()`, are queried, and the
      plan is formatted with the defaults of `format_df`. A query with an empty
      `IN ()` raises MalformedQuery. */
  function MiriSectionsToCreate(programs: seq<Program>, sections: seq<SectionRec>,
                                accounts: seq<Account>, staff: seq<StaffRec>, highschools: seq<string>,
                                startDate: string, endDate: string): (r: Result<seq<SectionToCreate>>)
    ensures r.Err? <==> NoneNamed(programs, CpSections + MiriSections) || |accounts| == 0
    ensures r.Err? ==> r.exc == MalformedQuery
    ensures r.Ok? ==>
      var plan := MiriPlan(SectionTable(programs, sections, Names(CpSections + MiriSections)), StaffTable(accounts, staff), highschools);
      |r.value| == |plan| &&
      forall i :: 0 <= i < |plan| ==> r.value[i].inSchoolOrExtendedLearning == "In School" && r.value[i].targetDosage == 0
  {
    match GetSectionDf(programs, sections, Names(CpSections + MiriSections))
    case Err(e) => Err(e)
    case Ok(sect) =>
      match GetStaffDf(accounts, staff)
      case Err(e) => Err(e)
      case Ok(staffDf) => FormatDf(MiriPlan(sect, staffDf, highschools), startDate, endDate, "In School", 0)
  }

  /** A renamed tutoring section comes from a tutoring section of `sect`. */
  lemma CpRenamedFrom(sect: seq<SectionRow>, inventory: string -> string, t: SectionRow)
    requires t in CpRenamed(sect, inventory)
    ensures exists i :: (0 <= i < |sect| && IsCp(sect[i]) &&
      t == SectionRow(sect[i].section, Some(inventory(sect[i].programName.value))))
  {
    MapFilterIn(sect, IsCp, (s: SectionRow) => Renamed(s, inventory), t);
  }

  /** A planned row carries the program name of some still-missing renamed section. */
  lemma MiriPlanWithFrom(sect: seq<SectionRow>, staff: seq<StaffRow>, highschools: seq<string>,
                         inventory: string -> string, y: Planned)
    requires y in MiriPlanWith(sect, staff, highschools, inventory)
    ensures InHighSchool(y, highschools)
    ensures exists t :: t in MiriTodo(sect, inventory) && y.sectionName == t.programName
  {
    var todo := MiriTodo(sect, inventory);
    var merged := LeftMerge(todo, staff, StaffOf, PlannedOf);
    FilterIn(merged, (p: Planned) => InHighSchool(p, highschools), y);
    LeftMergeFrom(todo, staff, StaffOf, PlannedOf, y);
    var i :| 0 <= i < |todo| &&
      (y == PlannedOf(todo[i], None) || exists j :: 0 <= j < |staff| && y == PlannedOf(todo[i], Some(staff[j])));
    assert y.sectionName == todo[i].programName;
  }

  /** Every planned MI/RI row is in a high school and names the inventory program
      the map assigns to some tutoring section, under a key no existing inventory
      section has. */
  lemma MiriPlanWithSound(sect: seq<SectionRow>, staff: seq<StaffRow>, highschools: seq<string>,
                          inventory: string -> string, y: Planned)
    requires y in MiriPlanWith(sect, staff, highschools, inventory)
    ensures InHighSchool(y, highschools)
    ensures exists i :: (0 <= i < |sect| && IsCp(sect[i]) &&
      y.sectionName == Some(inventory(sect[i].programName.value)) &&
      KeyAbsent(SectionRow(sect[i].section, y.sectionName), MiriKeys(sect)))
  {
    MiriPlanWithFrom(sect, staff, highschools, inventory, y);
    var t :| t in MiriTodo(sect, inventory) && y.sectionName == t.programName;
    MiriTodoFrom(sect, inventory, t);
  }

  lemma MiriTodoFrom(sect: seq<SectionRow>, inventory: string -> string, t: SectionRow)
    requires t in MiriTodo(sect, inventory)
    ensures exists i :: (0 <= i < |sect| && IsCp(sect[i]) &&
      t == SectionRow(sect[i].section, Some(inventory(sect[i].programName.value))) &&
      KeyAbsent(t, MiriKeys(sect)))
  {
    FilterIn(CpRenamed(sect, inventory), (s: SectionRow) => KeyAbsent(s, MiriKeys(sect)), t);
    CpRenamedFrom(sect, inventory, t);
  }

  /** As written, no plan ever holds a Reading Inventory section. */
  lemma MiriAsWrittenNoReading(sect: seq<SectionRow>, staff: seq<StaffRow>, highschools: seq<string>, y: Planned)
    requires y in MiriPlanAsWritten(sect, staff, highschools)
    ensures y.sectionName == Some("Math Inventory")
  {
    MiriPlanWithSound(sect, staff, highschools, InventoryAsWritten, y);
  }

  /** With the intended map a Reading Inventory row comes from a Literacy tutoring
      section and a Math Inventory row from a Math one. */
  lemma MiriPlanSound(sect: seq<SectionRow>, staff: seq<StaffRow>, highschools: seq<string>, y: Planned)
    requires y in MiriPlan(sect, staff, highschools)
    ensures InHighSchool(y, highschools)
    ensures y.sectionName == Some("Math Inventory") || y.sectionName == Some("Reading Inventory")
    ensures y.sectionName == Some("Reading Inventory") ==>
      exists s :: s in sect && s.programName == Some("Tutoring: Literacy")
    ensures y.sectionName == Some("Math Inventory") ==>
      exists s :: s in sect && s.programName == Some("Tutoring: Math")
  {
    MiriPlanWithSound(sect, staff, highschools, InventoryOrSame, y);
    var i :| 0 <= i < |sect| && IsCp(sect[i]) &&
      y.sectionName == Some(InventoryOrSame(sect[i].programName.value));
    assert sect[i] in sect;
  }

  /** A high-school ACM holding only a Literacy tutoring section: as written the
      plan asks for a Math Inventory section, the intended plan for a Reading Inventory one. */
  lemma MiriLiteracyExample()
    ensures var sect := [SectionRow(SectionRec("a0S1", "Lit 1", Some("st1"), Some("p1")), Some("Tutoring: Literacy"))];
      var staff := [StaffRow(StaffRec("st1", None, "Ann Lee", None, None, Some("Corps Member"), None, Some("o1")), Some("HS"))];
      MiriPlanAsWritten(sect, staff, ["HS"]) == [Planned(Some("HS"), Some("Ann Lee"), Some("Math Inventory"))] &&
      MiriPlan(sect, staff, ["HS"]) == [Planned(Some("HS"), Some("Ann Lee"), Some("Reading Inventory"))]
  {
    var sect := [SectionRow(SectionRec("a0S1", "Lit 1", Some("st1"), Some("p1")), Some("Tutoring: Literacy"))];
    var staff := [StaffRow(StaffRec("st1", None, "Ann Lee", None, None, Some("Corps Member"), None, Some("o1")), Some("HS"))];
    assert sect[1..] == [] && staff[1..] == [];
    assert IsCp(sect[0]) && !IsMiri(sect[0]);
    assert Filter(sect, IsMiri) == [];
    assert Filter(sect, IsCp) == sect;
    assert InventoryOrSame("Tutoring: Literacy") == "Reading Inventory";
    ExampleFor(sect, staff, InventoryAsWritten, "Math Inventory");
    ExampleFor(sect, staff, InventoryOrSame, "Reading Inventory");
  }

  lemma ExampleFor(sect: seq<SectionRow>, staff: seq<StaffRow>, inventory: string -> string, target: string)
    requires |sect| == 1 && |staff| == 1 && IsCp(sect[0]) && !IsMiri(sect[0])
    requires inventory(sect[0].programName.value) == target
    requires sect[0].section.staff == Some(staff[0].staff.id) && staff[0].school == Some("HS")
    ensures MiriPlanWith(sect, staff, ["HS"], inventory) ==
      [Planned(Some("HS"), Some(staff[0].staff.name), Some(target))]
  {
    assert sect[1..] == [];
    assert Filter(sect, IsMiri) == [];
    assert Filter(sect, IsCp) == sect;
    var t := SectionRow(sect[0].section, Some(target));
    assert CpRenamed(sect, inventory) == [t];
    assert MiriKeys(sect) == [];
    assert MiriTodo(sect, inventory) == [t];
    LeftMergeSingle(t, staff, StaffOf, PlannedOf);
    var y := Planned(Some("HS"), Some(staff[0].staff.name), Some(target));
    assert [y][1..] == [];
    assert InHighSchool(y, ["HS"]);
  }

  // ---------------------------------------------------------------- deactivation

  /** A `Section__c` record with its program and whether it is active. */
  datatype SectionState = SectionState(id: string, program: Option<string>, active: bool)

  /** A section after the left merge with the programs on `Program__c`. */
  datatype StateRow = StateRow(state: SectionState, programName: Option<string>)

  predicate StateOf(s: SectionState, p: Program)
  {
    s.program == Some(p.id)
  }

  function StateRowOf(s: SectionState, p: Option<Program>): StateRow
  {
    StateRow(s, if p.Some? then Some(p.value.name) else None)
  }

  /** The ids `deactivate_all_sections` selects: active sections of the given program. */
  function ToDeactivate(sections: seq<SectionState>, programs: seq<Program>, sectionType: string): (r: seq<string>)
    ensures forall id :: id in r ==> ActiveOfProgram(sections, programs, sectionType, id)
  {
    var merged := LeftMerge(sections, programs, StateOf, StateRowOf);
    SelectedFrom(sections, programs, sectionType);
    Map(Filter(merged, (r: StateRow) => Selected(r, sectionType)), (r: StateRow) => r.state.id)
  }

  predicate Selected(r: StateRow, sectionType: string)
  {
    r.programName == Some(sectionType) && r.state.active
  }

  /** `id` is that of an active section whose program has the given name. */
  predicate ActiveOfProgram(sections: seq<SectionState>, programs: seq<Program>, sectionType: string, id: string)
  {
    exists s, p :: s in sections && p in programs && s.program == Some(p.id) && p.name == sectionType && s.active && s.id == id
  }

  lemma SelectedFrom(sections: seq<SectionState>, programs: seq<Program>, sectionType: string)
    ensures var merged := LeftMerge(sections, programs, StateOf, StateRowOf);
      forall id :: id in Map(Filter(merged, (r: StateRow) => Selected(r, sectionType)), (r: StateRow) => r.state.id) ==>
        ActiveOfProgram(sections, programs, sectionType, id)
  {
    var merged := LeftMerge(sections, programs, StateOf, StateRowOf);
    var sel := (r: StateRow) => Selected(r, sectionType);
    forall id | id in Map(Filter(merged, sel), (r: StateRow) => r.state.id)
      ensures ActiveOfProgram(sections, programs, sectionType, id)
    {
      MapFilterIn(merged, sel, (r: StateRow) => r.state.id, id);
      var k :| 0 <= k < |merged| && Selected(merged[k], sectionType) && id == merged[k].state.id;
      var i, j := LeftMergeSource(sections, programs, StateOf, StateRowOf, merged[k]);
      assert j < |programs|;
      assert sections[i] in sections && programs[j] in programs;
    }
  }

  /** Exactly the active sections whose program has the given name are selected. */
  lemma ToDeactivateMembers(sections: seq<SectionState>, programs: seq<Program>, sectionType: string, id: string)
    ensures id in ToDeactivate(sections, programs, sectionType) <==>
      exists s, p :: s in sections && p in programs && s.program == Some(p.id) && p.name == sectionType &&
        s.active && s.id == id
  {
    if id in ToDeactivate(sections, programs, sectionType) {
      ToDeactivateSound(sections, programs, sectionType, id);
    }
    if exists s, p :: s in sections && p in programs && s.program == Some(p.id) && p.name == sectionType &&
        s.active && s.id == id {
      var s, p :| s in sections && p in programs && s.program == Some(p.id) && p.name == sectionType &&
        s.active && s.id == id;
      ToDeactivateComplete(sections, programs, sectionType, s, p);
    }
  }

  lemma ToDeactivateSound(sections: seq<SectionState>, programs: seq<Program>, sectionType: string, id: string)
    requires id in ToDeactivate(sections, programs, sectionType)
    ensures exists s, p :: (s in sections && p in programs && s.program == Some(p.id) && p.name == sectionType &&
      s.active && s.id == id)
  {
    var merged := LeftMerge(sections, programs, StateOf, StateRowOf);
    var sel := (r: StateRow) => Selected(r, sectionType);
    assert ToDeactivate(sections, programs, sectionType) == Map(Filter(merged, sel), (r: StateRow) => r.state.id);
    MapFilterIn(merged, sel, (r: StateRow) => r.state.id, id);
    var k :| 0 <= k < |merged| && Selected(merged[k], sectionType) && id == merged[k].state.id;
    var y := merged[k];
    var i, j := LeftMergeSource(sections, programs, StateOf, StateRowOf, y);
    assert y.programName.Some?;
    assert j < |programs|;
    assert sections[i] in sections && programs[j] in programs;
  }

  lemma ToDeactivateComplete(sections: seq<SectionState>, programs: seq<Program>, sectionType: string,
                             s: SectionState, p: Program)
    requires s in sections && p in programs && s.program == Some(p.id) && p.name == sectionType && s.active
    ensures s.id in ToDeactivate(sections, programs, sectionType)
  {
    var merged := LeftMerge(sections, programs, StateOf, StateRowOf);
    var sel := (r: StateRow) => Selected(r, sectionType);
    assert ToDeactivate(sections, programs, sectionType) == Map(Filter(merged, sel), (r: StateRow) => r.state.id);
    var y := StateRow(s, Some(p.name));
    var i := FirstIndex(sections, s);
    var j := FirstIndex(programs, p);
    assert StateOf(sections[i], programs[j]) && y == StateRowOf(sections[i], Some(programs[j]));
    LeftMergeHas(sections, programs, StateOf, StateRowOf, i, j);
    assert y in merged;
    var k := FirstIndex(merged, y);
    assert sel(merged[k]) && s.id == merged[k].state.id;
    MapFilterIn(merged, sel, (r: StateRow) => r.state.id, s.id);
  }

  /** The confirmation test: the lower-cased answer is 'yes' or 'y'. */
  predicate Confirmed(answer: string)
  {
    Lower(answer) == "yes" || Lower(answer) == "y"
  }

  /** `deactivate_all_sections`: the update calls made (one `Active__c = False` per
      selected id, in order) and the returned flag; the prompt's answer is a parameter. */
  method DeactivateAllSections(sections: seq<SectionState>, programs: seq<Program>, sectionType: string,
                               answer: string) returns (confirmed: bool, updates: seq<string>)
    ensures confirmed <==> Confirmed(answer)
    ensures confirmed ==> updates == ToDeactivate(sections, programs, sectionType)
    ensures !confirmed ==> updates == []
  {
    var ids := ToDeactivate(sections, programs, sectionType);
    updates := [];
    if Lower(answer) == "yes" || Lower(answer) == "y" {
      var i := 0;
      while i < |ids|
        invariant 0 <= i <= |ids|
        invariant updates == ids[..i]
      {
        updates := updates + [ids[i]];
        i := i + 1;
      }
      return true, updates;
    } else {
      return false, updates;
    }
  }

  /** Whatever the answer, only active sections of the given program are updated. */
  lemma DeactivationOnlySelected(sections: seq<SectionState>, programs: seq<Program>, sectionType: string,
                                 updates: seq<string>, answer: string, id: string)
    requires updates == (if Confirmed(answer) then ToDeactivate(sections, programs, sectionType) else [])
    requires id in updates
    ensures Confirmed(answer)
    ensures exists s :: s in sections && s.id == id && s.active
  {
    ToDeactivateMembers(sections, programs, sectionType, id);
  }
}
