/** The older Chicago section planner. Its academic planner and `format_df` are
    those of the newer one (ChiSectionCreation). It differs in three places: the
    non-academic staff table is every Chicago staff record, school or not; MI/RI
    sections are keyed by staff name, restricted to high schools before the
    anti-join, and Literacy maps to Reading Inventory; and deactivation combines a
    mask of the merged table with the `Active__c` column of the unmerged one. */
module SectionCreationChi {
  import opened Base
  import opened Strings
  import opened Seqs
  import opened SimpleCysh
  import opened ChiSectionCreation

  // ---------------------------------------------------------------- non_CP_sections_to_create

  /** Every Chicago staff record left-merged with the accounts on
      `Organization__c == School__c`; a record with no matching account stays,
      with no school. */
  function NonCpStaff(accounts: seq<Account>, staff: seq<StaffRec>): seq<StaffRow>
  {
    LeftMerge(staff, accounts, StaffAt, StaffRowOf)
  }

  /** The plan of `non_CP_sections_to_create` before formatting: Corps Members
      crossed with the two programs, minus existing `staff + program` keys. */
  function NonCpPlan(accounts: seq<Account>, staff: seq<StaffRec>, sections: seq<SectionRow>): seq<Planned>
  {
    NonAcademicPlan(NonCpStaff(accounts, staff), sections)
  }

  /** `non_CP_sections_to_create`: the existing sections of the two programs are
      queried and the plan is formatted with the defaults of `format_df` (in
      school, dosage 0). The staff table here is not queried with an `IN` list;
      the section query raises MalformedQuery when no program bears either name. */
  function NonCpSectionsToCreate(programs: seq<Program>, sections: seq<SectionRec>,
                                 accounts: seq<Account>, staff: seq<StaffRec>,
                                 startDate: string, endDate: string): (r: Result<seq<SectionToCreate>>)
    ensures r.Err? <==> NoneNamed(programs, NonAcademicPrograms)
    ensures r.Err? ==> r.exc == MalformedQuery
    ensures r.Ok? ==>
      var plan := NonCpPlan(accounts, staff, SectionTable(programs, sections, Names(NonAcademicPrograms)));
      |r.value| == |plan| &&
      forall i :: 0 <= i < |plan| ==>
        Unformat(r.value[i]) == plan[i] &&
        r.value[i].inSchoolOrExtendedLearning == "In School" && r.value[i].targetDosage == 0
  {
    match GetSectionDf(programs, sections, Names(NonAcademicPrograms))
    case Err(e) => Err(e)
    case Ok(existing) => FormatDf(NonCpPlan(accounts, staff, existing), startDate, endDate, "In School", 0)
  }

  predicate Unplaced(s: StaffRec, accounts: seq<Account>)
  {
    forall j :: 0 <= j < |accounts| ==> !StaffAt(s, accounts[j])
  }

  /** A row of the staff table is a staff record with the name of a matching
      account, or with no school when none matches. */
  lemma NonCpStaffMembers(accounts: seq<Account>, staff: seq<StaffRec>, y: StaffRow)
    ensures y in NonCpStaff(accounts, staff) <==>
      exists i :: (0 <= i < |staff| && y.staff == staff[i] &&
        ((exists j :: 0 <= j < |accounts| && StaffAt(staff[i], accounts[j]) && y.school == Some(accounts[j].name)) ||
         (Unplaced(staff[i], accounts) && y.school.None?)))
  {
    if y in NonCpStaff(accounts, staff) {
      var i, j := LeftMergeSource(staff, accounts, StaffAt, StaffRowOf, y);
      if j < |accounts| {
        assert StaffAt(staff[i], accounts[j]) && y.school == Some(accounts[j].name);
      } else {
        assert Unplaced(staff[i], accounts) && y.school.None?;
      }
    }
    if exists i :: (0 <= i < |staff| && y.staff == staff[i] &&
        ((exists j :: 0 <= j < |accounts| && StaffAt(staff[i], accounts[j]) && y.school == Some(accounts[j].name)) ||
         (Unplaced(staff[i], accounts) && y.school.None?))) {
      var i :| 0 <= i < |staff| && y.staff == staff[i] &&
        ((exists j :: 0 <= j < |accounts| && StaffAt(staff[i], accounts[j]) && y.school == Some(accounts[j].name)) ||
         (Unplaced(staff[i], accounts) && y.school.None?));
      if j :| 0 <= j < |accounts| && StaffAt(staff[i], accounts[j]) && y.school == Some(accounts[j].name) {
        assert y == StaffRowOf(staff[i], Some(accounts[j]));
        LeftMergeHas(staff, accounts, StaffAt, StaffRowOf, i, j);
      } else {
        assert y == StaffRowOf(staff[i], None);
        LeftMergeHasNone(staff, accounts, StaffAt, StaffRowOf, i);
      }
    }
  }

  /** Unlike `get_staff_df`, this staff table keeps a Corps Member whose organisation
      is no account, so that member is planned both programs with no school. */
  lemma NonCpPlansUnplaced(accounts: seq<Account>, staff: seq<StaffRec>, sections: seq<SectionRow>,
                           s: StaffRec, n: string)
    requires s in staff && Unplaced(s, accounts)
    requires s.role.Some? && Contains(s.role.value, "Corps Member")
    requires n in NonAcademicPrograms && Some(s.id + n) !in SectionKeys(sections, "")
    ensures Planned(None, Some(s.name), Some(n)) in NonCpPlan(accounts, staff, sections)
    ensures forall y :: y in StaffTable(accounts, staff) ==> y.staff != s
  {
    var t := StaffRow(s, None);
    var i := FirstIndex(staff, s);
    NonCpStaffMembers(accounts, staff, t);
    NonAcademicPlanMembers(NonCpStaff(accounts, staff), sections, t, n);
    forall y | y in StaffTable(accounts, staff)
      ensures y.staff != s
    {
      GetStaffDfMembers(accounts, staff, y);
    }
  }

  // ---------------------------------------------------------------- MIRI_sections_to_create

  /** A `Section__c` record: Section__c, Section__c_Name, the primary staff id,
      School__c and Program__c. */
  datatype MiriSection = MiriSection(id: string, name: string, staff: Option<string>,
                                     school: Option<string>, program: Option<string>)

  /** A `Staff__c` record of Chicago: Id and Staff__c_Name. */
  datatype StaffName = StaffName(id: string, name: string)

  /** A section after the three left merges: School, Program__c_Name and Staff__c_Name. */
  datatype MiriRow = MiriRow(section: MiriSection, school: Option<string>, programName: Option<string>,
                             staffName: Option<string>)

  function Bare(s: MiriSection): MiriRow
  {
    MiriRow(s, None, None, None)
  }

  predicate AtSchool(r: MiriRow, a: Account) { r.section.school == Some(a.id) }
  predicate OfProgram(r: MiriRow, p: Program) { r.section.program == Some(p.id) }
  predicate TaughtBy(r: MiriRow, t: StaffName) { r.section.staff == Some(t.id) }

  function WithSchool(r: MiriRow, a: Option<Account>): MiriRow
  {
    r.(school := if a.Some? then Some(a.value.name) else None)
  }

  function WithProgramName(r: MiriRow, p: Option<Program>): MiriRow
  {
    r.(programName := if p.Some? then Some(p.value.name) else None)
  }

  function WithStaffName(r: MiriRow, t: Option<StaffName>): MiriRow
  {
    r.(staffName := if t.Some? then Some(t.value.name) else None)
  }

  /** The sections merged with schools on School__c, programs on Program__c and
      staff on the primary staff id, each a left merge. */
  function MiriMerged(sections: seq<MiriSection>, accounts: seq<Account>, programs: seq<Program>,
                      staff: seq<StaffName>): seq<MiriRow>
  {
    var r1 := LeftMerge(Map(sections, Bare), accounts, AtSchool, WithSchool);
    var r2 := LeftMerge(r1, programs, OfProgram, WithProgramName);
    LeftMerge(r2, staff, TaughtBy, WithStaffName)
  }

  /** A merged row's school, when present, is the name of the section's account. */
  predicate SchoolFrom(r: MiriRow, accounts: seq<Account>)
  {
    r.school.Some? ==> exists a :: a in accounts && r.section.school == Some(a.id) && r.school == Some(a.name)
  }

  /** A merged row's program name, when present, is the name of the section's program. */
  predicate ProgramFrom(r: MiriRow, programs: seq<Program>)
  {
    r.programName.Some? ==> exists p :: p in programs && r.section.program == Some(p.id) && r.programName == Some(p.name)
  }

  lemma SchoolStep(sections: seq<MiriSection>, accounts: seq<Account>, y: MiriRow)
    requires y in LeftMerge(Map(sections, Bare), accounts, AtSchool, WithSchool)
    ensures y.section in sections && y.programName.None? && SchoolFrom(y, accounts)
  {
    var r0 := Map(sections, Bare);
    var i2, j := LeftMergeSource(r0, accounts, AtSchool, WithSchool, y);
    assert r0[i2] == Bare(sections[i2]) && sections[i2] in sections;
    if j < |accounts| {
      assert accounts[j] in accounts;
    }
  }

  lemma ProgramStep(r1: seq<MiriRow>, programs: seq<Program>, y: MiriRow)
    requires y in LeftMerge(r1, programs, OfProgram, WithProgramName)
    ensures exists x :: x in r1 && y == x.(programName := y.programName)
    ensures ProgramFrom(y, programs)
  {
    var i, j := LeftMergeSource(r1, programs, OfProgram, WithProgramName, y);
    assert r1[i] in r1 && y == r1[i].(programName := y.programName);
    if j < |programs| {
      assert programs[j] in programs;
    }
  }

  lemma StaffStep(r2: seq<MiriRow>, staff: seq<StaffName>, y: MiriRow)
    requires y in LeftMerge(r2, staff, TaughtBy, WithStaffName)
    ensures exists x :: x in r2 && y == x.(staffName := y.staffName)
  {
    var i, j := LeftMergeSource(r2, staff, TaughtBy, WithStaffName, y);
    assert r2[i] in r2 && y == r2[i].(staffName := y.staffName);
  }

  /** Every merged row is a section with its own school and program, when found. */
  lemma MiriMergedFrom(sections: seq<MiriSection>, accounts: seq<Account>, programs: seq<Program>,
                       staff: seq<StaffName>, y: MiriRow)
    requires y in MiriMerged(sections, accounts, programs, staff)
    ensures y.section in sections && SchoolFrom(y, accounts) && ProgramFrom(y, programs)
  {
    var r1 := LeftMerge(Map(sections, Bare), accounts, AtSchool, WithSchool);
    var r2 := LeftMerge(r1, programs, OfProgram, WithProgramName);
    StaffStep(r2, staff, y);
    var x2 :| x2 in r2 && y == x2.(staffName := y.staffName);
    ProgramStep(r1, programs, x2);
    var x1 :| x1 in r1 && x2 == x1.(programName := x2.programName);
    SchoolStep(sections, accounts, x1);
  }

  predicate InHigh(r: MiriRow, highschools: seq<string>)
  {
    r.school.Some? && r.school.value in highschools
  }

  /** `Program__c_Name.str.contains(word) == True`. */
  predicate NameContains(r: MiriRow, word: string)
  {
    r.programName.Some? && Contains(r.programName.value, word)
  }

  predicate IsInventory(r: MiriRow) { NameContains(r, "Inventory") }
  predicate IsTutoring(r: MiriRow) { NameContains(r, "Tutoring") }

  /** The `.map` of the tutoring program names; any other name becomes missing. */
  function OldInventory(program: string): (r: Option<string>)
    ensures r == Some("Reading Inventory") <==> program == "Tutoring: Literacy"
    ensures r == Some("Math Inventory") <==> program == "Tutoring: Math"
    ensures r.None? <==> program !in CpSections
  {
    if program == "Tutoring: Literacy" then Some("Reading Inventory")
    else if program == "Tutoring: Math" then Some("Math Inventory")
    else None
  }

  function Mapped(r: MiriRow): MiriRow
  {
    r.(programName := if r.programName.Some? then OldInventory(r.programName.value) else None)
  }

  /** `Staff__c_Name + '_' + Program__c_Name`, missing when either part is. */
  function NameKey(r: MiriRow): Option<string>
  {
    if r.staffName.Some? && r.programName.Some? then Some(r.staffName.value + "_" + r.programName.value) else None
  }

  function HighRows(merged: seq<MiriRow>, highschools: seq<string>): seq<MiriRow>
  {
    Filter(merged, (r: MiriRow) => InHigh(r, highschools))
  }

  /** The keys of the existing high-school inventory sections. */
  function InventoryKeys(merged: seq<MiriRow>, highschools: seq<string>): seq<Option<string>>
  {
    Map(Filter(HighRows(merged, highschools), IsInventory), NameKey)
  }

  function MappedTutoring(merged: seq<MiriRow>, highschools: seq<string>): seq<MiriRow>
  {
    Map(Filter(HighRows(merged, highschools), IsTutoring), Mapped)
  }

  predicate NotKeyedIn(r: MiriRow, keys: seq<Option<string>>)
  {
    NameKey(r) !in keys
  }

  /** High-school tutoring rows renamed to their inventory, minus those whose
      name key an inventory row already has. */
  function OldMiriRows(merged: seq<MiriRow>, highschools: seq<string>): seq<MiriRow>
  {
    Filter(MappedTutoring(merged, highschools), (r: MiriRow) => NotKeyedIn(r, InventoryKeys(merged, highschools)))
  }

  function PlannedRow(r: MiriRow): Planned
  {
    Planned(r.school, r.staffName, r.programName)
  }

  /** `MIRI_sections_to_create` of this file, formatted with the defaults of
      `format_df`: it never fails, and gives one section per planned row, in order,
      reading back to that row, in school, with target dosage 0 and the given
      dates. Every section is at a high school and is an inventory, or has no name
      for a tutoring program other than the two mapped ones. */
  function OldMiriSectionsToCreate(sections: seq<MiriSection>, accounts: seq<Account>, programs: seq<Program>,
                                   staff: seq<StaffName>, highschools: seq<string>,
                                   startDate: string, endDate: string): (r: Result<seq<SectionToCreate>>)
    ensures r.Ok?
    ensures var rows := OldMiriRows(MiriMerged(sections, accounts, programs, staff), highschools);
      |r.value| == |rows| &&
      forall i :: 0 <= i < |rows| ==>
        Unformat(r.value[i]) == PlannedRow(rows[i]) &&
        r.value[i].inSchoolOrExtendedLearning == "In School" && r.value[i].targetDosage == 0 &&
        r.value[i].startDate == startDate && r.value[i].endDate == endDate
    ensures forall i :: 0 <= i < |r.value| ==>
      r.value[i].school.Some? && r.value[i].school.value in highschools &&
      (r.value[i].sectionName.None? || r.value[i].sectionName == Some("Reading Inventory") ||
       r.value[i].sectionName == Some("Math Inventory"))
  {
    var merged := MiriMerged(sections, accounts, programs, staff);
    var rows := OldMiriRows(merged, highschools);
    var planned := Map(rows, PlannedRow);
    FormatDfKeepsRows(planned, startDate, endDate, "In School", 0);
    assert forall i :: 0 <= i < |rows| ==> InHigh(rows[i], highschools) && OldMiriName(rows[i]) by {
      forall i | 0 <= i < |rows|
        ensures InHigh(rows[i], highschools) && OldMiriName(rows[i])
      {
        OldMiriPrograms(merged, highschools, rows[i]);
      }
    }
    FormatDf(planned, startDate, endDate, "In School", 0)
  }

  /** An inventory name, or none. */
  predicate OldMiriName(y: MiriRow)
  {
    y.programName.None? || y.programName == Some("Reading Inventory") || y.programName == Some("Math Inventory")
  }

  /** A planned row is a high-school tutoring row of the merged table with its
      program renamed, whose name key no high-school inventory row has. */
  lemma OldMiriRowsFrom(merged: seq<MiriRow>, highschools: seq<string>, y: MiriRow)
    requires y in OldMiriRows(merged, highschools)
    ensures NameKey(y) !in InventoryKeys(merged, highschools)
    ensures exists r :: r in merged && InHigh(r, highschools) && IsTutoring(r) && y == Mapped(r)
  {
    var keys := InventoryKeys(merged, highschools);
    FilterIn(MappedTutoring(merged, highschools), (r: MiriRow) => NotKeyedIn(r, keys), y);
    var hs := HighRows(merged, highschools);
    MapFilterIn(hs, IsTutoring, Mapped, y);
    var i :| 0 <= i < |hs| && IsTutoring(hs[i]) && y == Mapped(hs[i]);
    FilterIn(merged, (r: MiriRow) => InHigh(r, highschools), hs[i]);
  }

  /** Every planned MI/RI row is a high-school section of the staff member's
      tutoring program; a Reading Inventory row comes from a Literacy program and a
      Math Inventory row from a Math one. */
  lemma OldMiriSound(sections: seq<MiriSection>, accounts: seq<Account>, programs: seq<Program>,
                     staff: seq<StaffName>, highschools: seq<string>, y: MiriRow)
    requires y in OldMiriRows(MiriMerged(sections, accounts, programs, staff), highschools)
    ensures y.section in sections && InHigh(y, highschools)
    ensures y.programName == Some("Reading Inventory") ==>
      exists p :: p in programs && y.section.program == Some(p.id) && p.name == "Tutoring: Literacy"
    ensures y.programName == Some("Math Inventory") ==>
      exists p :: p in programs && y.section.program == Some(p.id) && p.name == "Tutoring: Math"
  {
    var merged := MiriMerged(sections, accounts, programs, staff);
    OldMiriRowsFrom(merged, highschools, y);
    var r :| r in merged && InHigh(r, highschools) && IsTutoring(r) && y == Mapped(r);
    MiriMergedFrom(sections, accounts, programs, staff, r);
  }

  /** A planned row is at a high school, and its program is an inventory, or
      missing for a tutoring program other than the two mapped ones. */
  lemma OldMiriPrograms(merged: seq<MiriRow>, highschools: seq<string>, y: MiriRow)
    requires y in OldMiriRows(merged, highschools)
    ensures InHigh(y, highschools)
    ensures y.programName.None? || y.programName == Some("Reading Inventory") || y.programName == Some("Math Inventory")
  {
    OldMiriRowsFrom(merged, highschools, y);
  }

  // ---------------------------------------------------------------- deactivate_all_sections

  /** The mask `(df.Program__c_Name == type) & (section_df.Active__c == True)`: the
      first factor is over the merged rows, the second over the unmerged sections,
      aligned by position; a position missing from either side is False. */
  function AlignedIds(merged: seq<StateRow>, sections: seq<SectionState>, sectionType: string): seq<string>
  {
    if |merged| == 0 then []
    else
      (if |sections| > 0 && merged[0].programName == Some(sectionType) && sections[0].active
       then [merged[0].state.id] else []) +
      AlignedIds(merged[1..], if |sections| > 0 then sections[1..] else [], sectionType)
  }

  function ToDeactivateAligned(sections: seq<SectionState>, programs: seq<Program>, sectionType: string): seq<string>
  {
    AlignedIds(LeftMerge(sections, programs, StateOf, StateRowOf), sections, sectionType)
  }

  lemma {:induction false} AlignedSame(merged: seq<StateRow>, sections: seq<SectionState>, sectionType: string)
    requires |merged| == |sections|
    requires forall i :: 0 <= i < |merged| ==> merged[i].state == sections[i]
    ensures AlignedIds(merged, sections, sectionType) ==
      Map(Filter(merged, (r: StateRow) => Selected(r, sectionType)), (r: StateRow) => r.state.id)
  {
    if |merged| > 0 {
      var sel := (r: StateRow) => Selected(r, sectionType);
      var id := (r: StateRow) => r.state.id;
      assert forall i :: 0 <= i < |merged[1..]| ==> merged[1..][i].state == sections[1..][i];
      AlignedSame(merged[1..], sections[1..], sectionType);
      var h := if sel(merged[0]) then [merged[0]] else [];
      assert Filter(merged, sel) == h + Filter(merged[1..], sel);
      MapConcat(h, Filter(merged[1..], sel), id);
      assert merged[0].state == sections[0];
      assert Map(h, id) == if merged[0].programName == Some(sectionType) && sections[0].active
                           then [merged[0].state.id] else [];
    }
  }

  /** With distinct program ids the positional mask selects exactly what the
      merged mask of the newer file selects. */
  lemma AlignedAgrees(sections: seq<SectionState>, programs: seq<Program>, sectionType: string)
    requires Distinct(ProgramIds(programs))
    ensures ToDeactivateAligned(sections, programs, sectionType) == ToDeactivate(sections, programs, sectionType)
  {
    var ids := ProgramIds(programs);
    forall i | 0 <= i < |sections|
      ensures AtMostOneMatch(sections[i], programs, StateOf)
    {
      forall j, k | 0 <= j < |programs| && 0 <= k < |programs| &&
          StateOf(sections[i], programs[j]) && StateOf(sections[i], programs[k])
        ensures j == k
      {
        assert ids[j] == ids[k];
      }
    }
    LeftMergeOneEach(sections, programs, StateOf, StateRowOf);
    var merged := LeftMerge(sections, programs, StateOf, StateRowOf);
    forall i | 0 <= i < |merged|
      ensures merged[i].state == sections[i]
    {
      var o := MergeOneHead(sections[i], programs, StateOf, StateRowOf);
    }
    AlignedSame(merged, sections, sectionType);
  }

  /** `deactivate_all_sections` of this file: the update calls made and the
      returned flag; the prompt's answer is a parameter. */
  method DeactivateAllSections(sections: seq<SectionState>, programs: seq<Program>, sectionType: string,
                               answer: string) returns (confirmed: bool, updates: seq<string>)
    ensures confirmed <==> Confirmed(answer)
    ensures confirmed ==> updates == ToDeactivateAligned(sections, programs, sectionType)
    ensures !confirmed ==> updates == []
  {
    var ids := ToDeactivateAligned(sections, programs, sectionType);
    updates := [];
    confirmed := Lower(answer) == "yes" || Lower(answer) == "y";
    if confirmed {
      for i := 0 to |ids|
        invariant updates == ids[..i]
      {
        updates := updates + [ids[i]];
      }
    }
  }
}
