# CY Schoolhouse automation — a Dafny model of its data rules

This project models the data-shaping core of the City Year cyschoolhouse automation scripts in Dafny. Those scripts sit between the CRM (Salesforce), a browser that drives the CRM's forms, and the Excel trackers. Each exported table is a sequence of records, with `Option` for a missing cell. Each pandas step is a function on sequences: filter, anti-join on a key, group sum, projection and sort. Where the scripts update state step by step, the model keeps that form: counter loops, sheet renames, the retrying session and the enrollment loop are methods. Each method is tied to a function that specifies it, and lemmas prove the scripts' promises about those functions. The CRM, the browser and the workbooks appear only as input sequences, outcome functions and lists of range writes.

Modules, one per script plus shared helpers:

- `Base`, `Strings`, `Seqs`, `Sorting`, `Frames` hold shared helpers:
  - optional values, results and the Python exceptions raised (`KeyError`, `ValueError`, `TypeError`, `IndexError`, interrupts);
  - text operations on cells, and sequence filtering and distinct values;
  - `sort_values`, with missing cells placed last;
  - a table with named columns, used for the steps that work by column name.
- `TotAudit` (`tot_audit.py`) covers the time-on-task audit:
  - the per-row error tags and their " & "-joined Error string;
  - the accepted-errors filter and the nine output columns;
  - the per-school split.
- `ChiIaAssignment` (`chi_ia_assignment.py`) covers indicator-area assignment:
  - the four successive `assign_ia_col` calls and the inverted section/IA dictionary;
  - per-enrollment aggregation of start, end and time;
  - the score filter on assessments and the final roster.
- `ChiSectionCreation` (`chi_section_creation.py`) covers section planning:
  - academic sections from the deployment sheet's "ELA/Math" column;
  - non-academic sections, from Corps Members crossed with two programs;
  - MI/RI sections, from existing tutoring sections in high schools;
  - the key anti-joins against existing sections, `format_df`, and the selection and confirmation of `deactivate_all_sections`.
- `SectionCreationChi` (`section_creation_chi.py`) is the older planner. It reuses the shared academic planner and `format_df`, and models only what differs:
  - its non-academic staff table;
  - name-keyed MI/RI planning, which maps Literacy to Reading Inventory;
  - its positionally aligned deactivation mask.
- `SectionCreation` (`section_creation.py`) covers section creation:
  - `Section` with its date validation;
  - the quote-escaped existence query and the skip rule of `create`;
  - `Sections` with its program check and string-to-list argument;
  - the staff planning of `create_all`;
  - the two try/except batch loops.
- `SimpleCysh` (`simple_cysh.py`) covers the query layer:
  - SOQL text and record projection;
  - the Id/Name renames and the school-year switch;
  - `get_object_fields`;
  - the retry-once session wrapper (`Session`);
  - the program, section and staff tables, including the string-argument handling.
- `Sheets` defines, once, the workbook view the tracker code uses: an ordered list of sheet names, with contents as range writes, and the ACM Rollup formula layout.
- `Trackers` (`trackers.py`) covers the trackers:
  - tracker path composition;
  - the staff display names;
  - the CoachingLog sheet-add rule;
  - the rollup fill;
  - the section enrollment table: dosage group sum, filter, rename and sort;
  - the 12 / 6 / 3+3 capacity-bounded fill of one ACM's tracker;
  - `wb_save_and_close`.
  `servicetrackers.py`'s `get_section_enrollment_table` and `fill_one_acm_wb` compute the same as trackers.py's `_process_section_enrollment_table` and `_fill_one_acm_wb`, so they are modelled once here.
- `ServiceTrackers` (`servicetrackers.py`) models the school/ACM partition loop of `update_service_trackers`.
- `TrackerMgmt` (`tracker_mgmt.py`) covers tracker management:
  - the coaching-log rollup;
  - the Log Validation named-range layout;
  - the rename and reset of ACM sheets and their round trip;
  - the staff and student filters of the validation-sheet update.
- `ChiThriveDatashare` (`chi_thrive_datashare.py`) covers the Thrive data share:
  - the data-dictionary column mapping, the membership id and the "All: " constant columns;
  - the per-file truncation and deduplication, and the program filter.
- `Student` (`student.py`) covers the student upload:
  - the 13-column upload shape and the removal of known students;
  - the external-id candidate rule.
- `Implementations` (`PageObjects/implementations.py`) covers IA enrollment:
  - the student list and the student details;
  - the step order of one enrollment;
  - the bounded-error enrollment loop. It is the class `IndicatorAreaEnrollment`, with an `error_count` field and one outcome per student.
- `Suite` (`cyschoolhouse/cyschoolhousesuite.py`) models the `extract_key` credential-line parser.

Scripts that look alike differ in small ways, and the model keeps each as written:
- `chi_section_creation.py` maps both tutoring programs to Math Inventory, while `section_creation_chi.py` maps Literacy to Reading Inventory.
- tracker_mgmt.py's rollup keeps 'ACM Template' among the ACM sheets, but trackers.py skips it.

Real-valued quantities (minutes, dosage, scores) are integers. Dates are integer day numbers, except the `%m/%d/%Y` text that `validate_date` parses.

## Model

| member | source | states |
|---|---|---|
| TotAudit.FillCommentsAsWritten | cyautomation/cyschoolhouse/tot_audit.py:90 | as written: every row keeps its other fields and its comment becomes missing, because `fillna(..., inplace=True)` returns None |
| TotAudit.FillComments | cyautomation/cyschoolhouse/tot_audit.py:90 | intended: a missing comment becomes "" and every present comment is kept, other fields unchanged |
| TotAudit.CommentLostAsWritten | cyautomation/cyschoolhouse/tot_audit.py:90 | a session commented "T1" loses its comment as written and keeps it once corrected |
| TotAudit.Tags | cyautomation/cyschoolhouse/tot_audit.py:92-110 | six tag cells in `error_cols` order, each missing or holding its own column name |
| TotAudit.MissingCodeRule | cyautomation/cyschoolhouse/tot_audit.py:92-93 | "Missing T1/T2 Code" is set exactly for Tutoring sessions whose comment holds neither "T1" nor "T2"; non-Tutoring rows get neither code tag |
| TotAudit.CodeTagsExclusive | cyautomation/cyschoolhouse/tot_audit.py:92-97 | the missing-code and listed-both tags are never set on the same row |
| TotAudit.TimeTags | cyautomation/cyschoolhouse/tot_audit.py:99-103 | "<10 Minutes" iff Tutoring and time < 10, ">120 Minutes" iff Tutoring and time > 120; never both, and 10..120 gets neither |
| TotAudit.AnyProgramTags | cyautomation/cyschoolhouse/tot_audit.py:105-108 | "Logged in Future" iff the session date is after the created date, for any program; "Wrong Section" iff the program is DESSA, Math Inventory or Reading Inventory |
| TotAudit.Error | cyautomation/cyschoolhouse/tot_audit.py:110-112 | the " & "-joined Error string is empty exactly when none of the six tag cells is set |
| TotAudit.ErrorSingleTag | cyautomation/cyschoolhouse/tot_audit.py:110-112 | with exactly one tag set, the Error string is that tag's name |
| TotAudit.ErrorTable | cyautomation/cyschoolhouse/tot_audit.py:119-140 | the result is sorted by the nine friendly columns and is a permutation of the surviving sessions in friendly form |
| TotAudit.ErrorTableMembers | cyautomation/cyschoolhouse/tot_audit.py:119-140 | a row is in the error table exactly when it is the friendly form of some surviving session |
| TotAudit.ErrorTableHasErrors | cyautomation/cyschoolhouse/tot_audit.py:119-122 | no row of the error table has an empty Error, and none has an accepted session id |
| TotAudit.ErrorTableAsWritten | cyautomation/cyschoolhouse/tot_audit.py:90-93 | as written, the all-None comment column makes the missing-code mask raise TypeError for any non-empty session table; only an empty table gets through, with no rows |
| TotAudit.SchoolTable | cyautomation/cyschoolhouse/tot_audit.py:146-147 | no more rows than the input; each row is a row of that school with its School column dropped; empty exactly when the school has no row |
| TotAudit.SchoolTableMembers | cyautomation/cyschoolhouse/tot_audit.py:146-147 | a school's table holds exactly that school's rows with the School column removed |
| TotAudit.WriteErrorTables | cyautomation/cyschoolhouse/tot_audit.py:143-155 | one write per reference school, in order, each to the school's audit path with that school's table |
| ChiIaAssignment.Invert | cyautomation/cyschoolhouse/chi_ia_assignment.py:158 | every IA type of the dictionary is a key of the inverted map, and each key maps to a section whose pair is in the dictionary |
| ChiIaAssignment.SectionIaItemsAgree | cyautomation/cyschoolhouse/chi_ia_assignment.py:14-19 | the lookup function agrees with each listed `SECTION_IA_DICT` pair |
| ChiIaAssignment.InvertExact | cyautomation/cyschoolhouse/chi_ia_assignment.py:158 | when the values are distinct, inverting sends each value back to its own key |
| ChiIaAssignment.SectionIaInverse | cyautomation/cyschoolhouse/chi_ia_assignment.py:14-19 | `SECTION_IA_DICT` is injective, so the inverted map sends each IA type back to its section name |
| ChiIaAssignment.IaTypeToSection | cyautomation/cyschoolhouse/chi_ia_assignment.py:158-160 | mapping an IA record's type through the inverted dictionary gives the section of that type |
| ChiIaAssignment.AssessmentDetails | cyautomation/cyschoolhouse/chi_ia_assignment.py:193-199 | every kept assessment has a score sum above 0, and the result is a sub-multiset of the input |
| ChiIaAssignment.AssessmentKept | cyautomation/cyschoolhouse/chi_ia_assignment.py:193-199 | an assessment is kept exactly when it is in the input and its three scores sum to more than 0 |
| ChiIaAssignment.MinOpt | cyautomation/cyschoolhouse/chi_ia_assignment.py:131 | the group's minimum start date: present iff some start is present, attained by one of them and below all of them |
| ChiIaAssignment.MaxOf | cyautomation/cyschoolhouse/chi_ia_assignment.py:132 | the group's maximum end date is attained and bounds every end date |
| ChiIaAssignment.EnrollmentDetails | cyautomation/cyschoolhouse/chi_ia_assignment.py:104-138 | one row per student-section row, keeping its key, student, activity, program, name, grade and school, with Days Active the end minus the start; rows of one Student_Program share start, end, time and Days Active, the end is at least every member's end (a missing end counting as now), the start at most every present start, and the time is the group's sum; a row with no key keeps its own dates and time |
| ChiIaAssignment.AggregateOfGroup | cyautomation/cyschoolhouse/chi_ia_assignment.py:130-138 | a row's aggregates are its group's min, max and sum, and Days Active is their difference |
| ChiIaAssignment.GroupAggBounds | cyautomation/cyschoolhouse/chi_ia_assignment.py:130-134 | the group maximum bounds every member's end, the minimum bounds every present start, and the time is the sum over the group |
| ChiIaAssignment.AggregatesAgree | cyautomation/cyschoolhouse/chi_ia_assignment.py:127-138 | every row of one Student_Program carries the same aggregates, which bound every member of the group, and its time is the group's sum |
| ChiIaAssignment.IaEnrollmentDetails | cyautomation/cyschoolhouse/chi_ia_assignment.py:158-175 | the left merge of the IA links with the programs on the section name: a detail is in the result exactly when it belongs to some link, keeping the link's IA id and the section its IA's type maps back to (missing when the IA is unknown or its type unmapped), with the Student\_Program of the link's student and some program named after that section, or none when no program bears the name; a link yields a detail for every program of that name, so names need not be unique; at least one detail per link, and exactly one per link, in order, when each section names at most one program |
| ChiIaAssignment.FirstIaType | cyautomation/cyschoolhouse/chi_ia_assignment.py:170 | the IA type of the first IA with the id, missing when no IA has it |
| ChiIaAssignment.SectionOfIaType | cyautomation/cyschoolhouse/chi_ia_assignment.py:158-160 | a present section is one whose pair in `SECTION_IA_DICT` has the given IA type; missing means the type is missing or no pair has it |
| ChiIaAssignment.IaKeyMatchesEnrollment | cyautomation/cyschoolhouse/chi_ia_assignment.py:171-174 | for ids free of `_`, an enrollment in a present program meets some IA detail in the merge exactly when a link of the same student has a section that names the enrollment's program |
| ChiIaAssignment.TwoDetails | cyautomation/cyschoolhouse/chi_ia_assignment.py:171-174 | a link whose section names both of two programs gets exactly two details, one with each program's Student\_Program, in program order |
| ChiIaAssignment.IaDetailsSharedName | cyautomation/cyschoolhouse/chi_ia_assignment.py:171-174 | with two programs named Tutoring: Math, a Math IA link of student S gives the two details S\_P1 and S\_P2, so an enrollment in either program meets the IA |
| ChiIaAssignment.MergeIa | cyautomation/cyschoolhouse/chi_ia_assignment.py:30 | the left merge keeps every enrollment: with no IA detail of its Student_Program it yields the single row with no IA type; otherwise its rows are exactly the enrollment paired with the section of each matching detail |
| ChiIaAssignment.MergeIaMembers | cyautomation/cyschoolhouse/chi_ia_assignment.py:30 | no row is matched exactly when no IA detail has the enrollment's Student_Program, and a matched row is that enrollment with a matching detail's section |
| ChiIaAssignment.MergeAll | cyautomation/cyschoolhouse/chi_ia_assignment.py:30 | the merged table has at least one row per enrollment |
| ChiIaAssignment.MergeAllMembers | cyautomation/cyschoolhouse/chi_ia_assignment.py:30 | a row is in the merged table exactly when it is one of the rows the merge gives some enrollment |
| ChiIaAssignment.MergedRows | cyautomation/cyschoolhouse/chi_ia_assignment.py:30 | every merged row has an empty assign column and an enrollment of the input, and every enrollment has a merged row |
| ChiIaAssignment.PickRow | cyautomation/cyschoolhouse/chi_ia_assignment.py:31-32 | the row kept for a Student_Program is one of its rows, and it is active iff some row of that Student_Program is active |
| ChiIaAssignment.DedupOnePerKey | cyautomation/cyschoolhouse/chi_ia_assignment.py:30-32 | after dedup each Student_Program occurs once, every input Student_Program is still present, and each kept row is an input row that is active iff one of its group is |
| ChiIaAssignment.DedupPreferActive | cyautomation/cyschoolhouse/chi_ia_assignment.py:31-32 | dropping duplicates never adds rows |
| ChiIaAssignment.Prepared | cyautomation/cyschoolhouse/chi_ia_assignment.py:27-32 | the prepared table has one row per Student_Program: keys are distinct, every student-section row's key has a row, and every row is an enrollment of the details with an empty assign column |
| ChiIaAssignment.PreparedFacts | cyautomation/cyschoolhouse/chi_ia_assignment.py:27-32 | the same three facts for the merged and deduplicated enrollment details |
| ChiIaAssignment.PreparedOn | cyautomation/cyschoolhouse/chi_ia_assignment.py:30-32 | for any enrollment table, merging with the IA details and dropping duplicates leaves distinct keys, one row for every enrollment's key, and only rows of the input with an empty assign column |
| ChiIaAssignment.SelectedRule | cyautomation/cyschoolhouse/chi_ia_assignment.py:207-229 | a row qualifies iff its program is the section type, and it has an assessment of the named type (before the cutoff when given) or, for Tutoring types, grade > 8; plus Days Active > min, time >= min and Active, each only when its threshold is set and not 0 |
| ChiIaAssignment.StudentsWithIff | cyautomation/cyschoolhouse/chi_ia_assignment.py:207-212 | a student is in `stu_with_assmt` iff one of their assessments matches the type and cutoff |
| ChiIaAssignment.SelectedRows | cyautomation/cyschoolhouse/chi_ia_assignment.py:207-229 | a row is selected by the mask exactly when its rule holds for it |
| ChiIaAssignment.AssignIa | cyautomation/cyschoolhouse/chi_ia_assignment.py:204-233 | on success every row whose rule holds gets `SECTION_IA_DICT[section_type]` in the assign column and every other row is unchanged; on failure the error is ValueError when a tutoring rule meets a missing grade and KeyError otherwise |
| ChiIaAssignment.AssignWritesOnlyItsProgram | cyautomation/cyschoolhouse/chi_ia_assignment.py:214-231 | a row of another program is unchanged; every row is unchanged or gets exactly `SECTION_IA_DICT[section_type]` |
| ChiIaAssignment.AssignSucceedsIff | cyautomation/cyschoolhouse/chi_ia_assignment.py:216-231 | the call succeeds iff the section type is a dictionary key and, for Tutoring types, every row has a grade for `astype(int)` |
| ChiIaAssignment.AssignKeepsEnrollment | cyautomation/cyschoolhouse/chi_ia_assignment.py:231 | only the assign column is written; a failure with a known section type is the ValueError of `astype(int)` |
| ChiIaAssignment.SameEnrollmentSameOutcome | cyautomation/cyschoolhouse/chi_ia_assignment.py:214-229 | whether the call succeeds depends only on the enrollment fields, not on earlier assignments |
| ChiIaAssignment.AssignCommutes | cyautomation/cyschoolhouse/chi_ia_assignment.py:36-62 | two calls for different known section types give the same result in either order |
| ChiIaAssignment.FourCallsResult | cyautomation/cyschoolhouse/chi_ia_assignment.py:36-62 | the four calls fail exactly when some row's grade is missing, with ValueError; on success each row keeps its enrollment and gets the IA of the last of the four rules that holds for it, or keeps its assign column when none does |
| ChiIaAssignment.RuleHoldsOnEnrollment | cyautomation/cyschoolhouse/chi_ia_assignment.py:207-229 | whether a rule holds depends only on a row's enrollment, so earlier calls do not change which rows a later call selects |
| ChiIaAssignment.Roster | cyautomation/cyschoolhouse/chi_ia_assignment.py:65-76 | the roster is sorted by its five columns and is a permutation of the rows with no IA type and an assignment, projected |
| ChiIaAssignment.RosterMembers | cyautomation/cyschoolhouse/chi_ia_assignment.py:65-76 | a roster row exists exactly for each row with no existing IA type and a non-missing assignment |
| ChiIaAssignment.IaToAssign | cyautomation/cyschoolhouse/chi_ia_assignment.py:27-76 | ValueError exactly when a prepared row has a missing grade; otherwise the roster is sorted and holds exactly the rows with no IA yet for which some rule gives an IA, each with that IA |
| ChiIaAssignment.IaToAssignRoster | cyautomation/cyschoolhouse/chi_ia_assignment.py:64-76 | the roster of the assigned rows holds exactly the rows with no IA type yet and a present assigned IA |
| ChiIaAssignment.AssignIaCol | cyautomation/cyschoolhouse/chi_ia_assignment.py:204-233 | in place on the table array: on success the array becomes the assigned table; on failure the error is returned and the array is unchanged |
| ChiIaAssignment.FourCallsInPlace | cyautomation/cyschoolhouse/chi_ia_assignment.py:36-62 | the four `assign_ia_col` calls, made in place on the table's columns, give exactly the four calls' combined result, stopping at the first error |
| ChiIaAssignment.GetIaToAssign | cyautomation/cyschoolhouse/chi_ia_assignment.py:21-81 | the four successive assignments, dedup and roster filter equal the specification pipeline |
| ChiSectionCreation.FormatDf | cyautomation/cyschoolhouse/chi_section_creation.py:136-151 | fails with AssertionError exactly when the in-school value is outside {In School, Extended Learning, Curriculum}; otherwise one row per input row carrying the given in-school value, start and end dates and target dosage |
| ChiSectionCreation.FormatDfKeepsRows | cyautomation/cyschoolhouse/chi_section_creation.py:140-145 | School, ACM and SectionName of the formatted rows are the planned rows, unchanged and in order |
| ChiSectionCreation.CleanDeployment | cyautomation/cyschoolhouse/chi_section_creation.py:23-31 | rows with a missing staff name are dropped, names trimmed and IA text trimmed and upper-cased; a non-empty sheet whose name or IA column is blank in every row fails with AttributeError, and otherwise a kept row with no IA text makes the masked write fail with ValueError |
| ChiSectionCreation.CleanDeploymentRows | cyautomation/cyschoolhouse/chi_section_creation.py:23-26 | every named deployment row reaches the cleaned table, trimmed and upper-cased |
| ChiSectionCreation.Melt | cyautomation/cyschoolhouse/chi_section_creation.py:28-39 | the melted table has one row per MATH request plus one per ELA request |
| ChiSectionCreation.MeltOne | cyautomation/cyschoolhouse/chi_section_creation.py:28-39 | one row gives a 'Tutoring: Math' pair when its text contains MATH and a 'Tutoring: Literacy' pair when it contains ELA: both, one or none |
| ChiSectionCreation.MeltMembers | cyautomation/cyschoolhouse/chi_section_creation.py:28-39 | a pair is planned exactly when some deployment row asks for it |
| ChiSectionCreation.NotYetCreated | cyautomation/cyschoolhouse/chi_section_creation.py:42-50 | the anti-join never adds rows |
| ChiSectionCreation.NotYetCreatedMembers | cyautomation/cyschoolhouse/chi_section_creation.py:42-50 | a pair is dropped exactly when an existing section's `staff_program` key equals the pair's key |
| ChiSectionCreation.JoinSchoolMembers | cyautomation/cyschoolhouse/chi_section_creation.py:52-55 | a row of the inner join is a pair and a staff row with the same name; unmatched pairs are dropped |
| ChiSectionCreation.AcademicPlan | cyautomation/cyschoolhouse/chi_section_creation.py:11-55 | fails exactly when cleaning the deployment sheet fails, with AttributeError for a column blank throughout and ValueError otherwise; otherwise every planned section is a Math or Literacy tutoring section of a staff member found in the staff table, with their school |
| ChiSectionCreation.AcademicPlanSound | cyautomation/cyschoolhouse/chi_section_creation.py:11-55 | every planned academic row is a tutoring section of a deployed pair whose key no existing section has |
| ChiSectionCreation.AcademicConstants | cyautomation/cyschoolhouse/chi_section_creation.py:57-60 | academic rows are In School with target dosage 900 |
| ChiSectionCreation.AcademicSectionsToCreate | cyautomation/cyschoolhouse/chi_section_creation.py:11-63 | AttributeError when a column of the sheet is blank throughout, ValueError when a named row lacks its IA, else MalformedQuery when no academic program or no account is found; otherwise the formatted plan, In School with target dosage 900 |
| ChiSectionCreation.CrossJoinLength | cyautomation/cyschoolhouse/chi_section_creation.py:76-79 | the `key=1` cross join has one row per staff row and program |
| ChiSectionCreation.CrossJoinMembers | cyautomation/cyschoolhouse/chi_section_creation.py:76-79 | a (staff, program) pair is in the cross join exactly when both are in their tables |
| ChiSectionCreation.NonAcademicPlanMembers | cyautomation/cyschoolhouse/chi_section_creation.py:65-88 | a Corps Member gets each of the two programs exactly when no existing section has the staff id and program name run together (no separator) |
| ChiSectionCreation.NonAcademicPlan | cyautomation/cyschoolhouse/chi_section_creation.py:65-88 | at most the listed programs for each staff member, and every planned section is a non-academic program of a Corps Member of the staff table, with their school |
| ChiSectionCreation.NonAcademicSectionsToCreate | cyautomation/cyschoolhouse/chi_section_creation.py:65-92 | MalformedQuery exactly when there is no account or no non-academic program; otherwise one formatted section per planned one, In School with target dosage 0 |
| ChiSectionCreation.Inventory | cyautomation/cyschoolhouse/chi_section_creation.py:95-110 | intended: the result is an inventory program, and it is Reading Inventory exactly for Tutoring: Literacy |
| ChiSectionCreation.CpRenamedFrom | cyautomation/cyschoolhouse/chi_section_creation.py:106-110 | a renamed tutoring section comes from a tutoring section with its program passed through the map |
| ChiSectionCreation.MiriTodoFrom | cyautomation/cyschoolhouse/chi_section_creation.py:112-118 | a section still to create is a renamed tutoring section whose key no inventory section has |
| ChiSectionCreation.MiriPlanWithFrom | cyautomation/cyschoolhouse/chi_section_creation.py:118-129 | every planned MIRI row is in a high school and carries the program of a still-missing renamed section |
| ChiSectionCreation.MiriPlanWithSound | cyautomation/cyschoolhouse/chi_section_creation.py:106-129 | every planned MIRI row is in a high school, comes from a tutoring section, and its staff has no inventory section with that key |
| ChiSectionCreation.MiriPlanWithAll | cyautomation/cyschoolhouse/chi_section_creation.py:106-129 | every planned section is in a high school and carries the inventory the map gives some tutoring section |
| ChiSectionCreation.MiriAsWrittenNoReading | cyautomation/cyschoolhouse/chi_section_creation.py:107-110 | as written, every planned MIRI row is a Math Inventory section |
| ChiSectionCreation.MiriPlanAsWritten | cyautomation/cyschoolhouse/chi_section_creation.py:95-129 | as written, every planned section is in a high school and is a Math Inventory, whatever tutoring it comes from |
| ChiSectionCreation.MiriPlan | cyautomation/cyschoolhouse/chi_section_creation.py:95-129 | intended: every planned section is in a high school and is a Reading Inventory for a Literacy tutoring section or a Math Inventory for a Math one |
| ChiSectionCreation.MiriSectionsToCreate | cyautomation/cyschoolhouse/chi_section_creation.py:95-133 | MalformedQuery exactly when there is no account or no tutoring or inventory program; otherwise one formatted section per planned one, In School with target dosage 0 |
| ChiSectionCreation.MiriPlanSound | cyautomation/cyschoolhouse/chi_section_creation.py:95-129 | intended: rows are high-school Math or Reading Inventory sections, Reading ones from a Literacy section and Math ones from a Math section |
| ChiSectionCreation.MiriLiteracyExample | cyautomation/cyschoolhouse/chi_section_creation.py:107-110 | a high-school ACM with only a Literacy section: as written the plan asks for Math Inventory, the intended plan for Reading Inventory |
| ChiSectionCreation.ExampleFor | cyautomation/cyschoolhouse/chi_section_creation.py:106-129 | one tutoring section of one high-school staff member yields exactly one planned section, of the inventory the map gives |
| ChiSectionCreation.ToDeactivateMembers | cyautomation/cyschoolhouse/chi_section_creation.py:172-178 | an id is selected exactly when it is an active section whose program has the given name |
| ChiSectionCreation.ToDeactivate | cyautomation/cyschoolhouse/chi_section_creation.py:172-178 | every id selected is that of an active section of a program with the given name |
| ChiSectionCreation.ToDeactivateSound | cyautomation/cyschoolhouse/chi_section_creation.py:172-178 | a selected id is an active section of the given program |
| ChiSectionCreation.ToDeactivateComplete | cyautomation/cyschoolhouse/chi_section_creation.py:172-178 | every active section of the given program is selected |
| ChiSectionCreation.DeactivateAllSections | cyautomation/cyschoolhouse/chi_section_creation.py:181-188 | returns True iff the lower-cased answer is 'yes' or 'y'; then it updates exactly the selected ids in order, otherwise none |
| ChiSectionCreation.DeactivationOnlySelected | cyautomation/cyschoolhouse/chi_section_creation.py:174-185 | an updated id implies a confirmed answer and an active section with that id |
| SectionCreationChi.NonCpStaffMembers | cyautomation/cyschoolhouse/section_creation_chi.py:75-78 | a staff-table row is a Chicago staff record with the name of its matching account as school, or with no school when no account matches |
| SectionCreationChi.NonCpPlansUnplaced | cyautomation/cyschoolhouse/section_creation_chi.py:75-89 | a Corps Member whose organisation is no account is still planned each program with no school (absent from `get_staff_df`) |
| SectionCreationChi.NonCpSectionsToCreate | cyautomation/cyschoolhouse/section_creation_chi.py:67-95 | MalformedQuery exactly when no non-academic program is found; otherwise one formatted section per planned one, each reading back to its plan row, In School with target dosage 0 |
| SectionCreationChi.SchoolStep | cyautomation/cyschoolhouse/section_creation_chi.py:113 | a row of the school merge is a section whose school, when found, is its own account's name |
| SectionCreationChi.ProgramStep | cyautomation/cyschoolhouse/section_creation_chi.py:114 | the program merge only fills in a program name, and that name is the section's program's |
| SectionCreationChi.StaffStep | cyautomation/cyschoolhouse/section_creation_chi.py:115 | the staff merge only fills in a staff name |
| SectionCreationChi.MiriMergedFrom | cyautomation/cyschoolhouse/section_creation_chi.py:110-115 | every merged row is a section with its own school and program, when found |
| SectionCreationChi.OldInventory | cyautomation/cyschoolhouse/section_creation_chi.py:128-131 | Literacy maps to Reading Inventory, Math to Math Inventory, and any other name to missing |
| SectionCreationChi.OldMiriRowsFrom | cyautomation/cyschoolhouse/section_creation_chi.py:117-136 | a planned row is a high-school tutoring row with its program renamed whose `staff name_program` key no high-school inventory row has |
| SectionCreationChi.OldMiriSound | cyautomation/cyschoolhouse/section_creation_chi.py:110-136 | every planned row is a high-school section; a Reading Inventory row comes from a Literacy section and a Math Inventory row from a Math section |
| SectionCreationChi.OldMiriPrograms | cyautomation/cyschoolhouse/section_creation_chi.py:117-131 | a planned row is at a high school, and its program is an inventory, or missing for another tutoring program |
| SectionCreationChi.OldMiriSectionsToCreate | cyautomation/cyschoolhouse/section_creation_chi.py:96-140 | never fails; one section per planned MI/RI row, in order, reading back to that row, In School, target dosage 0, with the given dates; every section is at a high school and is named Reading Inventory or Math Inventory, or has no name for another tutoring program |
| SectionCreationChi.AlignedSame | cyautomation/cyschoolhouse/section_creation_chi.py:172-178 | when the merged table is aligned with the section table, the positional mask selects the matching merged rows |
| SectionCreationChi.AlignedAgrees | cyautomation/cyschoolhouse/section_creation_chi.py:172-178 | with distinct program ids, the positional mask selects exactly what the merged mask of the newer file selects |
| SectionCreationChi.DeactivateAllSections | cyautomation/cyschoolhouse/section_creation_chi.py:174-188 | returns True iff the lower-cased answer is 'yes' or 'y'; then it updates exactly the selected ids in order, otherwise none |
| SectionCreation.MonthField | cyautomation/cyschoolhouse/utils.py:47-48 | a `%m` field that parses is a month from 1 to 12 |
| SectionCreation.DayField | cyautomation/cyschoolhouse/utils.py:47-48 | a `%d` field that parses is a day from 1 to 31 |
| SectionCreation.ParseDate | cyautomation/cyschoolhouse/utils.py:47-48 | a text `strptime(..., '%m/%d/%Y')` accepts names a real calendar date (leap years included) |
| SectionCreation.Pad2 | cyautomation/cyschoolhouse/section_creation.py:264-265 | `%m`/`%d` output is exactly two digits |
| SectionCreation.Pad2Value | cyautomation/cyschoolhouse/section_creation.py:264-265 | the two padded digits read back as the number |
| SectionCreation.FourDigits | cyautomation/cyschoolhouse/section_creation.py:264-265 | `%Y` of a year from 1000 to 9999 is four digits |
| SectionCreation.ParseFormatDate | cyautomation/cyschoolhouse/section_creation.py:264-265 | formatting a real date as `%m/%d/%Y` and validating it gives the same date back (the round trip `create_all_sections` relies on) |
| SectionCreation.MakeSection | cyautomation/cyschoolhouse/section_creation.py:22-36 | `Section(...)` succeeds exactly when both dates validate, else ValueError; the fields are stored unchanged |
| SectionCreation.CheckExistsQuery | cyautomation/cyschoolhouse/section_creation.py:67-77 | intended: the query fails with AttributeError exactly when the school is missing; otherwise it starts with the program name quoted for SOQL, and reading that literal back gives exactly the program name |
| SectionCreation.QuotedValueSafe | cyautomation/cyschoolhouse/section_creation.py:69 | after the escaping the code applies, every quote in a value is preceded by a backslash and unescaping gives the value back; a backslash already in the value is not escaped (see Findings) |
| SectionCreation.SoqlQuoted | cyautomation/cyschoolhouse/section_creation.py:69 | quoting for SOQL never shortens a value |
| SectionCreation.ReadLiteral | cyautomation/cyschoolhouse/section_creation.py:69-77 | a literal read from the text ends at an unescaped quote inside the text |
| SectionCreation.SoqlQuotedReadsBack | cyautomation/cyschoolhouse/section_creation.py:69-77 | with backslashes escaped too, reading the literal back gives exactly the value and stops at its closing quote |
| SectionCreation.QuotedEndsEarly | cyautomation/cyschoolhouse/section_creation.py:69 | as written, the value `x\'` quotes to `x\\'`, whose literal reads back as `x\` and ends before the value does; with backslashes escaped it reads back whole |
| SectionCreation.QueryOfReadsProgram | cyautomation/cyschoolhouse/section_creation.py:70-77 | intended: the query starts with the quoted program name, and reading that literal back gives exactly the program name |
| SectionCreation.QuotedAgrees | cyautomation/cyschoolhouse/section_creation.py:69 | on a value with no backslash, the escaping as written equals the escaping SOQL needs |
| SectionCreation.CheckExistsQueryAsSent | cyautomation/cyschoolhouse/section_creation.py:67-77 | when the school is present and no value holds a backslash (as for every program of `SectionPrograms`), the modelled query is exactly the text the source builds with its `replace` |
| SectionCreation.CheckExists | cyautomation/cyschoolhouse/section_creation.py:79-84 | no Id exactly when the query returns no records, otherwise the first record's Id |
| SectionCreation.Create | cyautomation/cyschoolhouse/section_creation.py:38-65 | an existing section is returned with no browser step; otherwise a driver is opened exactly when none was given and the nickname is set exactly when it is not empty |
| SectionCreation.CreateOrder | cyautomation/cyschoolhouse/section_creation.py:52-65 | the form is saved before the nickname is set, and the last step is the nickname or else the save |
| SectionCreation.AsList | cyautomation/cyschoolhouse/section_creation.py:158-166 | a single string becomes a one-element list; a list is kept |
| SectionCreation.MakeSections | cyautomation/cyschoolhouse/section_creation.py:145-166 | the constructor succeeds exactly for the eight listed programs, else AssertionError; roles and schools become lists, and missing schools stay missing |
| SectionCreation.TutoringFor | cyautomation/cyschoolhouse/section_creation.py:175-178 | an inventory program maps to the tutoring program whose inventory it is |
| SectionCreation.SectionStaffIn | cyautomation/cyschoolhouse/section_creation.py:180-187 | a staff member is in the section table's staff column exactly when they hold a section of that program |
| SectionCreation.SchoolFilteredIn | cyautomation/cyschoolhouse/section_creation.py:209-210 | the school filter keeps exactly the rows at a listed school, or every row when no schools are given |
| SectionCreation.StaffToCreateMiri | cyautomation/cyschoolhouse/section_creation.py:173-210 | for an inventory program: exactly the wanted-role staff with a tutoring section, no inventory section and a wanted school |
| SectionCreation.StaffToCreateOther | cyautomation/cyschoolhouse/section_creation.py:198-210 | for any other program: exactly the wanted-role staff with no section of the program and a wanted school |
| SectionCreation.CreateAllPlan | cyautomation/cyschoolhouse/section_creation.py:168-231 | fails exactly when the in-school value is unknown (AssertionError), else a date is invalid (ValueError), else a program or staff query has an empty IN-list (MalformedQuery); otherwise one section per selected staff row, in order, built from the row |
| SectionCreation.CreateAllPlanAsWritten | cyautomation/cyschoolhouse/section_creation.py:180-200 | as written the planner never succeeds |
| SectionCreation.CreateAllAsWrittenRaises | cyautomation/cyschoolhouse/section_creation.py:180-200 | once the checks pass, the keyword calls raise TypeError |
| SectionCreation.BatchStopShape | cyautomation/cyschoolhouse/section_creation.py:222-243 | the loop stops at the first row that is interrupted or whose handler raises, with that exception |
| SectionCreation.BatchCallsShape | cyautomation/cyschoolhouse/section_creation.py:222-232 | `create` is called on exactly the rows whose `Section(...)` succeeded, up to the stop |
| SectionCreation.BatchFailedShape | cyautomation/cyschoolhouse/section_creation.py:235-243 | exactly the failing rows before the stop are logged, and only with a handler that does not raise |
| SectionCreation.BatchStopped | cyautomation/cyschoolhouse/section_creation.py:233-234 | after the stop, later rows change nothing |
| SectionCreation.RunBatch | cyautomation/cyschoolhouse/section_creation.py:222-243 | the loop computes the batch run the lemmas above describe |
| SectionCreation.CreateAll | cyautomation/cyschoolhouse/section_creation.py:168-245 | a failed check raises before any driver is opened; an empty plan returns without a driver; otherwise a driver is opened exactly when none was given and every planned section is tried |
| SectionCreation.HandlerKeyErrorStopsBatch | cyautomation/cyschoolhouse/section_creation.py:236 | as written, a first failing section ends the loop with KeyError before the second is tried; a handler that only logs goes on to it |
| SectionCreation.InputSectionDates | cyautomation/cyschoolhouse/section_creation.py:264-282 | a spreadsheet row with two real dates becomes a section; a row with a missing date fails with ValueError |
| SectionCreation.CreateAllSections | cyautomation/cyschoolhouse/section_creation.py:254-295 | a driver is opened exactly when none was given, and every row is tried with a handler that only logs |
| SimpleCysh.Query | cyautomation/cyschoolhouse/simple_cysh.py:67-70 | the query text always starts with `SELECT ` |
| SimpleCysh.QueryWhere | cyautomation/cyschoolhouse/simple_cysh.py:67-70 | a non-empty clause appends exactly ` WHERE <clause>`; an empty clause adds nothing |
| SimpleCysh.QueryFields | cyautomation/cyschoolhouse/simple_cysh.py:67 | the field list joined by `, ` sits between `SELECT ` and ` FROM <object>`, and the query ends with the object name |
| SimpleCysh.MissingField | cyautomation/cyschoolhouse/simple_cysh.py:77-78 | no missing field exactly when the record has every field; a reported field is one of the fields and absent from the record |
| SimpleCysh.RecordsError | cyautomation/cyschoolhouse/simple_cysh.py:75-80 | no error exactly when every record has every field; a reported field is missing from some record |
| SimpleCysh.InQuery | cyautomation/cyschoolhouse/simple_cysh.py:109-117 | a query with an IN-clause fails with MalformedQuery exactly when the list is empty, and otherwise returns the rows |
| SimpleCysh.Projection | cyautomation/cyschoolhouse/simple_cysh.py:74-82 | the frame exists exactly when every record has every field; it has the field list as columns, one row per record and each cell the record's value; otherwise KeyError on a missing field |
| SimpleCysh.ProjectRecord | cyautomation/cyschoolhouse/simple_cysh.py:76-80 | the inner loop finds the first missing field, or builds the record's values in field order |
| SimpleCysh.ProjectRecords | cyautomation/cyschoolhouse/simple_cysh.py:74-82 | the nested loops compute the projection |
| SimpleCysh.RowsOfSnoc | cyautomation/cyschoolhouse/simple_cysh.py:80 | appending the next record's values extends the rows built so far by one record |
| SimpleCysh.RecordsErrorAt | cyautomation/cyschoolhouse/simple_cysh.py:75-78 | the first error from record i on is record i's missing field, or else the first error after it |
| SimpleCysh.CellsAre | cyautomation/cyschoolhouse/simple_cysh.py:74-82 | rows built for every record are the projection's cells |
| SimpleCysh.Renames | cyautomation/cyschoolhouse/simple_cysh.py:96-99 | renaming keeps the rows and the number of columns and renames each column independently |
| SimpleCysh.RenamesOnlyIdAndName | cyautomation/cyschoolhouse/simple_cysh.py:96-99 | only `Id` (to the object name) and `Name` (to the object name plus `_Name`) are renamed, each only when asked |
| SimpleCysh.ObjectFields | cyautomation/cyschoolhouse/simple_cysh.py:47-58 | ValueError when the object has no record; otherwise the sorted keys of one record with one `attributes` removed |
| SimpleCysh.ObjectFieldsDropsAttributes | cyautomation/cyschoolhouse/simple_cysh.py:55-56 | with distinct keys, `attributes` is not among the fields |
| SimpleCysh.DistinctCount | cyautomation/cyschoolhouse/simple_cysh.py:55-56 | a key of a record with distinct keys occurs at most once |
| SimpleCysh.GetObjectDf | cyautomation/cyschoolhouse/simple_cysh.py:61-101 | a year other than SY17, SY18 or SY19 raises ValueError; any frame returned is well formed |
| SimpleCysh.GetObjectDfLive | cyautomation/cyschoolhouse/simple_cysh.py:63-99 | for SY19 with fields: a frame exactly when every record has every field, one row per record, the renamed fields as columns and the records' values as cells |
| SimpleCysh.GetObjectDfAllFields | cyautomation/cyschoolhouse/simple_cysh.py:64-65 | for SY19 without fields, every field `get_object_fields` reports is queried, and its error is passed on |
| SimpleCysh.GetObjectDfCsv | cyautomation/cyschoolhouse/simple_cysh.py:84-99 | for SY17/SY18 the year's export is read, projected only when a field list is given, which must name existing columns |
| SimpleCysh.Retried | cyautomation/cyschoolhouse/simple_cysh.py:34-44 | the call is made twice exactly when the first call finds the session expired, with a new session for the second call |
| SimpleCysh.Session.constructor | cyautomation/cyschoolhouse/simple_cysh.py:23-32 | a fresh session is the first generation |
| SimpleCysh.Session.Call | cyautomation/cyschoolhouse/simple_cysh.py:34-44 | a wrapped call updates the session exactly as the retry rule says |
| SimpleCysh.RetriedOnce | cyautomation/cyschoolhouse/simple_cysh.py:38-42 | anything but an expiry passes through from the first call; an expiry is retried exactly once, and any other error is not retried |
| SimpleCysh.SectionsOfInterestAsWritten | cyautomation/cyschoolhouse/simple_cysh.py:105-106 | as written, a string becomes the list of its characters |
| SimpleCysh.AsWrittenLosesName | cyautomation/cyschoolhouse/simple_cysh.py:105-106 | a program name longer than one character is lost |
| SimpleCysh.AsWrittenTutoringMath | cyautomation/cyschoolhouse/simple_cysh.py:105-106 | `'Tutoring: Math'` becomes 14 one-character names, none of them the program |
| SimpleCysh.SectionsOfInterest | cyautomation/cyschoolhouse/simple_cysh.py:126-127 | a string becomes a one-element list; a list is kept |
| SimpleCysh.SectionsOfInterestKeepsName | cyautomation/cyschoolhouse/simple_cysh.py:126-127 | the names asked for are exactly the given name or names |
| SimpleCysh.ProgramsNamed | cyautomation/cyschoolhouse/simple_cysh.py:108-111 | MalformedQuery exactly when no name is asked for (an empty IN-list); otherwise exactly the programs with a name of interest |
| SimpleCysh.ProgramRows | cyautomation/cyschoolhouse/simple_cysh.py:108-111 | the program rows are exactly the programs with a name of interest |
| SimpleCysh.ProgramRowsEmpty | cyautomation/cyschoolhouse/simple_cysh.py:108-116 | no program row is found exactly when no program has a name of interest |
| SimpleCysh.SectionsOfMembers | cyautomation/cyschoolhouse/simple_cysh.py:113-120 | MalformedQuery exactly when no program was found; otherwise a row is exactly a section of one of the programs paired with that program's name |
| SimpleCysh.SectionQueriesResult | cyautomation/cyschoolhouse/simple_cysh.py:108-120 | the two queries fail, with MalformedQuery, exactly when no program has a name of interest; otherwise they give the sections of the programs found |
| SimpleCysh.GetSectionDf | cyautomation/cyschoolhouse/simple_cysh.py:104-122 | intended: MalformedQuery exactly when no program has a name of interest, a lone string kept whole; otherwise the section table of those programs |
| SimpleCysh.GetSectionDfMembers | cyautomation/cyschoolhouse/simple_cysh.py:104-122 | the table `get_section_df` returns on success holds exactly the sections of a program of interest, each with its program's name |
| SimpleCysh.GetSectionDfAsWritten | cyautomation/cyschoolhouse/simple_cysh.py:104-122 | as written: MalformedQuery exactly when no program has one of the names the argument is split into; otherwise the sections of the programs found |
| SimpleCysh.GetSectionDfAsWrittenRaises | cyautomation/cyschoolhouse/simple_cysh.py:105-117 | with no one-character program name and a Tutoring: Math program, `get_section_df('Tutoring: Math')` raises MalformedQuery as written and succeeds once corrected |
| SimpleCysh.GetSectionDfAsWrittenMissesProgram | cyautomation/cyschoolhouse/simple_cysh.py:105-122 | as written, when the query for a string argument does succeed, none of its rows belongs to the program of that name when the name is longer than one character |
| SimpleCysh.StudentSectionPrograms | cyautomation/cyschoolhouse/simple_cysh.py:125-135 | the programs loaded are exactly those named by the argument, a lone string kept whole |
| SimpleCysh.GetStaffDf | cyautomation/cyschoolhouse/simple_cysh.py:168-187 | MalformedQuery exactly when no account is found (an empty IN-list); otherwise the staff table of the accounts |
| SimpleCysh.GetStaffDfMembers | cyautomation/cyschoolhouse/simple_cysh.py:168-187 | the table `get_staff_df` returns on success holds exactly the staff members at an account, each paired with that account's name as school |
| SimpleCysh.GetStaffDfCalledAsWritten | cyautomation/cyschoolhouse/simple_cysh.py:168 | `get_staff_df` takes no arguments: any keyword raises TypeError, no keyword gives the staff table |
| SimpleCysh.RolesKeywordRaises | cyautomation/cyschoolhouse/simple_cysh.py:168 | a `roles=` keyword raises TypeError |
| SimpleCysh.FilterStaff | cyautomation/cyschoolhouse/simple_cysh.py:168-187 | the intended filter never adds rows |
| SimpleCysh.FilterStaffMembers | cyautomation/cyschoolhouse/simple_cysh.py:168-187 | kept rows are exactly those with a wanted role and a wanted school, each only when given; with neither, the table is unchanged |
| Trackers.MakeTrackerPath | cyautomation/cyschoolhouse/trackers.py:23-34 | the root is the temporary folder in test mode and `Z:/` otherwise; the folder is the school's informal name followed by the kind's folder |
| Trackers.LastIndex | cyautomation/cyschoolhouse/trackers.py:72-79 | the index found holds the last occurrence of the character, and no index means the character does not occur |
| Trackers.TrackerStem | cyautomation/cyschoolhouse/trackers.py:79-82 | the title written to A1 of a deployed tracker is `"{year} {kind} - {informal}"`, the file name without its type |
| Trackers.TrackerPathsDistinct | cyautomation/cyschoolhouse/trackers.py:28-34 | two schools never share a tracker path |
| Trackers.DisplayName | cyautomation/cyschoolhouse/trackers.py:171-174 | the display name is the first name, a space, the last name's first character and a dot; a missing last name is a null that prints as `None` and gives `N`, a missing first name or an empty last name gives no name |
| Trackers.DisplayKey | cyautomation/cyschoolhouse/trackers.py:176 | the sort key is the display name alone |
| Trackers.TrackerStaff | cyautomation/cyschoolhouse/trackers.py:164-181 | the validation rows are sorted by display name and are a permutation of the school's staff rows with the three roles |
| Trackers.TrackerStaffMembers | cyautomation/cyschoolhouse/trackers.py:164-181 | a validation row lists exactly a staff member of the school with one of the three roles |
| Trackers.AddStopped | cyautomation/cyschoolhouse/trackers.py:225-231 | once a row has raised, the later rows change nothing |
| Trackers.AddStep | cyautomation/cyschoolhouse/trackers.py:223-231 | after an earlier error nothing changes; a step adds at most one sheet and otherwise leaves sheets and A1 values as they were; a new sheet is the row's display name, absent from the sheets ignoring case, and its A1 holds the staff name |
| Trackers.AddUpTo | cyautomation/cyschoolhouse/trackers.py:223-231 | after an earlier error nothing changes; the workbook never loses a sheet and gains at most one per row |
| Trackers.NewRowsSnoc | cyautomation/cyschoolhouse/trackers.py:225-226 | the rows that get a sheet grow by the next row exactly when its name is new |
| Trackers.InsertBeforeMarker | cyautomation/cyschoolhouse/trackers.py:227 | inserting a new name just before Dev Map, after the names already inserted there, keeps every earlier sheet and leaves the name fresh |
| Trackers.AddStepInserts | cyautomation/cyschoolhouse/trackers.py:225-231 | a named row new to the workbook inserts its name just before Dev Map |
| Trackers.InsertedNext | cyautomation/cyschoolhouse/trackers.py:225-231 | one more new name keeps the closed form of the sheet list |
| Trackers.InsertedSkip | cyautomation/cyschoolhouse/trackers.py:226 | a row whose name the workbook already had adds nothing |
| Trackers.InsertedUpTo | cyautomation/cyschoolhouse/trackers.py:225-231 | by induction over the rows, the sheet list keeps its closed form |
| Trackers.AddUpToClosedForm | cyautomation/cyschoolhouse/trackers.py:223-231 | with Dev Map present, named rows and names distinct up to case, every new name becomes a sheet just before Dev Map, in row order, and every existing sheet is kept |
| Trackers.ValidationWritten | cyautomation/cyschoolhouse/trackers.py:216-217 | writing the staff table from A1 of ACM Validation sets that sheet's A1 to the first row's individual name (cleared when there is no row or no name) and leaves every other A1 as it was |
| Trackers.TemplateCleared | cyautomation/cyschoolhouse/trackers.py:220 | clearing `A1,A3:J300` of ACM Template removes its A1 and leaves every other A1 as it was |
| Trackers.FillAcmRollupSheet | cyautomation/cyschoolhouse/trackers.py:239-267 | KeyError without an ACM Rollup sheet; otherwise the header, the lookup column and one 300-row block per ACM sheet |
| Trackers.UpdateAcmValidationSheet | cyautomation/cyschoolhouse/trackers.py:207-233 | KeyError without the ACM Validation sheet, workbook unchanged; KeyError without the ACM Template sheet, after the staff table is written from A1 of ACM Validation; otherwise the template's A1 is cleared and the sheets and A1 values are those of the sheet-add loop, which stops at its first error, and then the rollup is filled, or KeyError without the rollup sheet |
| Trackers.NewSheetInRollup | cyautomation/cyschoolhouse/trackers.py:255-260 | a sheet not in the skip list appears in the rollup |
| Trackers.ProgramLabel | cyautomation/cyschoolhouse/trackers.py:342-345 | Tutoring: Math shows as Math, Tutoring: Literacy as ELA, and every other program keeps its name |
| Trackers.EnrollmentKey | cyautomation/cyschoolhouse/trackers.py:352-356 | the sort key has the five columns school, ACM, program, grade and student, the grade as the CRM's text |
| Trackers.GradeSortsAsText | cyautomation/cyschoolhouse/trackers.py:352-356 | within one school, ACM and program, a student in grade `10` sorts before one in grade `9`, whatever their names, because the grades compare as text |
| Trackers.DosageTotal | cyautomation/cyschoolhouse/trackers.py:331-332 | the group dosage of a row with no Student_Program is 0, and it is never negative when no dosage is |
| Trackers.SortedEnrollment | cyautomation/cyschoolhouse/servicetrackers.py:25-39 | the current rows, sorted by the five columns, are a permutation of the current rows |
| Trackers.EnrollmentTable | cyautomation/cyschoolhouse/trackers.py:329-361 | the table has exactly as many rows as there are active rows without an end date |
| Trackers.CurrentRowsIn | cyautomation/cyschoolhouse/servicetrackers.py:25 | a current row is exactly an active row with no end date, with its label and total |
| Trackers.EnrollmentTableMembers | cyautomation/cyschoolhouse/trackers.py:329-361 | the table holds exactly the current rows, each with its program label and the dosage total of its enrollment over all rows |
| Trackers.DosageCountsEveryRow | cyautomation/cyschoolhouse/servicetrackers.py:21-22 | another row of the same enrollment, active or not, adds its dosage to the total |
| Trackers.FillOneAcm | cyautomation/cyschoolhouse/trackers.py:364-410 | the header is the ACM name, the pages hold at most 12, 6 and 3+3 names, and each warning is logged exactly when its group is over capacity |
| Trackers.FillOneAcmFirstRows | cyautomation/cyschoolhouse/servicetrackers.py:52-81 | each page holds the first rows of its group in order, with attendance split as rows 0-2 and 3-5 |
| Trackers.SaveAndClose | cyautomation/cyschoolhouse/trackers.py:426-437 | the first sheet is activated and the workbook saved; a failure is logged and swallowed, an interrupt is raised again, and the workbook is closed last in every case |
| ServiceTrackers.SchoolAttempts | cyautomation/cyschoolhouse/servicetrackers.py:132-144 | one attempt per ACM of the school |
| ServiceTrackers.SchoolAttemptsSnoc | cyautomation/cyschoolhouse/servicetrackers.py:132-144 | each ACM adds one attempt, in the order of first appearance |
| ServiceTrackers.RunStopped | cyautomation/cyschoolhouse/servicetrackers.py:148-150 | once a school has raised, the later schools change nothing |
| ServiceTrackers.FillSchool | cyautomation/cyschoolhouse/servicetrackers.py:132-144 | the ACM loop makes exactly the school's attempts, a failure logged and the loop going on |
| ServiceTrackers.UpdateServiceTrackers | cyautomation/cyschoolhouse/servicetrackers.py:100-156 | the school loop computes the run: ACM attempts, merged schools and the exception that ended it |
| ServiceTrackers.SchoolStepShape | cyautomation/cyschoolhouse/servicetrackers.py:118-152 | a school's step keeps the attempts before it and adds that school's attempts; nothing happens after an error |
| ServiceTrackers.AcmRowsMembers | cyautomation/cyschoolhouse/servicetrackers.py:128-133 | an ACM's rows are exactly the table rows with that school and that ACM, both present |
| ServiceTrackers.SchoolAttemptsShape | cyautomation/cyschoolhouse/servicetrackers.py:132-144 | a school's attempts are valid, all of that school, with distinct ACMs |
| ServiceTrackers.AppendValid | cyautomation/cyschoolhouse/servicetrackers.py:118-144 | appending valid attempts keeps them valid |
| ServiceTrackers.AppendSchools | cyautomation/cyschoolhouse/servicetrackers.py:118 | the attempts stay within the schools visited so far |
| ServiceTrackers.AppendDistinct | cyautomation/cyschoolhouse/servicetrackers.py:118-132 | a new school's attempts do not repeat a (school, ACM) pair |
| ServiceTrackers.RunFacts | cyautomation/cyschoolhouse/servicetrackers.py:118-152 | after any number of schools, the attempts are valid, within the schools visited and distinct |
| ServiceTrackers.RunAttempts | cyautomation/cyschoolhouse/servicetrackers.py:118-144 | each school and ACM is filled at most once, with exactly the rows of that school and ACM, and a row with no school or no ACM is never filled |
| ServiceTrackers.RunPrefix | cyautomation/cyschoolhouse/servicetrackers.py:118-152 | the attempts of the first schools are a prefix of the later attempts |
| ServiceTrackers.RunUpTo | cyautomation/cyschoolhouse/servicetrackers.py:118-150 | after n schools with no error, exactly n schools are merged; an error is an IndexError and leaves fewer than n merged |
| ServiceTrackers.Run | cyautomation/cyschoolhouse/servicetrackers.py:118-152 | with no error every school of the table is merged; an error is an IndexError and leaves fewer schools merged |
| ServiceTrackers.SchoolBlockAt | cyautomation/cyschoolhouse/servicetrackers.py:118-144 | a school that does not end the run appends its ACM attempts in order |
| ServiceTrackers.RunIncludesAcm | cyautomation/cyschoolhouse/servicetrackers.py:118-144 | in a run no school ends, every ACM of every school is attempted |
| ServiceTrackers.AcmOfRow | cyautomation/cyschoolhouse/servicetrackers.py:118-132 | a row with a school and an ACM puts that ACM among its school's ACMs |
| ServiceTrackers.RunCovers | cyautomation/cyschoolhouse/servicetrackers.py:118-144 | in a run no school ends, every row with a school and an ACM is filled |
| ServiceTrackers.MissingSchoolStops | cyautomation/cyschoolhouse/servicetrackers.py:128-150 | a missing school ends the run with IndexError, after an ACM loop that has nothing to do |
| ServiceTrackers.NoRowsAtMissingSchool | cyautomation/cyschoolhouse/servicetrackers.py:128-130 | no row compares equal to a missing school |
| TrackerMgmt.FillOneCoachingLogAcmRollup | cyautomation/cyschoolhouse/tracker_mgmt.py:12-34 | KeyError without an ACM Rollup sheet; otherwise the header, the lookup down to row 3000 and one 300-row block per sheet outside the six skipped ones |
| TrackerMgmt.MgmtAcmSheets | cyautomation/cyschoolhouse/tracker_mgmt.py:24-27 | an ACM sheet is exactly a sheet other than the six; unlike the coaching-log class, the ACM Template counts as one |
| TrackerMgmt.ItemWrites | cyautomation/cyschoolhouse/tracker_mgmt.py:252 | one write per item of a list |
| TrackerMgmt.SubRanges | cyautomation/cyschoolhouse/tracker_mgmt.py:244-251 | one named range per sub-list |
| TrackerMgmt.WriteCategory | cyautomation/cyschoolhouse/tracker_mgmt.py:237-253 | the loop over one category's sub-lists, with its row counter, produces the category's writes and named ranges |
| TrackerMgmt.UpdateCoachLogValidation | cyautomation/cyschoolhouse/tracker_mgmt.py:236-253 | KeyError when there is a category and the sheet is missing; otherwise category i is laid out in column i, and a 27th category has no column letter |
| TrackerMgmt.HeaderRowGrows | cyautomation/cyschoolhouse/tracker_mgmt.py:245-253 | each header lies at least its predecessor's list length plus two rows below it |
| TrackerMgmt.HeaderRowAtLeast | cyautomation/cyschoolhouse/tracker_mgmt.py:238-245 | the first header is at row 3 or below |
| TrackerMgmt.RangesDisjoint | cyautomation/cyschoolhouse/tracker_mgmt.py:245-253 | the named ranges of a column are disjoint and in order, and no header lies inside one |
| TrackerMgmt.SubsWritesCells | cyautomation/cyschoolhouse/tracker_mgmt.py:244-253 | every write of the lists is one cell of the column, at row 3 or below |
| TrackerMgmt.SubBlockShape | cyautomation/cyschoolhouse/tracker_mgmt.py:246-252 | a sub-list block writes its upper-cased name at the header row and the items one per row below it |
| TrackerMgmt.SubBlockCells | cyautomation/cyschoolhouse/tracker_mgmt.py:246-252 | in its own block, the header row shows the upper-cased name and the rows below show the items |
| TrackerMgmt.SubsWritesCell | cyautomation/cyschoolhouse/tracker_mgmt.py:244-253 | later blocks leave a list's rows alone |
| TrackerMgmt.CategoryCells | cyautomation/cyschoolhouse/tracker_mgmt.py:239-253 | row 1 of the column shows the upper-cased category, each header row its list's name and each range row its item |
| TrackerMgmt.CategoryInColumn | cyautomation/cyschoolhouse/tracker_mgmt.py:237-252 | a category writes only its own column |
| TrackerMgmt.JoinedColumns | cyautomation/cyschoolhouse/tracker_mgmt.py:236-237 | the first n categories leave columns from n on empty |
| TrackerMgmt.JoinedColumn | cyautomation/cyschoolhouse/tracker_mgmt.py:236-237 | column i shows what block i wrote |
| TrackerMgmt.CategoryBlocks | cyautomation/cyschoolhouse/tracker_mgmt.py:236 | one block per category |
| TrackerMgmt.BlocksInColumns | cyautomation/cyschoolhouse/tracker_mgmt.py:236-237 | block k stays in column k |
| TrackerMgmt.LayoutColumns | cyautomation/cyschoolhouse/tracker_mgmt.py:236-253 | the first n categories write only the first n columns |
| TrackerMgmt.LayoutColumn | cyautomation/cyschoolhouse/tracker_mgmt.py:236-253 | columns do not interfere: column i shows what category i wrote there |
| TrackerMgmt.FocusLayout | cyautomation/cyschoolhouse/tracker_mgmt.py:208-253 | with the script's own lists, the ELA header is at row 3 with its range at rows 4-10, and the Math header at row 12 with its range at rows 13-18 |
| TrackerMgmt.RenamePhaseStopped | cyautomation/cyschoolhouse/tracker_mgmt.py:73-78 | once a rename has raised, the later staff change nothing |
| TrackerMgmt.ResetPhaseStopped | cyautomation/cyschoolhouse/tracker_mgmt.py:88-90 | once a reset has raised, the later sheets change nothing |
| TrackerMgmt.FirstsSnoc | cyautomation/cyschoolhouse/tracker_mgmt.py:78 | the list of added sheets grows by each staff member's first name |
| TrackerMgmt.DeployAcmSheets | cyautomation/cyschoolhouse/tracker_mgmt.py:71-90 | the rename and reset loops compute the deployment's sheets, A1 values and error |
| TrackerMgmt.RenamePhase | cyautomation/cyschoolhouse/tracker_mgmt.py:73-78 | after an earlier error nothing changes, and the renames never change the sheet count |
| TrackerMgmt.ResetPhase | cyautomation/cyschoolhouse/tracker_mgmt.py:86-90 | after an earlier error nothing changes, and the resets never change the sheet count |
| TrackerMgmt.Deploy | cyautomation/cyschoolhouse/tracker_mgmt.py:71-90 | after an earlier error nothing changes; the sheet count never changes; when a rename fails the resets do not run |
| TrackerMgmt.AcmNumberOf | cyautomation/cyschoolhouse/tracker_mgmt.py:75-90 | the number of `ACM{p}` reads back as p |
| TrackerMgmt.AcmNumberName | cyautomation/cyschoolhouse/tracker_mgmt.py:75-90 | a name that has an ACM number is `ACM{n}` for that number |
| TrackerMgmt.RenamedSheets | cyautomation/cyschoolhouse/tracker_mgmt.py:73-78 | renaming keeps the number of sheets |
| TrackerMgmt.RenamedSheetsAt | cyautomation/cyschoolhouse/tracker_mgmt.py:73-78 | each sheet is renamed on its own, by its name |
| TrackerMgmt.RenamedSheetsNone | cyautomation/cyschoolhouse/tracker_mgmt.py:73-78 | with no position renamed the sheets are the original ones |
| TrackerMgmt.FirstNotSheet | cyautomation/cyschoolhouse/tracker_mgmt.py:76 | in a ready workbook, a first name is never an original sheet name, ignoring case |
| TrackerMgmt.FirstsDiffer | cyautomation/cyschoolhouse/tracker_mgmt.py:76 | in a ready workbook, two first names differ ignoring case |
| TrackerMgmt.RenameNoEarlier | cyautomation/cyschoolhouse/tracker_mgmt.py:75 | before the j-th rename, `ACM{j}` does not occur before its original place |
| TrackerMgmt.RenameNameFree | cyautomation/cyschoolhouse/tracker_mgmt.py:76 | before the j-th rename, no other sheet has the j-th first name |
| TrackerMgmt.RenamedSheetsGrow | cyautomation/cyschoolhouse/tracker_mgmt.py:75-76 | renaming `ACM{j}` in place extends the renamed positions by one |
| TrackerMgmt.RenamedGrowAt | cyautomation/cyschoolhouse/tracker_mgmt.py:75-76 | widening the renamed positions to j changes exactly the name `ACM{j}` |
| TrackerMgmt.CaselessOnce | cyautomation/cyschoolhouse/tracker_mgmt.py:75 | in a sheet list without case-insensitive duplicates, each name occurs once |
| TrackerMgmt.RenameStepReady | cyautomation/cyschoolhouse/tracker_mgmt.py:75-77 | the j-th rename finds `ACM{j}` at its original place and nowhere before, and renames it |
| TrackerMgmt.RenameA1Step | cyautomation/cyschoolhouse/tracker_mgmt.py:77 | after the j-th rename and A1 write, the first j staff members' names are in the A1 of their sheets |
| TrackerMgmt.RenamePhaseAt | cyautomation/cyschoolhouse/tracker_mgmt.py:73-78 | after j renames of a ready workbook, the first j ACM sheets carry first names and hold the staff names in A1 |
| TrackerMgmt.ResetNoEarlier | cyautomation/cyschoolhouse/tracker_mgmt.py:90 | before the j-th reset, the j-th first name does not occur before the place of `ACM{j}` |
| TrackerMgmt.ResetNameFree | cyautomation/cyschoolhouse/tracker_mgmt.py:90 | before the j-th reset, no other sheet is named `ACM{j}` |
| TrackerMgmt.RenamedSheetsShrink | cyautomation/cyschoolhouse/tracker_mgmt.py:90 | naming the sheet `ACM{j}` again shrinks the renamed positions by one |
| TrackerMgmt.RenamedShrinkAt | cyautomation/cyschoolhouse/tracker_mgmt.py:90 | narrowing the renamed positions past j restores exactly the name `ACM{j}` |
| TrackerMgmt.ResetStepReady | cyautomation/cyschoolhouse/tracker_mgmt.py:88-90 | the j-th reset finds the first name where `ACM{j}` was and names it back |
| TrackerMgmt.ResetA1Step | cyautomation/cyschoolhouse/tracker_mgmt.py:88-90 | after the j-th reset, `ACM1` to `ACM{j}` hold the staff names and the later renamed sheets keep theirs |
| TrackerMgmt.ResetPhaseAt | cyautomation/cyschoolhouse/tracker_mgmt.py:86-90 | after j resets, `ACM1` to `ACM{j}` are back, holding the staff names in A1 |
| TrackerMgmt.DeployRoundTrip | cyautomation/cyschoolhouse/tracker_mgmt.py:71-90 | a ready workbook ends with its original sheet names, and `ACM{p}` holds the p-th staff member's name in A1 |
| TrackerMgmt.DeployMissingSheet | cyautomation/cyschoolhouse/tracker_mgmt.py:73-78 | more Corps Members than ACM sheets stops with KeyError at the first missing sheet, and the sheets renamed so far are never reset |
| TrackerMgmt.StaffKey | cyautomation/cyschoolhouse/tracker_mgmt.py:144 | the sort key is the display name alone |
| TrackerMgmt.MgmtStaff | cyautomation/cyschoolhouse/tracker_mgmt.py:139-148 | the staff table is sorted by display name |
| TrackerMgmt.SchoolAcmRows | cyautomation/cyschoolhouse/tracker_mgmt.py:168-174 | a school's ACM Validation rows are sorted by display name |
| TrackerMgmt.SchoolAcmRowsMembers | cyautomation/cyschoolhouse/tracker_mgmt.py:139-174 | a row is listed for a school exactly when it is a staff member there whose role names a Corps Member or a Team Leader |
| TrackerMgmt.EntryKey | cyautomation/cyschoolhouse/tracker_mgmt.py:152 | the sort key is the student name alone |
| TrackerMgmt.AttKey | cyautomation/cyschoolhouse/tracker_mgmt.py:152 | the sort key is the student name alone |
| TrackerMgmt.SchoolStudentRows | cyautomation/cyschoolhouse/tracker_mgmt.py:177-182 | a school's Student Validation rows are sorted by student name |
| TrackerMgmt.SchoolStudentRowsMembers | cyautomation/cyschoolhouse/tracker_mgmt.py:151-182 | a row is listed for a school exactly when an attendance enrollment at that school has that student |
| TrackerMgmt.UpdateOneTracker | cyautomation/cyschoolhouse/tracker_mgmt.py:160-191 | KeyError exactly when the ACM Validation sheet is missing; the student rows are written, and the file saved, exactly when the workbook has a Student Validation sheet and the resource is an attendance one; both lists are sorted |
| Sheets.FinalValue | cyautomation/cyschoolhouse/tracker_mgmt.py:13-34 | a value a cell ends up with is that of some write covering the cell |
| Sheets.FinalValueLast | cyautomation/cyschoolhouse/tracker_mgmt.py:13-34 | a cell ends up with a value exactly when some write covers it, and then with the value of the last write covering it |
| Sheets.FinalValueUntouched | cyautomation/cyschoolhouse/tracker_mgmt.py:13-34 | writes that do not cover a cell leave its value alone |
| Sheets.FinalValueConcat | cyautomation/cyschoolhouse/tracker_mgmt.py:13-34 | later writes decide a cell they cover; otherwise the earlier value shows |
| Sheets.FinalValueAt | cyautomation/cyschoolhouse/tracker_mgmt.py:13-34 | a cell shows the value of the last write covering it |
| Sheets.DoubledRoundTrip | cyautomation/cyschoolhouse/tracker_mgmt.py:31-32 | doubling the quotes of a sheet name is undone by reading the reference back, and the B column refers to the quoted name's A1 |
| Sheets.Blocks | cyautomation/cyschoolhouse/tracker_mgmt.py:29-34 | two writes per ACM sheet |
| Sheets.BlocksSnoc | cyautomation/cyschoolhouse/tracker_mgmt.py:30-34 | each further sheet appends its B write and then its C:L write |
| Sheets.RollupPrefix | cyautomation/cyschoolhouse/tracker_mgmt.py:13-22 | fourteen writes come before the blocks: the A:N clear, the twelve headers and the lookup column |
| Sheets.RollupBlockCell | cyautomation/cyschoolhouse/tracker_mgmt.py:29-34 | inside block i, columns B to L show the references to the i-th ACM sheet (B its A1, C:L its A3); the last row of a block is overwritten by the next block |
| Sheets.BlockOf | cyautomation/cyschoolhouse/tracker_mgmt.py:29-34 | write j after the fixed ones is half j mod 2 of block (j - 14) div 2 |
| Sheets.BlocksOverlap | cyautomation/cyschoolhouse/tracker_mgmt.py:32-34 | block i is written through the first row of block i + 1, which then shows the later sheet |
| Sheets.RollupFixedCells | cyautomation/cyschoolhouse/tracker_mgmt.py:20-22 | column A holds the lookup from row 2 to the last row, and row 1 the twelve headers |
| Sheets.AcmSheetsMembers | cyautomation/cyschoolhouse/tracker_mgmt.py:27 | a sheet is an ACM sheet exactly when it is in the workbook and not skipped |
| Sheets.FillRollup | cyautomation/cyschoolhouse/trackers.py:262-267 | the loop with its row counter makes the fixed writes followed by the blocks in sheet order |
| Sheets.RenameStep | cyautomation/cyschoolhouse/tracker_mgmt.py:75-90 | after an earlier error nothing changes; otherwise a rename goes through exactly when the old name exists and no other sheet has the new name ignoring case; a refused rename changes no sheet and no A1; the sheet count never changes |
| Sheets.RenameStepEffect | cyautomation/cyschoolhouse/tracker_mgmt.py:75-90 | a rename that goes through changes the first sheet of the old name to the new name in place, carries its A1 to the new name, and leaves every other sheet and every other A1 as it was |
| Sheets.RenameAt | cyautomation/cyschoolhouse/tracker_mgmt.py:76-90 | a rename whose old name first occurs at k, to a name free elsewhere, renames the sheet at k |
| Sheets.RenameKeepsDistinct | cyautomation/cyschoolhouse/tracker_mgmt.py:76-90 | renaming keeps the sheet names distinct ignoring case |
| Sheets.Workbook.constructor | cyautomation/cyschoolhouse/tracker_mgmt.py:75 | a workbook opens with its sheets and no A1 values recorded |
| Sheets.Workbook.Rename | cyautomation/cyschoolhouse/tracker_mgmt.py:76-90 | the workbook's sheets, A1 values and error are those of the rename step |
| ChiThriveDatashare.FileRows | cyautomation/cyschoolhouse/chi_thrive_datashare.py:202 | the data dictionary rows kept are exactly those of the data file, in order |
| ChiThriveDatashare.FileRowsOthers | cyautomation/cyschoolhouse/chi_thrive_datashare.py:202 | rows of other data files do not change the selection |
| ChiThriveDatashare.Values | cyautomation/cyschoolhouse/chi_thrive_datashare.py:215 | one value per key of the rename dictionary, in insertion order |
| ChiThriveDatashare.RenameDict | cyautomation/cyschoolhouse/chi_thrive_datashare.py:205-207 | the rename dictionary is well formed |
| ChiThriveDatashare.RenameDictContents | cyautomation/cyschoolhouse/chi_thrive_datashare.py:205-207 | the dictionary's keys are the CY column names in order of first appearance, and a later row for the same name overwrites the value |
| ChiThriveDatashare.JoinColumns | cyautomation/cyschoolhouse/chi_thrive_datashare.py:212-213 | the membership column exists exactly when every pair of ids joins, with TypeError otherwise, and each cell is the program id, `_` and the participant id |
| ChiThriveDatashare.AddMembershipId | cyautomation/cyschoolhouse/chi_thrive_datashare.py:211-213 | adding the membership id keeps the table well formed and its rows |
| ChiThriveDatashare.MembershipIdCells | cyautomation/cyschoolhouse/chi_thrive_datashare.py:211-213 | KeyError for a missing program or participant id column; otherwise each row's membership id joins its own two ids |
| ChiThriveDatashare.FillConstants | cyautomation/cyschoolhouse/chi_thrive_datashare.py:218-220 | filling constants keeps the table well formed and its rows |
| ChiThriveDatashare.FillConstantsShape | cyautomation/cyschoolhouse/chi_thrive_datashare.py:218-220 | existing columns keep their place, any new column is a constant element, and cells of non-constant columns are unchanged |
| ChiThriveDatashare.FillConstantsCell | cyautomation/cyschoolhouse/chi_thrive_datashare.py:218-220 | a column with an `All: ` value holds the text after `All: ` in every row, the last such row winning |
| ChiThriveDatashare.Renamed | cyautomation/cyschoolhouse/chi_thrive_datashare.py:209 | renaming columns keeps the rows |
| ChiThriveDatashare.WithMembershipId | cyautomation/cyschoolhouse/chi_thrive_datashare.py:211-213 | the membership step keeps the number of rows |
| ChiThriveDatashare.Selected | cyautomation/cyschoolhouse/chi_thrive_datashare.py:215 | the selected columns are exactly the dictionary's values, in order |
| ChiThriveDatashare.FillKeeps | cyautomation/cyschoolhouse/chi_thrive_datashare.py:218-220 | a column that is not a constant element keeps its cells |
| ChiThriveDatashare.WithMembershipIdKeeps | cyautomation/cyschoolhouse/chi_thrive_datashare.py:211-213 | every other renamed column keeps its cells when the membership id is added |
| ChiThriveDatashare.ConvertSpec | cyautomation/cyschoolhouse/chi_thrive_datashare.py:199-222 | a converted table is well formed with one row per input row |
| ChiThriveDatashare.BuildRenameDict | cyautomation/cyschoolhouse/chi_thrive_datashare.py:205-207 | the loop builds the rename dictionary |
| ChiThriveDatashare.FillConstantColumns | cyautomation/cyschoolhouse/chi_thrive_datashare.py:218-220 | the loop fills the constant columns |
| ChiThriveDatashare.ConvertTable | cyautomation/cyschoolhouse/chi_thrive_datashare.py:199-222 | `convert_table` computes the converted table |
| ChiThriveDatashare.ConvertSameFileRows | cyautomation/cyschoolhouse/chi_thrive_datashare.py:202 | two dictionaries with the same rows, in the same order, for the data file convert the table alike, whatever their rows for other files |
| ChiThriveDatashare.ConvertOtherFiles | cyautomation/cyschoolhouse/chi_thrive_datashare.py:202 | dictionary rows of other data files appended to the dictionary do not change the conversion |
| ChiThriveDatashare.ConvertColumns | cyautomation/cyschoolhouse/chi_thrive_datashare.py:215-220 | the converted table's columns are the dictionary's values, then constant elements only |
| ChiThriveDatashare.ConvertCopies | cyautomation/cyschoolhouse/chi_thrive_datashare.py:209-215 | a selected column that is neither the membership id nor a constant copies the renamed input column |
| ChiThriveDatashare.ConvertMembershipId | cyautomation/cyschoolhouse/chi_thrive_datashare.py:211-215 | when the membership id is selected, each row's membership id joins its program and participant ids |
| ChiThriveDatashare.ConvertConstant | cyautomation/cyschoolhouse/chi_thrive_datashare.py:218-220 | a constant column holds its `All: ` text in every row |
| ChiThriveDatashare.ProgramFilledCells | cyautomation/cyschoolhouse/chi_thrive_datashare.py:128-129 | missing durations and weeks become 0, other columns unchanged |
| ChiThriveDatashare.ProgramLevelsCells | cyautomation/cyschoolhouse/chi_thrive_datashare.py:133-140 | the level is Tier1 for Homework Assistance and Tier2 otherwise; weeks become 8 for SEL or Attendance groups; other columns unchanged |
| ChiThriveDatashare.ProgramTableRows | cyautomation/cyschoolhouse/chi_thrive_datashare.py:121-140 | the program table has one row per distinct program id, with level, weeks and duration set as above |
| ChiThriveDatashare.DedupOnKeys | cyautomation/cyschoolhouse/chi_thrive_datashare.py:125-164 | de-duplication on a column keeps the first row of each key, in order, and no two kept rows share a key |
| ChiThriveDatashare.AttendanceTableRows | cyautomation/cyschoolhouse/chi_thrive_datashare.py:145-148 | KeyError without the date column; otherwise the distinct input rows with a date |
| ChiThriveDatashare.MembershipTableRows | cyautomation/cyschoolhouse/chi_thrive_datashare.py:153-157 | one row per membership id; exit reasons are cut to their first 50 characters and a missing reason stays missing |
| ChiThriveDatashare.FacilityTableRows | cyautomation/cyschoolhouse/chi_thrive_datashare.py:169-171 | the facility rows have no missing cell and distinct facility ids |
| ChiThriveDatashare.ParseOmni | cyautomation/cyschoolhouse/chi_thrive_datashare.py:110-173 | each of the five tables is its data file's conversion followed by that table's clean-up |
| ChiThriveDatashare.SectionsOfInterestRows | cyautomation/cyschoolhouse/chi_thrive_datashare.py:99-105 | a row is kept exactly when its program is one of the five programs |
| ChiThriveDatashare.BlankZeroDosageCells | cyautomation/cyschoolhouse/chi_thrive_datashare.py:84-85 | a zero dosage goal becomes missing and every other value is kept |
| Student.NamesApart | cyautomation/cyschoolhouse/student.py:126-159 | the loader's column names are pairwise different |
| Student.RenamedInput | cyautomation/cyschoolhouse/student.py:126-133 | renaming keeps the rows and the table well formed |
| Student.WithIds | cyautomation/cyschoolhouse/student.py:135-136 | KeyError exactly when the renamed sheet has no local id column; otherwise the rows are kept |
| Student.WithEntryDate | cyautomation/cyschoolhouse/student.py:138-139 | adding the entry date keeps the rows |
| Student.AddMissing | cyautomation/cyschoolhouse/student.py:141-143 | adding the optional columns keeps the rows |
| Student.ImportParameters | cyautomation/cyschoolhouse/student.py:119-163 | the import computes the reshaped table |
| Student.FillMissingColumns | cyautomation/cyschoolhouse/student.py:141-143 | the loop adds each absent optional column |
| Student.AddMissingHas | cyautomation/cyschoolhouse/student.py:141-143 | afterwards the columns are those there before plus the listed ones |
| Student.AddMissingCells | cyautomation/cyschoolhouse/student.py:141-143 | a column that was there keeps its cells and a listed one that was not is empty |
| Student.WithIdsHas | cyautomation/cyschoolhouse/student.py:135-136 | the copy and the type add exactly those two columns |
| Student.WithIdsCells | cyautomation/cyschoolhouse/student.py:135-136 | the student id copies the local id, the type is `Student`, and every other column keeps its cells |
| Student.ImportCells | cyautomation/cyschoolhouse/student.py:119-163 | the result has the thirteen columns in order, one row per input row, the student id equal to the local id, the type `Student`, and the sheet's own entry date winning over the given one |
| Student.ImportOptional | cyautomation/cyschoolhouse/student.py:141-161 | an optional column keeps the sheet's cells if present and is empty otherwise |
| Student.ImportCopied | cyautomation/cyschoolhouse/student.py:126-161 | the school, the names and the grade come from the renamed sheet |
| Student.SelectsAll | cyautomation/cyschoolhouse/student.py:145-161 | the projection succeeds exactly when the school, names and grade are present |
| Student.ReshapedHas | cyautomation/cyschoolhouse/student.py:135-143 | the reshaping adds the copies, the entry date and the optional columns |
| Student.ImportFails | cyautomation/cyschoolhouse/student.py:119-163 | the import fails, always with KeyError, exactly when the renamed sheet lacks the local id, the school, a name or the grade, the local id looked up first |
| Student.ImportSpec | cyautomation/cyschoolhouse/student.py:119-163 | KeyError when the renamed input has no local id column; on success the columns are the import order and every input row gives one output row |
| Student.RemoveExtant | cyautomation/cyschoolhouse/student.py:166-171 | KeyError exactly when there is no local id column; otherwise the columns are kept and a row is kept exactly when its local id is not already in the system |
| Student.Duplicated | cyautomation/cyschoolhouse/student.py:189 | the duplicate mask has one entry per student |
| Student.DuplicatedIff | cyautomation/cyschoolhouse/student.py:189 | some mask entry is set exactly when the local ids are not distinct |
| Student.UpdateExternalIdAsWritten | cyautomation/cyschoolhouse/student.py:183-190 | as written, ValueError exactly when the student table is non-empty, and nothing to do otherwise |
| Student.UpdateExternalIdSpec | cyautomation/cyschoolhouse/student.py:183-209 | intended: ValueError exactly when a local id repeats; every update issued is for a student lacking an external id with an 8-character local id, setting the prefix followed by its local id |
| Student.AsWrittenRaisesOnAnyStudent | cyautomation/cyschoolhouse/student.py:189-190 | as written, any non-empty student table raises ValueError, even with distinct ids |
| Student.AsWrittenExample | cyautomation/cyschoolhouse/student.py:189-209 | one student with a fresh 8-character id: the written check raises, the intended one sends `CPS_` plus the id |
| Student.UpdateExternalIdContents | cyautomation/cyschoolhouse/student.py:183-209 | ValueError exactly when a local id repeats; nothing to do exactly when no student lacks an external id and has an 8-character local id; otherwise one update per such student, in order, setting the prefix followed by the local id |
| Student.UpdateStudentExternalIds | cyautomation/cyschoolhouse/student.py:183-209 | the loop issues the intended updates |
| Implementations.StudentIds | cyautomation/cyschoolhouse/PageObjects/implementations.py:101 | one id per roster row, in roster order |
| Implementations.StudentListFacts | cyautomation/cyschoolhouse/PageObjects/implementations.py:99-101 | the student list holds each roster student exactly once, nobody else, in order of first appearance |
| Implementations.RecordsHead | cyautomation/cyschoolhouse/PageObjects/implementations.py:119-122 | the first selected row is the student's first row in the roster, which gives school, grade and name |
| Implementations.RecordsIas | cyautomation/cyschoolhouse/PageObjects/implementations.py:123 | the IA list is the IA of each of the student's rows, in roster order |
| Implementations.RecordsNone | cyautomation/cyschoolhouse/PageObjects/implementations.py:119 | an id with no row selects nothing |
| Implementations.DetailsOfRosterStudent | cyautomation/cyschoolhouse/PageObjects/implementations.py:117-124 | details exist exactly for a student of the list, with the first row's school, grade and name; any other id raises IndexError |
| Implementations.IaStepsAt | cyautomation/cyschoolhouse/PageObjects/implementations.py:139-141 | two steps per IA, selecting the student then assigning that IA, in IA order, with no save among them |
| Implementations.EnrollStepsShape | cyautomation/cyschoolhouse/PageObjects/implementations.py:126-143 | the steps wait, select the school, select the next grade first only at Schurz High School, select the grade and the first page, then the IA pairs, and save exactly once, last |
| Implementations.Run | cyautomation/cyschoolhouse/PageObjects/implementations.py:149-169 | the loop returns the error count, how many students were tried and why it ended |
| Implementations.Outcomes | cyautomation/cyschoolhouse/PageObjects/implementations.py:149 | one outcome per listed student |
| Implementations.RunCounts | cyautomation/cyschoolhouse/PageObjects/implementations.py:159-169 | the error count grows by one for each attempted student that failed and by nothing else |
| Implementations.RunBounded | cyautomation/cyschoolhouse/PageObjects/implementations.py:150-151 | a count that starts within `max_errors` never exceeds it |
| Implementations.RunEnds | cyautomation/cyschoolhouse/PageObjects/implementations.py:150-157 | a stop at the limit leaves the count equal to it with students left; an interrupt ends the run at the first interrupted student; otherwise every student was tried and none interrupted |
| Implementations.RunNegativeMax | cyautomation/cyschoolhouse/PageObjects/implementations.py:150 | a negative `max_errors` never stops the run |
| Implementations.IndicatorAreaEnrollment.constructor | cyautomation/cyschoolhouse/PageObjects/implementations.py:94-97 | the roster is stored, with no errors counted and no form steps yet |
| Implementations.IndicatorAreaEnrollment.EnrollStudent | cyautomation/cyschoolhouse/PageObjects/implementations.py:126-143 | the roster and error count are unchanged; a student without details raises IndexError after the wait; otherwise the enrollment steps are issued |
| Implementations.IndicatorAreaEnrollment.AssignIndicatorAreas | cyautomation/cyschoolhouse/PageObjects/implementations.py:139-141 | the loop issues the select/assign pair of each IA |
| Implementations.IndicatorAreaEnrollment.EnrollAllStudents | cyautomation/cyschoolhouse/PageObjects/implementations.py:145-169 | the error count, the students tried and the way the run ended are the error-count loop's over the student list, and the steps are those of the students that went through |
| Implementations.EnrollAllFacts | cyautomation/cyschoolhouse/PageObjects/implementations.py:145-169 | over the student list: the count is the number of failures tried and never passes the limit; a stop at the limit leaves students untried; an interrupt ends the run |
| Suite.EntryValue | cyschoolhouse/cyschoolhousesuite.py:22 | IndexError exactly when an entry has no colon; otherwise the text after the first colon and up to the next, which holds no colon |
| Suite.EntryValues | cyschoolhouse/cyschoolhousesuite.py:22 | IndexError exactly when some entry has no colon; otherwise one value per entry |
| Suite.ExtractKey | cyschoolhouse/cyschoolhousesuite.py:18-24 | IndexError exactly when some `/`-separated entry has no colon, ValueError exactly when all have one but there are not three, and otherwise the values of the second and third entries |
| Suite.KeyLineValue | cyschoolhouse/cyschoolhousesuite.py:22 | the value of a `label:value` line is the value |
| Suite.ExtractKeyRoundTrip | cyschoolhouse/cyschoolhousesuite.py:18-24 | a key file written as three `label:value` entries joined by `/` gives back the user and password |

## Left out

- The CRM, browser, Excel/COM, PDF, SFTP, e-mail and file-system effects are not performed. Query results are input sequences, CRM updates are the requests the code issues, and workbooks are sheet-name lists plus range writes.
- The browser is one outcome per item. For a section, that is the result of `create`. For an IA student, it is success, timeout, stale element, other error or interrupt. The form steps a failed enrollment completed before failing are not recorded.
- `input()` confirmations are a boolean parameter. `datetime.now()` is an integer day parameter. The credential file's text is a parameter of `Suite.ExtractKey`.
- `YEAR` is a parameter: config.py does not define it.
- Logging is not modelled, except where the code branches on it (the capacity warnings return a flag).
- `fix_T1T2ELT` (regex substitution over comments) is not modelled: it depends on a regex engine. The tag rules read the comment text as given.
- `pd.to_datetime` and `dt_to_date` are library date handling. Dates enter as integer day numbers. `validate_date`, a wrapper over `strptime('%m/%d/%Y')`, is modelled concretely as `SectionCreation.ParseDate`.
- Grades in `ChiIaAssignment` are integers or missing. A non-numeric grade such as `K`, on which `astype(int)` raises ValueError, is not modelled. A missing grade is modelled as the ValueError pandas raises for a NaN; a `None` in a text column would raise TypeError instead.
- Floating point and NaN arithmetic are not modelled. Minutes, dosage and scores are integers, `astype(int)` truncation has no counterpart, and a NaN is a missing cell.
- pandas sort stability is not modelled: sorted outputs are stated as sorted permutations of their input, not as one particular order of equal keys.
- Python `repr` quoting inside `str(list)[1:-1]` IN-clauses is not modelled. Those queries are modelled by what they select: records whose field is among the listed values. SOQL compares text in `IN` and `=` without regard to case; the model (`SimpleCysh.ProgramsNamed`, `SimpleCysh.ProgramRows` and the other name filters) matches names exactly. An empty list, which makes the clause `IN ()`, is modelled as the MalformedQuery error the CRM returns for it.
- Excel's sheet-name rules (length, forbidden characters) are not modelled. The case-insensitive comparison applies to ASCII letters only. Sheet lookups and renames (`wb.sheets[name]`, `Sheets.RenameStep`, `Sheets.Workbook.Rename`) match names exactly and fail with KeyError; Excel matches them regardless of case and fails with a COM error.
- Duplicate column names in a frame are not modelled. Columns are identified by name.
- Reading the Thrive data dictionary from Excel, and `read_excel` converters, are not modelled. The dictionary is an input sequence of rows.
- `load_omni_df`'s merges of the CRM exports, `write_tables_to_cyconnect`/`write_tables_to_thrive_sftp`, `get_srv` and `run` are not modelled. They are file and network glue; `ChiThriveDatashare` starts from the combined table and its program filter.
- `tracker_mgmt.prep_coaching_log` is not modelled: it reads the undefined global `wb`.
- `deploy_choaching_logs` also reads the undefined `staff_df` and `wb`. The model takes the staff list and workbook as parameters and models only the rename and reset.
- `fill_all_coaching_log_acm_rollup`, `deploy_tracker` and `unprotect_sheets` are not modelled: they are loops of workbook opens and COM calls around the modelled per-workbook steps.
- trackers.py's `deploy_all`, `deploy_one`, `update_one_stdnt_validation_sheet` and `update_all`, the PDF export and merge, `rm_tree` and `delete_folder` are not modelled. They are file-system and Excel driving around the modelled path, staff, sheet and fill rules.
- `simple_cysh.object_reference` is not modelled: it returns the undefined name `result`.
- simple_cysh.py defines no `get_student_df`, `execute_query` or `in_str`, although student.py and section_creation.py import them:
  - `Student` takes the existing local ids as a parameter;
  - `SectionCreation.CheckExists` takes the query executor as a parameter.
- `query_all` and `create_from_excel` are not modelled: they read files and drive the browser.
- `student.upload_all`, `_sf_api_approach`, `input_file` and `insert_data` are not modelled: they are upload navigation and file reads.
- `cyschoolhousesuite.py`'s `request_key`, `get_driver`, login and cookie handling are not modelled. They are browser and prompt I/O; only `extract_key` is modelled.
- Cell values other than text, integers, booleans and missing are not modelled. "CY COLUMN VALUES" cells of the data dictionary are text.
- TrackerStaff: starts from the staff table of a successful query; the MalformedQuery that `get_staff_df` raises with no accounts is stated by `SimpleCysh.GetStaffDf`, not repeated here.
- MgmtStaff: states only that the staff table is sorted; which rows it holds is stated per school by `TrackerMgmt.SchoolAcmRowsMembers`. Like TrackerStaff, it starts from a successful staff query.
- AddStep: states sheet counts, the new sheet's name and its A1, not the position the sheet is inserted at; the position is stated by `Trackers.AddStepInserts` and `Trackers.InsertedNext`.
- AddUpTo: states only that sheets are never lost and at most one is added per row; the exact sheets are stated by `Trackers.AddUpToClosedForm`.
- Trackers.SaveAndClose: only an interrupt during the save is re-raised. Other errors in `close` itself are not modelled.
- SimpleCysh.Session.Call: the session a rebuild returns is identified by a generation counter. Credentials and the global rebinding of `sf` are not modelled.

## Findings

| source | as written | input that shows it | evidently intended | confidence | as-written member | corrected member |
|---|---|---|---|---|---|---|
| cyautomation/cyschoolhouse/tot_audit.py:90 | `df['Comments__c'] = df['Comments__c'].fillna('', inplace=True)` assigns the None returned by an in-place fillna, so every comment is lost; `~` on the resulting all-NaN `str.contains` mask at line 93 then raises TypeError | a single session commented "T1": its comment is lost and the audit raises TypeError before any tag is set | missing comments become "", the others are kept, and the tag rules read them | not executed | TotAudit.FillCommentsAsWritten, TotAudit.ErrorTableAsWritten, TotAudit.CommentLostAsWritten | TotAudit.FillComments, TotAudit.ErrorTable |
| cyautomation/cyschoolhouse/chi_section_creation.py:107-110 | both 'Tutoring: Math' and 'Tutoring: Literacy' map to 'Math Inventory' | a high-school ACM with only a Tutoring: Literacy section is planned a Math Inventory section | Literacy maps to 'Reading Inventory', as in section_creation_chi.py:128-131 | not executed | ChiSectionCreation.MiriPlanAsWritten, ChiSectionCreation.MiriAsWrittenNoReading, ChiSectionCreation.MiriLiteracyExample | ChiSectionCreation.MiriPlan, ChiSectionCreation.MiriPlanSound |
| cyautomation/cyschoolhouse/student.py:189 | the duplicate check tests `len(mask) > 0` instead of any True in the mask | any non-empty student table raises ValueError | raise only when some local id is duplicated | not executed | Student.UpdateExternalIdAsWritten, Student.AsWrittenRaisesOnAnyStudent, Student.AsWrittenExample | Student.UpdateExternalIdSpec, Student.UpdateStudentExternalIds |
| cyautomation/cyschoolhouse/simple_cysh.py:105-106 | `list(sections_of_interest)` on a string gives its characters | `get_section_df('Tutoring: Math')` looks for one-character program names; when there are none, the section query is sent with `Program__c IN ()` and raises | a string becomes a one-element list, as at simple_cysh.py:126-127 | not executed | SimpleCysh.SectionsOfInterestAsWritten, SimpleCysh.AsWrittenLosesName, SimpleCysh.GetSectionDfAsWritten, SimpleCysh.GetSectionDfAsWrittenRaises | SimpleCysh.SectionsOfInterest, SimpleCysh.GetSectionDf, SimpleCysh.GetSectionDfMembers |
| cyautomation/cyschoolhouse/section_creation.py:236 | the except-handler of `create_all` logs `row['ACM']`, a column the staff table lacks, so it raises KeyError | two planned sections, the first failing: the second is never tried | log and go on with the next row | not executed | SectionCreation.CreateAllHandlerAsWritten, SectionCreation.HandlerKeyErrorStopsBatch | SectionCreation.CreateAll |
| cyautomation/cyschoolhouse/section_creation.py:191-199 | `get_staff_df(roles=...)` is called with a keyword here, and `get_staff_df(schools=..., roles=...)` at trackers.py:169, but simple_cysh.py:168 takes no arguments, so the call raises TypeError | any `create_all` whose checks pass | staff filtered by role and school | not executed | SimpleCysh.GetStaffDfCalledAsWritten, SimpleCysh.RolesKeywordRaises, SectionCreation.CreateAllPlanAsWritten, SectionCreation.CreateAllAsWrittenRaises | SimpleCysh.FilterStaff, SimpleCysh.FilterStaffMembers, SectionCreation.CreateAllPlan |
| cyautomation/cyschoolhouse/section_creation.py:69 | the program name is quoted by replacing `'` with `\'` only, so a backslash already in the name is not escaped | a program named `x\'` is sent as `'x\\''`, whose literal is `x\` and whose last quote is left over | escape backslashes as well as quotes, so the literal reads back as the name | not executed | SectionCreation.QuotedEndsEarly, SectionCreation.QuotedValueSafe | SectionCreation.SoqlQuoted, SectionCreation.SoqlQuotedReadsBack, SectionCreation.CheckExistsQuery |
