/** The weekly service tracker run: the enrollment table is split by school
    (distinct values in order of first appearance), each school's rows by ACM,
    and each ACM's rows are written into the template and exported. */
module ServiceTrackers {
  import opened Base
  import opened Seqs
  import opened Trackers

  function SchoolOf(t: TrackerRow): Option<string> { t.school }
  function StaffOf(t: TrackerRow): Option<string> { t.staff }

  /** `df['School_Reference_Id__c'] == school`: a missing value equals nothing,
      not even another missing value. */
  predicate AtSchool(t: TrackerRow, school: Option<string>)
  {
    school.Some? && t.school == school
  }

  predicate WithAcm(t: TrackerRow, acm: Option<string>)
  {
    acm.Some? && t.staff == acm
  }

  /** `student_section_df['School_Reference_Id__c'].unique()`, a missing school included once. */
  function Schools(table: seq<TrackerRow>): seq<Option<string>>
  {
    Unique(Map(table, SchoolOf))
  }

  /** `df_school`. */
  function SchoolRows(table: seq<TrackerRow>, school: Option<string>): seq<TrackerRow>
  {
    Filter(table, (t: TrackerRow) => AtSchool(t, school))
  }

  /** `df_school['Staff__c_Name'].unique()`. */
  function Acms(table: seq<TrackerRow>, school: Option<string>): seq<Option<string>>
  {
    Unique(Map(SchoolRows(table, school), StaffOf))
  }

  /** `acm_df`. */
  function AcmRows(schoolRows: seq<TrackerRow>, acm: Option<string>): seq<TrackerRow>
  {
    Filter(schoolRows, (t: TrackerRow) => WithAcm(t, acm))
  }

  /** One `fill_one_acm_wb` and export: the school, the ACM, the rows it was
      given, and whether it went through (a failure is logged and the loop goes on). */
  datatype Attempted = Attempted(school: Option<string>, acm: Option<string>, rows: seq<TrackerRow>, ok: bool)

  /** `fill` stands for filling the template and exporting the PDF, which may raise. */
  function AttemptFor(table: seq<TrackerRow>, school: Option<string>, acm: Option<string>,
                      fill: (Option<string>, seq<TrackerRow>) -> bool): Attempted
  {
    var rows := AcmRows(SchoolRows(table, school), acm);
    Attempted(school, acm, rows, fill(acm, rows))
  }

  /** The attempts for the first `j` ACMs of a school. */
  function SchoolAttempts(table: seq<TrackerRow>, school: Option<string>,
                          fill: (Option<string>, seq<TrackerRow>) -> bool, j: nat): (r: seq<Attempted>)
    requires j <= |Acms(table, school)|
    ensures |r| == j
  {
    seq(j, k requires 0 <= k < j => AttemptFor(table, school, Acms(table, school)[k], fill))
  }

  lemma SchoolAttemptsSnoc(table: seq<TrackerRow>, school: Option<string>,
                           fill: (Option<string>, seq<TrackerRow>) -> bool, j: nat)
    requires j < |Acms(table, school)|
    ensures SchoolAttempts(table, school, fill, j + 1) ==
      SchoolAttempts(table, school, fill, j) + [AttemptFor(table, school, Acms(table, school)[j], fill)]
  {
  }

  /** What the run did: the ACM attempts, the informal names of the schools whose
      PDFs were merged, and the exception that ended it, if any. */
  datatype ServiceRun = ServiceRun(attempts: seq<Attempted>, merged: seq<string>, err: Option<Exc>)

  /** The informal name looked up for a school; `informal` is the school
      reference table's first match. `.values[0]` of no match raises IndexError,
      which a missing school always meets. */
  function InformalName(school: Option<string>, informal: string -> Option<string>): Option<string>
  {
    if school.Some? then informal(school.value) else None
  }

  /** One school of the loop: its ACMs, then its informal name and merge. */
  function SchoolStep(prev: ServiceRun, table: seq<TrackerRow>, fill: (Option<string>, seq<TrackerRow>) -> bool,
                      informal: string -> Option<string>, school: Option<string>): ServiceRun
  {
    if prev.err.Some? then prev
    else
      var attempts := prev.attempts + SchoolAttempts(table, school, fill, |Acms(table, school)|);
      match InformalName(school, informal)
      case None => ServiceRun(attempts, prev.merged, Some(IndexError))
      case Some(name) => ServiceRun(attempts, prev.merged + [name], None)
  }

  /** The run after the first `n` schools. */
  function RunUpTo(table: seq<TrackerRow>, fill: (Option<string>, seq<TrackerRow>) -> bool,
                   informal: string -> Option<string>, n: nat): (r: ServiceRun)
    requires n <= |Schools(table)|
    ensures r.err.None? ==> |r.merged| == n
    ensures r.err.Some? ==> r.err == Some(IndexError) && |r.merged| < n
  {
    if n == 0 then ServiceRun([], [], None)
    else SchoolStep(RunUpTo(table, fill, informal, n - 1), table, fill, informal, Schools(table)[n - 1])
  }

  /** The whole loop: either every school's PDFs are merged, or a school with
      no informal name raises IndexError and ends it with fewer merges. */
  function Run(table: seq<TrackerRow>, fill: (Option<string>, seq<TrackerRow>) -> bool,
               informal: string -> Option<string>): (r: ServiceRun)
    ensures r.err.None? ==> |r.merged| == |Schools(table)|
    ensures r.err.Some? ==> r.err == Some(IndexError) && |r.merged| < |Schools(table)|
  {
    RunUpTo(table, fill, informal, |Schools(table)|)
  }

  /** The `n + 1`-th school's step extends the run after `n` schools. */
  lemma RunUpToNext(table: seq<TrackerRow>, fill: (Option<string>, seq<TrackerRow>) -> bool,
                    informal: string -> Option<string>, n: nat)
    requires n < |Schools(table)|
    ensures RunUpTo(table, fill, informal, n + 1) ==
      SchoolStep(RunUpTo(table, fill, informal, n), table, fill, informal, Schools(table)[n])
  {
  }

  lemma {:induction false} RunStopped(table: seq<TrackerRow>, fill: (Option<string>, seq<TrackerRow>) -> bool,
                                      informal: string -> Option<string>, k: nat, n: nat)
    requires k <= n <= |Schools(table)| && RunUpTo(table, fill, informal, k).err.Some?
    ensures RunUpTo(table, fill, informal, n) == RunUpTo(table, fill, informal, k)
    decreases n
  {
    if n > k {
      RunStopped(table, fill, informal, k, n - 1);
    }
  }

  /** The ACM loop of one school: `acm_df` of each distinct ACM, in order of
      first appearance, is filled and exported; a failure is logged and the
      loop goes on. */
  method FillSchool(table: seq<TrackerRow>, school: Option<string>, fill: (Option<string>, seq<TrackerRow>) -> bool)
    returns (attempts: seq<Attempted>)
    ensures attempts == SchoolAttempts(table, school, fill, |Acms(table, school)|)
  {
    var dfSchool := SchoolRows(table, school);
    var acms := Acms(table, school);
    attempts := [];
    var j := 0;
    while j < |acms|
      invariant 0 <= j <= |acms|
      invariant attempts == SchoolAttempts(table, school, fill, j)
    {
      var acmDf := AcmRows(dfSchool, acms[j]);
      var ok := fill(acms[j], acmDf);
      attempts := attempts + [Attempted(school, acms[j], acmDf, ok)];
      SchoolAttemptsSnoc(table, school, fill, j);
      j := j + 1;
    }
  }

  /** `update_service_trackers` on the enrollment table (`EnrollmentTable` of the
      rows of the four service sections): for each school, its ACMs are filled
      and exported, then the school's informal name is looked up and its PDFs
      merged. */
  method UpdateServiceTrackers(table: seq<TrackerRow>, fill: (Option<string>, seq<TrackerRow>) -> bool,
                               informal: string -> Option<string>)
    returns (attempts: seq<Attempted>, merged: seq<string>, err: Option<Exc>)
    ensures ServiceRun(attempts, merged, err) == Run(table, fill, informal)
  {
    var schools := Schools(table);
    attempts, merged, err := [], [], None;
    var i := 0;
    while i < |schools| && err.None?
      invariant 0 <= i <= |schools|
      invariant ServiceRun(attempts, merged, err) == RunUpTo(table, fill, informal, i)
    {
      var school := schools[i];
      ghost var prev := RunUpTo(table, fill, informal, i);
      var filled := FillSchool(table, school, fill);
      attempts := attempts + filled;
      var name := if school.Some? then informal(school.value) else None;
      if name.None? {
        err := Some(IndexError);
      } else {
        merged := merged + [name.value];
      }
      assert ServiceRun(attempts, merged, err) == SchoolStep(prev, table, fill, informal, school);
      RunUpToNext(table, fill, informal, i);
      i := i + 1;
    }
    if i < |schools| {
      RunStopped(table, fill, informal, i, |schools|);
    }
  }

  // ---------------------------------------------------------------- what the run promises

  /** One school's step keeps what came before and adds that school's attempts. */
  lemma SchoolStepShape(prev: ServiceRun, table: seq<TrackerRow>, fill: (Option<string>, seq<TrackerRow>) -> bool,
                        informal: string -> Option<string>, school: Option<string>)
    ensures var next := SchoolStep(prev, table, fill, informal, school);
      (prev.err.Some? ==> next == prev) &&
      (prev.err.None? ==> next.attempts == prev.attempts + SchoolAttempts(table, school, fill, |Acms(table, school)|)) &&
      (next.err.None? ==> prev.err.None?)
  {
  }

  /** An ACM's rows are exactly the table rows with that school and that ACM,
      both present. */
  lemma AcmRowsMembers(table: seq<TrackerRow>, school: Option<string>, acm: Option<string>, t: TrackerRow)
    ensures t in AcmRows(SchoolRows(table, school), acm) <==>
      t in table && school.Some? && t.school == school && acm.Some? && t.staff == acm
  {
    FilterIn(table, (t: TrackerRow) => AtSchool(t, school), t);
    FilterIn(SchoolRows(table, school), (t: TrackerRow) => WithAcm(t, acm), t);
  }

  /** Every attempt is of one of its school's ACMs, with that school's and ACM's
      rows and the outcome of filling them. */
  predicate AttemptsValid(table: seq<TrackerRow>, fill: (Option<string>, seq<TrackerRow>) -> bool, attempts: seq<Attempted>)
  {
    forall k :: 0 <= k < |attempts| ==>
      attempts[k].acm in Acms(table, attempts[k].school) &&
      attempts[k] == AttemptFor(table, attempts[k].school, attempts[k].acm, fill)
  }

  predicate SchoolsIn(attempts: seq<Attempted>, schools: seq<Option<string>>)
  {
    forall k :: 0 <= k < |attempts| ==> attempts[k].school in schools
  }

  predicate AllOfSchool(attempts: seq<Attempted>, school: Option<string>)
  {
    forall k :: 0 <= k < |attempts| ==> attempts[k].school == school
  }

  /** No (school, ACM) pair is attempted twice. */
  predicate PairsDistinct(attempts: seq<Attempted>)
  {
    forall i, j :: 0 <= i < j < |attempts| ==>
      (attempts[i].school, attempts[i].acm) != (attempts[j].school, attempts[j].acm)
  }

  lemma SchoolAttemptsShape(table: seq<TrackerRow>, school: Option<string>,
                            fill: (Option<string>, seq<TrackerRow>) -> bool, j: nat)
    requires j <= |Acms(table, school)|
    ensures var sa := SchoolAttempts(table, school, fill, j);
      AttemptsValid(table, fill, sa) && PairsDistinct(sa) && AllOfSchool(sa, school) &&
      forall k :: 0 <= k < j ==> sa[k] == AttemptFor(table, school, Acms(table, school)[k], fill)
  {
  }

  lemma AppendValid(table: seq<TrackerRow>, fill: (Option<string>, seq<TrackerRow>) -> bool, a: seq<Attempted>, b: seq<Attempted>)
    requires AttemptsValid(table, fill, a) && AttemptsValid(table, fill, b)
    ensures AttemptsValid(table, fill, a + b)
  {
    forall k | |a| <= k < |a + b|
      ensures (a + b)[k] == b[k - |a|]
    {
    }
  }

  lemma AppendSchools(a: seq<Attempted>, b: seq<Attempted>, schools: seq<Option<string>>, school: Option<string>)
    requires SchoolsIn(a, schools) && AllOfSchool(b, school)
    ensures SchoolsIn(a + b, schools + [school])
  {
    forall k | 0 <= k < |a + b|
      ensures (a + b)[k].school in schools + [school]
    {
      if k >= |a| {
        assert (a + b)[k] == b[k - |a|];
      } else {
        assert (a + b)[k] == a[k];
      }
    }
  }

  lemma AppendDistinct(a: seq<Attempted>, b: seq<Attempted>, schools: seq<Option<string>>, school: Option<string>)
    requires PairsDistinct(a) && PairsDistinct(b) && SchoolsIn(a, schools) && AllOfSchool(b, school)
    requires school !in schools
    ensures PairsDistinct(a + b)
  {
    forall i, j | 0 <= i < j < |a + b|
      ensures ((a + b)[i].school, (a + b)[i].acm) != ((a + b)[j].school, (a + b)[j].acm)
    {
      if j < |a| {
        assert (a + b)[i] == a[i] && (a + b)[j] == a[j];
      } else if i < |a| {
        assert (a + b)[i] == a[i] && (a + b)[j] == b[j - |a|];
      } else {
        assert (a + b)[i] == b[i - |a|] && (a + b)[j] == b[j - |a|];
      }
    }
  }

  lemma {:induction false} RunFacts(table: seq<TrackerRow>, fill: (Option<string>, seq<TrackerRow>) -> bool,
                                    informal: string -> Option<string>, n: nat)
    requires n <= |Schools(table)|
    ensures var attempts := RunUpTo(table, fill, informal, n).attempts;
      AttemptsValid(table, fill, attempts) && SchoolsIn(attempts, Schools(table)[..n]) && PairsDistinct(attempts)
  {
    var schools := Schools(table);
    if n == 0 {
      assert RunUpTo(table, fill, informal, 0).attempts == [];
    } else {
      RunFacts(table, fill, informal, n - 1);
      var prev := RunUpTo(table, fill, informal, n - 1);
      var school := schools[n - 1];
      var next := RunUpTo(table, fill, informal, n);
      assert next == SchoolStep(prev, table, fill, informal, school);
      SchoolStepShape(prev, table, fill, informal, school);
      TakeSnoc(schools, n);
      if prev.err.None? {
        var sa := SchoolAttempts(table, school, fill, |Acms(table, school)|);
        assert next.attempts == prev.attempts + sa;
        SchoolAttemptsShape(table, school, fill, |Acms(table, school)|);
        AppendValid(table, fill, prev.attempts, sa);
        AppendSchools(prev.attempts, sa, schools[..n - 1], school);
        AppendDistinct(prev.attempts, sa, schools[..n - 1], school);
      } else {
        assert next.attempts == prev.attempts;
        AppendSchools(prev.attempts, [], schools[..n - 1], school);
        assert prev.attempts + [] == prev.attempts;
      }
    }
  }

  /** Each school and ACM is filled at most once, with exactly the rows of that
      school and ACM, and a row with no school or no ACM is never filled. */
  lemma RunAttempts(table: seq<TrackerRow>, fill: (Option<string>, seq<TrackerRow>) -> bool,
                    informal: string -> Option<string>)
    ensures var attempts := Run(table, fill, informal).attempts;
      PairsDistinct(attempts) &&
      forall k, t :: 0 <= k < |attempts| ==>
        attempts[k].ok == fill(attempts[k].acm, attempts[k].rows) &&
        (t in attempts[k].rows <==>
          t in table && t.school.Some? && t.school == attempts[k].school && t.staff.Some? && t.staff == attempts[k].acm)
  {
    RunFacts(table, fill, informal, |Schools(table)|);
    var attempts := Run(table, fill, informal).attempts;
    forall k, t | 0 <= k < |attempts|
      ensures t in attempts[k].rows <==>
        t in table && t.school.Some? && t.school == attempts[k].school && t.staff.Some? && t.staff == attempts[k].acm
    {
      AcmRowsMembers(table, attempts[k].school, attempts[k].acm, t);
    }
  }

  /** The attempts of a run are kept by the schools after it. */
  lemma {:induction false} RunPrefix(table: seq<TrackerRow>, fill: (Option<string>, seq<TrackerRow>) -> bool,
                                     informal: string -> Option<string>, n: nat, m: nat)
    requires n <= m <= |Schools(table)|
    ensures RunUpTo(table, fill, informal, n).attempts <= RunUpTo(table, fill, informal, m).attempts
    ensures RunUpTo(table, fill, informal, m).err.None? ==> RunUpTo(table, fill, informal, n).err.None?
    decreases m
  {
    if m > n {
      RunPrefix(table, fill, informal, n, m - 1);
      SchoolStepShape(RunUpTo(table, fill, informal, m - 1), table, fill, informal, Schools(table)[m - 1]);
    }
  }

  /** A school that does not end the run appends its ACM attempts, in order. */
  lemma SchoolBlockAt(table: seq<TrackerRow>, fill: (Option<string>, seq<TrackerRow>) -> bool,
                      informal: string -> Option<string>, s: nat)
    requires s < |Schools(table)| && RunUpTo(table, fill, informal, s + 1).err.None?
    ensures var school := Schools(table)[s];
      RunUpTo(table, fill, informal, s + 1).attempts ==
        RunUpTo(table, fill, informal, s).attempts + SchoolAttempts(table, school, fill, |Acms(table, school)|)
  {
    var prev := RunUpTo(table, fill, informal, s);
    assert RunUpTo(table, fill, informal, s + 1) == SchoolStep(prev, table, fill, informal, Schools(table)[s]);
    SchoolStepShape(prev, table, fill, informal, Schools(table)[s]);
  }

  /** Every ACM of a school of the table is attempted in a run no school ends. */
  lemma RunIncludesAcm(table: seq<TrackerRow>, fill: (Option<string>, seq<TrackerRow>) -> bool,
                       informal: string -> Option<string>, school: Option<string>, a: nat) returns (k: nat)
    requires Run(table, fill, informal).err.None? && school in Schools(table) && a < |Acms(table, school)|
    ensures k < |Run(table, fill, informal).attempts|
    ensures Run(table, fill, informal).attempts[k] == AttemptFor(table, school, Acms(table, school)[a], fill)
  {
    var schools := Schools(table);
    var s := FirstIndex(schools, school);
    RunPrefix(table, fill, informal, s + 1, |schools|);
    SchoolBlockAt(table, fill, informal, s);
    var before := RunUpTo(table, fill, informal, s).attempts;
    var sa := SchoolAttempts(table, school, fill, |Acms(table, school)|);
    assert sa[a] == AttemptFor(table, school, Acms(table, school)[a], fill);
    PrefixBlock(before, sa, Run(table, fill, informal).attempts, a);
    k := |before| + a;
  }

  /** A row with a school and an ACM gives that ACM a place among its school's ACMs. */
  lemma AcmOfRow(table: seq<TrackerRow>, t: TrackerRow) returns (a: nat)
    requires t in table && t.school.Some? && t.staff.Some?
    ensures t.school in Schools(table)
    ensures a < |Acms(table, t.school)| && Acms(table, t.school)[a] == t.staff
  {
    var i := FirstIndex(table, t);
    assert Map(table, SchoolOf)[i] == t.school;
    FilterIn(table, (x: TrackerRow) => AtSchool(x, t.school), t);
    var sr := SchoolRows(table, t.school);
    var p := FirstIndex(sr, t);
    assert Map(sr, StaffOf)[p] == t.staff;
    a := FirstIndex(Acms(table, t.school), t.staff);
  }

  /** When no school ends the run, every row with a school and an ACM is filled. */
  lemma RunCovers(table: seq<TrackerRow>, fill: (Option<string>, seq<TrackerRow>) -> bool,
                  informal: string -> Option<string>, t: TrackerRow)
    requires Run(table, fill, informal).err.None?
    requires t in table && t.school.Some? && t.staff.Some?
    ensures exists k :: (0 <= k < |Run(table, fill, informal).attempts| &&
      Run(table, fill, informal).attempts[k].school == t.school &&
      Run(table, fill, informal).attempts[k].acm == t.staff &&
      t in Run(table, fill, informal).attempts[k].rows)
  {
    var a := AcmOfRow(table, t);
    var k := RunIncludesAcm(table, fill, informal, t.school, a);
    AcmRowsMembers(table, t.school, t.staff, t);
  }

  /** A missing school ends the run with IndexError, after its ACM loop, which
      has nothing to do. */
  lemma MissingSchoolStops(table: seq<TrackerRow>, fill: (Option<string>, seq<TrackerRow>) -> bool,
                           informal: string -> Option<string>, n: nat)
    requires 0 < n <= |Schools(table)| && Schools(table)[n - 1].None?
    requires RunUpTo(table, fill, informal, n - 1).err.None?
    ensures RunUpTo(table, fill, informal, n).err == Some(IndexError)
    ensures RunUpTo(table, fill, informal, n).attempts == RunUpTo(table, fill, informal, n - 1).attempts
  {
    NoRowsAtMissingSchool(table);
  }

  /** No row is at a missing school, not even a row whose school is missing. */
  lemma NoRowsAtMissingSchool(table: seq<TrackerRow>)
    ensures |SchoolRows(table, None)| == 0
  {
    FilterNone(table, (t: TrackerRow) => AtSchool(t, None));
  }
}
