/** The tracker management script: the ACM Rollup of one coaching log, the
    drop-down lists of a coaching log's Log Validation sheet, the rename and
    reset of ACM sheets when coaching logs are deployed, and the staff and
    student lists written to every school's trackers. */
module TrackerMgmt {
  import opened Base
  import opened Strings
  import opened Seqs
  import opened Sorting
  import opened SimpleCysh
  import opened Sheets
  import opened Trackers

  // ---------------------------------------------------------------- fill_one_coaching_log_acm_rollup

  /** The sheets of a coaching log that are not ACM sheets. */
  const MgmtSkip: seq<string> :=
    ["Dev Tracker", DevMap, AcmValidation, AcmRollup, "Calendar Validation", "Log Validation"]

  /** `fill_one_coaching_log_acm_rollup`: the lookup column runs to row 3000 and
      only the six sheets above are skipped. */
  method FillOneCoachingLogAcmRollup(sheets: seq<string>) returns (err: Option<Exc>, ws: seq<Write>)
    ensures AcmRollup !in sheets ==> err == Some(KeyError(AcmRollup)) && ws == []
    ensures AcmRollup in sheets ==> err.None? && ws == RollupWrites(sheets, MgmtSkip, 3000)
  {
    if AcmRollup !in sheets {
      return Some(KeyError(AcmRollup)), [];
    }
    ws := FillRollup(AcmSheets(sheets, MgmtSkip), 3000);
    err := None;
  }

  /** Every sheet but the six is an ACM sheet here, so the ACM Template gets a
      block of its own, which the coaching-log class leaves out. */
  lemma MgmtAcmSheets(sheets: seq<string>, name: string)
    ensures name in AcmSheets(sheets, MgmtSkip) <==>
      name in sheets && name != "Dev Tracker" && name != "Dev Map" && name != "ACM Validation" &&
      name != "ACM Rollup" && name != "Calendar Validation" && name != "Log Validation"
    ensures AcmTemplate in sheets ==>
      AcmTemplate in AcmSheets(sheets, MgmtSkip) && AcmTemplate !in AcmSheets(sheets, TrackerSkip)
  {
    AcmSheetsMembers(sheets, MgmtSkip, name);
    AcmSheetsMembers(sheets, MgmtSkip, AcmTemplate);
    AcmSheetsMembers(sheets, TrackerSkip, AcmTemplate);
    assert TrackerSkip[2] == AcmTemplate;
  }

  // ---------------------------------------------------------------- update_coach_log_validation

  /** A named list of drop-down items. */
  datatype SubList = SubList(name: string, items: seq<string>)

  /** A category of lists, laid out down one column. */
  datatype Category = Category(name: string, subs: seq<SubList>)

  /** The one category the script lays out. */
  const FocusNames: seq<Category> := [Category("Focus", [
    SubList("ELA", ["Comprehension", "Fluency", "Phonemic.Awareness.or.Phonics",
                    "Student.Behavior.Management", "Vocabulary", "Writing", "Other"]),
    SubList("Math", ["Adaptive.Reasoning", "Conceptual.Understanding", "Procedural.Fluency",
                     "Strategic.Competence", "Student.Behavior.Management", "Other"])])]

  /** A workbook-level range name: the name, its column and its first and last row. */
  datatype NamedRange = NamedRange(name: string, col: nat, row1: nat, row2: nat)

  /** `chr(65 + i)` is a column letter only for the first 26 categories. */
  const MaxColumns: nat := 26

  function CellArea(col: nat, row: nat): Area
  {
    Area(col, col, row, row)
  }

  /** The row of the header of sub-list `j`: the first sits at row 3, and each
      further one two rows below the end of the previous list. */
  function HeaderRow(subs: seq<SubList>, j: nat): nat
    requires j <= |subs|
  {
    if j == 0 then 3 else HeaderRow(subs, j - 1) + |subs[j - 1].items| + 2
  }

  /** `[[_] for _ in items]` written from row `top` down. */
  function ItemWrites(items: seq<string>, col: nat, top: nat): (r: seq<Write>)
    ensures |r| == |items|
  {
    seq(|items|, t requires 0 <= t < |items| => Write(CellArea(col, top + t), items[t]))
  }

  /** The upper-cased header of a sub-list and its items below it. */
  function SubBlock(sub: SubList, col: nat, header: nat): seq<Write>
  {
    [Write(CellArea(col, header), Upper(sub.name))] + ItemWrites(sub.items, col, header + 1)
  }

  function SubsWrites(subs: seq<SubList>, col: nat, j: nat): seq<Write>
    requires j <= |subs|
  {
    if j == 0 then [] else SubsWrites(subs, col, j - 1) + SubBlock(subs[j - 1], col, HeaderRow(subs, j - 1))
  }

  /** The range named after sub-list `k`: the rows right below its header, one per item. */
  function SubRange(subs: seq<SubList>, col: nat, k: nat): NamedRange
    requires k < |subs|
  {
    NamedRange(subs[k].name, col, HeaderRow(subs, k) + 1, HeaderRow(subs, k) + |subs[k].items|)
  }

  function SubRanges(subs: seq<SubList>, col: nat, j: nat): (r: seq<NamedRange>)
    requires j <= |subs|
    ensures |r| == j
  {
    seq(j, k requires 0 <= k < j => SubRange(subs, col, k))
  }

  /** Clear rows 1..300 of the column, the upper-cased category in row 1, then the lists. */
  function CategoryWrites(c: Category, col: nat): seq<Write>
  {
    [Write(Area(col, col, 1, 300), ""), Write(CellArea(col, 1), Upper(c.name))] + SubsWrites(c.subs, col, |c.subs|)
  }

  /** The writes for the first `n` categories, category `i` in column `i`. */
  function LayoutWrites(cats: seq<Category>, n: nat): seq<Write>
    requires n <= |cats|
  {
    Joined(CategoryBlocks(cats), n)
  }

  function LayoutRanges(cats: seq<Category>, n: nat): seq<NamedRange>
    requires n <= |cats|
  {
    if n == 0 then [] else LayoutRanges(cats, n - 1) + SubRanges(cats[n - 1].subs, n - 1, |cats[n - 1].subs|)
  }

  /** One category of the layout loop, with its `row_n` counter. */
  method WriteCategory(c: Category, col: nat) returns (ws: seq<Write>, ranges: seq<NamedRange>)
    ensures ws == CategoryWrites(c, col)
    ensures ranges == SubRanges(c.subs, col, |c.subs|)
  {
    var top := [Write(Area(col, col, 1, 300), ""), Write(CellArea(col, 1), Upper(c.name))];
    ws := top;
    ranges := [];
    var rowN: nat := 1;
    var j := 0;
    while j < |c.subs|
      invariant j <= |c.subs|
      invariant rowN + 2 == HeaderRow(c.subs, j)
      invariant ws == top + SubsWrites(c.subs, col, j)
      invariant ranges == SubRanges(c.subs, col, j)
    {
      var sub := c.subs[j];
      rowN := rowN + 2;
      var header := Write(CellArea(col, rowN), Upper(sub.name));
      rowN := rowN + 1;
      var rowEnd: nat := rowN + |sub.items| - 1;
      ranges := ranges + [NamedRange(sub.name, col, rowN, rowEnd)];
      assert ranges == SubRanges(c.subs, col, j + 1);
      ws := ws + ([header] + ItemWrites(sub.items, col, rowN));
      rowN := rowEnd;
      j := j + 1;
    }
  }

  /** The layout loop of `update_coach_log_validation` on one open workbook: the
      sheet lookup raises KeyError when the sheet is missing, and the 27th
      category has no column letter. */
  method UpdateCoachLogValidation(sheets: seq<string>, sheetName: string, cats: seq<Category>)
    returns (err: Option<Exc>, ws: seq<Write>, ranges: seq<NamedRange>)
    ensures |cats| > 0 && sheetName !in sheets ==> err == Some(KeyError(sheetName)) && ws == [] && ranges == []
    ensures (|cats| == 0 || sheetName in sheets) ==>
      var n := if |cats| <= MaxColumns then |cats| else MaxColumns;
      ws == LayoutWrites(cats, n) && ranges == LayoutRanges(cats, n) &&
      (|cats| <= MaxColumns ==> err.None?) && (|cats| > MaxColumns ==> err == Some(ComError))
  {
    ws, ranges := [], [];
    var i := 0;
    while i < |cats|
      invariant i <= |cats| && i <= MaxColumns
      invariant i > 0 ==> sheetName in sheets
      invariant ws == LayoutWrites(cats, i) && ranges == LayoutRanges(cats, i)
    {
      if sheetName !in sheets {
        return Some(KeyError(sheetName)), [], [];
      }
      if i == MaxColumns {
        return Some(ComError), ws, ranges;
      }
      var cw, cr := WriteCategory(cats[i], i);
      ws := ws + cw;
      ranges := ranges + cr;
      i := i + 1;
    }
    err := None;
  }

  /** Headers move down by at least the list length plus two from one list to the next. */
  lemma {:induction false} HeaderRowGrows(subs: seq<SubList>, k: nat, l: nat)
    requires k < l <= |subs|
    ensures HeaderRow(subs, l) >= HeaderRow(subs, k) + |subs[k].items| + 2
  {
    if l > k + 1 {
      HeaderRowGrows(subs, k, l - 1);
    }
  }

  lemma {:induction false} HeaderRowAtLeast(subs: seq<SubList>, j: nat)
    requires j <= |subs|
    ensures HeaderRow(subs, j) >= 3
  {
    if j > 0 {
      HeaderRowAtLeast(subs, j - 1);
    }
  }

  /** The named ranges of a column are disjoint and in order, and no header lies
      inside any of them. */
  lemma RangesDisjoint(subs: seq<SubList>, col: nat, k: nat, l: nat)
    requires k < l < |subs|
    ensures SubRange(subs, col, k).row2 < HeaderRow(subs, l) < SubRange(subs, col, l).row1
    ensures HeaderRow(subs, k) < SubRange(subs, col, k).row1
  {
    HeaderRowGrows(subs, k, l);
  }

  /** Each write of a sub-list block is one cell of the column, at or below its header. */
  predicate CellsFrom(ws: seq<Write>, col: nat, lo: nat)
  {
    forall k :: 0 <= k < |ws| ==> ws[k].area.col1 == col && ws[k].area.col2 == col && ws[k].area.row1 == ws[k].area.row2 && ws[k].area.row1 >= lo
  }

  lemma {:induction false} SubsWritesCells(subs: seq<SubList>, col: nat, j: nat)
    requires j <= |subs|
    ensures CellsFrom(SubsWrites(subs, col, j), col, 3)
  {
    if j > 0 {
      SubsWritesCells(subs, col, j - 1);
      var a := SubsWrites(subs, col, j - 1);
      var b := SubBlock(subs[j - 1], col, HeaderRow(subs, j - 1));
      SubBlockShape(subs[j - 1], col, HeaderRow(subs, j - 1));
      HeaderRowAtLeast(subs, j - 1);
      assert SubsWrites(subs, col, j) == a + b;
    }
  }

  /** Write `t` of a block is the cell `t` rows below the header. */
  lemma SubBlockShape(sub: SubList, col: nat, h: nat)
    ensures var b := SubBlock(sub, col, h);
      |b| == |sub.items| + 1 && CellsFrom(b, col, h) &&
      forall t :: 0 <= t < |b| ==>
        b[t].area == CellArea(col, h + t) && b[t].value == (if t == 0 then Upper(sub.name) else sub.items[t - 1])
  {
    var b := SubBlock(sub, col, h);
    forall t | 0 <= t < |b|
      ensures b[t].area == CellArea(col, h + t)
      ensures b[t].value == if t == 0 then Upper(sub.name) else sub.items[t - 1]
    {
      if t > 0 {
        assert b[t] == ItemWrites(sub.items, col, h + 1)[t - 1];
      }
    }
  }

  /** In its own block, the header row shows the upper-cased name and the rows
      below show the items. */
  lemma SubBlockCells(sub: SubList, col: nat, h: nat, row: nat)
    requires h <= row <= h + |sub.items|
    ensures FinalValue(SubBlock(sub, col, h), col, row) ==
      Some(if row == h then Upper(sub.name) else sub.items[row - h - 1])
  {
    var b := SubBlock(sub, col, h);
    var k := row - h;
    SubBlockShape(sub, col, h);
    assert b[k].area == CellArea(col, row);
    forall j | k < j < |b|
      ensures !Covers(b[j].area, col, row)
    {
      assert b[j].area == CellArea(col, h + j);
    }
    FinalValueAt(b, k, col, row);
  }

  /** Later blocks leave a list's rows alone. */
  lemma {:induction false} SubsWritesCell(subs: seq<SubList>, col: nat, n: nat, k: nat, row: nat)
    requires k < n <= |subs|
    requires HeaderRow(subs, k) <= row <= HeaderRow(subs, k) + |subs[k].items|
    ensures FinalValue(SubsWrites(subs, col, n), col, row) == FinalValue(SubBlock(subs[k], col, HeaderRow(subs, k)), col, row)
  {
    var a := SubsWrites(subs, col, n - 1);
    var b := SubBlock(subs[n - 1], col, HeaderRow(subs, n - 1));
    if n == k + 1 {
      SubBlockCells(subs[k], col, HeaderRow(subs, k), row);
      FinalValueConcat(a, b, col, row);
    } else {
      SubsWritesCell(subs, col, n - 1, k, row);
      HeaderRowGrows(subs, k, n - 1);
      SubBlockShape(subs[n - 1], col, HeaderRow(subs, n - 1));
      FinalValueUntouched(a, b, col, row);
    }
  }

  /** After a category is written, row 1 of its column shows the category, each
      header row its list's name and each row of a named range its item. */
  lemma CategoryCells(c: Category, col: nat, k: nat, row: nat)
    requires k < |c.subs|
    requires HeaderRow(c.subs, k) <= row <= HeaderRow(c.subs, k) + |c.subs[k].items|
    ensures FinalValue(CategoryWrites(c, col), col, 1) == Some(Upper(c.name))
    ensures FinalValue(CategoryWrites(c, col), col, row) ==
      Some(if row == HeaderRow(c.subs, k) then Upper(c.subs[k].name) else c.subs[k].items[row - HeaderRow(c.subs, k) - 1])
  {
    var top := [Write(Area(col, col, 1, 300), ""), Write(CellArea(col, 1), Upper(c.name))];
    var rest := SubsWrites(c.subs, col, |c.subs|);
    SubsWritesCells(c.subs, col, |c.subs|);
    FinalValueUntouched(top, rest, col, 1);
    FinalValueAt(top, 1, col, 1);
    SubsWritesCell(c.subs, col, |c.subs|, k, row);
    SubBlockCells(c.subs[k], col, HeaderRow(c.subs, k), row);
    FinalValueConcat(top, rest, col, row);
  }

  /** Every write of `ws` stays in column `col`. */
  predicate InColumn(ws: seq<Write>, col: nat)
  {
    forall k :: 0 <= k < |ws| ==> ws[k].area.col1 == col && ws[k].area.col2 == col
  }

  lemma CategoryInColumn(c: Category, col: nat)
    ensures InColumn(CategoryWrites(c, col), col)
  {
    var cw := CategoryWrites(c, col);
    var rest := SubsWrites(c.subs, col, |c.subs|);
    SubsWritesCells(c.subs, col, |c.subs|);
    forall k | 2 <= k < |cw|
      ensures cw[k].area.col1 == col && cw[k].area.col2 == col
    {
      assert cw[k] == rest[k - 2];
    }
  }

  /** Blocks written one after the other. */
  function Joined(blocks: seq<seq<Write>>, n: nat): seq<Write>
    requires n <= |blocks|
  {
    if n == 0 then [] else Joined(blocks, n - 1) + blocks[n - 1]
  }

  /** When block `k` stays in column `k`, the first `n` blocks leave columns from `n` on empty. */
  lemma {:induction false} JoinedColumns(blocks: seq<seq<Write>>, n: nat, col: nat, row: nat)
    requires n <= |blocks| && col >= n
    requires forall k :: 0 <= k < |blocks| ==> InColumn(blocks[k], k)
    ensures FinalValue(Joined(blocks, n), col, row) == None
  {
    if n > 0 {
      JoinedColumns(blocks, n - 1, col, row);
      assert InColumn(blocks[n - 1], n - 1);
      FinalValueUntouched(Joined(blocks, n - 1), blocks[n - 1], col, row);
    }
  }

  /** When block `k` stays in column `k`, column `i` shows what block `i` wrote. */
  lemma {:induction false} JoinedColumn(blocks: seq<seq<Write>>, n: nat, i: nat, row: nat)
    requires i < n <= |blocks|
    requires forall k :: 0 <= k < |blocks| ==> InColumn(blocks[k], k)
    ensures FinalValue(Joined(blocks, n), i, row) == FinalValue(blocks[i], i, row)
  {
    if i == n - 1 {
      JoinedColumns(blocks, n - 1, i, row);
      FinalValueConcat(Joined(blocks, n - 1), blocks[i], i, row);
    } else {
      JoinedColumn(blocks, n - 1, i, row);
      assert InColumn(blocks[n - 1], n - 1);
      FinalValueUntouched(Joined(blocks, n - 1), blocks[n - 1], i, row);
    }
  }

  /** Category `k`'s writes, for every `k`. */
  function CategoryBlocks(cats: seq<Category>): (r: seq<seq<Write>>)
    ensures |r| == |cats|
  {
    seq(|cats|, k requires 0 <= k < |cats| => CategoryWrites(cats[k], k))
  }

  lemma BlocksInColumns(cats: seq<Category>)
    ensures forall k :: 0 <= k < |cats| ==> InColumn(CategoryBlocks(cats)[k], k)
  {
    forall k | 0 <= k < |cats|
      ensures InColumn(CategoryBlocks(cats)[k], k)
    {
      CategoryInColumn(cats[k], k);
    }
  }

  /** The first `n` categories write only columns before `n`. */
  lemma LayoutColumns(cats: seq<Category>, n: nat, col: nat, row: nat)
    requires n <= |cats| && col >= n
    ensures FinalValue(LayoutWrites(cats, n), col, row) == None
  {
    BlocksInColumns(cats);
    JoinedColumns(CategoryBlocks(cats), n, col, row);
  }

  /** Columns do not interfere: column `i` shows what category `i` wrote there. */
  lemma LayoutColumn(cats: seq<Category>, n: nat, i: nat, row: nat)
    requires i < n <= |cats|
    ensures FinalValue(LayoutWrites(cats, n), i, row) == FinalValue(CategoryWrites(cats[i], i), i, row)
  {
    BlocksInColumns(cats);
    JoinedColumn(CategoryBlocks(cats), n, i, row);
  }

  /** With the script's data, FOCUS heads column A, ELA's items fill rows 4 to 10
      under a header in row 3, and Math's rows 13 to 18 under a header in row 12. */
  lemma FocusLayout()
    ensures HeaderRow(FocusNames[0].subs, 0) == 3 && HeaderRow(FocusNames[0].subs, 1) == 12
    ensures LayoutRanges(FocusNames, 1) == [NamedRange("ELA", 0, 4, 10), NamedRange("Math", 0, 13, 18)]
  {
    var subs := FocusNames[0].subs;
    assert |subs[0].items| == 7 && |subs[1].items| == 6;
    assert SubRanges(subs, 0, 2) == [SubRange(subs, 0, 0), SubRange(subs, 0, 1)];
  }

  // ---------------------------------------------------------------- deploy_choaching_logs

  /** The two columns of a school's Corps Members the deployment reads. */
  datatype DeployStaff = DeployStaff(first: string, name: string)

  function FirstOf(s: DeployStaff): string
  {
    s.first
  }

  function Firsts(staff: seq<DeployStaff>): seq<string>
  {
    Map(staff, FirstOf)
  }

  /** `f'ACM{pos}'`. */
  function AcmName(p: nat): string
  {
    "ACM" + NatToString(p)
  }

  /** Rename loop: the `pos`-th staff member's first name replaces sheet
      `ACM{pos}`, and A1 gets their name. */
  function RenamePhase(st: BookState, staff: seq<DeployStaff>, j: nat): (r: BookState)
    requires j <= |staff|
    ensures st.err.Some? ==> r == st
    ensures |r.sheets| == |st.sheets|
  {
    if j == 0 then st
    else
      var r := RenameStep(RenamePhase(st, staff, j - 1), AcmName(j), staff[j - 1].first);
      if r.err.Some? then r else r.(a1 := r.a1[staff[j - 1].first := staff[j - 1].name])
  }

  /** Reset loop: the `pos`-th added sheet is named `ACM{pos}` again. */
  function ResetPhase(st: BookState, added: seq<string>, j: nat): (r: BookState)
    requires j <= |added|
    ensures st.err.Some? ==> r == st
    ensures |r.sheets| == |st.sheets|
  {
    if j == 0 then st else RenameStep(ResetPhase(st, added, j - 1), added[j - 1], AcmName(j))
  }

  /** One school of `deploy_choaching_logs`: rename, save, reset. An exception
      during the renames ends the run before any reset. Renaming never adds or
      removes a sheet, and an earlier exception leaves the workbook as it was. */
  function Deploy(st: BookState, staff: seq<DeployStaff>): (r: BookState)
    ensures st.err.Some? ==> r == st
    ensures |r.sheets| == |st.sheets|
    ensures RenamePhase(st, staff, |staff|).err.Some? ==> r == RenamePhase(st, staff, |staff|)
  {
    var r := RenamePhase(st, staff, |staff|);
    if r.err.Some? then r else ResetPhase(r, Firsts(staff), |staff|)
  }

  lemma {:induction false} RenamePhaseStopped(st: BookState, staff: seq<DeployStaff>, k: nat, n: nat)
    requires k <= n <= |staff| && RenamePhase(st, staff, k).err.Some?
    ensures RenamePhase(st, staff, n) == RenamePhase(st, staff, k)
  {
    if n > k {
      RenamePhaseStopped(st, staff, k, n - 1);
    }
  }

  lemma {:induction false} ResetPhaseStopped(st: BookState, added: seq<string>, k: nat, n: nat)
    requires k <= n <= |added| && ResetPhase(st, added, k).err.Some?
    ensures ResetPhase(st, added, n) == ResetPhase(st, added, k)
  {
    if n > k {
      ResetPhaseStopped(st, added, k, n - 1);
    }
  }

  lemma FirstsSnoc(staff: seq<DeployStaff>, pos: nat)
    requires 0 < pos <= |staff|
    ensures Firsts(staff[..pos]) == Firsts(staff[..pos - 1]) + [staff[pos - 1].first]
  {
    assert staff[..pos] == staff[..pos - 1] + [staff[pos - 1]];
    MapSnoc(staff[..pos - 1], staff[pos - 1], FirstOf);
  }

  /** The rename and reset loops of `deploy_choaching_logs` on one workbook;
      saving it in between is I/O. */
  method DeployAcmSheets(wb: Workbook, staff: seq<DeployStaff>) returns (err: Option<Exc>)
    modifies wb
    ensures BookState(wb.sheets, wb.a1, err) == Deploy(BookState(old(wb.sheets), old(wb.a1), None), staff)
  {
    ghost var st0 := BookState(wb.sheets, wb.a1, None);
    var pos := 0;
    var added: seq<string> := [];
    while pos < |staff|
      invariant pos <= |staff|
      invariant BookState(wb.sheets, wb.a1, None) == RenamePhase(st0, staff, pos)
      invariant added == Firsts(staff[..pos])
    {
      pos := pos + 1;
      var e := wb.Rename(AcmName(pos), staff[pos - 1].first);
      if e.Some? {
        RenamePhaseStopped(st0, staff, pos, |staff|);
        return e;
      }
      wb.a1 := wb.a1[staff[pos - 1].first := staff[pos - 1].name];
      FirstsSnoc(staff, pos);
      added := added + [staff[pos - 1].first];
    }
    assert staff[..pos] == staff;
    ghost var renamed := BookState(wb.sheets, wb.a1, None);
    pos := 0;
    while pos < |added|
      invariant pos <= |added|
      invariant BookState(wb.sheets, wb.a1, None) == ResetPhase(renamed, added, pos)
    {
      pos := pos + 1;
      var e := wb.Rename(added[pos - 1], AcmName(pos));
      if e.Some? {
        ResetPhaseStopped(renamed, added, pos, |added|);
        return e;
      }
    }
    err := None;
  }

  /** The number in a name `ACM{n}`, when it is one. */
  function AcmNumber(x: string): Option<nat>
  {
    if |x| > 3 && x[..3] == "ACM" then
      var d := x[3..];
      if (forall i :: 0 <= i < |d| ==> IsDigit(d[i])) && NatToString(DigitsValue(d)) == d then Some(DigitsValue(d)) else None
    else None
  }

  lemma AcmNumberOf(p: nat)
    ensures AcmNumber(AcmName(p)) == Some(p)
  {
    var x := AcmName(p);
    assert x[..3] == "ACM" && x[3..] == NatToString(p);
    DigitsValueNat(p);
  }

  lemma AcmNumberName(x: string)
    requires AcmNumber(x).Some?
    ensures x == AcmName(AcmNumber(x).value)
  {
    assert x == x[..3] + x[3..];
  }

  /** A sheet name after positions `lo + 1` to `hi` of the rename loop (and
      before any of them are reset): `ACM{p}` shows the `p`-th first name. */
  function Renamed(staff: seq<DeployStaff>, lo: nat, hi: nat, x: string): string
  {
    var k := AcmNumber(x);
    if k.Some? && lo < k.value <= hi && hi <= |staff| then staff[k.value - 1].first else x
  }

  function RenamedSheets(sheets: seq<string>, staff: seq<DeployStaff>, lo: nat, hi: nat): (r: seq<string>)
    ensures |r| == |sheets|
  {
    seq(|sheets|, m requires 0 <= m < |sheets| => Renamed(staff, lo, hi, sheets[m]))
  }

  lemma RenamedSheetsAt(sheets: seq<string>, staff: seq<DeployStaff>, lo: nat, hi: nat, m: nat)
    requires m < |sheets|
    ensures RenamedSheets(sheets, staff, lo, hi)[m] == Renamed(staff, lo, hi, sheets[m])
  {
  }

  /** With no positions renamed, the names are the original ones. */
  lemma RenamedSheetsNone(sheets: seq<string>, staff: seq<DeployStaff>, k: nat)
    ensures RenamedSheets(sheets, staff, k, k) == sheets
  {
    forall m | 0 <= m < |sheets|
      ensures RenamedSheets(sheets, staff, k, k)[m] == sheets[m]
    {
      RenamedSheetsAt(sheets, staff, k, k, m);
    }
  }

  /** The workbook has distinct sheet names (ignoring case) including ACM1 to ACMn
      for n staff, whose first names are distinct and are no sheet's name. */
  predicate DeployReady(sheets: seq<string>, staff: seq<DeployStaff>)
  {
    CaselessDistinct(sheets) &&
    (forall p :: 1 <= p <= |staff| ==> AcmName(p) in sheets) &&
    CaselessDistinct(Firsts(staff)) &&
    (forall q :: 0 <= q < |staff| ==> Lower(staff[q].first) !in Map(sheets, Lower))
  }

  /** A first name is never the name of an original sheet, ignoring case. */
  lemma FirstNotSheet(sheets: seq<string>, staff: seq<DeployStaff>, q: nat, m: nat)
    requires DeployReady(sheets, staff) && q < |staff| && m < |sheets|
    ensures Lower(staff[q].first) != Lower(sheets[m])
  {
    MapHas(sheets, Lower, m);
  }

  /** Two staff members' first names differ, ignoring case. */
  lemma FirstsDiffer(sheets: seq<string>, staff: seq<DeployStaff>, q: nat, q': nat)
    requires DeployReady(sheets, staff) && q < |staff| && q' < |staff| && q != q'
    ensures Lower(staff[q].first) != Lower(staff[q'].first)
  {
    var f := Firsts(staff);
    assert f[q] == staff[q].first && f[q'] == staff[q'].first;
  }

  /** Before the `j`-th rename, `ACM{j}` does not occur before its original position. */
  lemma RenameNoEarlier(sheets: seq<string>, staff: seq<DeployStaff>, j: nat, P: nat, cur: seq<string>)
    requires DeployReady(sheets, staff) && 0 < j <= |staff|
    requires AcmName(j) in sheets && P == FirstIndex(sheets, AcmName(j))
    requires cur == RenamedSheets(sheets, staff, 0, j - 1)
    ensures forall m :: 0 <= m < P ==> cur[m] != AcmName(j)
  {
    forall m | 0 <= m < P
      ensures cur[m] != AcmName(j)
    {
      RenamedSheetsAt(sheets, staff, 0, j - 1, m);
      if Renamed(staff, 0, j - 1, sheets[m]) != sheets[m] {
        FirstNotSheet(sheets, staff, AcmNumber(sheets[m]).value - 1, P);
      }
    }
  }

  /** Before the `j`-th rename, no other sheet has the `j`-th first name, ignoring case. */
  lemma RenameNameFree(sheets: seq<string>, staff: seq<DeployStaff>, j: nat, P: nat, cur: seq<string>)
    requires DeployReady(sheets, staff) && 0 < j <= |staff| && P < |sheets|
    requires cur == RenamedSheets(sheets, staff, 0, j - 1)
    ensures forall m :: 0 <= m < |sheets| && m != P ==>
      Lower(cur[m]) != Lower(staff[j - 1].first)
  {
    forall m | 0 <= m < |sheets| && m != P
      ensures Lower(cur[m]) != Lower(staff[j - 1].first)
    {
      RenamedSheetsAt(sheets, staff, 0, j - 1, m);
      if Renamed(staff, 0, j - 1, sheets[m]) != sheets[m] {
        FirstsDiffer(sheets, staff, AcmNumber(sheets[m]).value - 1, j - 1);
      } else {
        FirstNotSheet(sheets, staff, j - 1, m);
      }
    }
  }

  /** Renaming `ACM{j}` in place extends the renamed positions by one. */
  lemma RenamedSheetsGrow(sheets: seq<string>, staff: seq<DeployStaff>, j: nat, P: nat, cur: seq<string>, next: seq<string>)
    requires 0 < j <= |staff| && P < |sheets| && sheets[P] == AcmName(j)
    requires forall m :: 0 <= m < |sheets| && m != P ==> sheets[m] != AcmName(j)
    requires cur == RenamedSheets(sheets, staff, 0, j - 1) && next == RenamedSheets(sheets, staff, 0, j)
    ensures cur[P := staff[j - 1].first] == next
  {
    forall m | 0 <= m < |sheets|
      ensures cur[P := staff[j - 1].first][m] == next[m]
    {
      RenamedSheetsAt(sheets, staff, 0, j - 1, m);
      RenamedSheetsAt(sheets, staff, 0, j, m);
      RenamedGrowAt(staff, j, sheets[m]);
    }
  }

  /** Widening the renamed positions to `j` changes exactly the name `ACM{j}`. */
  lemma RenamedGrowAt(staff: seq<DeployStaff>, j: nat, x: string)
    requires 0 < j <= |staff|
    ensures Renamed(staff, 0, j, x) == if x == AcmName(j) then staff[j - 1].first else Renamed(staff, 0, j - 1, x)
  {
    if x == AcmName(j) {
      AcmNumberOf(j);
    } else if AcmNumber(x).Some? {
      AcmNumberName(x);
      assert AcmNumber(x) != Some(j);
    }
  }

  /** In a sheet list with no two names equal ignoring case, each name occurs once. */
  lemma CaselessOnce(sheets: seq<string>, P: nat)
    requires CaselessDistinct(sheets) && P < |sheets|
    ensures forall m :: 0 <= m < |sheets| && m != P ==> sheets[m] != sheets[P]
  {
    forall m | 0 <= m < |sheets| && m != P
      ensures sheets[m] != sheets[P]
    {
      if m < P {
        assert Lower(sheets[m]) != Lower(sheets[P]);
      } else {
        assert Lower(sheets[P]) != Lower(sheets[m]);
      }
    }
  }

  /** One more rename: `ACM{j}` sits at its original position and nowhere before,
      and no sheet has the new first name. */
  lemma RenameStepReady(sheets: seq<string>, staff: seq<DeployStaff>, j: nat, st: BookState)
    requires DeployReady(sheets, staff) && 0 < j <= |staff|
    requires st.err.None? && st.sheets == RenamedSheets(sheets, staff, 0, j - 1)
    ensures RenameStep(st, AcmName(j), staff[j - 1].first) ==
      BookState(RenamedSheets(sheets, staff, 0, j), MoveA1(st.a1, AcmName(j), staff[j - 1].first), None)
  {
    var P := FirstIndex(sheets, AcmName(j));
    AcmNumberOf(j);
    RenamedSheetsAt(sheets, staff, 0, j - 1, P);
    RenameNoEarlier(sheets, staff, j, P, st.sheets);
    RenameNameFree(sheets, staff, j, P, st.sheets);
    RenameAt(st, P, AcmName(j), staff[j - 1].first);
    CaselessOnce(sheets, P);
    RenamedSheetsGrow(sheets, staff, j, P, st.sheets, RenamedSheets(sheets, staff, 0, j));
  }

  /** Staff members `lo` to `hi - 1` have their name in the A1 of the sheet
      carrying their first name. */
  predicate FirstsHeld(a1: map<string, string>, staff: seq<DeployStaff>, lo: nat, hi: nat)
    requires hi <= |staff|
  {
    forall p :: lo <= p < hi ==> staff[p].first in a1 && a1[staff[p].first] == staff[p].name
  }

  /** `ACM1` to `ACM{j}` hold the names of the first `j` staff members in A1. */
  predicate AcmHeld(a1: map<string, string>, staff: seq<DeployStaff>, j: nat)
    requires j <= |staff|
  {
    forall p :: 1 <= p <= j ==> AcmName(p) in a1 && a1[AcmName(p)] == staff[p - 1].name
  }

  /** The A1 values after the `j`-th rename and its A1 write. */
  lemma RenameA1Step(sheets: seq<string>, staff: seq<DeployStaff>, j: nat, a1: map<string, string>)
    requires DeployReady(sheets, staff) && 0 < j <= |staff|
    requires FirstsHeld(a1, staff, 0, j - 1)
    ensures FirstsHeld(MoveA1(a1, AcmName(j), staff[j - 1].first)[staff[j - 1].first := staff[j - 1].name], staff, 0, j)
  {
    var P := FirstIndex(sheets, AcmName(j));
    forall p | 0 <= p < j - 1
      ensures staff[p].first != AcmName(j) && staff[p].first != staff[j - 1].first
    {
      FirstNotSheet(sheets, staff, p, P);
      FirstsDiffer(sheets, staff, p, j - 1);
    }
  }

  /** After `j` renames of a ready workbook, the first `j` ACM sheets carry the
      first names and hold the staff names in A1. */
  lemma {:induction false} RenamePhaseAt(sheets: seq<string>, a1: map<string, string>, staff: seq<DeployStaff>, j: nat)
    requires DeployReady(sheets, staff) && j <= |staff|
    ensures var r := RenamePhase(BookState(sheets, a1, None), staff, j);
      r.err.None? && r.sheets == RenamedSheets(sheets, staff, 0, j) && FirstsHeld(r.a1, staff, 0, j)
  {
    if j == 0 {
      RenamedSheetsNone(sheets, staff, 0);
    } else {
      RenamePhaseAt(sheets, a1, staff, j - 1);
      var st := RenamePhase(BookState(sheets, a1, None), staff, j - 1);
      RenameStepReady(sheets, staff, j, st);
      RenameA1Step(sheets, staff, j, st.a1);
    }
  }

  /** Before the `j`-th reset, the `j`-th first name does not occur before the
      position of `ACM{j}`. */
  lemma ResetNoEarlier(sheets: seq<string>, staff: seq<DeployStaff>, j: nat, P: nat, cur: seq<string>)
    requires DeployReady(sheets, staff) && 0 < j <= |staff|
    requires AcmName(j) in sheets && P == FirstIndex(sheets, AcmName(j))
    requires cur == RenamedSheets(sheets, staff, j - 1, |staff|)
    ensures forall m :: 0 <= m < P ==> cur[m] != staff[j - 1].first
  {
    forall m | 0 <= m < P
      ensures cur[m] != staff[j - 1].first
    {
      RenamedSheetsAt(sheets, staff, j - 1, |staff|, m);
      if Renamed(staff, j - 1, |staff|, sheets[m]) != sheets[m] {
        var q := AcmNumber(sheets[m]).value;
        if q == j {
          AcmNumberName(sheets[m]);
          assert false;
        }
        FirstsDiffer(sheets, staff, q - 1, j - 1);
      } else {
        FirstNotSheet(sheets, staff, j - 1, m);
      }
    }
  }

  /** Before the `j`-th reset, no other sheet is named `ACM{j}`, ignoring case. */
  lemma ResetNameFree(sheets: seq<string>, staff: seq<DeployStaff>, j: nat, P: nat, cur: seq<string>)
    requires DeployReady(sheets, staff) && 0 < j <= |staff|
    requires AcmName(j) in sheets && P == FirstIndex(sheets, AcmName(j))
    requires cur == RenamedSheets(sheets, staff, j - 1, |staff|)
    ensures forall m :: 0 <= m < |sheets| && m != P ==>
      Lower(cur[m]) != Lower(AcmName(j))
  {
    forall m | 0 <= m < |sheets| && m != P
      ensures Lower(cur[m]) != Lower(AcmName(j))
    {
      RenamedSheetsAt(sheets, staff, j - 1, |staff|, m);
      if Renamed(staff, j - 1, |staff|, sheets[m]) != sheets[m] {
        FirstNotSheet(sheets, staff, AcmNumber(sheets[m]).value - 1, P);
      }
    }
  }

  /** Naming the sheet `ACM{j}` again shrinks the renamed positions by one. */
  lemma RenamedSheetsShrink(sheets: seq<string>, staff: seq<DeployStaff>, j: nat, P: nat, cur: seq<string>, next: seq<string>)
    requires 0 < j <= |staff| && P < |sheets| && sheets[P] == AcmName(j)
    requires forall m :: 0 <= m < |sheets| && m != P ==> sheets[m] != AcmName(j)
    requires cur == RenamedSheets(sheets, staff, j - 1, |staff|) && next == RenamedSheets(sheets, staff, j, |staff|)
    ensures cur[P := AcmName(j)] == next
  {
    forall m | 0 <= m < |sheets|
      ensures cur[P := AcmName(j)][m] == next[m]
    {
      RenamedSheetsAt(sheets, staff, j - 1, |staff|, m);
      RenamedSheetsAt(sheets, staff, j, |staff|, m);
      RenamedShrinkAt(staff, j, sheets[m]);
    }
  }

  /** Narrowing the renamed positions past `j` restores exactly the name `ACM{j}`. */
  lemma RenamedShrinkAt(staff: seq<DeployStaff>, j: nat, x: string)
    requires 0 < j <= |staff|
    ensures Renamed(staff, j, |staff|, x) == if x == AcmName(j) then x else Renamed(staff, j - 1, |staff|, x)
  {
    if x == AcmName(j) {
      AcmNumberOf(j);
    } else if AcmNumber(x).Some? {
      AcmNumberName(x);
      assert AcmNumber(x) != Some(j);
    }
  }

  /** One more reset: the `j`-th first name sits where `ACM{j}` was, and no
      other sheet has that name back. */
  lemma ResetStepReady(sheets: seq<string>, staff: seq<DeployStaff>, j: nat, st: BookState)
    requires DeployReady(sheets, staff) && 0 < j <= |staff|
    requires st.err.None? && st.sheets == RenamedSheets(sheets, staff, j - 1, |staff|)
    ensures RenameStep(st, staff[j - 1].first, AcmName(j)) ==
      BookState(RenamedSheets(sheets, staff, j, |staff|), MoveA1(st.a1, staff[j - 1].first, AcmName(j)), None)
  {
    var P := FirstIndex(sheets, AcmName(j));
    AcmNumberOf(j);
    RenamedSheetsAt(sheets, staff, j - 1, |staff|, P);
    ResetNoEarlier(sheets, staff, j, P, st.sheets);
    ResetNameFree(sheets, staff, j, P, st.sheets);
    RenameAt(st, P, staff[j - 1].first, AcmName(j));
    CaselessOnce(sheets, P);
    RenamedSheetsShrink(sheets, staff, j, P, st.sheets, RenamedSheets(sheets, staff, j, |staff|));
  }

  /** The A1 values after the `j`-th reset. */
  lemma ResetA1Step(sheets: seq<string>, staff: seq<DeployStaff>, j: nat, a1: map<string, string>)
    requires DeployReady(sheets, staff) && 0 < j <= |staff|
    requires AcmHeld(a1, staff, j - 1) && FirstsHeld(a1, staff, j - 1, |staff|)
    ensures AcmHeld(MoveA1(a1, staff[j - 1].first, AcmName(j)), staff, j)
    ensures FirstsHeld(MoveA1(a1, staff[j - 1].first, AcmName(j)), staff, j, |staff|)
  {
    var P := FirstIndex(sheets, AcmName(j));
    forall p | 1 <= p < j
      ensures AcmName(p) != staff[j - 1].first && AcmName(p) != AcmName(j)
    {
      AcmNumberOf(p);
      AcmNumberOf(j);
      FirstNotSheet(sheets, staff, j - 1, FirstIndex(sheets, AcmName(p)));
    }
    forall p | j <= p < |staff|
      ensures staff[p].first != staff[j - 1].first && staff[p].first != AcmName(j)
    {
      FirstsDiffer(sheets, staff, p, j - 1);
      FirstNotSheet(sheets, staff, p, P);
    }
  }

  /** After `j` resets, `ACM1` to `ACM{j}` are back and hold the staff names in
      A1; the later sheets still carry first names and their staff names. */
  lemma {:induction false} ResetPhaseAt(sheets: seq<string>, a1: map<string, string>, staff: seq<DeployStaff>, j: nat)
    requires DeployReady(sheets, staff) && j <= |staff|
    ensures var r := ResetPhase(RenamePhase(BookState(sheets, a1, None), staff, |staff|), Firsts(staff), j);
      r.err.None? && r.sheets == RenamedSheets(sheets, staff, j, |staff|) &&
      AcmHeld(r.a1, staff, j) && FirstsHeld(r.a1, staff, j, |staff|)
  {
    if j == 0 {
      RenamePhaseAt(sheets, a1, staff, |staff|);
    } else {
      ResetPhaseAt(sheets, a1, staff, j - 1);
      var st := ResetPhase(RenamePhase(BookState(sheets, a1, None), staff, |staff|), Firsts(staff), j - 1);
      assert Firsts(staff)[j - 1] == staff[j - 1].first;
      ResetStepReady(sheets, staff, j, st);
      ResetA1Step(sheets, staff, j, st.a1);
    }
  }

  /** Renaming ACM1..ACMn to the staff's first names and resetting them restores
      the workbook's sheet names in order; each `ACM{p}` then holds the `p`-th
      staff member's name in A1. */
  lemma DeployRoundTrip(sheets: seq<string>, a1: map<string, string>, staff: seq<DeployStaff>)
    requires DeployReady(sheets, staff)
    ensures var r := Deploy(BookState(sheets, a1, None), staff);
      r.err.None? && r.sheets == sheets &&
      forall p :: 1 <= p <= |staff| ==> AcmName(p) in r.a1 && r.a1[AcmName(p)] == staff[p - 1].name
  {
    RenamePhaseAt(sheets, a1, staff, |staff|);
    ResetPhaseAt(sheets, a1, staff, |staff|);
    RenamedSheetsNone(sheets, staff, |staff|);
  }

  /** A school with more Corps Members than ACM sheets stops at the first missing
      sheet, and the sheets renamed so far are never reset. */
  lemma DeployMissingSheet()
    ensures Deploy(BookState(["ACM1", "Dev Map"], map[], None), [DeployStaff("Ann", "Ann Lee"), DeployStaff("Bo", "Bo Diaz")]) ==
      BookState(["Ann", "Dev Map"], map["Ann" := "Ann Lee"], Some(KeyError("ACM2")))
  {
    var staff := [DeployStaff("Ann", "Ann Lee"), DeployStaff("Bo", "Bo Diaz")];
    var st := BookState(["ACM1", "Dev Map"], map[], None);
    assert AcmName(1) == "ACM1" && AcmName(2) == "ACM2";
    var others: seq<string> := ["Dev Map"];
    assert ["ACM1", "Dev Map"][..0] + ["ACM1", "Dev Map"][1..] == others;
    assert Map(others, Lower) == [Lower("Dev Map")];
    assert Lower("Ann") != Lower("Dev Map") by { assert Lower("Ann")[0] == 'a' && Lower("Dev Map")[0] == 'd'; }
    assert RenamePhase(st, staff, 1) == BookState(["Ann", "Dev Map"], map["Ann" := "Ann Lee"], None);
    assert "ACM2" !in ["Ann", "Dev Map"];
  }

  // ---------------------------------------------------------------- update_acm_stdnt_validation_sheets

  /** `Role__c.str.contains('Corps Member|Team Leader') == True`: a missing role is no match. */
  predicate MgmtRole(r: StaffRow)
  {
    r.staff.role.Some? && (Contains(r.staff.role.value, "Corps Member") || Contains(r.staff.role.value, "Team Leader"))
  }

  /** The sort key: the display name `first + " " + initial + "."`. */
  function StaffKey(r: StaffRow): (k: seq<Cell>)
    ensures |k| == 1
  {
    DisplayKey(ValidationRowOf(r))
  }

  /** The staff table after the display name is built, sorted by it and filtered by role. */
  function MgmtStaff(accounts: seq<Account>, staff: seq<StaffRec>): (r: seq<StaffRow>)
    ensures Sorted(r, StaffKey)
  {
    var sorted := SortBy(StaffTable(accounts, staff), StaffKey, 1);
    FilterSorted(sorted, MgmtRole, StaffKey);
    Filter(sorted, MgmtRole)
  }

  predicate AtSchool(r: StaffRow, school: string)
  {
    r.school == Some(school)
  }

  /** What the ACM Validation sheet of one school gets: `Individual__c`, the
      display name and `Staff__c_Name` of that school's staff, by display name. */
  function SchoolAcmRows(accounts: seq<Account>, staff: seq<StaffRec>, school: string): (r: seq<ValidationRow>)
    ensures Sorted(r, DisplayKey)
  {
    var atSchool := Filter(MgmtStaff(accounts, staff), (x: StaffRow) => AtSchool(x, school));
    FilterSorted(MgmtStaff(accounts, staff), (x: StaffRow) => AtSchool(x, school), StaffKey);
    MapSorted(atSchool, ValidationRowOf, DisplayKey);
    Map(atSchool, ValidationRowOf)
  }

  /** A row is listed for a school exactly when it is a staff member there whose
      role names a Corps Member or a Team Leader. */
  lemma SchoolAcmRowsMembers(accounts: seq<Account>, staff: seq<StaffRec>, school: string, v: ValidationRow)
    ensures v in SchoolAcmRows(accounts, staff, school) <==>
      exists r :: r in StaffTable(accounts, staff) && MgmtRole(r) && r.school == Some(school) && v == ValidationRowOf(r)
  {
    var rows := StaffTable(accounts, staff);
    var sorted := SortBy(rows, StaffKey, 1);
    var kept := Filter(sorted, MgmtRole);
    var at := (x: StaffRow) => AtSchool(x, school);
    var atSchool := Filter(kept, at);
    if v in SchoolAcmRows(accounts, staff, school) {
      var k := MapSource(atSchool, ValidationRowOf, v);
      FilterIn(kept, at, atSchool[k]);
      FilterIn(sorted, MgmtRole, atSchool[k]);
      SameMembers(sorted, rows, atSchool[k]);
    }
    if exists r :: r in rows && MgmtRole(r) && r.school == Some(school) && v == ValidationRowOf(r) {
      var r :| r in rows && MgmtRole(r) && r.school == Some(school) && v == ValidationRowOf(r);
      SameMembers(sorted, rows, r);
      FilterIn(sorted, MgmtRole, r);
      FilterIn(kept, at, r);
      MapHas(atSchool, ValidationRowOf, FirstIndex(atSchool, r));
    }
  }

  /** A row of `get_student_section_staff_df` with the columns the Student
      Validation sheet uses. */
  datatype AttRow = AttRow(studentName: Option<string>, student: Option<string>, school: Option<string>)

  /** `Student_Name__c` and `Student__c`, as written to the sheet. */
  datatype StudentEntry = StudentEntry(studentName: Option<string>, student: Option<string>)


  function EntryKey(e: StudentEntry): (k: seq<Cell>)
    ensures |k| == 1
  {
    [OptText(e.studentName)]
  }

  function EntryOf(a: AttRow): StudentEntry
  {
    StudentEntry(a.studentName, a.student)
  }

  function AttKey(a: AttRow): (k: seq<Cell>)
    ensures |k| == 1
  {
    EntryKey(EntryOf(a))
  }

  predicate AttAtSchool(a: AttRow, school: string)
  {
    a.school == Some(school)
  }

  /** The Student Validation rows of one school, by student name. */
  function SchoolStudentRows(att: seq<AttRow>, school: string): (r: seq<StudentEntry>)
    ensures Sorted(r, EntryKey)
  {
    var sorted := SortBy(att, AttKey, 1);
    var atSchool := Filter(sorted, (a: AttRow) => AttAtSchool(a, school));
    FilterSorted(sorted, (a: AttRow) => AttAtSchool(a, school), AttKey);
    MapSorted(atSchool, EntryOf, EntryKey);
    Map(atSchool, EntryOf)
  }

  lemma SchoolStudentRowsMembers(att: seq<AttRow>, school: string, e: StudentEntry)
    ensures e in SchoolStudentRows(att, school) <==> exists a :: a in att && a.school == Some(school) && e == EntryOf(a)
  {
    var sorted := SortBy(att, AttKey, 1);
    var at := (a: AttRow) => AttAtSchool(a, school);
    var atSchool := Filter(sorted, at);
    if e in SchoolStudentRows(att, school) {
      var k := MapSource(atSchool, EntryOf, e);
      FilterIn(sorted, at, atSchool[k]);
      SameMembers(sorted, att, atSchool[k]);
    }
    if exists a :: a in att && a.school == Some(school) && e == EntryOf(a) {
      var a :| a in att && a.school == Some(school) && e == EntryOf(a);
      SameMembers(sorted, att, a);
      FilterIn(sorted, at, a);
      MapHas(atSchool, EntryOf, FirstIndex(atSchool, a));
    }
  }

  /** What one school's tracker ends up with: the written ACM rows, the written
      student rows when the sheet is updated, and whether the file is saved. */
  datatype TrackerUpdate = TrackerUpdate(acm: seq<ValidationRow>, students: Option<seq<StudentEntry>>, saved: bool)

  /** The body of the school loop on an opened workbook: ACM Validation must
      exist; the Student Validation sheet is written and the file saved only for
      an attendance resource whose workbook has that sheet. Otherwise the
      rewritten ACM Validation sheet is discarded when the books are closed. */
  function UpdateOneTracker(sheets: seq<string>, resourceType: string, accounts: seq<Account>, staff: seq<StaffRec>,
                            att: seq<AttRow>, school: string): (r: Result<TrackerUpdate>)
    ensures r.Err? <==> AcmValidation !in sheets
    ensures r.Err? ==> r.exc == KeyError(AcmValidation)
    ensures r.Ok? ==> (r.value.saved <==> "Student Validation" in sheets && Contains(resourceType, "Attendance"))
    ensures r.Ok? ==> (r.value.students.Some? <==> r.value.saved)
    ensures r.Ok? ==> Sorted(r.value.acm, DisplayKey) && (r.value.students.Some? ==> Sorted(r.value.students.value, EntryKey))
  {
    if AcmValidation !in sheets then Err(KeyError(AcmValidation))
    else
      var acm := SchoolAcmRows(accounts, staff, school);
      if "Student Validation" in sheets && Contains(resourceType, "Attendance") then
        Ok(TrackerUpdate(acm, Some(SchoolStudentRows(att, school)), true))
      else Ok(TrackerUpdate(acm, None, false))
  }

}
