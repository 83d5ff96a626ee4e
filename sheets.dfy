/** Workbooks as the tracker code sees them: an ordered list of sheet names,
    and a sheet's contents as the sequence of range writes made to it. The
    ACM Rollup layout, written by both the tracker classes and the tracker
    management script, is defined here once. */
module Sheets {
  import opened Base
  import opened Strings
  import opened Seqs

  /** The last row of a worksheet; a whole-column range such as `A:N` spans rows 1 to this. */
  const MaxRow: nat := 1048576

  /** A rectangle of cells: columns numbered from 0 (column A), rows from 1. */
  datatype Area = Area(col1: nat, col2: nat, row1: nat, row2: nat)

  /** `range(...).value = v` with a single value (every cell of the area gets `v`);
      `clear_contents()` is a write of the empty value. */
  datatype Write = Write(area: Area, value: string)

  predicate Covers(a: Area, col: nat, row: nat)
  {
    a.col1 <= col <= a.col2 && a.row1 <= row <= a.row2
  }

  /** What a cell holds after a sequence of writes: the value of the last write
      that covers it, nothing when no write does. */
  function FinalValue(ws: seq<Write>, col: nat, row: nat): (r: Option<string>)
    ensures r.Some? ==> exists k :: 0 <= k < |ws| && Covers(ws[k].area, col, row) && r.value == ws[k].value
  {
    if |ws| == 0 then None
    else if Covers(ws[|ws| - 1].area, col, row) then Some(ws[|ws| - 1].value)
    else FinalValue(ws[..|ws| - 1], col, row)
  }

  /** A cell holds a value exactly when some write covers it, and then it is
      the value of the last such write. */
  lemma {:induction false} FinalValueLast(ws: seq<Write>, col: nat, row: nat)
    ensures FinalValue(ws, col, row).Some? <==> exists k :: 0 <= k < |ws| && Covers(ws[k].area, col, row)
    ensures FinalValue(ws, col, row).Some? ==>
      exists k :: (0 <= k < |ws| && Covers(ws[k].area, col, row) && FinalValue(ws, col, row).value == ws[k].value &&
        forall m :: k < m < |ws| ==> !Covers(ws[m].area, col, row))
  {
    if |ws| > 0 && !Covers(ws[|ws| - 1].area, col, row) {
      var init := ws[..|ws| - 1];
      FinalValueLast(init, col, row);
      assert forall k :: 0 <= k < |init| ==> init[k] == ws[k];
      if FinalValue(init, col, row).Some? {
        var k :| 0 <= k < |init| && Covers(init[k].area, col, row) && FinalValue(init, col, row).value == init[k].value &&
          forall m :: k < m < |init| ==> !Covers(init[m].area, col, row);
        assert forall m :: k < m < |ws| ==> !Covers(ws[m].area, col, row);
      }
    }
  }

  /** Writes that do not cover a cell leave its value alone. */
  lemma {:induction false} FinalValueUntouched(a: seq<Write>, b: seq<Write>, col: nat, row: nat)
    requires forall k :: 0 <= k < |b| ==> !Covers(b[k].area, col, row)
    ensures FinalValue(a + b, col, row) == FinalValue(a, col, row)
    decreases |b|
  {
    if |b| > 0 {
      assert (a + b)[..|a + b| - 1] == a + b[..|b| - 1];
      assert (a + b)[|a + b| - 1] == b[|b| - 1];
      assert !Covers((a + b)[|a + b| - 1].area, col, row);
      FinalValueUntouched(a, b[..|b| - 1], col, row);
      assert FinalValue(a + b, col, row) == FinalValue(a + b[..|b| - 1], col, row);
    } else {
      assert a + b == a;
    }
  }

  /** Later writes that leave a cell alone show the earlier value; otherwise
      they decide it. */
  lemma {:induction false} FinalValueConcat(a: seq<Write>, b: seq<Write>, col: nat, row: nat)
    ensures FinalValue(a + b, col, row) == if FinalValue(b, col, row).Some? then FinalValue(b, col, row) else FinalValue(a, col, row)
    decreases |b|
  {
    if |b| == 0 {
      assert a + b == a;
    } else {
      assert (a + b)[..|a + b| - 1] == a + b[..|b| - 1];
      assert (a + b)[|a + b| - 1] == b[|b| - 1];
      FinalValueConcat(a, b[..|b| - 1], col, row);
    }
  }

  /** A cell holds the value of the last write that covers it. */
  lemma FinalValueAt(ws: seq<Write>, k: nat, col: nat, row: nat)
    requires k < |ws| && Covers(ws[k].area, col, row)
    requires forall j :: k < j < |ws| ==> !Covers(ws[j].area, col, row)
    ensures FinalValue(ws, col, row) == Some(ws[k].value)
  {
    var b := ws[k + 1..];
    assert ws == ws[..k + 1] + b;
    assert forall j :: 0 <= j < |b| ==> b[j] == ws[k + 1 + j];
    FinalValueUntouched(ws[..k + 1], b, col, row);
  }

  // ---------------------------------------------------------------- the ACM Rollup sheet

  const ColA: nat := 0
  const ColB: nat := 1
  const ColC: nat := 2
  const ColL: nat := 11
  const ColN: nat := 13

  /** The twelve headers of row 1. */
  const RollupHeader: seq<string> := [
    "Individual__c", "ACM", "Date", "Role", "Coaching Cycle", "Subject", "Focus",
    "Strategy/Skill", "Notes", "Action Steps", "Completed?", "Followed Up"]

  /** The lookup written down column A. */
  const IndexFormula: string := "=INDEX('ACM Validation'!$A:$A, MATCH($B2, 'ACM Validation'!$C:$C, 0))"

  /** `sheet_name.replace("'", "''")`. */
  function Doubled(name: string): string
  {
    Escape(name, '\'', '\'')
  }

  /** A sheet's A1 cell, referenced from the rollup. */
  function NameRef(name: string): string
  {
    "='" + Doubled(name) + "'!$A$1"
  }

  /** A sheet's A3 cell, referenced from the rollup (Excel shifts it across the block). */
  function EntryRef(name: string): string
  {
    "='" + Doubled(name) + "'!A3"
  }

  /** A doubled quote is read back as one: the sheet name is recovered from the reference. */
  lemma DoubledRoundTrip(name: string)
    ensures Unescape(Doubled(name), '\'', '\'') == name
    ensures NameRef(name) == "='" + Doubled(name) + "'!$A$1"
  {
    UnescapeEscape(name, '\'', '\'');
  }

  /** The first row of the block of the `i`-th ACM sheet. */
  function BlockStart(i: nat): nat
  {
    2 + 300 * i
  }

  /** The two writes of block `i` (the B column, then C:L), each of rows
      start..start+300. `half` = 0 for B, 1 for C:L. */
  function BlockWrite(name: string, i: nat, half: nat): Write
  {
    if half == 0 then Write(Area(ColB, ColB, BlockStart(i), BlockStart(i) + 300), NameRef(name))
    else Write(Area(ColC, ColL, BlockStart(i), BlockStart(i) + 300), EntryRef(name))
  }

  /** The block writes for a list of ACM sheets, in list order. */
  function Blocks(acm: seq<string>): (r: seq<Write>)
    ensures |r| == 2 * |acm|
  {
    seq(2 * |acm|, k requires 0 <= k < 2 * |acm| => BlockWrite(acm[k / 2], k / 2, k % 2))
  }

  lemma BlocksSnoc(acm: seq<string>, i: nat)
    requires i < |acm|
    ensures Blocks(acm[..i + 1]) == Blocks(acm[..i]) + [BlockWrite(acm[i], i, 0), BlockWrite(acm[i], i, 1)]
  {
    var l := Blocks(acm[..i]) + [BlockWrite(acm[i], i, 0), BlockWrite(acm[i], i, 1)];
    forall k | 0 <= k < 2 * (i + 1)
      ensures Blocks(acm[..i + 1])[k] == l[k]
    {
    }
  }

  predicate NotSkipped(name: string, skip: seq<string>)
  {
    name !in skip
  }

  /** `[x.name for x in wb.sheets if x.name not in skip]`. */
  function AcmSheets(sheets: seq<string>, skip: seq<string>): seq<string>
  {
    Filter(sheets, (n: string) => NotSkipped(n, skip))
  }

  /** The writes before the blocks: clear A:N, the header row, the lookup down
      column A to row `lastA`. */
  function RollupPrefix(lastA: nat): (r: seq<Write>)
    ensures |r| == 14
  {
    [Write(Area(ColA, ColN, 1, MaxRow), "")] +
    seq(12, j requires 0 <= j < 12 => Write(Area(j, j, 1, 1), RollupHeader[j])) +
    [Write(Area(ColA, ColA, 2, lastA), IndexFormula)]
  }

  /** Every write the rollup fill makes, in order. */
  function RollupWrites(sheets: seq<string>, skip: seq<string>, lastA: nat): seq<Write>
  {
    RollupPrefix(lastA) + Blocks(AcmSheets(sheets, skip))
  }

  /** Block `i` owns its rows up to (not including) the first row of the next
      block, which the next block overwrites; the last block also keeps its 301st
      row. In the B column such a cell refers to the sheet's A1, in C:L to its A3. */
  lemma RollupBlockCell(sheets: seq<string>, skip: seq<string>, lastA: nat, i: nat, col: nat, row: nat)
    requires i < |AcmSheets(sheets, skip)|
    requires ColB <= col <= ColL
    requires BlockStart(i) <= row < BlockStart(i + 1) || (i == |AcmSheets(sheets, skip)| - 1 && row == BlockStart(i + 1))
    ensures var name := AcmSheets(sheets, skip)[i];
      FinalValue(RollupWrites(sheets, skip, lastA), col, row) == Some(if col == ColB then NameRef(name) else EntryRef(name))
  {
    var acm := AcmSheets(sheets, skip);
    var ws := RollupWrites(sheets, skip, lastA);
    var k := 14 + 2 * i + (if col == ColB then 0 else 1);
    assert ws[k] == BlockWrite(acm[i], i, k - 14 - 2 * i);
    forall j | k < j < |ws|
      ensures !Covers(ws[j].area, col, row)
    {
      var q, h := BlockOf(acm, lastA, ws, j);
      assert q > i || (q == i && h == 1 && col == ColB);
    }
    FinalValueAt(ws, k, col, row);
  }

  /** Write `j` of the rollup after the fourteen fixed writes is half `h` of block `q`. */
  lemma BlockOf(acm: seq<string>, lastA: nat, ws: seq<Write>, j: nat) returns (q: nat, h: nat)
    requires ws == RollupPrefix(lastA) + Blocks(acm) && 14 <= j < |ws|
    ensures j == 14 + 2 * q + h && h < 2 && q < |acm|
    ensures ws[j] == BlockWrite(acm[q], q, h)
  {
    q, h := (j - 14) / 2, (j - 14) % 2;
    assert ws[j] == Blocks(acm)[j - 14];
  }

  /** Consecutive blocks share a row: block `i` is written through the first row
      of block `i + 1`. */
  lemma BlocksOverlap(acm: seq<string>, i: nat)
    requires i + 1 < |acm|
    ensures Covers(Blocks(acm)[2 * i].area, ColB, BlockStart(i + 1))
    ensures Covers(Blocks(acm)[2 * i + 2].area, ColB, BlockStart(i + 1))
    ensures Blocks(acm)[2 * i].value == NameRef(acm[i]) && Blocks(acm)[2 * i + 2].value == NameRef(acm[i + 1])
  {
    assert (2 * i + 2) / 2 == i + 1;
  }

  /** Column A holds the lookup from row 2 to `lastA`, and row 1 the header. */
  lemma RollupFixedCells(sheets: seq<string>, skip: seq<string>, lastA: nat, col: nat, row: nat)
    ensures 2 <= row <= lastA && col == ColA ==>
      FinalValue(RollupWrites(sheets, skip, lastA), col, row) == Some(IndexFormula)
    ensures row == 1 && col < 12 ==>
      FinalValue(RollupWrites(sheets, skip, lastA), col, row) == Some(RollupHeader[col])
  {
    var ws := RollupWrites(sheets, skip, lastA);
    var acm := AcmSheets(sheets, skip);
    forall j | 14 <= j < |ws|
      ensures !Covers(ws[j].area, col, row) || (col != ColA && row != 1)
    {
      var q, h := BlockOf(acm, lastA, ws, j);
    }
    if 2 <= row <= lastA && col == ColA {
      FinalValueAt(ws, 13, col, row);
    }
    if row == 1 && col < 12 {
      FinalValueAt(ws, 1 + col, col, row);
    }
  }

  /** A sheet appears among the rollup's ACM sheets exactly when it is not
      skipped, in workbook order. */
  lemma AcmSheetsMembers(sheets: seq<string>, skip: seq<string>, name: string)
    ensures name in AcmSheets(sheets, skip) <==> name in sheets && name !in skip
  {
    FilterIn(sheets, (n: string) => NotSkipped(n, skip), name);
  }

  /** The rollup fill, shared by the coaching-log class and the management
      script: clear, header, lookup column, then one block per ACM sheet with the
      row counter advancing by 300. */
  method FillRollup(acm: seq<string>, lastA: nat) returns (ws: seq<Write>)
    ensures ws == RollupPrefix(lastA) + Blocks(acm)
  {
    ws := RollupPrefix(lastA);
    var row := 2;
    var i := 0;
    while i < |acm|
      invariant 0 <= i <= |acm|
      invariant row == BlockStart(i)
      invariant ws == RollupPrefix(lastA) + Blocks(acm[..i])
    {
      var name := Doubled(acm[i]);
      var b := Write(Area(ColB, ColB, row, row + 300), "='" + name + "'!$A$1");
      var cl := Write(Area(ColC, ColL, row, row + 300), "='" + name + "'!A3");
      assert b == BlockWrite(acm[i], i, 0) && cl == BlockWrite(acm[i], i, 1);
      BlocksSnoc(acm, i);
      assert ws + [b] + [cl] == RollupPrefix(lastA) + (Blocks(acm[..i]) + [b, cl]);
      ws := ws + [b];
      ws := ws + [cl];
      row := row + 300;
      i := i + 1;
    }
    assert acm[..|acm|] == acm;
  }

  // ---------------------------------------------------------------- workbooks

  /** Excel compares sheet names without regard to case: no two sheets of a
      workbook have names equal after lower-casing. */
  predicate CaselessDistinct(names: seq<string>)
  {
    forall a, b :: 0 <= a < b < |names| ==> Lower(names[a]) != Lower(names[b])
  }

  /** Some sheet other than the one at `k` already has `name`, ignoring case. */
  predicate NameTaken(sheets: seq<string>, k: nat, name: string)
    requires k < |sheets|
  {
    Lower(name) in Map(sheets[..k] + sheets[k + 1..], Lower)
  }

  /** A sheet's A1 value goes with the sheet when it is renamed. */
  function MoveA1(a1: map<string, string>, oldName: string, newName: string): map<string, string>
  {
    if oldName in a1 then (a1 - {oldName})[newName := a1[oldName]] else a1 - {newName}
  }

  /** The sheet names, A1 values and the exception raised so far. */
  datatype BookState = BookState(sheets: seq<string>, a1: map<string, string>, err: Option<Exc>)

  /** `wb.sheets[oldName].name = newName`, once nothing has been raised: the
      lookup raises KeyError for a missing sheet, and Excel refuses a name another
      sheet has. An earlier exception stops everything, and a refused rename
      changes nothing; what one that goes through changes is stated by
      RenameStepEffect. */
  function RenameStep(st: BookState, oldName: string, newName: string): (r: BookState)
    ensures st.err.Some? ==> r == st
    ensures st.err.None? ==>
      (r.err.None? <==> oldName in st.sheets && !NameTaken(st.sheets, FirstIndex(st.sheets, oldName), newName))
    ensures r.err.Some? ==> r.sheets == st.sheets && r.a1 == st.a1
    ensures |r.sheets| == |st.sheets|
  {
    if st.err.Some? then st
    else if oldName !in st.sheets then st.(err := Some(KeyError(oldName)))
    else
      var k := FirstIndex(st.sheets, oldName);
      if NameTaken(st.sheets, k, newName) then st.(err := Some(ComError))
      else BookState(st.sheets[k := newName], MoveA1(st.a1, oldName, newName), None)
  }

  /** A rename that goes through changes exactly one sheet's name, in place,
      and carries its A1 value; every other sheet and A1 value is kept. */
  lemma RenameStepEffect(st: BookState, oldName: string, newName: string)
    requires st.err.None? && RenameStep(st, oldName, newName).err.None?
    ensures var r := RenameStep(st, oldName, newName);
      r.sheets[FirstIndex(st.sheets, oldName)] == newName &&
      (forall m :: 0 <= m < |st.sheets| && m != FirstIndex(st.sheets, oldName) ==> r.sheets[m] == st.sheets[m]) &&
      (oldName in st.a1 ==> newName in r.a1 && r.a1[newName] == st.a1[oldName]) &&
      (forall n :: n != oldName && n != newName ==> (n in r.a1 <==> n in st.a1) && (n in r.a1 ==> r.a1[n] == st.a1[n]))
  {
  }

  /** A rename whose old name first occurs at `k`, to a name no other sheet has
      (ignoring case), goes through at `k`. */
  lemma RenameAt(st: BookState, k: nat, oldName: string, newName: string)
    requires st.err.None? && k < |st.sheets| && st.sheets[k] == oldName
    requires forall m :: 0 <= m < k ==> st.sheets[m] != oldName
    requires forall m :: 0 <= m < |st.sheets| && m != k ==> Lower(st.sheets[m]) != Lower(newName)
    ensures RenameStep(st, oldName, newName) == BookState(st.sheets[k := newName], MoveA1(st.a1, oldName, newName), None)
  {
    assert oldName !in st.sheets[..k];
    FirstIndexAt(st.sheets, oldName, k);
    var others := st.sheets[..k] + st.sheets[k + 1..];
    if Lower(newName) in Map(others, Lower) {
      var m := MapSource(others, Lower, Lower(newName));
      assert false;
    }
  }

  /** Renaming keeps the names of a workbook distinct, ignoring case. */
  lemma {:induction false} RenameKeepsDistinct(st: BookState, oldName: string, newName: string)
    requires CaselessDistinct(st.sheets)
    ensures CaselessDistinct(RenameStep(st, oldName, newName).sheets)
  {
    var r := RenameStep(st, oldName, newName);
    if st.err.None? && oldName in st.sheets && r.err.None? {
      var k := FirstIndex(st.sheets, oldName);
      var others := st.sheets[..k] + st.sheets[k + 1..];
      forall a, b | 0 <= a < b < |r.sheets|
        ensures Lower(r.sheets[a]) != Lower(r.sheets[b])
      {
        if a == k {
          var m := if b < k then b else b - 1;
          assert others[m] == st.sheets[b];
          MapHas(others, Lower, m);
        } else if b == k {
          var m := if a < k then a else a - 1;
          assert others[m] == st.sheets[a];
          MapHas(others, Lower, m);
        }
      }
    }
  }

  /** An open workbook: its sheet names in tab order, and the A1 value the code
      wrote into a sheet. */
  class Workbook {
    var sheets: seq<string>
    var a1: map<string, string>

    constructor (names: seq<string>)
      ensures sheets == names && a1 == map[]
    {
      sheets := names;
      a1 := map[];
    }

    /** `wb.sheets[oldName].name = newName`. */
    method Rename(oldName: string, newName: string) returns (err: Option<Exc>)
      modifies this
      ensures BookState(sheets, a1, err) == RenameStep(BookState(old(sheets), old(a1), None), oldName, newName)
    {
      if oldName !in sheets {
        return Some(KeyError(oldName));
      }
      var k := FirstIndex(sheets, oldName);
      if Lower(newName) in Map(sheets[..k] + sheets[k + 1..], Lower) {
        return Some(ComError);
      }
      sheets := sheets[k := newName];
      a1 := MoveA1(a1, oldName, newName);
      err := None;
    }
  }
}
