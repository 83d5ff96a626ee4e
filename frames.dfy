/** A table with named columns, for the steps that work by column name rather
    than on a fixed record: projection `df[cols]`, `rename(columns=...)` and
    column assignment `df[c] = ...`. */
module Frames {
  import opened Base
  import opened Seqs

  /** One cell as the CRM or a spreadsheet delivers it. */
  datatype Value = Str(s: string) | Int(n: int) | Bool(b: bool) | Null

  datatype Frame = Frame(cols: seq<string>, rows: seq<seq<Value>>)

  /** Every row has one cell per column. */
  predicate WellFormed(f: Frame)
  {
    forall i :: 0 <= i < |f.rows| ==> |f.rows[i]| == |f.cols|
  }

  /** The position of the first column named `c`. */
  function ColIndex(cols: seq<string>, c: string): (k: Option<nat>)
    ensures k.Some? <==> c in cols
    ensures k.Some? ==> k.value < |cols| && cols[k.value] == c && c !in cols[..k.value]
  {
    if c in cols then Some(FirstIndex(cols, c)) else None
  }

  /** `df[c]`: the column's cells, or KeyError. */
  function Column(f: Frame, c: string): (r: Result<seq<Value>>)
    requires WellFormed(f)
    ensures r.Err? <==> c !in f.cols
    ensures r.Err? ==> r.exc == KeyError(c)
    ensures r.Ok? ==>
      |r.value| == |f.rows| &&
      forall i :: 0 <= i < |f.rows| ==> r.value[i] == f.rows[i][ColIndex(f.cols, c).value]
  {
    match ColIndex(f.cols, c)
    case None => Err(KeyError(c))
    case Some(k) => Ok(seq(|f.rows|, i requires 0 <= i < |f.rows| => f.rows[i][k]))
  }

  /** The first of `cs` that is not a column. */
  function FirstMissing(cols: seq<string>, cs: seq<string>): (m: Option<string>)
    ensures m.None? <==> forall j :: 0 <= j < |cs| ==> cs[j] in cols
    ensures m.Some? ==> m.value in cs && m.value !in cols
  {
    if |cs| == 0 then None
    else if cs[0] !in cols then Some(cs[0])
    else
      var m := FirstMissing(cols, cs[1..]);
      assert forall j :: 1 <= j < |cs| ==> cs[j] == cs[1..][j - 1];
      m
  }

  /** `df[cs]`: exactly the columns `cs`, in that order, or KeyError on the first missing one. */
  function Select(f: Frame, cs: seq<string>): (r: Result<Frame>)
    requires WellFormed(f)
    ensures r.Ok? <==> forall j :: 0 <= j < |cs| ==> cs[j] in f.cols
    ensures r.Ok? ==>
      WellFormed(r.value) && r.value.cols == cs && |r.value.rows| == |f.rows| &&
      forall i, j :: 0 <= i < |f.rows| && 0 <= j < |cs| ==>
        r.value.rows[i][j] == f.rows[i][ColIndex(f.cols, cs[j]).value]
    ensures r.Err? ==> r.exc.KeyError? && r.exc.key in cs && r.exc.key !in f.cols
  {
    match FirstMissing(f.cols, cs)
    case Some(c) => Err(KeyError(c))
    case None =>
      Ok(Frame(cs, seq(|f.rows|, i requires 0 <= i < |f.rows| =>
        seq(|cs|, j requires 0 <= j < |cs| => f.rows[i][ColIndex(f.cols, cs[j]).value]))))
  }

  /** `rename(columns=m)`: every column named by a key of `m` takes its value. */
  function Rename(f: Frame, m: map<string, string>): (r: Frame)
    ensures |r.cols| == |f.cols| && r.rows == f.rows
    ensures forall j :: 0 <= j < |f.cols| ==> r.cols[j] == if f.cols[j] in m then m[f.cols[j]] else f.cols[j]
  {
    Frame(seq(|f.cols|, j requires 0 <= j < |f.cols| => if f.cols[j] in m then m[f.cols[j]] else f.cols[j]), f.rows)
  }

  /** `df[c] = v`: overwrites the first column named `c`, or appends a new last column. */
  function SetColumn(f: Frame, c: string, v: seq<Value>): (r: Frame)
    requires WellFormed(f) && |v| == |f.rows|
    ensures WellFormed(r) && |r.rows| == |f.rows|
    ensures c in r.cols
    ensures c in f.cols ==> r.cols == f.cols
    ensures c !in f.cols ==> r.cols == f.cols + [c]
    ensures forall i :: 0 <= i < |f.rows| ==> r.rows[i][ColIndex(r.cols, c).value] == v[i]
    ensures forall i, j :: 0 <= i < |f.rows| && 0 <= j < |f.cols| && f.cols[j] != c ==> r.rows[i][j] == f.rows[i][j]
  {
    match ColIndex(f.cols, c)
    case Some(k) =>
      Frame(f.cols, seq(|f.rows|, i requires 0 <= i < |f.rows| => f.rows[i][k := v[i]]))
    case None =>
      var r := Frame(f.cols + [c], seq(|f.rows|, i requires 0 <= i < |f.rows| => f.rows[i] + [v[i]]));
      assert ColIndex(r.cols, c) == Some(|f.cols|) by {
        assert r.cols[..|f.cols|] == f.cols;
      }
      r
  }

  /** `df[c] = x`: the same value in every row. */
  function SetConst(f: Frame, c: string, x: Value): (r: Frame)
    requires WellFormed(f)
    ensures WellFormed(r) && |r.rows| == |f.rows| && c in r.cols
    ensures c in f.cols ==> r.cols == f.cols
    ensures c !in f.cols ==> r.cols == f.cols + [c]
    ensures forall i :: 0 <= i < |f.rows| ==> Cell(r, i, c) == x
    ensures forall i, j :: 0 <= i < |f.rows| && 0 <= j < |f.cols| && f.cols[j] != c ==> r.rows[i][j] == f.rows[i][j]
    ensures forall i, c' :: 0 <= i < |f.rows| && c' in f.cols && c' != c ==> c' in r.cols && Cell(r, i, c') == Cell(f, i, c')
  {
    var v := seq(|f.rows|, _ => x);
    forall i, c' | 0 <= i < |f.rows| && c' in f.cols && c' != c
      ensures c' in SetColumn(f, c, v).cols && Cell(SetColumn(f, c, v), i, c') == Cell(f, i, c')
    {
      SetColumnKeeps(f, c, v, c', i);
    }
    SetColumn(f, c, v)
  }

  /** Appending a column leaves the position of every existing name alone. */
  lemma ColIndexAppend(cols: seq<string>, c: string, x: string)
    requires x in cols
    ensures ColIndex(cols + [c], x) == ColIndex(cols, x)
  {
    var k := ColIndex(cols, x).value;
    assert (cols + [c])[..k] == cols[..k];
    FirstIndexAt(cols + [c], x, k);
  }

  /** A name among the first columns sits where it sits in that prefix. */
  lemma ColIndexPrefix(cols: seq<string>, pre: seq<string>, x: string)
    requires |pre| <= |cols| && cols[..|pre|] == pre && x in pre
    ensures ColIndex(cols, x) == ColIndex(pre, x)
  {
    var k := ColIndex(pre, x).value;
    assert cols[..k] == pre[..k];
    FirstIndexAt(cols, x, k);
  }

  /** A projection shows each selected column's cells unchanged. */
  lemma SelectCell(f: Frame, cs: seq<string>, c: string, i: nat)
    requires WellFormed(f) && Select(f, cs).Ok? && c in cs && i < |f.rows|
    ensures c in f.cols && Cell(Select(f, cs).value, i, c) == Cell(f, i, c)
  {
    var k := ColIndex(cs, c).value;
    assert cs[k] == c;
  }

  /** A column other than the one written keeps its cells. */
  lemma SetColumnKeeps(f: Frame, c: string, v: seq<Value>, c': string, i: nat)
    requires WellFormed(f) && |v| == |f.rows| && c' in f.cols && c' != c && i < |f.rows|
    ensures c' in SetColumn(f, c, v).cols && Cell(SetColumn(f, c, v), i, c') == Cell(f, i, c')
  {
    if c !in f.cols {
      ColIndexAppend(f.cols, c, c');
    }
  }

  /** Renaming a column that is not there changes nothing. */
  lemma RenameAbsent(f: Frame, m: map<string, string>)
    requires forall k :: k in m ==> k !in f.cols
    ensures Rename(f, m) == f
  {
  }

  /** Renaming `a` to `b` touches only columns named `a`. */
  lemma RenameOne(f: Frame, a: string, b: string, j: nat)
    requires j < |f.cols|
    ensures Rename(f, map[a := b]).cols[j] == (if f.cols[j] == a then b else f.cols[j])
  {
  }
  /** The cell of row `i` in the first column named `c`. */
  function Cell(f: Frame, i: nat, c: string): Value
    requires WellFormed(f) && i < |f.rows| && c in f.cols
  {
    f.rows[i][ColIndex(f.cols, c).value]
  }

  /** `df.loc[mask, c] = x` on an existing column: the masked rows get `x`, the others keep their cell. */
  function SetWhere(f: Frame, c: string, x: Value, mask: seq<bool>): (r: Frame)
    requires WellFormed(f) && c in f.cols && |mask| == |f.rows|
    ensures WellFormed(r) && r.cols == f.cols && |r.rows| == |f.rows|
    ensures forall i :: 0 <= i < |f.rows| ==> Cell(r, i, c) == if mask[i] then x else Cell(f, i, c)
    ensures forall i, j :: 0 <= i < |f.rows| && 0 <= j < |f.cols| && f.cols[j] != c ==> r.rows[i][j] == f.rows[i][j]
    ensures forall i, c' :: 0 <= i < |f.rows| && c' in f.cols && c' != c ==> Cell(r, i, c') == Cell(f, i, c')
  {
    SetColumn(f, c, seq(|f.rows|, i requires 0 <= i < |f.rows| => if mask[i] then x else Cell(f, i, c)))
  }

  /** `df[c] = df[c].map(g)`, or KeyError when there is no column `c`. */
  function MapColumn(f: Frame, c: string, g: Value -> Value): (r: Result<Frame>)
    requires WellFormed(f)
    ensures r.Err? <==> c !in f.cols
    ensures r.Err? ==> r.exc == KeyError(c)
    ensures r.Ok? ==> WellFormed(r.value) && r.value.cols == f.cols && |r.value.rows| == |f.rows|
    ensures r.Ok? ==> forall i :: 0 <= i < |f.rows| ==> Cell(r.value, i, c) == g(Cell(f, i, c))
    ensures r.Ok? ==> forall i, j :: 0 <= i < |f.rows| && 0 <= j < |f.cols| && f.cols[j] != c ==> r.value.rows[i][j] == f.rows[i][j]
    ensures r.Ok? ==> forall i, c' :: 0 <= i < |f.rows| && c' in f.cols && c' != c ==> Cell(r.value, i, c') == Cell(f, i, c')
  {
    match Column(f, c)
    case Err(e) => Err(e)
    case Ok(v) => Ok(SetColumn(f, c, Map(v, g)))
  }

  /** The rows whose cell at position `k` satisfies `p`, in order. */
  function RowsWhere(rows: seq<seq<Value>>, k: nat, p: Value -> bool): (r: seq<seq<Value>>)
    requires forall i :: 0 <= i < |rows| ==> k < |rows[i]|
    ensures forall i :: 0 <= i < |r| ==> k < |r[i]| && p(r[i][k])
    ensures forall x :: x in r <==> x in rows && p(x[k])
    ensures |r| <= |rows|
  {
    if |rows| == 0 then []
    else
      var u := RowsWhere(rows[..|rows| - 1], k, p);
      assert rows == rows[..|rows| - 1] + [rows[|rows| - 1]];
      if p(rows[|rows| - 1][k]) then u + [rows[|rows| - 1]] else u
  }

  /** `df.loc[p(df[c])]`: the rows whose `c` cell satisfies `p`, or KeyError. */
  function KeepWhere(f: Frame, c: string, p: Value -> bool): (r: Result<Frame>)
    requires WellFormed(f)
    ensures r.Err? <==> c !in f.cols
    ensures r.Err? ==> r.exc == KeyError(c)
    ensures r.Ok? ==> WellFormed(r.value) && r.value.cols == f.cols
    ensures r.Ok? ==> forall x :: x in r.value.rows <==> x in f.rows && p(x[ColIndex(f.cols, c).value])
  {
    match ColIndex(f.cols, c)
    case None => Err(KeyError(c))
    case Some(k) => Ok(Frame(f.cols, RowsWhere(f.rows, k, p)))
  }

  /** The cells at position `k` of every row. */
  function KeysAt(rows: seq<seq<Value>>, k: nat): (r: seq<Value>)
    requires forall i :: 0 <= i < |rows| ==> k < |rows[i]|
    ensures |r| == |rows|
  {
    seq(|rows|, i requires 0 <= i < |rows| => rows[i][k])
  }

  /** The first row for each value at position `k`, in order. */
  function FirstByKey(rows: seq<seq<Value>>, k: nat): (r: seq<seq<Value>>)
    requires forall i :: 0 <= i < |rows| ==> k < |rows[i]|
    ensures forall x :: x in r ==> x in rows
    ensures forall i :: 0 <= i < |r| ==> k < |r[i]|
  {
    if |rows| == 0 then []
    else
      var u := FirstByKey(rows[..|rows| - 1], k);
      assert rows == rows[..|rows| - 1] + [rows[|rows| - 1]];
      if rows[|rows| - 1][k] in KeysAt(u, k) then u else u + [rows[|rows| - 1]]
  }

  /** The keys kept by `FirstByKey` are the distinct keys, in order of first appearance. */
  lemma {:induction false} FirstByKeyKeys(rows: seq<seq<Value>>, k: nat)
    requires forall i :: 0 <= i < |rows| ==> k < |rows[i]|
    ensures KeysAt(FirstByKey(rows, k), k) == Unique(KeysAt(rows, k))
  {
    if |rows| > 0 {
      var init := rows[..|rows| - 1];
      FirstByKeyKeys(init, k);
      var u := FirstByKey(init, k);
      assert KeysAt(rows, k)[..|rows| - 1] == KeysAt(init, k);
      if rows[|rows| - 1][k] !in KeysAt(u, k) {
        assert KeysAt(u + [rows[|rows| - 1]], k) == KeysAt(u, k) + [rows[|rows| - 1][k]];
      }
    }
  }

  /** `drop_duplicates(c)`: the first row for each value of column `c`, or KeyError. */
  function DedupOn(f: Frame, c: string): (r: Result<Frame>)
    requires WellFormed(f)
    ensures r.Err? <==> c !in f.cols
    ensures r.Err? ==> r.exc == KeyError(c)
    ensures r.Ok? ==> WellFormed(r.value) && r.value.cols == f.cols
  {
    match ColIndex(f.cols, c)
    case None => Err(KeyError(c))
    case Some(k) =>
      var rows := FirstByKey(f.rows, k);
      assert forall i :: 0 <= i < |rows| ==> rows[i] in f.rows;
      Ok(Frame(f.cols, rows))
  }

  /** `drop_duplicates()`: the first of each group of identical rows. */
  function DedupRows(f: Frame): (r: Frame)
    requires WellFormed(f)
    ensures WellFormed(r) && r.cols == f.cols
    ensures Distinct(r.rows) && forall x :: x in r.rows <==> x in f.rows
  {
    var rows := Unique(f.rows);
    assert forall i :: 0 <= i < |rows| ==> rows[i] in f.rows;
    Frame(f.cols, rows)
  }

  predicate NoNull(row: seq<Value>)
  {
    forall j :: 0 <= j < |row| ==> row[j] != Null
  }

  /** `dropna()`: the rows without a missing cell, in order. */
  function DropNa(f: Frame): (r: Frame)
    requires WellFormed(f)
    ensures WellFormed(r) && r.cols == f.cols
    ensures forall x :: x in r.rows <==> x in f.rows && NoNull(x)
  {
    forall x ensures x in Filter(f.rows, NoNull) <==> x in f.rows && NoNull(x) {
      FilterIn(f.rows, NoNull, x);
    }
    Frame(f.cols, Filter(f.rows, NoNull))
  }

}
