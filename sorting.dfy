/** `DataFrame.sort_values(by=[...])`: rows ordered lexicographically by a key
    of cells, ascending, with missing cells (NaN) placed last in every column. */
module Sorting {
  import opened Base
  import opened Seqs

  /** One sortable cell: numbers before text, missing values last. */
  datatype Cell = Num(n: int) | Text(s: string) | Missing

  /** A possibly missing text cell. */
  function OptText(o: Option<string>): Cell
  {
    if o.Some? then Text(o.value) else Missing
  }

  /** A possibly missing numeric cell. */
  function OptNum(o: Option<int>): Cell
  {
    if o.Some? then Num(o.value) else Missing
  }

  /** The sort key of a plain string. */
  function StrKey(s: string): seq<Cell>
  {
    [Text(s)]
  }

  /** String order by character code, a prefix first. */
  predicate StrLe(a: string, b: string)
  {
    |a| == 0 || (|b| > 0 && (a[0] < b[0] || (a[0] == b[0] && StrLe(a[1..], b[1..]))))
  }

  lemma {:induction false} StrLeTotal(a: string, b: string)
    ensures StrLe(a, b) || StrLe(b, a)
  {
    if |a| > 0 && |b| > 0 && a[0] == b[0] {
      StrLeTotal(a[1..], b[1..]);
    }
  }

  lemma {:induction false} StrLeTrans(a: string, b: string, c: string)
    requires StrLe(a, b) && StrLe(b, c)
    ensures StrLe(a, c)
  {
    if |a| > 0 && a[0] == b[0] && b[0] == c[0] {
      StrLeTrans(a[1..], b[1..], c[1..]);
    }
  }

  lemma {:induction false} StrLeAntisym(a: string, b: string)
    requires StrLe(a, b) && StrLe(b, a)
    ensures a == b
  {
    if |a| > 0 {
      StrLeAntisym(a[1..], b[1..]);
      assert a == [a[0]] + a[1..] && b == [b[0]] + b[1..];
    }
  }

  /** Strict order on cells. */
  predicate CellLt(a: Cell, b: Cell)
  {
    match (a, b)
    case (Num(x), Num(y)) => x < y
    case (Num(_), _) => true
    case (Text(x), Text(y)) => StrLe(x, y) && x != y
    case (Text(_), Missing) => true
    case (_, _) => false
  }

  /** Lexicographic order on keys of equal shape. */
  predicate KeyLe(a: seq<Cell>, b: seq<Cell>)
  {
    |a| == 0 || (|b| > 0 && (CellLt(a[0], b[0]) || (a[0] == b[0] && KeyLe(a[1..], b[1..]))))
  }

  lemma CellTrichotomy(a: Cell, b: Cell)
    ensures CellLt(a, b) || a == b || CellLt(b, a)
  {
    match (a, b)
    case (Text(x), Text(y)) =>
      StrLeTotal(x, y);
    case (_, _) =>
  }

  lemma CellLtTrans(a: Cell, b: Cell, c: Cell)
    requires CellLt(a, b) && CellLt(b, c)
    ensures CellLt(a, c)
  {
    match (a, b, c)
    case (Text(x), Text(y), Text(z)) =>
      StrLeTrans(x, y, z);
      if x == z { StrLeAntisym(x, y); }
    case (_, _, _) =>
  }

  lemma {:induction false} KeyLeTotal(a: seq<Cell>, b: seq<Cell>)
    requires |a| == |b|
    ensures KeyLe(a, b) || KeyLe(b, a)
  {
    if |a| > 0 {
      CellTrichotomy(a[0], b[0]);
      if a[0] == b[0] {
        KeyLeTotal(a[1..], b[1..]);
      }
    }
  }

  lemma {:induction false} KeyLeTrans(a: seq<Cell>, b: seq<Cell>, c: seq<Cell>)
    requires KeyLe(a, b) && KeyLe(b, c)
    ensures KeyLe(a, c)
  {
    if |a| > 0 {
      if CellLt(a[0], b[0]) && CellLt(b[0], c[0]) {
        CellLtTrans(a[0], b[0], c[0]);
      } else if a[0] == b[0] && b[0] == c[0] {
        KeyLeTrans(a[1..], b[1..], c[1..]);
      }
    }
  }

  /** Every key has the same number of cells. */
  predicate KeyShape<T>(s: seq<T>, key: T -> seq<Cell>, width: nat)
  {
    forall i :: 0 <= i < |s| ==> |key(s[i])| == width
  }

  /** Each row's key is at most the next row's key. */
  predicate Sorted<T>(s: seq<T>, key: T -> seq<Cell>)
  {
    forall i :: 0 <= i < |s| - 1 ==> KeyLe(key(s[i]), key(s[i + 1]))
  }

  /** Adjacent order gives order between any two rows. */
  lemma {:induction false} SortedPairs<T>(s: seq<T>, key: T -> seq<Cell>, i: nat, j: nat)
    requires Sorted(s, key) && i <= j < |s|
    ensures KeyLe(key(s[i]), key(s[j]))
  {
    if i == j {
      KeyLeRefl(key(s[i]));
    } else {
      SortedPairs(s, key, i, j - 1);
      KeyLeTrans(key(s[i]), key(s[j - 1]), key(s[j]));
    }
  }

  lemma {:induction false} KeyLeRefl(a: seq<Cell>)
    ensures KeyLe(a, a)
  {
    if |a| > 0 { KeyLeRefl(a[1..]); }
  }

  /** The tail of a sorted sequence is sorted. */
  lemma SortedTail<T>(s: seq<T>, key: T -> seq<Cell>)
    requires |s| > 0
    ensures Sorted(s, key) ==> Sorted(s[1..], key)
  {
    if Sorted(s, key) {
      forall i | 0 <= i < |s[1..]| - 1
        ensures KeyLe(key(s[1..][i]), key(s[1..][i + 1]))
      {
        assert s[1..][i] == s[i + 1] && s[1..][i + 1] == s[i + 2];
      }
    }
  }

  /** A row at most the head of a sorted sequence can go in front of it. */
  lemma SortedCons<T>(h: T, t: seq<T>, key: T -> seq<Cell>)
    ensures Sorted(t, key) && (|t| > 0 ==> KeyLe(key(h), key(t[0]))) ==> Sorted([h] + t, key)
  {
    var r := [h] + t;
    if Sorted(t, key) && (|t| > 0 ==> KeyLe(key(h), key(t[0]))) {
      forall i | 0 <= i < |r| - 1
        ensures KeyLe(key(r[i]), key(r[i + 1]))
      {
        if i > 0 {
          assert r[i] == t[i - 1] && r[i + 1] == t[i];
        }
      }
    }
  }

  function Insert<T(==)>(x: T, s: seq<T>, key: T -> seq<Cell>, ghost width: nat): (r: seq<T>)
    requires KeyShape(s, key, width) && |key(x)| == width
    ensures multiset(r) == multiset(s) + multiset{x}
    ensures |r| > 0 && (r[0] == x || (|s| > 0 && r[0] == s[0]))
    ensures KeyShape(r, key, width)
    ensures Sorted(s, key) ==> Sorted(r, key)
  {
    if |s| == 0 then [x]
    else if KeyLe(key(x), key(s[0])) then
      SortedCons(x, s, key);
      [x] + s
    else
      var t := Insert(x, s[1..], key, width);
      KeyLeTotal(key(x), key(s[0]));
      assert s == [s[0]] + s[1..];
      SortedTail(s, key);
      assert Sorted(s, key) && |s| > 1 ==> KeyLe(key(s[0]), key(s[1]));
      SortedCons(s[0], t, key);
      [s[0]] + t
  }

  /** The rows of `s` ordered by `key`. */
  function SortBy<T(==)>(s: seq<T>, key: T -> seq<Cell>, ghost width: nat): (r: seq<T>)
    requires KeyShape(s, key, width)
    ensures multiset(r) == multiset(s)
    ensures KeyShape(r, key, width)
    ensures Sorted(r, key)
  {
    if |s| == 0 then []
    else
      assert s == [s[0]] + s[1..];
      Insert(s[0], SortBy(s[1..], key, width), key, width)
  }

  /** Removing one element keeps a sorted sequence sorted. */
  lemma SortedRemove<T>(s: seq<T>, key: T -> seq<Cell>, k: nat)
    requires Sorted(s, key) && k < |s|
    ensures Sorted(s[..k] + s[k + 1..], key)
  {
    var r := s[..k] + s[k + 1..];
    forall i | 0 <= i < |r| - 1
      ensures KeyLe(key(r[i]), key(r[i + 1]))
    {
      if i + 1 < k {
        assert r[i] == s[i] && r[i + 1] == s[i + 1];
      } else if i + 1 == k {
        assert r[i] == s[i] && r[i + 1] == s[i + 2];
        SortedPairs(s, key, i, i + 2);
      } else {
        assert r[i] == s[i + 1] && r[i + 1] == s[i + 2];
      }
    }
  }

  /** `df.loc[mask]` on a sorted table keeps it sorted. */
  lemma {:induction false} FilterSorted<T>(s: seq<T>, p: T -> bool, key: T -> seq<Cell>)
    requires Sorted(s, key)
    ensures Sorted(Filter(s, p), key)
  {
    if |s| > 0 {
      SortedTail(s, key);
      FilterSorted(s[1..], p, key);
      var t := Filter(s[1..], p);
      if p(s[0]) && |t| > 0 {
        FilterIn(s[1..], p, t[0]);
        var j := FirstIndex(s[1..], t[0]);
        SortedPairs(s, key, 0, j + 1);
      }
      SortedCons(s[0], t, key);
    }
  }

  /** Projecting rows keeps their order when the key reads through the projection. */
  lemma MapSorted<T, U>(s: seq<T>, f: T -> U, key: U -> seq<Cell>)
    requires Sorted(s, x => key(f(x)))
    ensures Sorted(Map(s, f), key)
  {
    var r := Map(s, f);
    forall i | 0 <= i < |r| - 1
      ensures KeyLe(key(r[i]), key(r[i + 1]))
    {
      assert (x => key(f(x)))(s[i]) == key(r[i]);
      assert (x => key(f(x)))(s[i + 1]) == key(r[i + 1]);
    }
  }
}
