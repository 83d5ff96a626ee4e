/** Sequence operations behind the pandas steps: filtering, distinct values in
    order of first appearance (`Series.unique()`), positional slicing and sums. */
module Seqs {
  import opened Base

  /** `df.loc[mask]`: the elements satisfying `p`, in their original order. */
  function Filter<T(==)>(s: seq<T>, p: T -> bool): (r: seq<T>)
    ensures |r| <= |s|
    ensures forall i :: 0 <= i < |r| ==> p(r[i])
  {
    if |s| == 0 then []
    else (if p(s[0]) then [s[0]] else []) + Filter(s[1..], p)
  }

  /** An element is kept exactly when it occurs in `s` and satisfies `p`. */
  lemma {:induction false} FilterIn<T>(s: seq<T>, p: T -> bool, x: T)
    ensures x in Filter(s, p) <==> x in s && p(x)
  {
    if |s| > 0 {
      FilterIn(s[1..], p, x);
      assert s == [s[0]] + s[1..];
    }
  }

  lemma FilterSubset<T>(s: seq<T>, p: T -> bool)
    ensures forall x :: x in Filter(s, p) ==> x in s
  {
    forall x | x in Filter(s, p)
      ensures x in s
    {
      FilterIn(s, p, x);
    }
  }

  lemma {:induction false} FilterNone<T>(s: seq<T>, p: T -> bool)
    requires forall x :: !p(x)
    ensures Filter(s, p) == []
  {
    if |s| > 0 {
      FilterNone(s[1..], p);
    }
  }

  lemma {:induction false} FilterConcat<T>(a: seq<T>, b: seq<T>, p: T -> bool)
    ensures Filter(a + b, p) == Filter(a, p) + Filter(b, p)
  {
    if |a| == 0 {
      assert a + b == b;
    } else {
      var h := if p(a[0]) then [a[0]] else [];
      assert (a + b)[0] == a[0] && (a + b)[1..] == a[1..] + b;
      assert Filter(a + b, p) == h + Filter(a[1..] + b, p);
      FilterConcat(a[1..], b, p);
      assert Filter(a, p) == h + Filter(a[1..], p);
    }
  }

  /** Filtering twice is filtering once by both conditions. */
  lemma {:induction false} FilterFilter<T>(s: seq<T>, p: T -> bool, q: T -> bool)
    ensures Filter(Filter(s, p), q) == Filter(s, x => p(x) && q(x))
  {
    if |s| > 0 {
      FilterFilter(s[1..], p, q);
      var h := if p(s[0]) then [s[0]] else [];
      FilterConcat(h, Filter(s[1..], p), q);
    }
  }

  lemma {:induction false} FilterMultiset<T>(s: seq<T>, p: T -> bool)
    ensures multiset(Filter(s, p)) <= multiset(s)
  {
    if |s| > 0 {
      FilterMultiset(s[1..], p);
      assert s == [s[0]] + s[1..];
    }
  }

  /** `Series.map`: apply `f` to every element. */
  function Map<T, U>(s: seq<T>, f: T -> U): (r: seq<U>)
    ensures |r| == |s|
    ensures forall i :: 0 <= i < |s| ==> r[i] == f(s[i])
  {
    seq(|s|, i requires 0 <= i < |s| => f(s[i]))
  }

  /** The position an element of a mapped sequence comes from. */
  lemma MapSource<T, U>(s: seq<T>, f: T -> U, y: U) returns (i: nat)
    requires y in Map(s, f)
    ensures i < |s| && f(s[i]) == y
  {
    var r := Map(s, f);
    var k :| 0 <= k < |r| && r[k] == y;
    i := k;
  }

  /** Every element of `s` is mapped into `Map(s, f)`. */
  lemma MapHas<T, U>(s: seq<T>, f: T -> U, i: nat)
    requires i < |s|
    ensures f(s[i]) in Map(s, f)
  {
    assert Map(s, f)[i] == f(s[i]);
  }

  /** Two sequences with the same multiset have the same elements. */
  lemma SameMembers<T>(a: seq<T>, b: seq<T>, x: T)
    requires multiset(a) == multiset(b)
    ensures x in a <==> x in b
  {
    assert x in a <==> x in multiset(a);
    assert x in b <==> x in multiset(b);
  }

  predicate Distinct<T(==)>(s: seq<T>)
  {
    forall i, j :: 0 <= i < j < |s| ==> s[i] != s[j]
  }

  /** `Series.unique()`: the distinct elements in order of first appearance. */
  function Unique<T(==,!new)>(s: seq<T>): (r: seq<T>)
    ensures Distinct(r)
    ensures forall x :: x in r <==> x in s
    ensures |r| <= |s|
  {
    if |s| == 0 then []
    else
      var u := Unique(s[..|s| - 1]);
      assert s == s[..|s| - 1] + [s[|s| - 1]];
      if s[|s| - 1] in u then u else u + [s[|s| - 1]]
  }

  /** Unique keeps the order in which elements first appear. */
  lemma {:induction false} UniqueFirstAppearance<T(!new)>(s: seq<T>, i: nat, j: nat)
    requires i < j < |Unique(s)|
    ensures exists a, b :: 0 <= a < b < |s| && s[a] == Unique(s)[i] && s[b] == Unique(s)[j] &&
              Unique(s)[i] !in s[..a] && Unique(s)[j] !in s[..b]
  {
    var u := Unique(s[..|s| - 1]);
    var last := s[|s| - 1];
    var pre := s[..|s| - 1];
    assert s == pre + [last];
    if j < |u| {
      UniqueFirstAppearance(pre, i, j);
      var a, b :| 0 <= a < b < |pre| && pre[a] == u[i] && pre[b] == u[j] && u[i] !in pre[..a] && u[j] !in pre[..b];
      assert s[..a] == pre[..a] && s[..b] == pre[..b];
    } else {
      assert Unique(s)[j] == last && last !in u;
      assert last !in pre;
      var x := Unique(s)[i];
      assert x == u[i] && x in pre;
      var a := FirstIndex(pre, x);
      assert s[..a] == pre[..a];
      assert s[..|s| - 1] == pre;
    }
  }

  /** The position of the first occurrence of `x` in `s`. */
  function FirstIndex<T(==)>(s: seq<T>, x: T): (k: nat)
    requires x in s
    ensures k < |s| && s[k] == x && x !in s[..k]
  {
    if s[0] == x then 0 else
      var k := FirstIndex(s[1..], x);
      assert s[1..][..k] == s[1..k + 1];
      assert s[..k + 1] == [s[0]] + s[1..k + 1];
      k + 1
  }

  /** The first occurrence is the one with no earlier occurrence. */
  lemma FirstIndexAt<T>(s: seq<T>, x: T, k: nat)
    requires k < |s| && s[k] == x && x !in s[..k]
    ensures FirstIndex(s, x) == k
  {
  }

  /** Adding `x` at the seam between the second and third parts of a three-part sequence. */
  lemma InsertAtSeam<T>(a: seq<T>, b: seq<T>, c: seq<T>, x: T)
    ensures (a + b + c)[..|a| + |b|] + [x] + (a + b + c)[|a| + |b|..] == a + (b + [x]) + c
  {
    assert (a + b + c)[..|a| + |b|] == a + b;
    assert (a + b + c)[|a| + |b|..] == c;
  }

  lemma TakeSnoc<T>(s: seq<T>, n: nat)
    requires 0 < n <= |s|
    ensures s[..n] == s[..n - 1] + [s[n - 1]]
  {
  }

  /** A prefix `a + b` of `c` puts `b` at offset `|a|` in `c`. */
  lemma PrefixBlock<T>(a: seq<T>, b: seq<T>, c: seq<T>, k: nat)
    requires a + b <= c && k < |b|
    ensures |a| + k < |c| && c[|a| + k] == b[k]
  {
    assert c[|a| + k] == (a + b)[|a| + k];
  }

  lemma MapConcat<T, U>(a: seq<T>, b: seq<T>, f: T -> U)
    ensures Map(a + b, f) == Map(a, f) + Map(b, f)
  {
  }

  lemma MapSnoc<T, U>(s: seq<T>, x: T, f: T -> U)
    ensures Map(s + [x], f) == Map(s, f) + [f(x)]
  {
  }

  /** Python's slice `s[lo:hi]`, which clamps out-of-range bounds. */
  function Slice<T>(s: seq<T>, lo: nat, hi: nat): (r: seq<T>)
    ensures |r| <= |s| && |r| <= if hi >= lo then hi - lo else 0
    ensures lo <= hi <= |s| ==> r == s[lo..hi]
  {
    var h := if hi <= |s| then hi else |s|;
    var l := if lo <= h then lo else h;
    s[l..h]
  }

  /** The first `n` elements, or all of them when there are fewer. */
  lemma SliceHead<T>(s: seq<T>, n: nat)
    ensures |Slice(s, 0, n)| == if |s| <= n then |s| else n
    ensures forall i :: 0 <= i < |Slice(s, 0, n)| ==> Slice(s, 0, n)[i] == s[i]
  {
  }

  /** Two adjacent slices of the same sequence concatenate to the covering slice. */
  lemma SliceAdjacent<T>(s: seq<T>, a: nat, b: nat, c: nat)
    requires a <= b <= c
    ensures Slice(s, a, b) + Slice(s, b, c) == Slice(s, a, c)
  {
  }

  function Sum(s: seq<int>): int
  {
    if |s| == 0 then 0 else s[0] + Sum(s[1..])
  }

  lemma {:induction false} SumNonNegative(s: seq<int>)
    requires forall k :: 0 <= k < |s| ==> s[k] >= 0
    ensures Sum(s) >= 0
  {
    if |s| > 0 {
      SumNonNegative(s[1..]);
    }
  }

  lemma {:induction false} SumConcat(a: seq<int>, b: seq<int>)
    ensures Sum(a + b) == Sum(a) + Sum(b)
  {
    if |a| == 0 {
      assert a + b == b;
    } else {
      assert (a + b)[0] == a[0] && (a + b)[1..] == a[1..] + b;
      assert Sum(a + b) == a[0] + Sum(a[1..] + b);
      SumConcat(a[1..], b);
    }
  }

  function CountWhere<T(==)>(s: seq<T>, p: T -> bool): (n: nat)
    ensures n <= |s|
  {
    |Filter(s, p)|
  }

  /** The position of the first element satisfying `p`. */
  function FirstWhere<T>(s: seq<T>, p: T -> bool): (k: nat)
    requires exists i :: 0 <= i < |s| && p(s[i])
    ensures k < |s| && p(s[k])
    ensures forall j :: 0 <= j < k ==> !p(s[j])
  {
    if p(s[0]) then 0
    else
      assert exists i :: 0 <= i < |s[1..]| && p(s[1..][i]) by {
        var i :| 0 <= i < |s| && p(s[i]);
        assert s[1..][i - 1] == s[i];
      }
      1 + FirstWhere(s[1..], p)
  }

  /** Concatenation of `f` over `s`, in order (a merge's rows, left row by left row). */
  function FlatMap<T, U>(s: seq<T>, f: T -> seq<U>): seq<U>
  {
    if |s| == 0 then [] else f(s[0]) + FlatMap(s[1..], f)
  }

  lemma {:induction false} FlatMapIn<T, U>(s: seq<T>, f: T -> seq<U>, y: U)
    ensures y in FlatMap(s, f) <==> exists i :: 0 <= i < |s| && y in f(s[i])
  {
    if |s| > 0 {
      FlatMapIn(s[1..], f, y);
      if exists i :: 0 <= i < |s| && y in f(s[i]) {
        var i :| 0 <= i < |s| && y in f(s[i]);
        if i > 0 { assert s[1..][i - 1] == s[i]; }
      }
      if exists i :: 0 <= i < |s[1..]| && y in f(s[1..][i]) {
        var i :| 0 <= i < |s[1..]| && y in f(s[1..][i]);
        assert s[i + 1] == s[1..][i];
      }
    }
  }
  /** `list.remove(x)`: drops the first occurrence of `x`. */
  function RemoveFirst<T(==)>(s: seq<T>, x: T): (r: seq<T>)
    requires x in s
    ensures |r| == |s| - 1
    ensures multiset(r) + multiset{x} == multiset(s)
    ensures r == s[..FirstIndex(s, x)] + s[FirstIndex(s, x) + 1..]
  {
    var k := FirstIndex(s, x);
    assert s == s[..k] + [x] + s[k + 1..];
    s[..k] + s[k + 1..]
  }

  /** A filter that rejects nothing is the identity. */
  lemma {:induction false} FilterAll<T>(s: seq<T>, p: T -> bool)
    requires forall i :: 0 <= i < |s| ==> p(s[i])
    ensures Filter(s, p) == s
  {
    if |s| > 0 {
      FilterAll(s[1..], p);
    }
  }

  /** `left.merge(right, how='left')`: each left row once per matching right row,
      in right order, or once with no right row when nothing matches. */
  function LeftMerge<L, R(==), O>(left: seq<L>, right: seq<R>, matches: (L, R) -> bool,
                                  combine: (L, Option<R>) -> O): seq<O>
  {
    FlatMap(left, (l: L) => MergeOne(l, right, matches, combine))
  }

  function MergeOne<L, R(==), O>(l: L, right: seq<R>, matches: (L, R) -> bool,
                                 combine: (L, Option<R>) -> O): (r: seq<O>)
    ensures |r| > 0
  {
    var m := Filter(right, (x: R) => matches(l, x));
    if |m| == 0 then [combine(l, None)] else Map(m, (x: R) => combine(l, Some(x)))
  }

  /** The rows one left row contributes to a left merge. */
  lemma MergeOneIn<L, R, O>(l: L, right: seq<R>, matches: (L, R) -> bool,
                            combine: (L, Option<R>) -> O, y: O)
    ensures y in MergeOne(l, right, matches, combine) <==>
      (exists j :: 0 <= j < |right| && matches(l, right[j]) && y == combine(l, Some(right[j]))) ||
      ((forall j :: 0 <= j < |right| ==> !matches(l, right[j])) && y == combine(l, None))
  {
    var p := (x: R) => matches(l, x);
    var m := Filter(right, p);
    if |m| == 0 {
      forall j | 0 <= j < |right|
        ensures !matches(l, right[j])
      {
        FilterIn(right, p, right[j]);
      }
    } else {
      var q := (x: R) => combine(l, Some(x));
      assert MergeOne(l, right, matches, combine) == Map(m, q);
      MapFilterIn(right, p, q, y);
      FilterIn(right, p, m[0]);
      var j0 := FirstIndex(right, m[0]);
      assert matches(l, right[j0]);
    }
  }

  /** The first row a left row contributes combines it with a right row or with none. */
  lemma MergeOneHead<L, R, O>(l: L, right: seq<R>, matches: (L, R) -> bool,
                              combine: (L, Option<R>) -> O) returns (o: Option<R>)
    ensures MergeOne(l, right, matches, combine)[0] == combine(l, o)
  {
    var m := Filter(right, (x: R) => matches(l, x));
    o := if |m| == 0 then None else Some(m[0]);
  }

  /** One left row matching the only right row yields exactly their combination. */
  lemma LeftMergeSingle<L, R, O>(l: L, right: seq<R>, matches: (L, R) -> bool,
                                 combine: (L, Option<R>) -> O)
    requires |right| == 1 && matches(l, right[0])
    ensures LeftMerge([l], right, matches, combine) == [combine(l, Some(right[0]))]
  {
    var p := (x: R) => matches(l, x);
    assert right[1..] == [];
    assert Filter(right[1..], p) == [];
    assert Filter(right, p) == right;
    assert MergeOne(l, right, matches, combine) == [combine(l, Some(right[0]))];
    assert [l][1..] == [];
    assert FlatMap([l][1..], (x: L) => MergeOne(x, right, matches, combine)) == [];
  }

  /** No two right rows match `l` (the right table's key is unique for `l`). */
  predicate AtMostOneMatch<L, R>(l: L, right: seq<R>, matches: (L, R) -> bool)
  {
    forall j, k :: 0 <= j < |right| && 0 <= k < |right| && matches(l, right[j]) && matches(l, right[k]) ==> j == k
  }

  /** A filter that at most one position passes keeps at most one element. */
  lemma {:induction false} FilterAtMostOne<T>(s: seq<T>, p: T -> bool)
    requires forall j, k :: 0 <= j < |s| && 0 <= k < |s| && p(s[j]) && p(s[k]) ==> j == k
    ensures |Filter(s, p)| <= 1
  {
    if |s| > 0 {
      var t := s[1..];
      assert forall j :: 0 <= j < |t| ==> t[j] == s[j + 1];
      FilterAtMostOne(t, p);
      if p(s[0]) {
        var r := Filter(t, p);
        if |r| > 0 {
          FilterIn(t, p, r[0]);
        }
      }
    }
  }

  /** With at most one match per left row, a left merge keeps the left rows'
      count and order: row `i` of the result comes from left row `i`. */
  lemma {:induction false} LeftMergeOneEach<L, R, O>(left: seq<L>, right: seq<R>, matches: (L, R) -> bool,
                                                     combine: (L, Option<R>) -> O)
    requires forall i :: 0 <= i < |left| ==> AtMostOneMatch(left[i], right, matches)
    ensures |LeftMerge(left, right, matches, combine)| == |left|
    ensures forall i :: 0 <= i < |left| ==>
      LeftMerge(left, right, matches, combine)[i] == MergeOne(left[i], right, matches, combine)[0]
  {
    if |left| > 0 {
      var l := left[0];
      assert AtMostOneMatch(l, right, matches);
      FilterAtMostOne(right, (x: R) => matches(l, x));
      assert |MergeOne(l, right, matches, combine)| == 1;
      var t := left[1..];
      forall i | 0 <= i < |t|
        ensures AtMostOneMatch(t[i], right, matches)
      {
        assert t[i] == left[i + 1];
      }
      LeftMergeOneEach(t, right, matches, combine);
      var head := MergeOne(l, right, matches, combine);
      var rest := LeftMerge(t, right, matches, combine);
      var all := LeftMerge(left, right, matches, combine);
      assert all == head + rest;
      forall i | 0 <= i < |left|
        ensures all[i] == MergeOne(left[i], right, matches, combine)[0]
      {
        if i > 0 {
          assert all[i] == rest[i - 1];
          assert t[i - 1] == left[i];
        }
      }
    }
  }

  /** A left row that every right row matches is combined with each of them, in order. */
  lemma MergeOneAll<L, R, O>(l: L, right: seq<R>, matches: (L, R) -> bool, combine: (L, Option<R>) -> O)
    requires |right| > 0 && forall j :: 0 <= j < |right| ==> matches(l, right[j])
    ensures MergeOne(l, right, matches, combine) == Map(right, (x: R) => combine(l, Some(x)))
  {
    FilterAll(right, (x: R) => matches(l, x));
  }

  /** A left merge of one row is what that row contributes. */
  lemma LeftMergeOne<L, R, O>(l: L, right: seq<R>, matches: (L, R) -> bool, combine: (L, Option<R>) -> O)
    ensures LeftMerge([l], right, matches, combine) == MergeOne(l, right, matches, combine)
  {
    assert [l][1..] == [];
    assert FlatMap([l][1..], (x: L) => MergeOne(x, right, matches, combine)) == [];
  }

  /** A left merge keeps at least one row per left row. */
  lemma {:induction false} LeftMergeLength<L, R, O>(left: seq<L>, right: seq<R>, matches: (L, R) -> bool,
                                                    combine: (L, Option<R>) -> O)
    ensures |LeftMerge(left, right, matches, combine)| >= |left|
  {
    if |left| > 0 {
      LeftMergeLength(left[1..], right, matches, combine);
    }
  }

  /** Membership in a left merge, row by row. */
  lemma LeftMergeIn<L, R, O>(left: seq<L>, right: seq<R>, matches: (L, R) -> bool,
                             combine: (L, Option<R>) -> O, y: O)
    ensures y in LeftMerge(left, right, matches, combine) <==>
      exists i :: 0 <= i < |left| && y in MergeOne(left[i], right, matches, combine)
  {
    FlatMapIn(left, (l: L) => MergeOne(l, right, matches, combine), y);
  }

  /** Some right row matches `l`. */
  predicate HasMatch<L, R>(l: L, right: seq<R>, matches: (L, R) -> bool)
  {
    exists j :: 0 <= j < |right| && matches(l, right[j])
  }

  /** When every left row has a match, a left merge is exactly the matching pairs. */
  lemma LeftMergeMatched<L, R, O>(left: seq<L>, right: seq<R>, matches: (L, R) -> bool,
                                  combine: (L, Option<R>) -> O, y: O)
    requires forall i :: 0 <= i < |left| ==> HasMatch(left[i], right, matches)
    ensures y in LeftMerge(left, right, matches, combine) <==>
      exists i, j :: 0 <= i < |left| && 0 <= j < |right| && matches(left[i], right[j]) &&
        y == combine(left[i], Some(right[j]))
  {
    LeftMergeIn(left, right, matches, combine, y);
    if y in LeftMerge(left, right, matches, combine) {
      var i :| 0 <= i < |left| && y in MergeOne(left[i], right, matches, combine);
      MergeOneIn(left[i], right, matches, combine, y);
    }
    if exists i, j :: 0 <= i < |left| && 0 <= j < |right| && matches(left[i], right[j]) &&
        y == combine(left[i], Some(right[j])) {
      var i, j :| 0 <= i < |left| && 0 <= j < |right| && matches(left[i], right[j]) &&
        y == combine(left[i], Some(right[j]));
      MergeOneIn(left[i], right, matches, combine, y);
    }
  }

  /** Every row of a left merge combines some left row with a right row or with none. */
  lemma LeftMergeFrom<L, R, O>(left: seq<L>, right: seq<R>, matches: (L, R) -> bool,
                               combine: (L, Option<R>) -> O, y: O)
    requires y in LeftMerge(left, right, matches, combine)
    ensures exists i :: (0 <= i < |left| &&
      (y == combine(left[i], None) || exists j :: 0 <= j < |right| && y == combine(left[i], Some(right[j]))))
  {
    LeftMergeIn(left, right, matches, combine, y);
    var i :| 0 <= i < |left| && y in MergeOne(left[i], right, matches, combine);
    MergeOneIn(left[i], right, matches, combine, y);
  }

  /** Where a row of a left merge comes from: left row `i`, and right row `j`
      when `j` is a position of `right`, or no right row when `j == |right|`. */
  lemma LeftMergeSource<L, R, O>(left: seq<L>, right: seq<R>, matches: (L, R) -> bool,
                                 combine: (L, Option<R>) -> O, y: O) returns (i: nat, j: nat)
    requires y in LeftMerge(left, right, matches, combine)
    ensures i < |left| && j <= |right|
    ensures j < |right| ==> matches(left[i], right[j]) && y == combine(left[i], Some(right[j]))
    ensures j == |right| ==> y == combine(left[i], None) && forall k :: 0 <= k < |right| ==> !matches(left[i], right[k])
  {
    LeftMergeIn(left, right, matches, combine, y);
    i :| 0 <= i < |left| && y in MergeOne(left[i], right, matches, combine);
    MergeOneIn(left[i], right, matches, combine, y);
    if k :| 0 <= k < |right| && matches(left[i], right[k]) && y == combine(left[i], Some(right[k])) {
      j := k;
    } else {
      j := |right|;
    }
  }

  /** A left row and a right row that match give a row of the merge. */
  lemma LeftMergeHas<L, R, O>(left: seq<L>, right: seq<R>, matches: (L, R) -> bool,
                              combine: (L, Option<R>) -> O, i: nat, j: nat)
    requires i < |left| && j < |right| && matches(left[i], right[j])
    ensures combine(left[i], Some(right[j])) in LeftMerge(left, right, matches, combine)
  {
    var y := combine(left[i], Some(right[j]));
    MergeOneIn(left[i], right, matches, combine, y);
    LeftMergeIn(left, right, matches, combine, y);
  }

  /** A left row no right row matches gives a row of the merge on its own. */
  lemma LeftMergeHasNone<L, R, O>(left: seq<L>, right: seq<R>, matches: (L, R) -> bool,
                                  combine: (L, Option<R>) -> O, i: nat)
    requires i < |left| && forall k :: 0 <= k < |right| ==> !matches(left[i], right[k])
    ensures combine(left[i], None) in LeftMerge(left, right, matches, combine)
  {
    var y := combine(left[i], None);
    MergeOneIn(left[i], right, matches, combine, y);
    LeftMergeIn(left, right, matches, combine, y);
  }

  /** The element of `s` an element of a filtered map comes from. */
  lemma MapFilterSource<T, U>(s: seq<T>, p: T -> bool, f: T -> U, y: U) returns (i: nat)
    requires y in Map(Filter(s, p), f)
    ensures i < |s| && p(s[i]) && f(s[i]) == y
  {
    var m := Filter(s, p);
    var k := MapSource(m, f, y);
    FilterIn(s, p, m[k]);
    i := FirstIndex(s, m[k]);
  }

  /** An element of `s` that passes `p` is mapped into the filtered map. */
  lemma MapFilterHas<T, U>(s: seq<T>, p: T -> bool, f: T -> U, i: nat)
    requires i < |s| && p(s[i])
    ensures f(s[i]) in Map(Filter(s, p), f)
  {
    var m := Filter(s, p);
    FilterIn(s, p, s[i]);
    MapHas(m, f, FirstIndex(m, s[i]));
  }

  /** Membership in a filtered map, element by element. */
  lemma MapFilterIn<T, U>(s: seq<T>, p: T -> bool, f: T -> U, y: U)
    ensures y in Map(Filter(s, p), f) <==> exists i :: 0 <= i < |s| && p(s[i]) && y == f(s[i])
  {
    var m := Filter(s, p);
    if y in Map(m, f) {
      var k :| 0 <= k < |m| && y == f(m[k]);
      FilterIn(s, p, m[k]);
      var i :| 0 <= i < |s| && s[i] == m[k];
    }
    if exists i :: 0 <= i < |s| && p(s[i]) && y == f(s[i]) {
      var i :| 0 <= i < |s| && p(s[i]) && y == f(s[i]);
      FilterIn(s, p, s[i]);
      var k :| 0 <= k < |m| && m[k] == s[i];
      assert Map(m, f)[k] == y;
    }
  }
}
