/** Text operations the scripts use on cell values: substring tests, ASCII case
    mapping, whitespace trimming, joining and splitting, quote escaping and
    decimal rendering of integers. Strings are sequences of characters. */
module Strings {

  /** `sub` occurs in `s` at position `i`. */
  predicate OccursAt(s: string, sub: string, i: nat)
  {
    i + |sub| <= |s| && s[i..i + |sub|] == sub
  }

  predicate StartsWith(s: string, prefix: string)
  {
    |prefix| <= |s| && s[..|prefix|] == prefix
  }

  /** Python's `sub in s`, and pandas' `str.contains` with a literal pattern. */
  predicate Contains(s: string, sub: string)
    decreases |s|
  {
    StartsWith(s, sub) || (|s| > 0 && Contains(s[1..], sub))
  }

  lemma {:induction false} ContainsIff(s: string, sub: string)
    ensures Contains(s, sub) <==> exists i: nat :: OccursAt(s, sub, i)
    decreases |s|
  {
    if exists i: nat :: OccursAt(s, sub, i) {
      var i: nat :| OccursAt(s, sub, i);
      if i > 0 {
        assert s[1..][i - 1..i - 1 + |sub|] == s[i..i + |sub|];
        assert OccursAt(s[1..], sub, i - 1);
        ContainsIff(s[1..], sub);
      } else {
        assert StartsWith(s, sub);
      }
    }
    if Contains(s, sub) {
      if StartsWith(s, sub) {
        assert OccursAt(s, sub, 0);
      } else {
        ContainsIff(s[1..], sub);
        var i: nat :| OccursAt(s[1..], sub, i);
        assert s[1..][i..i + |sub|] == s[i + 1..i + 1 + |sub|];
        assert OccursAt(s, sub, i + 1);
      }
    }
  }

  /** A string does not contain a single character it lacks. */
  lemma {:induction false} ContainsChar(s: string, c: char)
    ensures Contains(s, [c]) <==> c in s
    decreases |s|
  {
    if |s| > 0 {
      ContainsChar(s[1..], c);
      assert c in s <==> s[0] == c || c in s[1..];
    }
  }

  /** Contains is preserved by extending the text on either side. */
  lemma {:induction false} ContainsExtend(a: string, s: string, b: string, sub: string)
    requires Contains(s, sub)
    ensures Contains(a + s + b, sub)
  {
    ContainsIff(s, sub);
    var i: nat :| OccursAt(s, sub, i);
    assert (a + s + b)[|a| + i..|a| + i + |sub|] == s[i..i + |sub|];
    assert OccursAt(a + s + b, sub, |a| + i);
    ContainsIff(a + s + b, sub);
  }

  function LowerChar(c: char): char
  {
    if 'A' <= c <= 'Z' then (c as int + 32) as char else c
  }

  function UpperChar(c: char): char
  {
    if 'a' <= c <= 'z' then (c as int - 32) as char else c
  }

  /** `str.lower()` on ASCII letters; every other character is kept. */
  function Lower(s: string): (r: string)
    ensures |r| == |s|
    ensures forall i :: 0 <= i < |s| ==> r[i] == LowerChar(s[i])
  {
    seq(|s|, i requires 0 <= i < |s| => LowerChar(s[i]))
  }

  /** `str.upper()` on ASCII letters; every other character is kept. */
  function Upper(s: string): (r: string)
    ensures |r| == |s|
    ensures forall i :: 0 <= i < |s| ==> r[i] == UpperChar(s[i])
  {
    seq(|s|, i requires 0 <= i < |s| => UpperChar(s[i]))
  }

  lemma UpperIdempotent(s: string)
    ensures Upper(Upper(s)) == Upper(s)
  {
  }

  /** The characters Python's `str.strip()` removes (ASCII whitespace). */
  predicate IsSpace(c: char)
  {
    c == ' ' || c == '\t' || c == '\n' || c == '\r' || c == '\U{000B}' || c == '\U{000C}'
  }

  function StripLeft(s: string): (r: string)
    ensures |r| <= |s| && r == s[|s| - |r|..]
    ensures |r| > 0 ==> !IsSpace(r[0])
    ensures forall i :: 0 <= i < |s| - |r| ==> IsSpace(s[i])
    decreases |s|
  {
    if |s| > 0 && IsSpace(s[0]) then StripLeft(s[1..]) else s
  }

  function StripRight(s: string): (r: string)
    ensures |r| <= |s| && r == s[..|r|]
    ensures |r| > 0 ==> !IsSpace(r[|r| - 1])
    ensures forall i :: |r| <= i < |s| ==> IsSpace(s[i])
    decreases |s|
  {
    if |s| > 0 && IsSpace(s[|s| - 1]) then StripRight(s[..|s| - 1]) else s
  }

  /** `str.strip()`: the text with leading and trailing whitespace removed. */
  function Strip(s: string): (r: string)
    ensures |r| > 0 ==> !IsSpace(r[0]) && !IsSpace(r[|r| - 1])
  {
    StripRight(StripLeft(s))
  }

  /** `sep.join(parts)`. */
  function Join(parts: seq<string>, sep: string): string
  {
    if |parts| == 0 then ""
    else if |parts| == 1 then parts[0]
    else parts[0] + sep + Join(parts[1..], sep)
  }

  /** A joined string is empty exactly when every part is empty (for a non-empty separator). */
  lemma {:induction false} JoinEmptyIff(parts: seq<string>, sep: string)
    requires |sep| > 0
    ensures Join(parts, sep) == "" <==> (|parts| == 0 || (|parts| == 1 && parts[0] == ""))
  {
    if |parts| > 1 {
      assert |Join(parts, sep)| >= |sep|;
    }
  }

  /** `s.split(c)` for a one-character separator. */
  function Split(s: string, c: char): (r: seq<string>)
    ensures |r| > 0
    decreases |s|
  {
    if |s| == 0 then [""]
    else if s[0] == c then [""] + Split(s[1..], c)
    else
      var rest := Split(s[1..], c);
      [[s[0]] + rest[0]] + rest[1..]
  }

  lemma {:induction false} SplitPartsLackSeparator(s: string, c: char)
    ensures forall k :: 0 <= k < |Split(s, c)| ==> c !in Split(s, c)[k]
    decreases |s|
  {
    if |s| > 0 {
      SplitPartsLackSeparator(s[1..], c);
    }
  }

  /** Splitting undoes joining, when no part contains the separator. */
  lemma {:induction false} SplitJoin(parts: seq<string>, c: char)
    requires |parts| > 0
    requires forall k :: 0 <= k < |parts| ==> c !in parts[k]
    ensures Split(Join(parts, [c]), c) == parts
    decreases |parts|, |parts[0]|
  {
    if |parts[0]| > 0 {
      var p0 := parts[0][1..];
      var parts' := [p0] + parts[1..];
      assert forall k :: 0 <= k < |parts'| ==> c !in parts'[k] by {
        forall k | 0 <= k < |parts'| ensures c !in parts'[k] {
          if k == 0 {
            assert forall x :: x in p0 ==> x in parts[0];
          } else {
            assert parts'[k] == parts[k];
          }
        }
      }
      SplitJoin(parts', c);
      JoinConsHead(parts, parts', c);
      var j := Join(parts, [c]);
      assert j[0] == parts[0][0] && j[0] != c;
      assert j[1..] == Join(parts', [c]);
      assert [parts[0][0]] + parts'[0] == parts[0];
      assert parts'[1..] == parts[1..];
    } else if |parts| > 1 {
      SplitJoin(parts[1..], c);
      assert Join(parts, [c]) == [c] + Join(parts[1..], [c]);
      assert (Join(parts, [c]))[1..] == Join(parts[1..], [c]);
    }
  }

  lemma JoinConsHead(parts: seq<string>, parts': seq<string>, c: char)
    requires |parts| > 0 && |parts[0]| > 0
    requires parts' == [parts[0][1..]] + parts[1..]
    ensures Join(parts, [c]) == [parts[0][0]] + Join(parts', [c])
  {
    if |parts| > 1 {
      assert parts'[1..] == parts[1..];
    }
  }

  /** Joining undoes splitting. */
  lemma {:induction false} JoinSplit(s: string, c: char)
    ensures Join(Split(s, c), [c]) == s
    decreases |s|
  {
    if |s| > 0 {
      JoinSplit(s[1..], c);
      var rest := Split(s[1..], c);
      if s[0] == c {
        assert Split(s, c) == [""] + rest;
      } else {
        var r := [[s[0]] + rest[0]] + rest[1..];
        if |rest| > 1 {
          assert r[1..] == rest[1..];
        }
      }
    }
  }

  /** Insert the escape character `e` before every occurrence of `c`:
      `s.replace("'", "\\'")` is Escape(s, '\'', '\\'), `s.replace("'", "''")` is Escape(s, '\'', '\''). */
  function Escape(s: string, c: char, e: char): (r: string)
    ensures |r| >= |s|
  {
    if |s| == 0 then ""
    else (if s[0] == c then [e, c] else [s[0]]) + Escape(s[1..], c, e)
  }

  /** Reads an escaped string back: the pair `e c` stands for `c`. */
  function Unescape(s: string, c: char, e: char): string
    decreases |s|
  {
    if |s| == 0 then ""
    else if |s| >= 2 && s[0] == e && s[1] == c then [c] + Unescape(s[2..], c, e)
    else [s[0]] + Unescape(s[1..], c, e)
  }

  lemma {:induction false} EscapeFirst(s: string, c: char, e: char)
    requires e != c && |Escape(s, c, e)| > 0
    ensures Escape(s, c, e)[0] != c
  {
  }

  /** Escaping loses nothing: unescaping gives back the original text. */
  lemma {:induction false} UnescapeEscape(s: string, c: char, e: char)
    ensures Unescape(Escape(s, c, e), c, e) == s
    decreases |s|
  {
    if |s| > 0 {
      UnescapeEscape(s[1..], c, e);
      var t := Escape(s[1..], c, e);
      if s[0] == c {
        assert Escape(s, c, e) == [e, c] + t;
        assert (Escape(s, c, e))[2..] == t;
      } else {
        assert Escape(s, c, e) == [s[0]] + t;
        assert (Escape(s, c, e))[1..] == t;
        if s[0] == e && |t| > 0 {
          if e != c {
            EscapeFirst(s[1..], c, e);
          }
        }
      }
    }
  }

  /** Every occurrence of `c` in an escaped string directly follows an `e`. */
  lemma {:induction false} EscapedQuotesGuarded(s: string, c: char, e: char)
    requires e != c
    ensures forall i :: 0 <= i < |Escape(s, c, e)| && Escape(s, c, e)[i] == c ==>
              i > 0 && Escape(s, c, e)[i - 1] == e
    decreases |s|
  {
    if |s| > 0 {
      EscapedQuotesGuarded(s[1..], c, e);
      var h := if s[0] == c then [e, c] else [s[0]];
      assert Escape(s, c, e) == h + Escape(s[1..], c, e);
    }
  }

  predicate IsDigit(c: char)
  {
    '0' <= c <= '9'
  }

  function DigitChar(d: nat): char
    requires d < 10
  {
    ('0' as int + d) as char
  }

  /** Decimal digits of a natural number, as Python's `str(n)`. */
  function NatToString(n: nat): (r: string)
    ensures |r| > 0
    ensures forall i :: 0 <= i < |r| ==> IsDigit(r[i])
  {
    if n < 10 then [DigitChar(n)] else NatToString(n / 10) + [DigitChar(n % 10)]
  }

  /** Python's `str(n)` for an integer. */
  function IntToString(n: int): (r: string)
    ensures |r| > 0
  {
    if n < 0 then "-" + NatToString(-n) else NatToString(n)
  }

  /** The value of a string of decimal digits. */
  function DigitsValue(ds: string): nat
    requires forall i :: 0 <= i < |ds| ==> IsDigit(ds[i])
  {
    if |ds| == 0 then 0
    else
      assert IsDigit(ds[|ds| - 1]);
      DigitsValue(ds[..|ds| - 1]) * 10 + (ds[|ds| - 1] as int - '0' as int)
  }

  /** The longest prefix of `s` made of digits. */
  function LeadingDigits(s: string): (r: string)
    ensures |r| <= |s| && r == s[..|r|]
    ensures forall i :: 0 <= i < |r| ==> IsDigit(r[i])
    ensures |r| < |s| ==> !IsDigit(s[|r|])
    decreases |s|
  {
    if |s| > 0 && IsDigit(s[0]) then [s[0]] + LeadingDigits(s[1..]) else ""
  }

  /** Reads a decimal number off the front of `s`: its value and the remaining text. */
  function ParseLeadingNat(s: string): (nat, string)
  {
    var ds := LeadingDigits(s);
    (DigitsValue(ds), s[|ds|..])
  }

  lemma {:induction false} DigitsValueNat(n: nat)
    ensures DigitsValue(NatToString(n)) == n
  {
    if n >= 10 {
      DigitsValueNat(n / 10);
      var r := NatToString(n);
      assert r[..|r| - 1] == NatToString(n / 10);
    }
  }

  lemma {:induction false} LeadingDigitsOf(ds: string, t: string)
    requires forall i :: 0 <= i < |ds| ==> IsDigit(ds[i])
    requires |t| == 0 || !IsDigit(t[0])
    ensures LeadingDigits(ds + t) == ds
    decreases |ds|
  {
    if |ds| > 0 {
      assert (ds + t)[1..] == ds[1..] + t;
      LeadingDigitsOf(ds[1..], t);
    }
  }

  /** Rendering a number and reading it back round-trips, whatever non-digit text follows. */
  lemma ParseNatToString(n: nat, t: string)
    requires |t| == 0 || !IsDigit(t[0])
    ensures ParseLeadingNat(NatToString(n) + t) == (n, t)
  {
    LeadingDigitsOf(NatToString(n), t);
    DigitsValueNat(n);
    assert (NatToString(n) + t)[|NatToString(n)|..] == t;
  }

  /** `s.replace(pat, rep)`: every non-overlapping occurrence, scanning left to right. */
  function ReplaceAll(s: string, pat: string, rep: string): string
    requires |pat| > 0
    decreases |s|
  {
    if |s| == 0 then ""
    else if StartsWith(s, pat) then rep + ReplaceAll(s[|pat|..], pat, rep)
    else [s[0]] + ReplaceAll(s[1..], pat, rep)
  }

  lemma {:induction false} ReplaceAllAbsent(s: string, pat: string, rep: string)
    requires |pat| > 0 && !Contains(s, pat)
    ensures ReplaceAll(s, pat, rep) == s
    decreases |s|
  {
    if |s| > 0 {
      ReplaceAllAbsent(s[1..], pat, rep);
    }
  }

  /** Removing a prefix marker that does not occur again yields exactly the rest. */
  lemma ReplacePrefixMarker(pat: string, x: string)
    requires |pat| > 0 && !Contains(x, pat)
    ensures ReplaceAll(pat + x, pat, "") == x
  {
    assert StartsWith(pat + x, pat);
    assert (pat + x)[|pat|..] == x;
    ReplaceAllAbsent(x, pat, "");
  }
}
