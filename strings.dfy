/** The Python string built-ins the core relies on: `str.replace`,
    `str.split`, `str.join`, `str.find`, `str * n`, `int(str)` and `str(int)`. */
module Strings {
  import opened Wrappers

  /** `p` occurs in `s` as a contiguous block. */
  ghost predicate Occurs(s: string, p: string)
  {
    exists i :: 0 <= i && OccursAt(s, p, i)
  }

  /** `p` occurs in `s` starting at index `i`. */
  predicate OccursAt(s: string, p: string, i: nat)
  {
    i + |p| <= |s| && s[i..i + |p|] == p
  }

  /** Python's `s.replace(pat, rep)`: leftmost, non-overlapping occurrences,
      scanned from the start. Every call site uses a non-empty pattern. */
  function Replace(s: string, pat: string, rep: string): string
    requires |pat| > 0
    decreases |s|
  {
    if s == [] then []
    else if pat <= s then rep + Replace(s[|pat|..], pat, rep)
    else [s[0]] + Replace(s[1..], pat, rep)
  }

  /** Python's `s.split(sep)`: the pieces between leftmost non-overlapping
      occurrences of `sep`; never empty. */
  function SplitOn(s: string, sep: string): (parts: seq<string>)
    requires |sep| > 0
    ensures |parts| >= 1
    ensures parts[0] <= s
    decreases |s|
  {
    if s == [] then [[]]
    else if sep <= s then [[]] + SplitOn(s[|sep|..], sep)
    else
      var t := SplitOn(s[1..], sep);
      [[s[0]] + t[0]] + t[1..]
  }

  /** Python's `sep.join(parts)`. */
  function Join(parts: seq<string>, sep: string): string
    requires |parts| >= 1
  {
    if |parts| == 1 then parts[0] else parts[0] + sep + Join(parts[1..], sep)
  }

  /** The identity `s.replace(p, r) == r.join(s.split(p))`. */
  lemma {:induction false} ReplaceIsJoinOfSplit(s: string, p: string, r: string)
    requires |p| > 0
    ensures Replace(s, p, r) == Join(SplitOn(s, p), r)
    decreases |s|
  {
    if s == [] {
    } else if p <= s {
      ReplaceIsJoinOfSplit(s[|p|..], p, r);
      JoinCons([], SplitOn(s[|p|..], p), r);
    } else {
      ReplaceIsJoinOfSplit(s[1..], p, r);
      JoinPrepend(s[0], SplitOn(s[1..], p), r);
    }
  }

  lemma JoinCons(h: string, t: seq<string>, sep: string)
    requires |t| >= 1
    ensures Join([h] + t, sep) == h + sep + Join(t, sep)
  {
    assert ([h] + t)[1..] == t;
  }

  lemma JoinPrepend(c: char, t: seq<string>, sep: string)
    requires |t| >= 1
    ensures Join([[c] + t[0]] + t[1..], sep) == [c] + Join(t, sep)
  {
    if |t| > 1 {
      JoinCons([c] + t[0], t[1..], sep);
      assert t == [t[0]] + t[1..];
      JoinCons(t[0], t[1..], sep);
    }
  }

  /** Replacing a pattern by itself changes nothing. */
  lemma {:induction false} ReplaceBySelf(s: string, p: string)
    requires |p| > 0
    ensures Replace(s, p, p) == s
    decreases |s|
  {
    if s == [] {
    } else if p <= s {
      ReplaceBySelf(s[|p|..], p);
      assert s == p + s[|p|..];
    } else {
      ReplaceBySelf(s[1..], p);
      assert s == [s[0]] + s[1..];
    }
  }

  /** Splitting and re-joining with the same separator gives the input back. */
  lemma SplitJoinRoundTrip(s: string, p: string)
    requires |p| > 0
    ensures Join(SplitOn(s, p), p) == s
  {
    ReplaceIsJoinOfSplit(s, p, p);
    ReplaceBySelf(s, p);
  }

  /** No piece produced by `split` contains the separator: every occurrence
      was consumed. */
  lemma {:induction false} SplitPiecesAvoidSeparator(s: string, p: string)
    requires |p| > 0
    ensures forall k :: 0 <= k < |SplitOn(s, p)| ==> !Occurs(SplitOn(s, p)[k], p)
    decreases |s|
  {
    var parts := SplitOn(s, p);
    if s == [] {
      assert parts == [[]];
    } else if p <= s {
      SplitPiecesAvoidSeparator(s[|p|..], p);
      assert parts[1..] == SplitOn(s[|p|..], p);
      forall k | 0 <= k < |parts| ensures !Occurs(parts[k], p) {
        if k > 0 {
          assert parts[k] == SplitOn(s[|p|..], p)[k - 1];
        }
      }
    } else {
      SplitPiecesAvoidSeparator(s[1..], p);
      var t := SplitOn(s[1..], p);
      assert parts == [[s[0]] + t[0]] + t[1..];
      forall k | 0 <= k < |parts| ensures !Occurs(parts[k], p) {
        if k == 0 {
          var h := [s[0]] + t[0];
          assert h <= s;
          if Occurs(h, p) {
            var i :| 0 <= i && OccursAt(h, p, i);
            if i == 0 {
              assert false;
            } else {
              assert t[0][i - 1..i - 1 + |p|] == h[i..i + |p|];
              assert OccursAt(t[0], p, i - 1);
              assert false;
            }
          }
        } else {
          assert parts[k] == t[k];
        }
      }
    }
  }

  /** With no occurrence of the pattern, replacing does nothing. */
  lemma {:induction false} ReplaceAbsent(s: string, p: string, r: string)
    requires |p| > 0
    requires !Occurs(s, p)
    ensures Replace(s, p, r) == s
    decreases |s|
  {
    hide Replace;
    if s == [] {
      ReplaceEmpty(p, r);
    } else {
      assert p <= s ==> OccursAt(s, p, 0);
      forall i | 0 <= i && OccursAt(s[1..], p, i)
        ensures OccursAt(s, p, i + 1)
      {
        assert s[i + 1..i + 1 + |p|] == s[1..][i..i + |p|];
      }
      ReplaceAbsent(s[1..], p, r);
      ReplaceNoMatch(s, p, r);
      assert [s[0]] + s[1..] == s;
    }
  }

  /** One step of `Replace` where the pattern does not occur at the start. */
  lemma ReplaceNoMatch(s: string, p: string, r: string)
    requires s != [] && |p| > 0 && !(p <= s)
    ensures Replace(s, p, r) == [s[0]] + Replace(s[1..], p, r)
  {
  }

  /** A one-character pattern occurs exactly when the character does. */
  lemma OccursChar(s: string, c: char)
    ensures Occurs(s, [c]) <==> c in s
  {
    if c in s {
      var i :| 0 <= i < |s| && s[i] == c;
      assert s[i..i + 1] == [c];
      assert OccursAt(s, [c], i);
    }
    if Occurs(s, [c]) {
      var i :| 0 <= i && OccursAt(s, [c], i);
      assert s[i] == s[i..i + 1][0];
    }
  }

  /** Replacing a single character distributes over concatenation. */
  lemma {:induction false} ReplaceCharAppend(a: string, b: string, c: char, r: string)
    ensures Replace(a + b, [c], r) == Replace(a, [c], r) + Replace(b, [c], r)
    decreases |a|
  {
    hide *;
    if a == [] {
      ReplaceEmpty([c], r);
      assert a + b == b;
    } else {
      var t := a[1..];
      ReplaceCharAppend(t, b, c, r);
      ReplaceCharCons(a, c, r);
      ReplaceCharCons(a + b, c, r);
      assert (a + b)[0] == a[0] && (a + b)[1..] == t + b;
      var x, y, z := if a[0] == c then r else [a[0]], Replace(t, [c], r), Replace(b, [c], r);
      assert x + (y + z) == (x + y) + z;
    }
  }

  lemma ReplaceEmpty(pat: string, rep: string)
    requires |pat| > 0
    ensures Replace([], pat, rep) == []
  {
  }

  /** One step of replacing a single character. */
  lemma ReplaceCharCons(s: string, c: char, r: string)
    requires s != []
    ensures Replace(s, [c], r) == (if s[0] == c then r else [s[0]]) + Replace(s[1..], [c], r)
  {
    assert [c] <= s <==> s[0] == c;
  }

  /** Replacing a character that does not occur does nothing. */
  lemma ReplaceCharAbsent(s: string, c: char, r: string)
    requires c !in s
    ensures Replace(s, [c], r) == s
  {
    OccursChar(s, c);
    ReplaceAbsent(s, [c], r);
  }

  /** Which characters a one-character replacement leaves. */
  lemma {:induction false} ReplaceCharMembership(s: string, c: char, r: string, d: char)
    ensures d in Replace(s, [c], r) <==> (d in s && d != c) || (c in s && d in r)
    decreases |s|
  {
    if s != [] {
      ReplaceCharMembership(s[1..], c, r, d);
      assert [c] <= s <==> s[0] == c;
      assert s == [s[0]] + s[1..];
    }
  }

  /** A string whose first character does not start the pattern keeps that
      first character. */
  lemma ReplaceKeepsHead(s: string, p: string, r: string)
    requires s != [] && p != [] && s[0] != p[0]
    ensures Replace(s, p, r) != [] && Replace(s, p, r)[0] == s[0]
  {
    assert !(p <= s);
  }

  /** One step of `Replace` where the pattern does not start. */
  lemma ReplaceSkip(s: string, p: string, r: string)
    requires s != [] && p != [] && s[0] != p[0]
    ensures Replace(s, p, r) == [s[0]] + Replace(s[1..], p, r)
  {
    assert !(p <= s);
  }

  /** The image of a one-character string under a one-character replacement. */
  lemma ReplaceCharSingle(x: char, c: char, r: string)
    ensures Replace([x], [c], r) == if x == c then r else [x]
  {
    assert [c] <= [x] <==> x == c;
    assert [x][1..] == [];
  }

  /** The concatenation of `f` applied to each character, in order. */
  function FlatMap(f: char -> string, s: string): string
  {
    if s == [] then [] else f(s[0]) + FlatMap(f, s[1..])
  }

  lemma FlatMapEmpty(f: char -> string)
    ensures FlatMap(f, []) == []
  {
  }

  lemma FlatMapCons(f: char -> string, s: string)
    requires s != []
    ensures FlatMap(f, s) == f(s[0]) + FlatMap(f, s[1..])
  {
  }

  lemma {:induction false} FlatMapAppend(f: char -> string, a: string, b: string)
    ensures FlatMap(f, a + b) == FlatMap(f, a) + FlatMap(f, b)
    decreases |a|
  {
    hide *;
    if a == [] {
      FlatMapEmpty(f);
      assert a + b == b;
    } else {
      var t := a[1..];
      FlatMapAppend(f, t, b);
      FlatMapCons(f, a);
      FlatMapCons(f, a + b);
      assert (a + b)[0] == a[0] && (a + b)[1..] == t + b;
      var x, y, z := f(a[0]), FlatMap(f, t), FlatMap(f, b);
      assert x + (y + z) == (x + y) + z;
    }
  }

  /** A character of the image comes from the image of some character. */
  lemma {:induction false} FlatMapMember(f: char -> string, s: string, d: char)
    requires d in FlatMap(f, s)
    ensures exists i :: 0 <= i < |s| && d in f(s[i])
  {
    if d !in f(s[0]) {
      FlatMapMember(f, s[1..], d);
      var i :| 0 <= i < |s[1..]| && d in f(s[1..][i]);
      assert s[1..][i] == s[i + 1];
    }
  }

  /** A character no image contains is absent from the whole image. */
  lemma {:induction false} FlatMapAvoids(f: char -> string, s: string, d: char)
    requires forall c :: d !in f(c)
    ensures d !in FlatMap(f, s)
  {
    if d in FlatMap(f, s) {
      FlatMapMember(f, s, d);
    }
  }

  /** Python's `s.find(p)`: the first index of `p` in `s`, or -1. */
  function Find(s: string, p: string): (i: int)
    ensures -1 <= i
    ensures i >= 0 ==> i + |p| <= |s|
    decreases |s|
  {
    if |s| < |p| then -1
    else if p <= s then 0
    else
      var k := Find(s[1..], p);
      if k == -1 then -1 else k + 1
  }

  /** What `Find` returns is an occurrence, and -1 means there is none. */
  lemma {:induction false} FindMeaning(s: string, p: string)
    ensures Find(s, p) >= 0 ==> OccursAt(s, p, Find(s, p))
    ensures Find(s, p) == -1 <==> !Occurs(s, p)
    decreases |s|
  {
    if |s| < |p| {
      assert !Occurs(s, p);
    } else if p <= s {
      assert OccursAt(s, p, 0);
    } else {
      FindMeaning(s[1..], p);
      var k := Find(s[1..], p);
      if k == -1 {
        NotOccursStep(s, p);
      } else {
        assert s[k + 1..k + 1 + |p|] == s[1..][k..k + |p|];
        assert OccursAt(s, p, k + 1);
      }
    }
  }

  lemma NotOccursStep(s: string, p: string)
    requires |s| >= |p| && !(p <= s) && !Occurs(s[1..], p)
    ensures !Occurs(s, p)
  {
    if Occurs(s, p) {
      var i :| 0 <= i && OccursAt(s, p, i);
      if i == 0 {
        assert false;
      } else {
        assert s[1..][i - 1..i - 1 + |p|] == p;
        assert OccursAt(s[1..], p, i - 1);
        assert false;
      }
    }
  }

  /** `Find` returns the leftmost occurrence. */
  lemma {:induction false} FindIsFirst(s: string, p: string, j: nat)
    requires OccursAt(s, p, j)
    ensures 0 <= Find(s, p) <= j
    decreases |s|
  {
    if j == 0 {
      assert s[..|p|] == p;
    } else if !(p <= s) {
      {
        assert s[1..][j - 1..j - 1 + |p|] == p;
        FindIsFirst(s[1..], p, j - 1);
      }
    }
  }

  /** Python's `s * n` for a string and a count. */
  function Repeat(s: string, n: nat): (r: string)
    ensures |r| == |s| * n
  {
    if n == 0 then [] else s + Repeat(s, n - 1)
  }

  // ---------------------------------------------------------------------
  // int(str) and str(int)
  // ---------------------------------------------------------------------

  predicate IsDigit(c: char) { '0' <= c <= '9' }

  /** The characters that `int()` skips around a number: the ASCII spaces
      and tab to carriage return, and the non-ASCII characters for which
      `str.isspace` holds. The information separators `\x1c` to `\x1f`
      satisfy `str.isspace` but are not skipped. */
  predicate IsSpace(c: char)
  {
    || c == ' ' || '\t' <= c <= '\r'
    || c == '\U{85}' || c == '\U{A0}' || c == '\U{1680}' || '\U{2000}' <= c <= '\U{200A}'
    || c == '\U{2028}' || c == '\U{2029}' || c == '\U{202F}' || c == '\U{205F}' || c == '\U{3000}'
  }

  function StripSpaces(s: string): (r: string)
    ensures |r| <= |s|
    decreases |s|
  {
    if s == [] then []
    else if IsSpace(s[0]) then StripSpaces(s[1..])
    else if IsSpace(s[|s| - 1]) then StripSpaces(s[..|s| - 1])
    else s
  }

  /** A base-10 literal as `int()` accepts it: digits, with single
      underscores allowed between two digits. */
  predicate IsDigitRun(s: string)
  {
    && |s| > 0
    && IsDigit(s[0]) && IsDigit(s[|s| - 1])
    && (forall i :: 0 <= i < |s| ==> IsDigit(s[i]) || s[i] == '_')
    && (forall i :: 0 <= i < |s| - 1 && s[i] == '_' ==> IsDigit(s[i + 1]))
  }

  /** The value of a digit run, underscores ignored. */
  function DigitsValue(s: string): nat
    decreases |s|
  {
    if s == [] then 0
    else if IsDigit(s[|s| - 1]) then 10 * DigitsValue(s[..|s| - 1]) + (s[|s| - 1] as int - '0' as int)
    else DigitsValue(s[..|s| - 1])
  }

  /** `int()` refuses a leading information separator: `'\x1c31'` raises. */
  lemma ParseIntSeparatorRefused()
    ensures ParseInt("\U{1C}31") == None
  {
    var t := "\U{1C}31";
    assert !IsSpace(t[0]) && !IsSpace(t[|t| - 1]);
    assert StripSpaces(t) == t;
    assert !IsDigit(t[0]);
  }

  /** `int()` skips a leading no-break space: `'\xa031'` reads as 31. */
  lemma ParseIntSkipsNoBreakSpace()
    ensures ParseInt("\U{A0}31") == Some(31)
  {
    var t := "\U{A0}31";
    assert IsSpace(t[0]) && !IsSpace(t[1..][0]) && !IsSpace(t[1..][|t[1..]| - 1]);
    assert StripSpaces(t) == "31";
    assert DigitsValue("3") == 3;
    assert "31"[..1] == "3";
  }

  /** Python's `int(s)` on a string with ASCII digits: surrounding
      whitespace, an optional sign, then a digit run; `None` stands for the
      `ValueError` it raises otherwise. */
  function ParseInt(s: string): Option<int>
  {
    var t := StripSpaces(s);
    if |t| > 0 && (t[0] == '+' || t[0] == '-') then
      if IsDigitRun(t[1..]) then
        Some(if t[0] == '-' then -(DigitsValue(t[1..]) as int) else DigitsValue(t[1..]))
      else None
    else if IsDigitRun(t) then Some(DigitsValue(t))
    else None
  }

  function DigitChar(d: nat): (c: char)
    requires d < 10
    ensures IsDigit(c) && c as int - '0' as int == d
  {
    ('0' as int + d) as char
  }

  /** Decimal digits of a natural number, most significant first. */
  function NatToDigits(n: nat): (r: string)
    ensures |r| > 0
    ensures forall i :: 0 <= i < |r| ==> IsDigit(r[i])
    decreases n
  {
    if n < 10 then [DigitChar(n)] else NatToDigits(n / 10) + [DigitChar(n % 10)]
  }

  /** Python's `str(n)` for an integer. */
  function IntToString(n: int): (r: string)
  {
    if n < 0 then "-" + NatToDigits(-n) else NatToDigits(n)
  }

  lemma {:induction false} NatToDigitsValue(n: nat)
    ensures IsDigitRun(NatToDigits(n)) && DigitsValue(NatToDigits(n)) == n
    decreases n
  {
    var r := NatToDigits(n);
    if n >= 10 {
      NatToDigitsValue(n / 10);
      assert r[..|r| - 1] == NatToDigits(n / 10);
    }
  }

  /** `int(str(n)) == n`. */
  lemma IntToStringRoundTrip(n: int)
    ensures ParseInt(IntToString(n)) == Some(n)
  {
    var s := IntToString(n);
    var d := NatToDigits(if n < 0 then -n else n);
    NatToDigitsValue(if n < 0 then -n else n);
    assert s[|s| - 1] == d[|d| - 1] && (n >= 0 ==> s[0] == d[0]);
    assert !IsSpace('-') && !IsSpace(d[0]) && !IsSpace(d[|d| - 1]);
    StripSpacesUnchanged(s);
    hide IsSpace, StripSpaces, NatToDigits;
    if n < 0 {
      assert s[1..] == d;
    }
  }

  /** A string that neither starts nor ends with a space is its own strip. */
  lemma StripSpacesUnchanged(s: string)
    requires s != [] && !IsSpace(s[0]) && !IsSpace(s[|s| - 1])
    ensures StripSpaces(s) == s
  {
  }
}
