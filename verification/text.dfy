/**
  The handful of Python `str` operations the matchers rely on, over Dafny strings:
  `strip()`, `lower()`, the substring test `x in y`, `sep.join(xs)`, `int(s)` and
  the ordering `a < b` that `sorted()` uses.
*/
module Text {
  import opened Wrappers

  /** Python's `str.isspace()` on the ASCII range (the characters `strip()` removes there). */
  predicate IsSpace(c: char) {
    c == ' ' || c == '\t' || c == '\n' || c == '\r' || c == '\U{000B}' || c == '\U{000C}'
    || ('\U{001C}' <= c <= '\U{001F}')
  }

  /** `s.lstrip()`. */
  function TrimStart(s: string): string
    decreases |s|
  {
    if |s| > 0 && IsSpace(s[0]) then TrimStart(s[1..]) else s
  }

  /** `lstrip()` drops the leading whitespace and nothing else. */
  lemma {:induction false} TrimStartSpec(s: string)
    ensures var r := TrimStart(s);
            && |r| <= |s| && r == s[|s| - |r|..]
            && (forall i :: 0 <= i < |s| - |r| ==> IsSpace(s[i]))
            && (r == [] || !IsSpace(r[0]))
    decreases |s|
  {
    if |s| > 0 && IsSpace(s[0]) {
      TrimStartSpec(s[1..]);
    }
  }

  /** `s.rstrip()`. */
  function TrimEnd(s: string): string
    decreases |s|
  {
    if |s| > 0 && IsSpace(s[|s| - 1]) then TrimEnd(s[..|s| - 1]) else s
  }

  /** `rstrip()` drops the trailing whitespace and nothing else. */
  lemma {:induction false} TrimEndSpec(s: string)
    ensures var r := TrimEnd(s);
            && |r| <= |s| && r == s[..|r|]
            && (forall i :: |r| <= i < |s| ==> IsSpace(s[i]))
            && (r == [] || !IsSpace(r[|r| - 1]))
    decreases |s|
  {
    if |s| > 0 && IsSpace(s[|s| - 1]) {
      TrimEndSpec(s[..|s| - 1]);
    }
  }

  /**
    `r` is what remains of `s` once the first `i` characters and everything after
    `i + |r|` are cut off, and everything cut off is whitespace.
  */
  predicate TrimmedAt(s: string, r: string, i: int) {
    0 <= i && i + |r| <= |s| && r == s[i..i + |r|]
    && (forall k :: 0 <= k < i ==> IsSpace(s[k]))
    && (forall k :: i + |r| <= k < |s| ==> IsSpace(s[k]))
  }

  /** `s.strip()`. */
  function Strip(s: string): string {
    TrimStart(TrimEnd(s))
  }

  /**
    `strip()` leaves a contiguous piece of `s` with no whitespace at either end,
    and everything cut off on either side is whitespace.
  */
  lemma StripSpec(s: string)
    ensures var r := Strip(s);
            && (r == [] || (!IsSpace(r[0]) && !IsSpace(r[|r| - 1])))
            && exists i :: TrimmedAt(s, r, i)
  {
    var e := TrimEnd(s);
    var r := TrimStart(e);
    TrimEndSpec(s);
    TrimStartSpec(e);
    assert r == s[|e| - |r|..|e|];
    assert TrimmedAt(s, r, |e| - |r|);
  }

  /** `c.lower()` on ASCII letters; every other character is left as it is. */
  function LowerChar(c: char): (r: char)
    ensures !('A' <= r <= 'Z')
    ensures 'a' <= c <= 'z' ==> r == c
    ensures r != c ==> 'A' <= c <= 'Z' && r as int == c as int + 32
  {
    if 'A' <= c <= 'Z' then (c as int + 32) as char else c
  }

  /** `s.lower()`, character by character. */
  function Lower(s: string): string
    decreases |s|
  {
    if s == [] then [] else [LowerChar(s[0])] + Lower(s[1..])
  }

  /** `lower()` keeps the length and lowers each character on its own. */
  lemma {:induction false} LowerSpec(s: string)
    ensures |Lower(s)| == |s|
    ensures forall i :: 0 <= i < |s| ==> Lower(s)[i] == LowerChar(s[i])
    decreases |s|
  {
    if s != [] {
      LowerSpec(s[1..]);
    }
  }

  /** Lowering twice is lowering once. */
  lemma LowerIdempotent(s: string)
    ensures Lower(Lower(s)) == Lower(s)
  {
    LowerSpec(s);
    LowerSpec(Lower(s));
    assert forall i :: 0 <= i < |s| ==> Lower(Lower(s))[i] == Lower(s)[i];
  }

  predicate IsPrefix(p: string, s: string) {
    |p| <= |s| && s[..|p|] == p
  }

  /** Python's substring test `needle in hay`. */
  predicate Contains(hay: string, needle: string)
    decreases |hay|
  {
    IsPrefix(needle, hay) || (|hay| > 0 && Contains(hay[1..], needle))
  }

  predicate OccursAt(hay: string, needle: string, i: int) {
    0 <= i <= |hay| - |needle| && hay[i..i + |needle|] == needle
  }

  lemma SliceOfTail(s: string, a: int, b: int)
    requires 1 <= a <= b <= |s|
    ensures s[a..b] == s[1..][a - 1..b - 1]
  {
  }

  /** `needle in hay` holds exactly when `needle` occurs at some position of `hay`. */
  lemma {:induction false} ContainsAt(hay: string, needle: string)
    ensures Contains(hay, needle) <==> exists i :: OccursAt(hay, needle, i)
    decreases |hay|
  {
    if |hay| == 0 {
      if needle == [] {
        assert OccursAt(hay, needle, 0);
      }
    } else {
      ContainsAt(hay[1..], needle);
      if Contains(hay, needle) {
        if IsPrefix(needle, hay) {
          assert OccursAt(hay, needle, 0);
        } else {
          var j :| OccursAt(hay[1..], needle, j);
          SliceOfTail(hay, j + 1, j + 1 + |needle|);
          assert OccursAt(hay, needle, j + 1);
        }
      } else {
        forall i | 0 <= i <= |hay| - |needle|
          ensures !OccursAt(hay, needle, i)
        {
          if i > 0 {
            SliceOfTail(hay, i, i + |needle|);
            assert !OccursAt(hay[1..], needle, i - 1);
          }
        }
      }
    }
  }

  /** The empty string is in every string. */
  lemma ContainsEmpty(hay: string)
    ensures Contains(hay, "")
  {
    assert IsPrefix("", hay);
  }

  /** Python's `sep.join(xs)`. */
  function Join(sep: string, xs: seq<string>): (r: string)
    decreases |xs|
  {
    if |xs| == 0 then "" else if |xs| == 1 then xs[0] else xs[0] + sep + Join(sep, xs[1..])
  }

  /** With a non-empty separator the join is empty only for `[]` and `[""]`. */
  lemma JoinEmpty(sep: string, xs: seq<string>)
    requires sep != ""
    ensures Join(sep, xs) == "" <==> xs == [] || xs == [""]
  {
    if |xs| >= 2 {
      assert |Join(sep, xs)| >= |sep|;
    }
  }

  /** Every element of `xs` appears in the joined string. */
  lemma {:induction false} JoinContainsEach(sep: string, xs: seq<string>, i: nat)
    requires i < |xs|
    ensures Contains(Join(sep, xs), xs[i])
    decreases |xs|
  {
    var j := Join(sep, xs);
    if |xs| == 1 || i == 0 {
      assert j[0..|xs[0]|] == xs[0];
      assert OccursAt(j, xs[i], 0);
    } else {
      JoinContainsEach(sep, xs[1..], i - 1);
      var rest := Join(sep, xs[1..]);
      ContainsAt(rest, xs[i]);
      var k :| OccursAt(rest, xs[i], k);
      var off := |xs[0]| + |sep|;
      assert j == xs[0] + sep + rest;
      assert j[off + k..off + k + |xs[i]|] == rest[k..k + |xs[i]|];
      assert OccursAt(j, xs[i], off + k);
    }
    ContainsAt(j, xs[i]);
  }

  predicate IsDigit(c: char) {
    '0' <= c <= '9'
  }

  predicate AllDigits(s: string) {
    forall i :: 0 <= i < |s| ==> IsDigit(s[i])
  }

  /** The value of a run of decimal digits. */
  function DigitsValue(s: string): nat
    requires AllDigits(s)
    decreases |s|
  {
    if |s| == 0 then 0 else 10 * DigitsValue(s[..|s| - 1]) + (s[|s| - 1] as int - '0' as int)
  }

  /**
    Python's `int(s)` on already stripped text: an optional sign followed by at
    least one ASCII digit; anything else raises ValueError, here `None`.
  */
  function ParseInt(s: string): Option<int> {
    var negative := |s| > 0 && s[0] == '-';
    var digits := if |s| > 0 && (s[0] == '+' || s[0] == '-') then s[1..] else s;
    if |digits| > 0 && AllDigits(digits) then
      var v: int := DigitsValue(digits);
      Some(if negative then -v else v)
    else
      None
  }

  /** `int(s)` accepts exactly an optional sign followed by digits; an unsigned number is not negative. */
  lemma ParseIntSpec(s: string)
    ensures var r := ParseInt(s);
            && (r.Some? <==> |s| > 0 && (var d := if s[0] == '+' || s[0] == '-' then s[1..] else s;
                                        |d| > 0 && AllDigits(d)))
            && (r.Some? && |s| > 0 && IsDigit(s[0]) ==> r.value >= 0)
  {
  }

  function DigitChar(d: nat): (c: char)
    requires d < 10
    ensures IsDigit(c) && c as int - '0' as int == d
  {
    ('0' as int + d) as char
  }

  /** The decimal rendering of a natural number, as Python's `str(n)` gives it. */
  function ShowNat(n: nat): (r: string)
    ensures |r| > 0 && AllDigits(r)
    decreases n
  {
    if n < 10 then [DigitChar(n)] else ShowNat(n / 10) + [DigitChar(n % 10)]
  }

  function ShowInt(n: int): (r: string)
    ensures |r| > 0
  {
    if n < 0 then "-" + ShowNat(-n) else ShowNat(n)
  }

  lemma {:induction false} DigitsValueShowNat(n: nat)
    ensures DigitsValue(ShowNat(n)) == n
    decreases n
  {
    if n >= 10 {
      var s := ShowNat(n);
      assert s[..|s| - 1] == ShowNat(n / 10);
      DigitsValueShowNat(n / 10);
    }
  }

  /** Reading back the rendering of any integer gives that integer. */
  lemma ParseShowInt(n: int)
    ensures ParseInt(ShowInt(n)) == Some(n)
  {
    if n < 0 {
      var s := ShowInt(n);
      assert s[0] == '-' && s[1..] == ShowNat(-n);
      DigitsValueShowNat(-n);
    } else {
      var s := ShowNat(n);
      assert IsDigit(s[0]);
      DigitsValueShowNat(n);
    }
  }

  /** Python's `a < b` on strings: by code point, a proper prefix first. */
  predicate StrLess(a: string, b: string)
    decreases |a|
  {
    |b| > 0 && (|a| == 0 || a[0] < b[0] || (a[0] == b[0] && StrLess(a[1..], b[1..])))
  }

  lemma {:induction false} StrLessIrreflexive(a: string)
    ensures !StrLess(a, a)
    decreases |a|
  {
    if |a| > 0 {
      StrLessIrreflexive(a[1..]);
    }
  }

  lemma {:induction false} StrLessTransitive(a: string, b: string, c: string)
    requires StrLess(a, b) && StrLess(b, c)
    ensures StrLess(a, c)
    decreases |a|
  {
    if |a| > 0 && a[0] == b[0] && b[0] == c[0] {
      StrLessTransitive(a[1..], b[1..], c[1..]);
    }
  }

  lemma {:induction false} StrLessTotal(a: string, b: string)
    ensures a == b || StrLess(a, b) || StrLess(b, a)
    decreases |a|
  {
    if |a| > 0 && |b| > 0 && a[0] == b[0] {
      StrLessTotal(a[1..], b[1..]);
      if a[1..] == b[1..] {
        assert a == [a[0]] + a[1..] && b == [b[0]] + b[1..];
      }
    }
  }

  /** `a` and `b` agree before position `k` and `a` has the smaller character at `k`. */
  predicate FirstDifference(a: string, b: string, k: int) {
    0 <= k < |a| && k < |b| && a[..k] == b[..k] && a[k] < b[k]
  }

  /** The textbook definition of the string ordering. */
  ghost predicate LexLess(a: string, b: string) {
    (IsPrefix(a, b) && |a| < |b|) || exists k :: FirstDifference(a, b, k)
  }

  lemma {:induction false} StrLessLex(a: string, b: string)
    requires StrLess(a, b)
    ensures LexLess(a, b)
    decreases |a|
  {
    if |a| > 0 && a[0] < b[0] {
      assert FirstDifference(a, b, 0);
    } else if |a| > 0 {
      StrLessLex(a[1..], b[1..]);
      if IsPrefix(a[1..], b[1..]) && |a| < |b| {
        assert b[..|a|] == [b[0]] + b[1..][..|a| - 1];
        assert a == [a[0]] + a[1..];
      } else {
        var k :| FirstDifference(a[1..], b[1..], k);
        assert a[..k + 1] == [a[0]] + a[1..][..k];
        assert b[..k + 1] == [b[0]] + b[1..][..k];
        assert FirstDifference(a, b, k + 1);
      }
    }
  }

  lemma {:induction false} LexStrLess(a: string, b: string)
    requires LexLess(a, b)
    ensures StrLess(a, b)
    decreases |a|
  {
    if |a| > 0 {
      if IsPrefix(a, b) && |a| < |b| {
        assert a[0] == b[..|a|][0];
        assert a[1..] == b[..|a|][1..];
        assert IsPrefix(a[1..], b[1..]);
        LexStrLess(a[1..], b[1..]);
      } else {
        var k :| FirstDifference(a, b, k);
        if k > 0 {
          assert a[0] == a[..k][0] == b[..k][0] == b[0];
          assert a[1..][..k - 1] == a[..k][1..];
          assert b[1..][..k - 1] == b[..k][1..];
          assert FirstDifference(a[1..], b[1..], k - 1);
          LexStrLess(a[1..], b[1..]);
        }
      }
    }
  }

  /**
    The recursive ordering agrees with its textbook definition: `a` is a proper
    prefix of `b`, or at the first position where they differ `a` has the smaller
    character.
  */
  lemma StrLessIff(a: string, b: string)
    ensures StrLess(a, b) <==> LexLess(a, b)
  {
    if StrLess(a, b) {
      StrLessLex(a, b);
    }
    if LexLess(a, b) {
      LexStrLess(a, b);
    }
  }
}
