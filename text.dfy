/**
 * The string operations the program relies on, written out: Python's
 * `str.strip()`, decimal digits and numerals, `str(int)`, `str.lower()`,
 * the substring test `needle in s`, and the ordering `<=` on strings.
 */
module Text {

  /** The characters for which Python's `str.isspace()` holds, and so the ones `str.strip()` removes. */
  predicate IsSpace(c: char)
  {
    var u := c as int;
    || (0x09 <= u <= 0x0D) || (0x1C <= u <= 0x20)
    || u == 0x85 || u == 0xA0 || u == 0x1680
    || (0x2000 <= u <= 0x200A)
    || u == 0x2028 || u == 0x2029 || u == 0x202F || u == 0x205F || u == 0x3000
  }

  function StripLeft(s: string): (r: string)
    ensures |r| <= |s| && r == s[|s| - |r|..]
    ensures r == [] || !IsSpace(r[0])
    ensures forall k :: 0 <= k < |s| - |r| ==> IsSpace(s[k])
  {
    if s != [] && IsSpace(s[0]) then StripLeft(s[1..]) else s
  }

  function StripRight(s: string): (r: string)
    ensures |r| <= |s| && r == s[..|r|]
    ensures r == [] || !IsSpace(r[|r| - 1])
    ensures forall k :: |r| <= k < |s| ==> IsSpace(s[k])
  {
    if s != [] && IsSpace(s[|s| - 1]) then StripRight(s[..|s| - 1]) else s
  }

  /**
   * `str.strip()`: the longest slice of `s` that neither starts nor ends
   * with whitespace, everything cut off on either side being whitespace.
   */
  function Strip(s: string): (r: string)
  {
    StripRight(StripLeft(s))
  }

  /** Where the stripped text starts in `s`: the number of leading whitespace characters. */
  function StripStart(s: string): nat
  {
    |s| - |StripLeft(s)|
  }

  lemma SuffixTrailing(s: string, i: nat, l: string)
    requires i <= |s| && l == s[i..]
    ensures var r := StripRight(l);
      && i + |r| <= |s| && r == s[i..i + |r|]
      && forall k :: i + |r| <= k < |s| ==> IsSpace(s[k])
  {
    var r := StripRight(l);
    forall k | i + |r| <= k < |s| ensures IsSpace(s[k]) {
      assert s[k] == l[k - i];
    }
  }

  /**
   * `Strip(s)` is the slice of `s` starting at `StripStart(s)`: everything cut
   * off on either side is whitespace, and the result neither starts nor ends
   * with whitespace.
   */
  lemma StripIsSlice(s: string)
    ensures var r, i := Strip(s), StripStart(s);
      && i + |r| <= |s| && r == s[i..i + |r|]
      && (forall k :: 0 <= k < i ==> IsSpace(s[k]))
      && (forall k :: i + |r| <= k < |s| ==> IsSpace(s[k]))
      && (r == [] || (!IsSpace(r[0]) && !IsSpace(r[|r| - 1])))
  {
    StripLeading(s);
    StripSliceTrailing(s);
    StripEnds(s);
  }

  /** Everything `str.strip()` cuts off at the start is whitespace. */
  lemma StripLeading(s: string)
    ensures forall k :: 0 <= k < StripStart(s) ==> IsSpace(s[k])
  {
  }

  /** The stripped text is the slice at `StripStart(s)`, and everything after it is whitespace. */
  lemma StripSliceTrailing(s: string)
    ensures var r, i := Strip(s), StripStart(s);
      && i + |r| <= |s| && r == s[i..i + |r|]
      && (forall k :: i + |r| <= k < |s| ==> IsSpace(s[k]))
  {
    SuffixTrailing(s, StripStart(s), StripLeft(s));
  }

  /** The stripped text neither starts nor ends with whitespace. */
  lemma StripEnds(s: string)
    ensures var r := Strip(s); r == [] || (!IsSpace(r[0]) && !IsSpace(r[|r| - 1]))
  {
    var l := StripLeft(s);
    var r := StripRight(l);
    if r != [] {
      assert r[0] == l[0];
    }
  }

  lemma StripIdempotent(s: string)
    ensures Strip(Strip(s)) == Strip(s)
  {
    var l := StripLeft(s);
    var r := Strip(s);
    if r != [] {
      assert r[0] == l[0];
      StripUnchanged(r);
    }
  }

  /** A string that neither starts nor ends with whitespace is left as it is. */
  lemma StripUnchanged(s: string)
    requires s != [] && !IsSpace(s[0]) && !IsSpace(s[|s| - 1])
    ensures Strip(s) == s
  {
    assert StripLeft(s) == s;
  }

  predicate IsDigit(c: char)
  {
    '0' <= c <= '9'
  }

  lemma DigitNotSpace(c: char)
    requires IsDigit(c)
    ensures !IsSpace(c)
  {
  }

  predicate AllDigits(s: string)
  {
    forall k :: 0 <= k < |s| ==> IsDigit(s[k])
  }

  function DigitValue(c: char): (d: nat)
    requires IsDigit(c)
    ensures d < 10
  {
    (c as int - '0' as int) as nat
  }

  function DigitChar(d: nat): (c: char)
    requires d < 10
    ensures IsDigit(c) && DigitValue(c) == d
  {
    ('0' as int + d) as char
  }

  /** The number a string of decimal digits stands for (most significant digit first). */
  function DigitsValue(s: string): nat
    requires AllDigits(s)
  {
    if s == [] then 0 else DigitsValue(s[..|s| - 1]) * 10 + DigitValue(s[|s| - 1])
  }

  /** `str(n)` for a natural number: its decimal digits without leading zeros. */
  function NatToString(n: nat): (s: string)
    ensures |s| > 0 && AllDigits(s)
    ensures |s| > 1 ==> s[0] != '0'
  {
    if n < 10 then [DigitChar(n)] else NatToString(n / 10) + [DigitChar(n % 10)]
  }

  /** `str(i)` for any integer: a minus sign before the digits of a negative one. */
  function IntToString(i: int): (s: string)
  {
    if i < 0 then "-" + NatToString(-i) else NatToString(i)
  }

  lemma {:induction false} NatToStringValue(n: nat)
    ensures DigitsValue(NatToString(n)) == n
  {
    if n >= 10 {
      var s := NatToString(n);
      assert s[..|s| - 1] == NatToString(n / 10);
      NatToStringValue(n / 10);
    }
  }

  /** `str()` of an integer is read back as the same integer. */
  lemma IntToStringValue(i: int)
    ensures var s := IntToString(i);
      if i < 0 then s[0] == '-' && AllDigits(s[1..]) && -(DigitsValue(s[1..]) as int) == i
      else AllDigits(s) && DigitsValue(s) == i
  {
    if i < 0 {
      assert IntToString(i)[1..] == NatToString(-i);
      NatToStringValue(-i);
    } else {
      NatToStringValue(i);
    }
  }

  /** `str.lower()` on one character, for the ASCII letters. */
  function LowerChar(c: char): (r: char)
    ensures 'A' <= c <= 'Z' ==> r as int == c as int + 32
    ensures !('A' <= c <= 'Z') ==> r == c
  {
    if 'A' <= c <= 'Z' then (c as int + 32) as char else c
  }

  function Lower(s: string): (r: string)
    ensures |r| == |s| && forall k :: 0 <= k < |s| ==> r[k] == LowerChar(s[k])
  {
    seq(|s|, k requires 0 <= k < |s| => LowerChar(s[k]))
  }

  lemma LowerIdempotent(s: string)
    ensures Lower(Lower(s)) == Lower(s)
  {
  }

  predicate IsPrefix(p: string, s: string)
  {
    |p| <= |s| && s[..|p|] == p
  }

  /** `needle in s`: `needle` occurs in `s` as a contiguous substring. */
  predicate Contains(s: string, needle: string)
    decreases |s|
  {
    IsPrefix(needle, s) || (s != [] && Contains(s[1..], needle))
  }

  /** A copy of `needle` starts at position `i` of `s`. */
  predicate OccursAt(s: string, needle: string, i: nat)
  {
    i + |needle| <= |s| && s[i..i + |needle|] == needle
  }

  /** `Contains` holds exactly when some position of `s` starts a copy of `needle`. */
  lemma {:induction false} ContainsIff(s: string, needle: string)
    ensures Contains(s, needle) <==> exists i: nat :: OccursAt(s, needle, i)
    decreases |s|
  {
    if IsPrefix(needle, s) {
      assert OccursAt(s, needle, 0);
    } else if s != [] {
      ContainsIff(s[1..], needle);
      if Contains(s[1..], needle) {
        var i: nat :| OccursAt(s[1..], needle, i);
        assert s[i + 1..i + 1 + |needle|] == s[1..][i..i + |needle|];
        assert OccursAt(s, needle, i + 1);
      }
      if exists i: nat :: OccursAt(s, needle, i) {
        var i: nat :| OccursAt(s, needle, i);
        assert i > 0;
        assert s[1..][i - 1..i - 1 + |needle|] == s[i..i + |needle|];
        assert OccursAt(s[1..], needle, i - 1);
      }
    }
  }

  lemma ContainsEmpty(s: string)
    ensures Contains(s, "")
  {
  }

  /** Python's `<=` on strings: lexicographic by code point, a proper prefix coming first. */
  predicate LexLe(a: string, b: string)
    decreases |a|
  {
    a == [] || (b != [] && (a[0] < b[0] || (a[0] == b[0] && LexLe(a[1..], b[1..]))))
  }

  lemma {:induction false} LexLeTotal(a: string, b: string)
    ensures LexLe(a, b) || LexLe(b, a)
    decreases |a|
  {
    if a != [] && b != [] && a[0] == b[0] {
      LexLeTotal(a[1..], b[1..]);
    }
  }

  lemma {:induction false} LexLeTransitive(a: string, b: string, c: string)
    requires LexLe(a, b) && LexLe(b, c)
    ensures LexLe(a, c)
    decreases |a|
  {
    if a != [] && a[0] == b[0] && b[0] == c[0] {
      LexLeTransitive(a[1..], b[1..], c[1..]);
    }
  }
}
