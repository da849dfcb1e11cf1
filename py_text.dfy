/**
 * The pieces of Python's `str` behaviour that the modelled code relies on:
 * `str.isspace`, `str.strip`, `str.lower` on ASCII letters, `str(int)` and
 * `int(str)`.
 */
module PyText {
  import opened Wrappers

  /** Characters for which Python's `str.isspace()` holds. */
  const Whitespace: set<char> := {
    '\t', '\n', '\U{0b}', '\U{0c}', '\r', '\U{1c}', '\U{1d}', '\U{1e}', '\U{1f}', ' ',
    '\U{85}', '\U{a0}', '\U{1680}', '\U{2000}', '\U{2001}', '\U{2002}', '\U{2003}',
    '\U{2004}', '\U{2005}', '\U{2006}', '\U{2007}', '\U{2008}', '\U{2009}', '\U{200a}',
    '\U{2028}', '\U{2029}', '\U{202f}', '\U{205f}', '\U{3000}'
  }

  /** Length of the longest prefix of `s` made of characters in `drop`. */
  function LeadingRun(s: string, drop: set<char>): (n: nat)
    ensures n <= |s|
    ensures forall k :: 0 <= k < n ==> s[k] in drop
    ensures n < |s| ==> s[n] !in drop
  {
    if s == [] || s[0] !in drop then 0 else 1 + LeadingRun(s[1..], drop)
  }

  /** Length of the longest suffix of `s` made of characters in `drop`. */
  function TrailingRun(s: string, drop: set<char>): (n: nat)
    ensures n <= |s|
    ensures forall k :: |s| - n <= k < |s| ==> s[k] in drop
    ensures n < |s| ==> s[|s| - 1 - n] !in drop
  {
    if s == [] || s[|s| - 1] !in drop then 0 else 1 + TrailingRun(s[..|s| - 1], drop)
  }

  /**
   * Python `s.strip(chars)`: `s` without its longest leading and trailing
   * runs of characters in `drop` (`s.strip()` is `drop == Whitespace`).
   */
  function Strip(s: string, drop: set<char>): (r: string)
    ensures r != [] ==> r[0] !in drop && r[|r| - 1] !in drop
  {
    var i := LeadingRun(s, drop);
    var t := s[i..];
    t[..|t| - TrailingRun(t, drop)]
  }

  /** The stripped text is the slice of `s` between the two runs, and everything outside it is in `drop`. */
  lemma StripShape(s: string, drop: set<char>)
    ensures LeadingRun(s, drop) + |Strip(s, drop)| <= |s|
    ensures Strip(s, drop) == s[LeadingRun(s, drop)..LeadingRun(s, drop) + |Strip(s, drop)|]
    ensures forall k :: 0 <= k < |s| && !(LeadingRun(s, drop) <= k < LeadingRun(s, drop) + |Strip(s, drop)|) ==> s[k] in drop
  {
    var i := LeadingRun(s, drop);
    var t := s[i..];
    var n := TrailingRun(t, drop);
    var r := t[..|t| - n];
    assert Strip(s, drop) == r;
    assert r == s[i..i + |r|];
    forall k | 0 <= k < |s| && !(i <= k < i + |r|)
      ensures s[k] in drop
    {
      if k >= i {
        assert s[k] == t[k - i];
      }
    }
  }

  /** Stripping twice strips nothing more. */
  lemma StripIdempotent(s: string, drop: set<char>)
    ensures Strip(Strip(s, drop), drop) == Strip(s, drop)
  {
    var r := Strip(s, drop);
    if r != [] {
      StripShape(r, drop);
      assert LeadingRun(r, drop) == 0;
      assert TrailingRun(r[LeadingRun(r, drop)..], drop) == 0;
      assert r[0..] == r;
    }
  }

  /** A string with no character of `drop` at either end is left as it is. */
  lemma StripUntouched(s: string, drop: set<char>)
    requires s == [] || (s[0] !in drop && s[|s| - 1] !in drop)
    ensures Strip(s, drop) == s
  {
    if s != [] {
      assert s[0..] == s;
    }
  }

  /** Python `c.lower()` on the ASCII letters; every other character is kept. */
  function LowerChar(c: char): char {
    if 'A' <= c <= 'Z' then (c as int + 32) as char else c
  }

  /** Python `s.lower()`, for ASCII letters. */
  function Lower(s: string): (r: string)
    ensures |r| == |s|
    ensures forall k :: 0 <= k < |s| ==> r[k] == LowerChar(s[k])
  {
    seq(|s|, k requires 0 <= k < |s| => LowerChar(s[k]))
  }

  /** Lower-casing is idempotent. */
  lemma LowerIdempotent(s: string)
    ensures Lower(Lower(s)) == Lower(s)
  {
  }

  predicate IsDigit(c: char) {
    '0' <= c <= '9'
  }

  function DigitChar(d: nat): (c: char)
    requires d < 10
    ensures IsDigit(c) && c as int - '0' as int == d
  {
    ('0' as int + d) as char
  }

  /** Decimal digits of `n`, most significant first, without leading zeros. */
  function NatDigits(n: nat): (r: string)
    ensures r != []
    ensures forall k :: 0 <= k < |r| ==> IsDigit(r[k])
    ensures r[0] == '0' ==> n == 0
  {
    if n < 10 then [DigitChar(n)] else NatDigits(n / 10) + [DigitChar(n % 10)]
  }

  /** Python `str(n)` for an integer `n`. */
  function DecimalString(n: int): (r: string)
    ensures r != []
    ensures n >= 0 ==> r == NatDigits(n)
    ensures n < 0 ==> r == "-" + NatDigits(-n)
  {
    if n < 0 then "-" + NatDigits(-n) else NatDigits(n)
  }

  /**
   * The digit strings Python's `int()` accepts after the sign: decimal digits,
   * with single underscores allowed between two digits.
   */
  predicate WellFormedDigits(t: string) {
    && t != []
    && IsDigit(t[0])
    && IsDigit(t[|t| - 1])
    && (forall k :: 0 <= k < |t| ==> IsDigit(t[k]) || t[k] == '_')
    && (forall k :: 0 <= k < |t| - 1 ==> !(t[k] == '_' && t[k + 1] == '_'))
  }

  /** The number a digit string denotes, underscores ignored. */
  function DigitsValue(t: string): nat {
    if t == [] then 0
    else if IsDigit(t[|t| - 1]) then 10 * DigitsValue(t[..|t| - 1]) + (t[|t| - 1] as int - '0' as int)
    else DigitsValue(t[..|t| - 1])
  }

  /** Python `int(s)` on a `str` of ASCII digits: `None` where it raises `ValueError`. */
  function ParseInt(s: string): Option<int> {
    var t := Strip(s, Whitespace);
    if t == [] then None
    else if t[0] == '-' || t[0] == '+' then
      if WellFormedDigits(t[1..]) then
        var v: int := DigitsValue(t[1..]);
        Some(if t[0] == '-' then -v else v)
      else None
    else if WellFormedDigits(t) then Some(DigitsValue(t))
    else None
  }

  lemma {:induction false} NatDigitsValue(n: nat)
    ensures WellFormedDigits(NatDigits(n))
    ensures DigitsValue(NatDigits(n)) == n
  {
    var r := NatDigits(n);
    if n >= 10 {
      NatDigitsValue(n / 10);
      assert r[..|r| - 1] == NatDigits(n / 10);
    }
  }

  /** `int(str(n)) == n`: the decimal rendering of an integer parses back to it. */
  lemma {:induction false} ParseDecimalString(n: int)
    ensures ParseInt(DecimalString(n)) == Some(n)
  {
    var r := DecimalString(n);
    var m: nat := if n < 0 then -n else n;
    var digits := NatDigits(m);
    NatDigitsValue(m);
    NotSpace(r[0]);
    NotSpace(r[|r| - 1]);
    StripUntouched(r, Whitespace);
    if n < 0 {
      assert r[1..] == digits;
    } else {
      assert r == digits;
    }
  }

  lemma NotSpace(c: char)
    requires IsDigit(c) || c == '-'
    ensures c !in Whitespace
  {
  }

  /**
   * An ASCII character that is no digit, sign, underscore or whitespace makes
   * `int()` fail (Python also reads other Unicode decimal digits; the model does not).
   */
  lemma ParseIntRejectsForeignChar(s: string, k: nat)
    requires k < |s|
    requires !IsDigit(s[k]) && s[k] !in {'_', '+', '-'} && s[k] !in Whitespace
    ensures ParseInt(s) == None
  {
    var t := Strip(s, Whitespace);
    var i := LeadingRun(s, Whitespace);
    StripShape(s, Whitespace);
    assert i <= k < i + |t|;
    assert t[k - i] == s[k];
    if t[0] == '-' || t[0] == '+' {
      assert k - i > 0;
      assert t[1..][k - i - 1] == s[k];
    }
  }

  /** Python `s.rfind(c, 0, n)`: the last position before `n` holding `c`, or -1. */
  function RFind(s: string, c: char, n: nat): (i: int)
    requires n <= |s|
    ensures -1 <= i < n
    ensures i >= 0 ==> s[i] == c
    ensures forall k :: i < k < n ==> s[k] != c
  {
    if n == 0 then -1 else if s[n - 1] == c then n - 1 else RFind(s, c, n - 1)
  }

  /** The position of the last `c` before `n` is `rfind`'s answer. */
  lemma {:induction false} RFindAt(s: string, c: char, n: nat, j: nat)
    requires j < n <= |s| && s[j] == c
    requires forall k :: j < k < n ==> s[k] != c
    ensures RFind(s, c, n) == j
    decreases n
  {
    if n - 1 != j {
      RFindAt(s, c, n - 1, j);
    }
  }

  /** The text after the last occurrence of `c` (all of `s` when `c` does not occur). */
  function AfterLast(s: string, c: char): (r: string)
    ensures |r| <= |s| && r == s[|s| - |r|..]
    ensures c !in r
    ensures |r| < |s| ==> s[|s| - |r| - 1] == c
  {
    s[RFind(s, c, |s|) + 1..]
  }

  /** Whatever precedes the last `c`, the text after it is recovered. */
  lemma AfterLastOfSuffix(a: string, c: char, b: string)
    requires c !in b
    ensures AfterLast(a + [c] + b, c) == b
  {
    var s := a + [c] + b;
    var i := RFind(s, c, |s|);
    assert s[|a|] == c;
    assert s[|a| + 1..] == b;
  }
}
