/** Character classes and small string operations of Python's `str` that the
    pipeline relies on: `str.strip()`, the regular-expression classes `\s` and
    `\d`, the ASCII case folding of `re.IGNORECASE`, and the zero padding of
    `date.isoformat()`. */
module Text {

  /** Python's `str.isspace()`, which is also what `\s` matches in a `str`
      pattern and what `str.strip()` removes. */
  predicate IsSpace(c: char)
  {
    || '\t' <= c <= '\r'
    || '\U{1C}' <= c <= '\U{1F}'
    || c == ' '
    || c == '\U{85}'
    || c == '\U{A0}'
    || c == '\U{1680}'
    || '\U{2000}' <= c <= '\U{200A}'
    || c == '\U{2028}'
    || c == '\U{2029}'
    || c == '\U{202F}'
    || c == '\U{205F}'
    || c == '\U{3000}'
  }

  /** An ASCII decimal digit. */
  predicate IsDigit(c: char)
  {
    '0' <= c <= '9'
  }

  predicate AllSpace(s: string)
  {
    forall i :: 0 <= i < |s| ==> IsSpace(s[i])
  }

  predicate AllDigits(s: string)
  {
    forall i :: 0 <= i < |s| ==> IsDigit(s[i])
  }

  function DigitValue(c: char): (d: nat)
    requires IsDigit(c)
    ensures d < 10
  {
    c as int - '0' as int
  }

  function DigitChar(d: nat): (c: char)
    requires d < 10
    ensures IsDigit(c) && DigitValue(c) == d
  {
    ('0' as int + d) as char
  }

  function Pow10(n: nat): (p: nat)
    ensures p >= 1
  {
    if n == 0 then 1 else 10 * Pow10(n - 1)
  }

  /** The value of a string of decimal digits, read most significant first. */
  function DigitsValue(s: string): (v: nat)
    requires AllDigits(s)
    ensures v < Pow10(|s|)
  {
    if s == [] then 0 else DigitsValue(s[..|s| - 1]) * 10 + DigitValue(s[|s| - 1])
  }

  /** Python's `"%0*d" % (w, n)` for an `n` that fits in `w` digits: `w`
      digits whose value is `n`. */
  function PadDigits(n: nat, w: nat): (r: string)
    requires n < Pow10(w)
    ensures |r| == w && AllDigits(r) && DigitsValue(r) == n
  {
    if w == 0 then ""
    else
      var r := PadDigits(n / 10, w - 1) + [DigitChar(n % 10)];
      assert r[..|r| - 1] == PadDigits(n / 10, w - 1);
      r
  }

  /** Two digit strings of the same length and value are the same string. */
  lemma {:induction false} DigitsValueInjective(a: string, b: string)
    requires |a| == |b| && AllDigits(a) && AllDigits(b) && DigitsValue(a) == DigitsValue(b)
    ensures a == b
    decreases |a|
  {
    if a != [] {
      var a0, b0 := a[..|a| - 1], b[..|b| - 1];
      var x, y := DigitValue(a[|a| - 1]), DigitValue(b[|b| - 1]);
      LastDigit(DigitsValue(a0), x, DigitsValue(b0), y);
      DigitsValueInjective(a0, b0);
      assert a == a0 + [a[|a| - 1]] && b == b0 + [b[|b| - 1]];
    }
  }

  /** The last digit and the rest of a decimal numeral are determined by its
      value. */
  lemma LastDigit(p: nat, x: nat, q: nat, y: nat)
    requires x < 10 && y < 10 && p * 10 + x == q * 10 + y
    ensures x == y && p == q
  {
  }

  /** The value of a two-digit string. */
  lemma TwoDigitsValue(t: string)
    requires |t| == 2 && AllDigits(t)
    ensures DigitsValue(t) == 10 * DigitValue(t[0]) + DigitValue(t[1])
  {
    assert t[..1][..0] == [];
  }

  /** The value of a four-digit string. */
  lemma FourDigitsValue(t: string)
    requires |t| == 4 && AllDigits(t)
    ensures DigitsValue(t) ==
      1000 * DigitValue(t[0]) + 100 * DigitValue(t[1]) + 10 * DigitValue(t[2]) + DigitValue(t[3])
  {
    TwoDigitsValue(t[..2]);
    assert t[..3][..2] == t[..2];
  }

  /** Padding the value of a digit string to its own length gives it back. */
  lemma PadDigitsOfDigits(t: string)
    requires AllDigits(t)
    ensures PadDigits(DigitsValue(t), |t|) == t
  {
    DigitsValueInjective(PadDigits(DigitsValue(t), |t|), t);
  }

  /** The length of the longest prefix of `s` made of whitespace: how far a
      greedy `\s+` or `\s*` reaches. */
  function SpaceRun(s: string): (k: nat)
    ensures k <= |s| && AllSpace(s[..k])
    ensures k == |s| || !IsSpace(s[k])
  {
    if s == [] || !IsSpace(s[0]) then 0
    else
      var k := 1 + SpaceRun(s[1..]);
      assert s[..k] == [s[0]] + s[1..][..k - 1];
      k
  }

  /** The length of the longest prefix of `s` made of digits: how far a greedy
      `\d+` reaches. */
  function DigitRun(s: string): (k: nat)
    ensures k <= |s| && AllDigits(s[..k])
    ensures k == |s| || !IsDigit(s[k])
  {
    if s == [] || !IsDigit(s[0]) then 0
    else
      var k := 1 + DigitRun(s[1..]);
      assert s[..k] == [s[0]] + s[1..][..k - 1];
      k
  }

  /** `s` has no whitespace at either end. */
  predicate NoSurroundingSpace(s: string)
  {
    s == [] || (!IsSpace(s[0]) && !IsSpace(s[|s| - 1]))
  }

  /** `r` is `s` with a run of whitespace of length `i` taken off its front
      and a run of whitespace taken off its back. */
  ghost predicate StrippedAt(s: string, r: string, i: nat)
  {
    i + |r| <= |s| && s[i..i + |r|] == r && AllSpace(s[..i]) && AllSpace(s[i + |r|..])
  }

  /** Python's `str.lstrip()`. */
  function TrimStart(s: string): (r: string)
    ensures |r| <= |s| && r == s[|s| - |r|..] && AllSpace(s[..|s| - |r|])
    ensures r == [] || !IsSpace(r[0])
  {
    s[SpaceRun(s)..]
  }

  /** Python's `str.rstrip()`. */
  function TrimEnd(s: string): (r: string)
    ensures |r| <= |s| && r == s[..|r|] && AllSpace(s[|r|..])
    ensures r == [] || !IsSpace(r[|r| - 1])
  {
    if s == [] || !IsSpace(s[|s| - 1]) then s
    else
      var r := TrimEnd(s[..|s| - 1]);
      assert s[|r|..] == s[..|s| - 1][|r|..] + [s[|s| - 1]];
      r
  }

  /** Python's `str.strip()`: the result has no whitespace at either end, and
      what was removed on each side is whitespace only. */
  function Strip(s: string): (r: string)
    ensures NoSurroundingSpace(r)
    ensures exists i :: StrippedAt(s, r, i)
  {
    var t := TrimStart(s);
    var r := TrimEnd(t);
    var i := |s| - |t|;
    assert s[i..i + |r|] == r;
    assert s[i + |r|..] == t[|r|..];
    assert StrippedAt(s, r, i);
    r
  }

  /** The ASCII lower-case letter for an upper-case one; any other character
      unchanged. */
  function LowerAscii(c: char): char
  {
    if 'A' <= c <= 'Z' then (c as int + 32) as char else c
  }

  /** Python's `str.lower()` on ASCII letters. */
  function Lower(s: string): (r: string)
    ensures |r| == |s| && forall i :: 0 <= i < |s| ==> r[i] == LowerAscii(s[i])
  {
    seq(|s|, i requires 0 <= i < |s| => LowerAscii(s[i]))
  }

  /** A greedy whitespace scan stops exactly where the whitespace prefix
      ends. */
  lemma {:induction false} SpaceRunOfPrefix(a: string, b: string)
    requires AllSpace(a) && (b == [] || !IsSpace(b[0]))
    ensures SpaceRun(a + b) == |a|
  {
    if a != [] {
      assert (a + b)[1..] == a[1..] + b;
      SpaceRunOfPrefix(a[1..], b);
    } else {
      assert a + b == b;
    }
  }

  /** A greedy digit scan stops exactly where the digit prefix ends. */
  lemma {:induction false} DigitRunOfPrefix(a: string, b: string)
    requires AllDigits(a) && (b == [] || !IsDigit(b[0]))
    ensures DigitRun(a + b) == |a|
  {
    if a != [] {
      assert (a + b)[1..] == a[1..] + b;
      DigitRunOfPrefix(a[1..], b);
    } else {
      assert a + b == b;
    }
  }

  /** A whitespace scan from `a` stops at the first non-whitespace `s[b]`. */
  lemma SpaceRunUpTo(s: string, a: nat, b: nat)
    requires a <= b < |s| && AllSpace(s[a..b]) && !IsSpace(s[b])
    ensures a + SpaceRun(s[a..]) == b
  {
    assert s[a..] == s[a..b] + s[b..];
    assert s[b..][0] == s[b];
    SpaceRunOfPrefix(s[a..b], s[b..]);
  }

  /** A digit scan from `a` stops at the first non-digit `s[b]`. */
  lemma DigitRunUpTo(s: string, a: nat, b: nat)
    requires a <= b < |s| && AllDigits(s[a..b]) && !IsDigit(s[b])
    ensures a + DigitRun(s[a..]) == b
  {
    assert s[a..] == s[a..b] + s[b..];
    assert s[b..][0] == s[b];
    DigitRunOfPrefix(s[a..b], s[b..]);
  }

  /** A slice of a slice is a slice of the original. */
  lemma SliceOfSlice(s: string, i: nat, j: nat, a: nat, b: nat)
    requires i <= j <= |s| && a <= b <= j - i
    ensures s[i..j][a..b] == s[i + a..i + b]
  {
    var x, y := s[i..j][a..b], s[i + a..i + b];
    forall k | 0 <= k < |x| ensures x[k] == y[k] {
      assert x[k] == s[i..j][a + k];
    }
  }
}
