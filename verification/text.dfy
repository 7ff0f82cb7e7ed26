/**
 Character-level helpers: decimal digit strings of a fixed width (the `%02d`
 and `%04d` formats), Python's ordering of `str` values, and `str.strip()`.
 */
module Text {

  /* ---------- Decimal digits ---------- */

  predicate IsDigit(c: char) {
    '0' <= c <= '9'
  }

  predicate AllDigits(s: string) {
    forall i :: 0 <= i < |s| ==> IsDigit(s[i])
  }

  function DigitChar(d: nat): (c: char)
    requires d < 10
    ensures IsDigit(c)
    ensures c as int - '0' as int == d
  {
    (('0' as int) + d) as char
  }

  function Pow10(w: nat): (p: nat)
    ensures p >= 1
  {
    if w == 0 then 1 else 10 * Pow10(w - 1)
  }

  /** The `w` least significant decimal digits of `n`, most significant first,
      zero-padded on the left: Python's `'%0*d' % (w, n)` for `n < 10^w`. */
  function Pad(n: nat, w: nat): (r: string)
    ensures |r| == w
    ensures AllDigits(r)
  {
    if w == 0 then [] else Pad(n / 10, w - 1) + [DigitChar(n % 10)]
  }

  /** The number a string of decimal digits denotes. */
  function DigitsValue(s: string): nat
    requires AllDigits(s)
  {
    if |s| == 0 then 0
    else DigitsValue(s[..|s| - 1]) * 10 + (s[|s| - 1] as int - '0' as int)
  }

  lemma DropLastDigit(n: nat, p: nat)
    requires n < 10 * p
    ensures n / 10 < p && n == n / 10 * 10 + n % 10
  {
  }

  /** Reading back a padded number gives the number. */
  lemma {:induction false} PadValue(n: nat, w: nat)
    requires n < Pow10(w)
    ensures DigitsValue(Pad(n, w)) == n
  {
    if w > 0 {
      var p := Pad(n, w);
      var h, d := n / 10, n % 10;
      DropLastDigit(n, Pow10(w - 1));
      var q := Pad(h, w - 1);
      assert p[..w - 1] == q && p[w - 1] == DigitChar(d);
      PadValue(h, w - 1);
      assert DigitsValue(p) == DigitsValue(q) * 10 + d;
    }
  }

  /** A digit string is the padding of its own value, and that value fits its width. */
  lemma {:induction false} ValuePad(s: string)
    requires AllDigits(s)
    ensures DigitsValue(s) < Pow10(|s|)
    ensures Pad(DigitsValue(s), |s|) == s
  {
    if |s| > 0 {
      var k := |s| - 1;
      var prefix := s[..k];
      var d := s[k] as int - '0' as int;
      ValuePad(prefix);
      var v := DigitsValue(s);
      assert v == DigitsValue(prefix) * 10 + d;
      assert v / 10 == DigitsValue(prefix) && v % 10 == d;
      assert DigitChar(d) == s[k];
      assert s == prefix + [s[k]];
    }
  }

  /** Padding to a fixed width is injective on the numbers that fit. */
  lemma PadInjective(a: nat, b: nat, w: nat)
    requires a < Pow10(w) && b < Pow10(w)
    requires Pad(a, w) == Pad(b, w)
    ensures a == b
  {
    PadValue(a, w);
    PadValue(b, w);
  }

  /* ---------- Python's ordering of str ---------- */

  /** `a < b` on Python strings: code points compared left to right, and a
      proper prefix sorts first. */
  predicate LexLess(a: string, b: string)
    decreases |a|
  {
    if |a| == 0 then |b| > 0
    else |b| > 0 && (a[0] < b[0] || (a[0] == b[0] && LexLess(a[1..], b[1..])))
  }

  lemma {:induction false} LexLessIrreflexive(a: string)
    ensures !LexLess(a, a)
    decreases |a|
  {
    if |a| > 0 {
      LexLessIrreflexive(a[1..]);
    }
  }

  /** Comparing two concatenations whose first parts have equal length
      compares the first parts, and the second parts only on a tie. */
  lemma {:induction false} LexLessAppend(x: string, y: string, x': string, y': string)
    requires |x| == |x'|
    ensures LexLess(x + y, x' + y') <==> LexLess(x, x') || (x == x' && LexLess(y, y'))
    decreases |x|
  {
    if |x| == 0 {
      assert x + y == y && x' + y' == y';
    } else {
      assert (x + y)[0] == x[0] && (x' + y')[0] == x'[0];
      assert (x + y)[1..] == x[1..] + y && (x' + y')[1..] == x'[1..] + y';
      LexLessAppend(x[1..], y, x'[1..], y');
      assert x == x' <==> x[0] == x'[0] && x[1..] == x'[1..];
    }
  }

  /** A common one-character separator does not affect the order. */
  lemma SeparatorLexLess(c: char, y: string, y': string)
    ensures LexLess([c] + y, [c] + y') <==> LexLess(y, y')
  {
    assert ([c] + y)[1..] == y && ([c] + y')[1..] == y';
  }

  /** On fixed-width zero-padded numbers the string order is the numeric order. */
  lemma {:induction false} PadOrder(a: nat, b: nat, w: nat)
    requires a < Pow10(w) && b < Pow10(w)
    ensures LexLess(Pad(a, w), Pad(b, w)) <==> a < b
  {
    if w == 0 {
    } else {
      var ha, hb := a / 10, b / 10;
      PadOrder(ha, hb, w - 1);
      LexLessAppend(Pad(ha, w - 1), [DigitChar(a % 10)], Pad(hb, w - 1), [DigitChar(b % 10)]);
      if Pad(ha, w - 1) == Pad(hb, w - 1) {
        PadInjective(ha, hb, w - 1);
      }
      assert a == ha * 10 + a % 10 && b == hb * 10 + b % 10;
    }
  }

  /* ---------- str.strip() ---------- */

  /** The characters Python's `str.isspace()` accepts (white space, line and
      paragraph separators, and the ASCII information separators). */
  predicate IsSpace(c: char) {
    || c == ' ' || c == '\t' || c == '\n' || c == '\r'
    || c == '\U{B}' || c == '\U{C}'
    || ('\U{1C}' <= c <= '\U{1F}')
    || c == '\U{85}' || c == '\U{A0}' || c == '\U{1680}'
    || ('\U{2000}' <= c <= '\U{200A}')
    || c == '\U{2028}' || c == '\U{2029}' || c == '\U{202F}' || c == '\U{205F}' || c == '\U{3000}'
  }

  /** Every character of `s` from position `i` up to (not including) `j` is white space. */
  predicate SpaceBetween(s: string, i: int, j: int)
    requires 0 <= i <= j <= |s|
  {
    forall k :: i <= k < j ==> IsSpace(s[k])
  }

  /** The first position at or after `i` that does not hold white space. */
  function SkipLeft(s: string, i: nat): (k: nat)
    requires i <= |s|
    ensures i <= k <= |s| && SpaceBetween(s, i, k)
    ensures k == |s| || !IsSpace(s[k])
    decreases |s| - i
  {
    if i < |s| && IsSpace(s[i]) then SkipLeft(s, i + 1) else i
  }

  /** The end of `s[i..j]` once trailing white space is dropped. */
  function SkipRight(s: string, i: nat, j: nat): (k: nat)
    requires i <= j <= |s|
    ensures i <= k <= j && SpaceBetween(s, k, j)
    ensures k == i || !IsSpace(s[k - 1])
    decreases j
  {
    if i < j && IsSpace(s[j - 1]) then SkipRight(s, i, j - 1) else j
  }

  /** `str.strip()`: the longest slice of `s` that neither starts nor ends with
      white space; everything cut off on either side is white space. */
  function Strip(s: string): (r: string)
    ensures exists i, j :: 0 <= i <= j <= |s| && r == s[i..j] && SpaceBetween(s, 0, i) && SpaceBetween(s, j, |s|)
    ensures |r| == 0 || (!IsSpace(r[0]) && !IsSpace(r[|r| - 1]))
    ensures |r| == 0 <==> SpaceBetween(s, 0, |s|)
  {
    var i := SkipLeft(s, 0);
    var j := SkipRight(s, i, |s|);
    assert i == j ==> SpaceBetween(s, 0, |s|);
    assert i < j ==> !IsSpace(s[i]);
    s[i..j]
  }
}
