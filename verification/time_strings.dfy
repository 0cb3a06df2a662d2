/** Wall-clock time strings of the form HH:MM, as a time input with a
    one-minute step yields them (section 2.3.5.4 of the WHATWG HTML Living
    Standard, "valid time string" without seconds), and the two ways the
    scheduler compares them: numerically through minutes since midnight, and
    as plain strings in lexicographic order of their characters. */
module TimeStrings {

  predicate IsDigit(c: char) {
    '0' <= c <= '9'
  }

  function DigitVal(c: char): (n: nat)
    requires IsDigit(c)
    ensures n < 10
  {
    c as int - '0' as int
  }

  function Digit(n: nat): (c: char)
    requires n < 10
    ensures IsDigit(c) && DigitVal(c) == n
  {
    ('0' as int + n) as char
  }

  /** The decimal text of a natural number, as string interpolation of a
      number produces it (no leading zeros). */
  function Decimal(n: nat): (s: string)
    ensures |s| >= 1
    ensures forall i :: 0 <= i < |s| ==> IsDigit(s[i])
    ensures n < 10 ==> s == [Digit(n)]
    ensures 10 <= n < 100 ==> s == [Digit(n / 10), Digit(n % 10)]
  {
    if n < 10 then [Digit(n)] else Decimal(n / 10) + [Digit(n % 10)]
  }

  /** `n < 10 ? "0" + n : n`, the zero-padding used for hour labels. */
  function Pad2(n: nat): (s: string)
    requires n < 100
    ensures |s| == 2 && IsDigit(s[0]) && IsDigit(s[1])
    ensures DigitVal(s[0]) * 10 + DigitVal(s[1]) == n
  {
    if n < 10 then "0" + Decimal(n) else Decimal(n)
  }

  /** A valid HH:MM time string: two-digit hour 00..23, colon, two-digit
      minute 00..59. */
  predicate IsTimeString(s: string) {
    && |s| == 5
    && IsDigit(s[0]) && IsDigit(s[1]) && s[2] == ':' && IsDigit(s[3]) && IsDigit(s[4])
    && DigitVal(s[0]) * 10 + DigitVal(s[1]) <= 23
    && DigitVal(s[3]) <= 5
  }

  /** `toMins`: split at the colon, read both halves as numbers, combine. */
  function ToMins(s: string): (m: int)
    requires IsTimeString(s)
    ensures 0 <= m < 1440
    ensures m / 60 == DigitVal(s[0]) * 10 + DigitVal(s[1])
    ensures m % 60 == DigitVal(s[3]) * 10 + DigitVal(s[4])
  {
    var h := DigitVal(s[0]) * 10 + DigitVal(s[1]);
    var mm := DigitVal(s[3]) * 10 + DigitVal(s[4]);
    h * 60 + mm
  }

  /** The zero-padded HH:MM text of a minute of the day; the inverse of ToMins. */
  function FormatTime(m: int): (s: string)
    requires 0 <= m < 1440
    ensures IsTimeString(s)
    ensures ToMins(s) == m
  {
    Pad2(m / 60) + ":" + Pad2(m % 60)
  }

  lemma FormatAfterParse(s: string)
    requires IsTimeString(s)
    ensures FormatTime(ToMins(s)) == s
  {
    var f := FormatTime(ToMins(s));
    assert DigitVal(f[0]) == DigitVal(s[0]) && DigitVal(f[1]) == DigitVal(s[1]);
    assert DigitVal(f[3]) == DigitVal(s[3]) && DigitVal(f[4]) == DigitVal(s[4]);
    DigitValInjective(f[0], s[0]);
    DigitValInjective(f[1], s[1]);
    DigitValInjective(f[3], s[3]);
    DigitValInjective(f[4], s[4]);
  }

  lemma DigitValInjective(a: char, b: char)
    requires IsDigit(a) && IsDigit(b) && DigitVal(a) == DigitVal(b)
    ensures a == b
  {
  }

  /** `b` extends `a` at position `k`, or the two agree up to `k` and differ
      there with `a`'s character smaller. */
  predicate LexAt(a: string, b: string, k: int) {
    && 0 <= k <= |a| && k < |b|
    && a[..k] == b[..k]
    && (k == |a| || a[k] < b[k])
  }

  /** JavaScript's `a < b` on strings, compared character by character in
      code-point order, which is JavaScript's code-unit order on the ASCII
      characters time strings are made of: `a` is a proper prefix of `b`, or
      at the first position where they differ `a` has the smaller
      character. */
  function LexLess(a: string, b: string): (r: bool)
    ensures r <==> exists k :: LexAt(a, b, k)
    decreases |a|
  {
    if |a| == 0 then
      if |b| > 0 then assert LexAt(a, b, 0); true else false
    else if |b| == 0 then false
    else if a[0] < b[0] then assert LexAt(a, b, 0); true
    else if a[0] > b[0] then NoLexAtWhenHeadGreater(a, b); false
    else LexAtTail(a, b); LexLess(a[1..], b[1..])
  }

  lemma NoLexAtWhenHeadGreater(a: string, b: string)
    requires |a| > 0 && |b| > 0 && a[0] > b[0]
    ensures !exists k :: LexAt(a, b, k)
  {
    forall k | 0 < k <= |a| && k < |b| ensures a[..k] != b[..k] {
      assert a[..k][0] == a[0] && b[..k][0] == b[0];
    }
  }

  /** With equal first characters, comparing the strings is comparing their
      tails. */
  lemma LexAtTail(a: string, b: string)
    requires |a| > 0 && |b| > 0 && a[0] == b[0]
    ensures (exists k :: LexAt(a, b, k)) <==> (exists k :: LexAt(a[1..], b[1..], k))
  {
    if k :| LexAt(a, b, k) {
      if k == 0 {
        assert false;
      }
      assert a[1..][..k - 1] == a[..k][1..] && b[1..][..k - 1] == b[..k][1..];
      assert LexAt(a[1..], b[1..], k - 1);
    }
    if k :| LexAt(a[1..], b[1..], k) {
      assert a[..k + 1] == [a[0]] + a[1..][..k] && b[..k + 1] == [b[0]] + b[1..][..k];
      assert LexAt(a, b, k + 1);
    }
  }

  /** Exactly one of `a < b`, `a == b` and `b < a` holds. */
  lemma {:induction false} LexTrichotomy(a: string, b: string)
    ensures LexLess(a, b) || a == b || LexLess(b, a)
    ensures !(LexLess(a, b) && LexLess(b, a))
    ensures a == b ==> !LexLess(a, b)
    decreases |a|
  {
    if |a| > 0 && |b| > 0 && a[0] == b[0] {
      LexTrichotomy(a[1..], b[1..]);
      if a[1..] == b[1..] {
        assert a == [a[0]] + a[1..] && b == [b[0]] + b[1..];
      }
    }
  }

  /** JavaScript's `a <= b` on strings, which is `!(b < a)`: `a` comes before
      `b` or equals it. */
  function StrLe(a: string, b: string): (r: bool)
    ensures r <==> LexLess(a, b) || a == b
  {
    LexTrichotomy(a, b);
    !LexLess(b, a)
  }

  /** For two valid time strings the string comparison the conflict check uses
      agrees with the numeric comparison the hour manager uses. */
  lemma {:induction false} LexLessIsMinutesLess(a: string, b: string)
    requires IsTimeString(a) && IsTimeString(b)
    ensures LexLess(a, b) <==> ToMins(a) < ToMins(b)
  {
    LexLessOfTimes(a, b);
  }

  lemma StrLeIsMinutesLe(a: string, b: string)
    requires IsTimeString(a) && IsTimeString(b)
    ensures StrLe(a, b) <==> ToMins(a) <= ToMins(b)
  {
    LexLessIsMinutesLess(b, a);
  }

  /** Unfolding the lexicographic comparison over the five positions. */
  lemma LexLessOfTimes(a: string, b: string)
    requires IsTimeString(a) && IsTimeString(b)
    ensures LexLess(a, b) <==>
      (a[0] < b[0] || (a[0] == b[0] && (a[1] < b[1] || (a[1] == b[1] &&
        (a[3] < b[3] || (a[3] == b[3] && a[4] < b[4]))))))
  {
    var a1, b1 := a[1..], b[1..];
    var a2, b2 := a1[1..], b1[1..];
    var a3, b3 := a2[1..], b2[1..];
    var a4, b4 := a3[1..], b3[1..];
    var a5, b5 := a4[1..], b4[1..];
    assert a1[0] == a[1] && b1[0] == b[1];
    assert a2[0] == a[2] && b2[0] == b[2];
    assert a3[0] == a[3] && b3[0] == b[3];
    assert a4[0] == a[4] && b4[0] == b[4];
    assert |a5| == 0 && |b5| == 0;
    assert LexLess(a4, b4) <==> a[4] < b[4];
    assert LexLess(a3, b3) <==> (a[3] < b[3] || (a[3] == b[3] && a[4] < b[4]));
    assert LexLess(a2, b2) == LexLess(a3, b3);
    assert LexLess(a1, b1) <==> (a[1] < b[1] || (a[1] == b[1] && LexLess(a2, b2)));
  }
}
