/**
 The parts of the C library the record manager leans on, stated over
 `seq<char>`: the sign of `strcmp`, `printf`'s decimal conversions
 (`%d`, `%.Nhu`) and its field widths (`%Ns`, `%N.Ns`).

 C strings are modelled without their terminating NUL; every string the
 program builds comes from `scanf("%s")` or `sprintf`, so none holds an
 embedded NUL and the end of the sequence is the end of the C string.
 */
module CText {

  predicate IsDigit(c: char) {
    '0' <= c <= '9'
  }

  predicate AllDigits(s: string) {
    forall i :: 0 <= i < |s| ==> IsDigit(s[i])
  }

  /** `n` copies of `c`. */
  function Repeat(c: char, n: nat): (r: string)
    ensures |r| == n
    ensures forall i :: 0 <= i < n ==> r[i] == c
  {
    if n == 0 then [] else [c] + Repeat(c, n - 1)
  }

  function Pow10(k: nat): (p: nat)
    ensures p >= 1
  {
    if k == 0 then 1 else 10 * Pow10(k - 1)
  }

  // ---------------------------------------------------------------------------
  // strcmp
  // ---------------------------------------------------------------------------

  /**
   The sign of `strcmp(a, b)`: characters are compared by code point from the
   left, and a string that is a proper prefix of the other sorts first. The C
   standard fixes only the sign, so the model returns -1, 0 or 1.
   */
  function StrCmp(a: string, b: string): (r: int)
    ensures -1 <= r <= 1
    ensures r == 0 <==> a == b
    decreases |a|
  {
    if |a| == 0 && |b| == 0 then 0
    else if |a| == 0 then -1
    else if |b| == 0 then 1
    else if a[0] < b[0] then -1
    else if a[0] > b[0] then 1
    else
      var r := StrCmp(a[1..], b[1..]);
      assert a == [a[0]] + a[1..] && b == [b[0]] + b[1..];
      r
  }

  /** Swapping the arguments of `strcmp` flips the sign of the answer. */
  lemma {:induction false} StrCmpAntisymmetric(a: string, b: string)
    ensures StrCmp(b, a) == -StrCmp(a, b)
    decreases |a|
  {
    if |a| > 0 && |b| > 0 && a[0] == b[0] {
      StrCmpAntisymmetric(a[1..], b[1..]);
    }
  }

  /** `strcmp` orders strings transitively. */
  lemma {:induction false} StrCmpTransitive(a: string, b: string, c: string)
    requires StrCmp(a, b) < 0 && StrCmp(b, c) < 0
    ensures StrCmp(a, c) < 0
    decreases |a|
  {
    if |a| > 0 && |b| > 0 && |c| > 0 && a[0] == b[0] && b[0] == c[0] {
      StrCmpTransitive(a[1..], b[1..], c[1..]);
    }
  }

  // ---------------------------------------------------------------------------
  // Decimal conversion (%d and %u)
  // ---------------------------------------------------------------------------

  function DigitChar(d: nat): (c: char)
    requires d < 10
    ensures IsDigit(c)
  {
    (d + 48) as char
  }

  function DigitOf(c: char): (d: nat)
    requires IsDigit(c)
    ensures d < 10
  {
    c as int - 48
  }

  /** The decimal digits `printf("%u")` writes for `n`: no sign, no leading zero. */
  function Decimal(n: nat): (s: string)
    ensures 1 <= |s|
    ensures AllDigits(s)
    decreases n
  {
    if n < 10 then [DigitChar(n)] else Decimal(n / 10) + [DigitChar(n % 10)]
  }

  /** The number a string of decimal digits denotes, most significant first. */
  function DigitsValue(s: string): nat
    requires AllDigits(s)
  {
    if s == [] then 0 else DigitsValue(s[..|s| - 1]) * 10 + DigitOf(s[|s| - 1])
  }

  /** Reading back the digits `Decimal` writes gives the number again. */
  lemma {:induction false} DecimalRoundTrip(n: nat)
    ensures DigitsValue(Decimal(n)) == n
    decreases n
  {
    var s := Decimal(n);
    if n >= 10 {
      DecimalRoundTrip(n / 10);
      assert s[..|s| - 1] == Decimal(n / 10);
    }
  }

  /** `Decimal` never writes a leading zero, except for zero itself. */
  lemma {:induction false} DecimalNoLeadingZero(n: nat)
    ensures Decimal(n)[0] == '0' <==> n == 0
    decreases n
  {
    if n >= 10 {
      DecimalNoLeadingZero(n / 10);
    }
  }

  /** A number below 10^k takes at most k digits. */
  lemma {:induction false} DecimalFits(n: nat, k: nat)
    requires 1 <= k && n < Pow10(k)
    ensures |Decimal(n)| <= k
    decreases k
  {
    if n >= 10 {
      DecimalFits(n / 10, k - 1);
    }
  }

  /** The digits of a concatenation weigh the left part by 10^|b|. */
  lemma {:induction false} DigitsValueAppend(a: string, b: string)
    requires AllDigits(a) && AllDigits(b)
    ensures AllDigits(a + b)
    ensures DigitsValue(a + b) == DigitsValue(a) * Pow10(|b|) + DigitsValue(b)
    decreases |b|
  {
    if b != [] {
      var b' := b[..|b| - 1];
      assert (a + b)[..|a + b| - 1] == a + b';
      assert (a + b)[|a + b| - 1] == b[|b| - 1];
      DigitsValueAppend(a, b');
      ShiftDigit(DigitsValue(a), Pow10(|b'|), DigitsValue(b'), DigitOf(b[|b| - 1]));
    } else {
      assert a + b == a;
    }
  }

  lemma ShiftDigit(x: int, p: int, y: int, d: int)
    ensures (x * p + y) * 10 + d == x * (p * 10) + (y * 10 + d)
  {
  }

  lemma {:induction false} ZerosValue(k: nat)
    ensures AllDigits(Repeat('0', k))
    ensures DigitsValue(Repeat('0', k)) == 0
    decreases k
  {
    if k > 0 {
      var z := Repeat('0', k);
      assert z[..k - 1] == Repeat('0', k - 1);
      ZerosValue(k - 1);
    }
  }

  /** `printf("%d")`: a minus sign before the digits of a negative number. */
  function SignedDecimal(i: int): (s: string)
    ensures 1 <= |s|
    ensures i >= 0 ==> s == Decimal(i)
    ensures i < 0 ==> s[0] == '-' && s[1..] == Decimal(-i)
  {
    if i < 0 then "-" + Decimal(-i) else Decimal(i)
  }

  /** A value of a C `short` prints in at most six characters under `%d`. */
  lemma ShortDecimalFits(i: int)
    requires -32768 <= i <= 32767
    ensures |SignedDecimal(i)| <= 6
  {
    if i < 0 {
      DecimalFits(-i, 5);
    } else {
      DecimalFits(i, 5);
    }
  }

  // ---------------------------------------------------------------------------
  // Field widths and precisions
  // ---------------------------------------------------------------------------

  /** The five spaces `printf` formats put between the fields of a row. */
  const Gap: string := "     "

  /** Left-pads `s` with `c` up to `width` characters; never truncates. */
  function PadLeft(s: string, width: nat, c: char): (r: string)
    ensures |r| == if |s| >= width then |s| else width
    ensures r[|r| - |s|..] == s
    ensures forall i :: 0 <= i < |r| - |s| ==> r[i] == c
  {
    if |s| >= width then s else Repeat(c, width - |s|) + s
  }

  /** `printf("%.Nu", n)`: the digits of `n`, zero-padded to at least `width`. */
  function ZeroPadded(n: nat, width: nat): (r: string)
    ensures AllDigits(r)
    ensures DigitsValue(r) == n
    ensures n < Pow10(width) && 1 <= width ==> |r| == width
  {
    var d := Decimal(n);
    var r := PadLeft(d, width, '0');
    assert AllDigits(r) && DigitsValue(r) == n by {
      DecimalRoundTrip(n);
      if |d| < width {
        ZerosValue(width - |d|);
        DigitsValueAppend(Repeat('0', width - |d|), d);
      }
    }
    assert n < Pow10(width) && 1 <= width ==> |r| == width by {
      if n < Pow10(width) && 1 <= width {
        DecimalFits(n, width);
      }
    }
    r
  }

  /**
   `printf("%N.Ns", s)`: at most `width` characters of `s`, right-aligned in a
   field of exactly `width` columns.
   */
  function Cell(s: string, width: nat): (r: string)
    ensures |r| == width
    ensures |s| >= width ==> r == s[..width]
    ensures |s| < width ==> r[width - |s|..] == s
    ensures |s| < width ==> forall i :: 0 <= i < width - |s| ==> r[i] == ' '
  {
    if |s| >= width then s[..width] else PadLeft(s, width, ' ')
  }

  /** The characters of a slice are those of the string, shifted by its start. */
  lemma SliceIndices(s: string, lo: nat, hi: nat)
    requires lo <= hi <= |s|
    ensures forall i :: 0 <= i < hi - lo ==> s[lo..hi][i] == s[lo + i]
  {
  }

  /** Drops leading blanks: how a reader recovers the text of a right-aligned field. */
  function TrimLeft(s: string): (r: string)
    ensures |r| <= |s| && r == s[|s| - |r|..]
    ensures r == [] || r[0] != ' '
  {
    if s != [] && s[0] == ' ' then TrimLeft(s[1..]) else s
  }

  lemma {:induction false} TrimLeftPadding(k: nat, d: string)
    requires d == [] || d[0] != ' '
    ensures TrimLeft(Repeat(' ', k) + d) == d
    decreases k
  {
    if k > 0 {
      assert (Repeat(' ', k) + d)[1..] == Repeat(' ', k - 1) + d;
      TrimLeftPadding(k - 1, d);
    } else {
      assert Repeat(' ', k) + d == d;
    }
  }
}
