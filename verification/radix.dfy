/** Positional notation as JavaScript writes it: `n.toString(base)` for a
    non-negative integer, and `s.padStart(width, c)`. Digits are lower case. */
module Radix {

  type Base = b: nat | 2 <= b <= 16 witness 2

  /** A lower-case digit character: '0'..'9' or 'a'..'f' */
  predicate IsDigitChar(c: char) {
    '0' <= c <= '9' || 'a' <= c <= 'f'
  }

  function DigitValue(c: char): (d: nat)
    requires IsDigitChar(c)
    ensures d < 16
  {
    if '0' <= c <= '9' then c as int - '0' as int else c as int - 'a' as int + 10
  }

  /** The lower-case character of digit `d`; it is the one digit character whose value is `d` */
  function DigitChar(d: nat): (c: char)
    requires d < 16
    ensures IsDigitChar(c) && DigitValue(c) == d
  {
    if d < 10 then ('0' as int + d) as char else ('a' as int + (d - 10)) as char
  }

  /** Every digit character is the character of its own value, so a digit
      character is determined by its value. */
  lemma DigitCharOfValue(c: char)
    requires IsDigitChar(c)
    ensures DigitChar(DigitValue(c)) == c
  {
  }

  predicate AllDigits(s: string) {
    forall i :: 0 <= i < |s| ==> IsDigitChar(s[i])
  }

  /** The number the digit string `s` denotes in `base`, most significant digit first */
  function Value(s: string, base: Base): nat
    requires AllDigits(s)
  {
    if |s| == 0 then 0 else Value(s[..|s| - 1], base) * base + DigitValue(s[|s| - 1])
  }

  function Pow(base: Base, k: nat): (r: nat)
    ensures r >= 1
  {
    if k == 0 then 1 else base * Pow(base, k - 1)
  }

  /** `n.toString(base)`: the shortest digit string of `n` ("0" for zero) */
  function ToString(n: nat, base: Base): (s: string)
    ensures |s| >= 1 && AllDigits(s)
    ensures forall i :: 0 <= i < |s| ==> DigitValue(s[i]) < base
    ensures |s| > 1 ==> s[0] != '0'
    decreases n
  {
    if n < base then [DigitChar(n)]
    else
      DivShrinks(n, base);
      ToString(n / base, base) + [DigitChar(n % base)]
  }

  /** `s.padStart(width, c)`: `c` repeated on the left up to `width` characters;
      a string that is already that long comes back unchanged, never cut. */
  function PadStart(s: string, width: nat, c: char): (r: string)
    ensures |r| == if |s| >= width then |s| else width
    ensures r[|r| - |s|..] == s
    ensures forall i :: 0 <= i < |r| - |s| ==> r[i] == c
  {
    if |s| >= width then s else seq(width - |s|, _ => c) + s
  }

  /** `ToString` denotes the number it renders. */
  lemma {:induction false} ValueOfToString(n: nat, base: Base)
    ensures Value(ToString(n, base), base) == n
    decreases n
  {
    if n < base {
      var s := ToString(n, base);
      assert s[..0] == [];
    } else {
      var q, d := n / base, n % base;
      assert ToString(n, base) == ToString(q, base) + [DigitChar(d)];
      DivShrinks(n, base);
      ValueOfToString(q, base);
      ValueOfAppend(ToString(q, base), DigitChar(d), base);
      DivMod(n, base);
    }
  }

  lemma DivShrinks(n: nat, base: Base)
    requires n >= base
    ensures n / base < n
  {
    assert n / base <= n / 2;
  }

  lemma DivMod(n: nat, base: Base)
    ensures (n / base) * base + n % base == n
  {
  }

  /** Appending a digit on the right multiplies by the base and adds the digit. */
  lemma ValueOfAppend(s: string, c: char, base: Base)
    requires AllDigits(s) && IsDigitChar(c)
    ensures AllDigits(s + [c])
    ensures Value(s + [c], base) == Value(s, base) * base + DigitValue(c)
  {
    assert (s + [c])[..|s|] == s;
  }

  lemma DivBelow(n: nat, base: Base, p: nat)
    requires n < base * p
    ensures n / base < p
  {
  }

  /** A number below base^k needs at most k digits. */
  lemma {:induction false} ToStringLength(n: nat, base: Base, k: nat)
    requires k >= 1 && n < Pow(base, k)
    ensures |ToString(n, base)| <= k
    decreases k
  {
    if n >= base {
      assert k >= 2;
      DivBelow(n, base, Pow(base, k - 1));
      ToStringLength(n / base, base, k - 1);
    }
  }

  lemma ValueOfTwoDigits(s: string, base: Base)
    requires |s| == 2 && AllDigits(s)
    ensures Value(s, base) == DigitValue(s[0]) * base + DigitValue(s[1])
  {
    assert s[..1][..0] == [];
    assert Value(s[..1], base) == DigitValue(s[0]);
  }

  /** `n.toString(base).padStart(width, '0')` when `n` is known to fit in `width` digits */
  function FixedDigits(n: nat, base: Base, width: nat): (s: string)
    requires width >= 1 && n < Pow(base, width)
    ensures |s| == width && AllDigits(s)
    ensures forall i :: 0 <= i < width ==> DigitValue(s[i]) < base
    ensures Value(s, base) == n
  {
    FixedWidth(n, base, width);
    PadStart(ToString(n, base), width, '0')
  }

  /** The value of four digits, most significant first */
  lemma ValueOfFourDigits(s: string, base: Base)
    requires |s| == 4 && AllDigits(s)
    ensures Value(s, base) == ((DigitValue(s[0]) * base + DigitValue(s[1])) * base + DigitValue(s[2])) * base + DigitValue(s[3])
  {
    var s3 := s[..3];
    assert s3[..2] == s[..2];
    ValueOfTwoDigits(s[..2], base);
  }

  /** Four octal digits are determined by the value they denote. */
  lemma OctalDigitsOfValue(d: string, n: nat)
    requires |d| == 4 && AllDigits(d)
    requires forall i :: 0 <= i < 4 ==> DigitValue(d[i]) < 8
    requires Value(d, 8) == n
    ensures n < 0x1000
    ensures d == [DigitChar(n / 512), DigitChar(n / 64 % 8), DigitChar(n / 8 % 8), DigitChar(n % 8)]
  {
    ValueOfFourDigits(d, 8);
    var d0, d1, d2, d3 := DigitValue(d[0]), DigitValue(d[1]), DigitValue(d[2]), DigitValue(d[3]);
    assert d0 < 8 && d1 < 8 && d2 < 8 && d3 < 8;
    OctalDigitsUnique(d0, d1, d2, d3, n);
    assert d[0] == DigitChar(n / 512);
    assert d[1] == DigitChar(n / 64 % 8);
    assert d[2] == DigitChar(n / 8 % 8);
    assert d[3] == DigitChar(n % 8);
  }

  lemma OctalDigitsUnique(d0: nat, d1: nat, d2: nat, d3: nat, n: nat)
    requires d0 < 8 && d1 < 8 && d2 < 8 && d3 < 8
    requires ((d0 * 8 + d1) * 8 + d2) * 8 + d3 == n
    ensures n < 0x1000
    ensures d0 == n / 512 && d1 == n / 64 % 8 && d2 == n / 8 % 8 && d3 == n % 8
  {
  }

  /** Leading zeros do not change the value of a digit string. */
  lemma {:induction false} ValueOfZeroPadded(s: string, base: Base, width: nat)
    requires AllDigits(s)
    ensures AllDigits(PadStart(s, width, '0'))
    ensures Value(PadStart(s, width, '0'), base) == Value(s, base)
    decreases |s|
  {
    var r := PadStart(s, width, '0');
    if |s| < width {
      if |s| == 0 {
        ZerosValue(r, base);
      } else {
        assert r[..|r| - 1] == PadStart(s[..|s| - 1], width - 1, '0');
        ValueOfZeroPadded(s[..|s| - 1], base, width - 1);
      }
    }
  }

  lemma {:induction false} ZerosValue(z: string, base: Base)
    requires forall i :: 0 <= i < |z| ==> z[i] == '0'
    ensures AllDigits(z) && Value(z, base) == 0
    decreases |z|
  {
    if |z| > 0 {
      ZerosValue(z[..|z| - 1], base);
    }
  }

  /** `n.toString(base).padStart(width, '0')` for n below base^width is exactly
      `width` digits of `base` whose value is `n`: padding never cuts. */
  lemma FixedWidth(n: nat, base: Base, width: nat)
    requires width >= 1 && n < Pow(base, width)
    ensures |PadStart(ToString(n, base), width, '0')| == width
    ensures AllDigits(PadStart(ToString(n, base), width, '0'))
    ensures forall i :: 0 <= i < width ==> DigitValue(PadStart(ToString(n, base), width, '0')[i]) < base
    ensures Value(PadStart(ToString(n, base), width, '0'), base) == n
  {
    ToStringLength(n, base, width);
    ValueOfToString(n, base);
    ValueOfZeroPadded(ToString(n, base), base, width);
    PaddedDigitsBelow(ToString(n, base), width, base);
  }

  /** Zero padding keeps every digit below the base. */
  lemma PaddedDigitsBelow(s: string, width: nat, base: Base)
    requires AllDigits(s) && forall i :: 0 <= i < |s| ==> DigitValue(s[i]) < base
    ensures AllDigits(PadStart(s, width, '0'))
    ensures forall i :: 0 <= i < |PadStart(s, width, '0')| ==> DigitValue(PadStart(s, width, '0')[i]) < base
  {
    var r := PadStart(s, width, '0');
    forall i | 0 <= i < |r|
      ensures IsDigitChar(r[i]) && DigitValue(r[i]) < base
    {
      if i >= |r| - |s| {
        assert r[i] == s[i - (|r| - |s|)];
      }
    }
  }
}
