/** Lower-case hexadecimal rendering of opaque byte fields, each byte as
    `b.toString(16).padStart(2, '0')`, joined with no separator. */
module Hex {
  import opened Results
  import opened Bytes
  import opened Radix

  /** The two hex digits of one byte, high nibble first */
  function ByteHex(b: byte): (r: string)
    ensures |r| == 2 && AllDigits(r)
    ensures 16 * DigitValue(r[0]) + DigitValue(r[1]) == b
  {
    [DigitChar(b / 16), DigitChar(b % 16)]
  }

  /** The renderer's per-byte expression `b.toString(16).padStart(2, '0')`
      is exactly the two-digit form: a byte below 16 gets one leading zero,
      and no byte needs more than two digits, so padding never cuts. */
  lemma ByteHexIsPaddedToString(b: byte)
    ensures PadStart(ToString(b, 16), 2, '0') == ByteHex(b)
  {
    if b < 16 {
      assert ToString(b, 16) == [DigitChar(b)];
    } else {
      assert ToString(b / 16, 16) == [DigitChar(b / 16)];
      assert ToString(b, 16) == [DigitChar(b / 16), DigitChar(b % 16)];
    }
  }

  /** The hex rendering of a byte string: two digits per byte, in order */
  function Hex(bytes: seq<byte>): (r: string)
    ensures |r| == 2 * |bytes| && AllDigits(r)
  {
    if |bytes| == 0 then "" else ByteHex(bytes[0]) + Hex(bytes[1..])
  }

  /** Byte i of the input is rendered at places 2i and 2i+1. */
  lemma HexPlaces(bytes: seq<byte>)
    ensures forall i :: 0 <= i < |bytes| ==> Hex(bytes)[2 * i] == ByteHex(bytes[i])[0] && Hex(bytes)[2 * i + 1] == ByteHex(bytes[i])[1]
  {
    forall i | 0 <= i < |bytes|
      ensures Hex(bytes)[2 * i] == ByteHex(bytes[i])[0] && Hex(bytes)[2 * i + 1] == ByteHex(bytes[i])[1]
    {
      HexAt(bytes, i);
    }
  }

  lemma {:induction false} HexAt(bytes: seq<byte>, i: nat)
    requires i < |bytes|
    ensures Hex(bytes)[2 * i] == ByteHex(bytes[i])[0] && Hex(bytes)[2 * i + 1] == ByteHex(bytes[i])[1]
  {
    var r, rest := Hex(bytes), Hex(bytes[1..]);
    assert r == ByteHex(bytes[0]) + rest;
    if i > 0 {
      var j := 2 * (i - 1);
      assert r[2 * i] == rest[j] && r[2 * i + 1] == rest[j + 1];
      HexAt(bytes[1..], i - 1);
      assert bytes[1..][i - 1] == bytes[i];
    }
  }

  /** Reads a hex rendering back: pairs of lower-case digits, high nibble first */
  function Unhex(s: string): Maybe<seq<byte>>
    decreases |s|
  {
    if |s| == 0 then Just([])
    else if |s| == 1 || !IsDigitChar(s[0]) || !IsDigitChar(s[1]) then Nothing
    else
      match Unhex(s[2..])
      case Nothing => Nothing
      case Just(rest) => Just([16 * DigitValue(s[0]) + DigitValue(s[1])] + rest)
  }

  /** Every byte string is recovered from its hex rendering. */
  lemma {:induction false} UnhexOfHex(bytes: seq<byte>)
    ensures Unhex(Hex(bytes)) == Just(bytes)
  {
    if |bytes| > 0 {
      HexOfCons(bytes[0], bytes[1..]);
      assert [bytes[0]] + bytes[1..] == bytes;
      UnhexOfHex(bytes[1..]);
      UnhexOfPair(bytes[0], Hex(bytes[1..]));
    }
  }

  /** Reading one byte's two digits off the front of a string */
  lemma UnhexOfPair(b: byte, rest: string)
    ensures Unhex(ByteHex(b) + rest) == match Unhex(rest)
                                        case Nothing => Nothing
                                        case Just(t) => Just([b] + t)
  {
    var s := ByteHex(b) + rest;
    assert s[2..] == rest;
    assert s[0] == ByteHex(b)[0] && s[1] == ByteHex(b)[1];
  }

  /** Every string `Unhex` accepts is the hex rendering of what it reads. */
  lemma {:induction false} HexOfUnhex(s: string)
    requires Unhex(s).Just?
    ensures Hex(Unhex(s).value) == s
    decreases |s|
  {
    if |s| > 0 {
      assert |s| >= 2 && IsDigitChar(s[0]) && IsDigitChar(s[1]) && Unhex(s[2..]).Just?;
      ByteHexOfDigits(s[0], s[1]);
      var b: byte := 16 * DigitValue(s[0]) + DigitValue(s[1]);
      var t := Unhex(s[2..]).value;
      assert Unhex(s).value == [b] + t;
      HexOfUnhex(s[2..]);
      HexOfCons(b, t);
      assert ByteHex(b) + Hex(t) == [s[0], s[1]] + s[2..] == s;
    }
  }

  /** Two digit characters are the hex rendering of the byte they denote. */
  lemma ByteHexOfDigits(hi: char, lo: char)
    requires IsDigitChar(hi) && IsDigitChar(lo)
    ensures 16 * DigitValue(hi) + DigitValue(lo) < 256
    ensures ByteHex(16 * DigitValue(hi) + DigitValue(lo)) == [hi, lo]
  {
    var r := ByteHex(16 * DigitValue(hi) + DigitValue(lo));
    assert DigitValue(r[0]) == DigitValue(hi) && DigitValue(r[1]) == DigitValue(lo);
  }

  lemma HexOfCons(b: byte, t: seq<byte>)
    ensures Hex([b] + t) == ByteHex(b) + Hex(t)
  {
    assert ([b] + t)[1..] == t;
  }

  /** Hex rendering is injective: distinct byte strings never render alike. */
  lemma HexInjective(a: seq<byte>, b: seq<byte>)
    ensures Hex(a) == Hex(b) <==> a == b
  {
    if Hex(a) == Hex(b) {
      UnhexOfHex(a);
      UnhexOfHex(b);
    }
  }
}
