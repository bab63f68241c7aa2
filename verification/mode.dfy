/** The decoding of a packed POSIX `st_mode`-style word into a file kind, an
    octal permission string and a symbolic `rwx` string. */
module Mode {
  import opened Radix

  datatype FileKind = File | Symlink | Other

  datatype ModeInfo = ModeInfo(kind: FileKind, permOctal: string, permSymbolic: string)

  const KIND_MASK: bv32 := 0xF000     // octal 0170000, the file-type bits
  const FILE_BITS: bv32 := 0x8000     // octal 0100000, a regular file
  const SYMLINK_BITS: bv32 := 0xA000  // octal 0120000, a symbolic link
  const PERM_MASK: bv32 := 0xFFF      // octal 0007777, setuid, setgid, sticky and the nine rwx bits
  const RWX_MASK: bv32 := 0x1FF       // octal 0000777, the nine rwx bits alone

  /** Bit k of a mode word is set */
  predicate Bit(mode: bv32, k: nat)
    requires k < 32
  {
    (mode >> k) & 1 == 1
  }

  /** Character p (0 <= p < 9) of the symbolic form, owner triplet first: the
      letter of "rwx" for p's place in its triplet when permission bit 8 - p is
      set, and '-' when it is clear. */
  function SymbolAt(mode: bv32, p: nat): char
    requires p < 9
  {
    if Bit(mode, 8 - p) then "rwx"[p % 3] else '-'
  }

  /** The inner loop of `toSymbolic`: the symbols from place j to the end of one
      three-bit triplet, testing bit 2 - j for place j */
  function TripletSymbols(triplet: bv32, j: nat): (r: string)
    requires j <= 3
    ensures |r| == 3 - j
    decreases 3 - j
  {
    if j == 3 then ""
    else [if triplet & (1 << (2 - j)) != 0 then "rwx"[j] else '-'] + TripletSymbols(triplet, j + 1)
  }

  /** Place j of the triplet taken at shift i is the symbol of mode bit i + 2 - j. */
  lemma TripletPlace(perm: bv32, i: int, j: nat)
    requires i == 0 || i == 3 || i == 6
    requires j < 3
    ensures TripletSymbols((perm >> i) & 7, 0)[j] == SymbolAt(perm, 6 - i + j)
  {
    var t := (perm >> i) & 7;
    var r := TripletSymbols(t, 0);
    assert r == [r[0]] + TripletSymbols(t, 1);
    assert TripletSymbols(t, 1) == [r[1]] + TripletSymbols(t, 2);
    if i == 0 {
      assert t & 4 != 0 <==> Bit(perm, 2);
      assert t & 2 != 0 <==> Bit(perm, 1);
      assert t & 1 != 0 <==> Bit(perm, 0);
    } else if i == 3 {
      assert t & 4 != 0 <==> Bit(perm, 5);
      assert t & 2 != 0 <==> Bit(perm, 4);
      assert t & 1 != 0 <==> Bit(perm, 3);
    } else {
      assert t & 4 != 0 <==> Bit(perm, 8);
      assert t & 2 != 0 <==> Bit(perm, 7);
      assert t & 1 != 0 <==> Bit(perm, 6);
    }
  }

  /** The outer loop of `toSymbolic` from shift i (6, 3, then 0) downwards: one
      triplet per step, the owner's first */
  function SymbolicFrom(perm: bv32, i: int): (r: string)
    requires -3 <= i <= 6 && i % 3 == 0
    ensures |r| == i + 3
    ensures forall k :: 0 <= k < |r| ==> r[k] == SymbolAt(perm, 6 - i + k)
    decreases i + 3
  {
    if i < 0 then ""
    else
      var head := TripletSymbols((perm >> i) & 7, 0);
      TripletPlace(perm, i, 0);
      TripletPlace(perm, i, 1);
      TripletPlace(perm, i, 2);
      var rest := SymbolicFrom(perm, i - 3);
      AppendPlaces(perm, 6 - i, head, rest);
      head + rest
  }

  /** A triplet's symbols followed by the symbols of the following places */
  lemma AppendPlaces(perm: bv32, first: nat, head: string, rest: string)
    requires |head| == 3 && first + 3 + |rest| <= 9
    requires head[0] == SymbolAt(perm, first) && head[1] == SymbolAt(perm, first + 1) && head[2] == SymbolAt(perm, first + 2)
    requires forall k :: 0 <= k < |rest| ==> rest[k] == SymbolAt(perm, first + 3 + k)
    ensures forall k :: 0 <= k < |head + rest| ==> (head + rest)[k] == SymbolAt(perm, first + k)
  {
    forall k | 0 <= k < |head + rest|
      ensures (head + rest)[k] == SymbolAt(perm, first + k)
    {
      if k >= 3 {
        assert (head + rest)[k] == rest[k - 3];
      }
    }
  }

  /** `toSymbolic`: nine symbols, owner triplet first */
  function ToSymbolic(perm: bv32): (r: string)
    ensures |r| == 9
    ensures forall p :: 0 <= p < 9 ==> r[p] == SymbolAt(perm, p)
  {
    SymbolicFrom(perm, 6)
  }

  /** The kind named by the file-type bits; any type other than a regular file
      or a symbolic link is `Other` */
  function KindOf(mode: bv32): (k: FileKind)
    ensures k == File <==> mode & KIND_MASK == FILE_BITS
    ensures k == Symlink <==> mode & KIND_MASK == SYMLINK_BITS
  {
    var kindBits := mode & KIND_MASK;
    if kindBits == FILE_BITS then File else if kindBits == SYMLINK_BITS then Symlink else Other
  }

  /** `'0o' + permBits.toString(8).padStart(4, '0')` for permission bits below
      octal 10000: always exactly four octal digits, denoting `permBits` */
  function PermOctal(permBits: nat): (s: string)
    requires permBits < 0x1000
    ensures |s| == 6 && s[..2] == "0o"
    ensures forall i :: 2 <= i < 6 ==> IsDigitChar(s[i]) && DigitValue(s[i]) < 8
    ensures AllDigits(s[2..]) && Value(s[2..], 8) == permBits
  {
    assert Pow(8, 4) == 0x1000;
    var digits := FixedDigits(permBits, 8, 4);
    assert ("0o" + digits)[2..] == digits;
    "0o" + digits
  }

  /** `parseMode`: the kind from the type bits, the permission and special bits
      as four octal digits after "0o", and the nine rwx bits as symbols. For
      every 32-bit mode, the kind is decided by the type bits alone; the octal
      form is exactly four octal digits denoting the permission and special
      bits; the symbolic form has nine places, place p showing permission bit
      8 - p. */
  function ParseMode(mode: bv32): (m: ModeInfo)
    ensures m.kind == File <==> mode & KIND_MASK == FILE_BITS
    ensures m.kind == Symlink <==> mode & KIND_MASK == SYMLINK_BITS
    ensures |m.permOctal| == 6 && m.permOctal[..2] == "0o"
    ensures forall i :: 2 <= i < 6 ==> IsDigitChar(m.permOctal[i]) && DigitValue(m.permOctal[i]) < 8
    ensures AllDigits(m.permOctal[2..]) && Value(m.permOctal[2..], 8) == PermNumber(mode)
    ensures |m.permSymbolic| == 9
    ensures forall p :: 0 <= p < 9 ==> m.permSymbolic[p] == SymbolAt(mode, p)
  {
    var permBits := mode & PERM_MASK;
    PermBitsKeepRwx(mode);
    ModeInfo(KindOf(mode), PermOctal(PermNumber(mode)), ToSymbolic(permBits))
  }

  /** The permission and special bits of a mode word, as a number */
  function PermNumber(mode: bv32): (n: nat)
    ensures n < 0x1000
    ensures n as bv32 == mode & PERM_MASK
  {
    (mode & PERM_MASK) as int
  }

  /** Masking with PERM_MASK leaves a value below octal 10000 and keeps every
      rwx bit, so it does not change the symbolic form. */
  lemma PermBitsKeepRwx(mode: bv32)
    ensures (mode & PERM_MASK) as int < 0x1000
    ensures forall p :: 0 <= p < 9 ==> SymbolAt(mode & PERM_MASK, p) == SymbolAt(mode, p)
  {
    forall p | 0 <= p < 9
      ensures SymbolAt(mode & PERM_MASK, p) == SymbolAt(mode, p)
    {
      var k := 8 - p;
      assert ((mode & PERM_MASK) >> k) & 1 == (mode >> k) & 1;
    }
  }

  /** Two mode words have the same nine rwx bits exactly when they agree on every one of them. */
  lemma RwxMaskOfBits(m1: bv32, m2: bv32)
    ensures m1 & RWX_MASK == m2 & RWX_MASK <==> forall k :: 0 <= k < 9 ==> (Bit(m1, k) <==> Bit(m2, k))
  {
    if forall k :: 0 <= k < 9 ==> (Bit(m1, k) <==> Bit(m2, k)) {
      RwxMaskFromBits(m1, m2);
    }
    if m1 & RWX_MASK == m2 & RWX_MASK {
      forall k | 0 <= k < 9
        ensures Bit(m1, k) <==> Bit(m2, k)
      {
        BitBelowMask(m1, k);
        BitBelowMask(m2, k);
      }
    }
  }

  lemma BitBelowMask(m: bv32, k: nat)
    requires k < 9
    ensures Bit(m, k) <==> Bit(m & RWX_MASK, k)
  {
  }

  lemma RwxMaskFromBits(m1: bv32, m2: bv32)
    requires forall k :: 0 <= k < 9 ==> (Bit(m1, k) <==> Bit(m2, k))
    ensures m1 & RWX_MASK == m2 & RWX_MASK
  {
    assert Bit(m1, 0) == Bit(m2, 0) && Bit(m1, 1) == Bit(m2, 1) && Bit(m1, 2) == Bit(m2, 2);
    assert Bit(m1, 3) == Bit(m2, 3) && Bit(m1, 4) == Bit(m2, 4) && Bit(m1, 5) == Bit(m2, 5);
    assert Bit(m1, 6) == Bit(m2, 6) && Bit(m1, 7) == Bit(m2, 7) && Bit(m1, 8) == Bit(m2, 8);
  }

  /** The symbolic form sees the nine rwx bits and nothing else: two modes give
      the same symbolic string exactly when their rwx bits agree, whatever their
      type and special (setuid, setgid, sticky) bits. */
  lemma SymbolicIffRwxBits(m1: bv32, m2: bv32)
    ensures ParseMode(m1).permSymbolic == ParseMode(m2).permSymbolic <==> m1 & RWX_MASK == m2 & RWX_MASK
  {
    RwxMaskOfBits(m1, m2);
    SymbolsIffBits(ParseMode(m1).permSymbolic, ParseMode(m2).permSymbolic, m1, m2);
  }

  lemma SymbolsIffBits(s1: string, s2: string, m1: bv32, m2: bv32)
    requires |s1| == 9 && forall p :: 0 <= p < 9 ==> s1[p] == SymbolAt(m1, p)
    requires |s2| == 9 && forall p :: 0 <= p < 9 ==> s2[p] == SymbolAt(m2, p)
    ensures s1 == s2 <==> forall k :: 0 <= k < 9 ==> (Bit(m1, k) <==> Bit(m2, k))
  {
    if s1 == s2 {
      forall k | 0 <= k < 9
        ensures Bit(m1, k) <==> Bit(m2, k)
      {
        assert s1[8 - k] == s2[8 - k];
      }
    }
    if forall k :: 0 <= k < 9 ==> (Bit(m1, k) <==> Bit(m2, k)) {
      forall p | 0 <= p < 9
        ensures s1[p] == s2[p]
      {
        assert Bit(m1, 8 - p) <==> Bit(m2, 8 - p);
      }
    }
  }

  /** The octal form sees the twelve permission and special bits and nothing
      else: two modes give the same octal string exactly when those bits agree. */
  lemma OctalIffPermBits(m1: bv32, m2: bv32)
    ensures ParseMode(m1).permOctal == ParseMode(m2).permOctal <==> m1 & PERM_MASK == m2 & PERM_MASK
  {
    var o1, o2 := ParseMode(m1).permOctal, ParseMode(m2).permOctal;
    if o1 == o2 {
      assert o1[2..] == o2[2..];
      assert PermNumber(m1) == PermNumber(m2);
    }
    if m1 & PERM_MASK == m2 & PERM_MASK {
      ParseModeParts(m1);
      ParseModeParts(m2);
      assert PermNumber(m1) == PermNumber(m2) by {
        BitsThroughInt(m1 & PERM_MASK);
        BitsThroughInt(m2 & PERM_MASK);
      }
    }
  }

  lemma BitsThroughInt(b: bv32)
    ensures (b as int) as bv32 == b
  {
  }

  /** The octal form spelled out: "0o" and the four octal digits of the
      permission bits, most significant first. */
  lemma PermOctalDigits(n: nat)
    requires n < 0x1000
    ensures PermOctal(n) == "0o" + [DigitChar(n / 512), DigitChar(n / 64 % 8), DigitChar(n / 8 % 8), DigitChar(n % 8)]
  {
    var s := PermOctal(n);
    OctalDigitsOfValue(s[2..], n);
    assert s == s[..2] + s[2..];
  }

  /** `parseMode` assembled from its three parts */
  lemma ParseModeParts(mode: bv32)
    ensures ParseMode(mode) == ModeInfo(KindOf(mode), PermOctal(PermNumber(mode)), ToSymbolic(mode & PERM_MASK))
  {
    PermBitsKeepRwx(mode);
  }

  lemma SymbolicIs(perm: bv32, s: string)
    requires |s| == 9
    requires SymbolAt(perm, 0) == s[0] && SymbolAt(perm, 1) == s[1] && SymbolAt(perm, 2) == s[2]
    requires SymbolAt(perm, 3) == s[3] && SymbolAt(perm, 4) == s[4] && SymbolAt(perm, 5) == s[5]
    requires SymbolAt(perm, 6) == s[6] && SymbolAt(perm, 7) == s[7] && SymbolAt(perm, 8) == s[8]
    ensures ToSymbolic(perm) == s
  {
    var r := ToSymbolic(perm);
    forall p | 0 <= p < 9
      ensures r[p] == s[p]
    {
      if p < 3 {
        assert p == 0 || p == 1 || p == 2;
      } else if p < 6 {
        assert p == 3 || p == 4 || p == 5;
      } else {
        assert p == 6 || p == 7 || p == 8;
      }
    }
  }

  /** A regular file with permissions 0755 */
  lemma FileExample()
    ensures ParseMode(0x81ED) == ModeInfo(File, "0o0755", "rwxr-xr-x")    // octal 0100755
  {
    ExampleParts(0x81ED, File, 0x1ED, "0o0755", "rwxr-xr-x");
  }

  /** The same file with setuid set: the special bit shows in the octal form only. */
  lemma SetuidFileExample()
    ensures ParseMode(0x89ED) == ModeInfo(File, "0o4755", "rwxr-xr-x")    // octal 0104755
  {
    ExampleParts(0x89ED, File, 0x9ED, "0o4755", "rwxr-xr-x");
  }

  /** A symbolic link with permissions 0644 */
  lemma SymlinkExample()
    ensures ParseMode(0xA1A4) == ModeInfo(Symlink, "0o0644", "rw-r--r--")  // octal 0120644
  {
    ExampleParts(0xA1A4, Symlink, 0x1A4, "0o0644", "rw-r--r--");
  }

  /** Assembles a concrete `parseMode` result from its kind, its four octal
      digits and its nine symbols. */
  lemma ExampleParts(mode: bv32, kind: FileKind, perm: bv32, octal: string, symbolic: string)
    requires KindOf(mode) == kind
    requires mode & PERM_MASK == perm && perm < 0x1000
    requires octal == "0o" + [DigitChar(perm as int / 512), DigitChar(perm as int / 64 % 8),
                              DigitChar(perm as int / 8 % 8), DigitChar(perm as int % 8)]
    requires |symbolic| == 9
    requires SymbolAt(perm, 0) == symbolic[0] && SymbolAt(perm, 1) == symbolic[1] && SymbolAt(perm, 2) == symbolic[2]
    requires SymbolAt(perm, 3) == symbolic[3] && SymbolAt(perm, 4) == symbolic[4] && SymbolAt(perm, 5) == symbolic[5]
    requires SymbolAt(perm, 6) == symbolic[6] && SymbolAt(perm, 7) == symbolic[7] && SymbolAt(perm, 8) == symbolic[8]
    ensures ParseMode(mode) == ModeInfo(kind, octal, symbolic)
  {
    ParseModeParts(mode);
    assert PermNumber(mode) == perm as int;
    PermOctalDigits(perm as int);
    SymbolicIs(perm, symbolic);
  }
}
