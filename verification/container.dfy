/** The package container and its decoder. A container is a 136-byte header
    (signature, public key, header hash, entry count) followed by a table of
    308-byte entries (hash, payload offset, payload size, mode, path). */
module Container {
  import opened Results
  import opened Bytes
  import opened Views
  import opened Mode

  const HEADER_SIZE: nat := 136
  const ENTRY_SIZE: nat := 308
  const PATH_SIZE: nat := 256

  datatype Header = Header(signature: seq<byte>, publicKey: seq<byte>, headerBlake3: seq<byte>, count: nat)

  /** One decoded table entry; `index` is its 1-based place in the table */
  datatype Entry = Entry(
    index: nat,
    entryBlake3: seq<byte>,
    offset: nat,
    size: nat,
    mode: bv32,
    path: seq<byte>)
  {
    /** The kind and permission strings the loop derives from the mode word */
    function ModeParsed(): ModeInfo {
      ParseMode(mode)
    }
  }

  datatype Report = Report(header: Header, entries: seq<Entry>)

  /** A read past the end of the buffer: in the header, or in the table at the
      (0-based) entry whose window first overruns it */
  datatype DecodeError = TruncatedHeader | TruncatedEntryTable(entry: nat)

  /** The byte offset at which entry i (0-based) starts */
  function EntryBase(i: nat): nat {
    136 + 308 * i
  }

  /** The logical path in a NUL-padded window: the bytes before the first NUL,
      or the whole window when it holds none */
  function UntilNul(window: seq<byte>): (path: seq<byte>)
    ensures path <= window
    ensures 0 !in path
    ensures |path| == |window| || window[|path|] == 0
  {
    if |window| == 0 || window[0] == 0 then [] else [window[0]] + UntilNul(window[1..])
  }

  /** The three properties of `UntilNul` single out its result. */
  lemma UntilNulUnique(window: seq<byte>, path: seq<byte>)
    requires path <= window && 0 !in path
    requires |path| == |window| || window[|path|] == 0
    ensures path == UntilNul(window)
  {
  }

  /** The header layout: what each header field is, read from the first 136 bytes */
  ghost predicate HeaderLayout(buf: seq<byte>, h: Header)
    requires |buf| >= HEADER_SIZE
  {
    && h.signature == buf[0..64]
    && h.publicKey == buf[64..96]
    && h.headerBlake3 == buf[96..128]
    && h.count == LittleEndian(buf[128..136])
  }

  /** The entry layout: what each field of entry i is, read from its 308-byte window */
  ghost predicate EntryLayout(window: seq<byte>, i: nat, e: Entry)
    requires |window| == ENTRY_SIZE
  {
    Pow256Widths();
    && e.index == i + 1
    && e.entryBlake3 == window[0..32]
    && e.offset == LittleEndian(window[32..40])
    && e.size == LittleEndian(window[40..48])
    && e.mode == LittleEndian(window[48..52]) as bv32
    && e.path == UntilNul(window[52..308])
  }

  /** The header reads of the drop handler; any of them throws on a buffer
      shorter than the header. */
  function DecodeHeader(buf: seq<byte>): (r: Outcome<Header, DecodeError>)
    ensures r.Ok? <==> |buf| >= HEADER_SIZE
    ensures r.Ok? ==> HeaderLayout(buf, r.value) && r.value.count < TWO_TO_THE_64
  {
    var signature :- View(buf, 0, 64).OrError(TruncatedHeader);
    var publicKey :- View(buf, 64, 32).OrError(TruncatedHeader);
    var headerBlake3 :- View(buf, 96, 32).OrError(TruncatedHeader);
    var count :- ReadU64(buf, 128).OrError(TruncatedHeader);
    Ok(Header(signature, publicKey, headerBlake3, count))
  }

  /** The raw fields of an entry window as the loop body reads them */
  datatype EntryFields = EntryFields(entryBlake3: seq<byte>, offset: nat, size: nat, mode: bv32, pathBytes: seq<byte>)

  /** The five reads of one iteration of the entry loop, at the entry's base
      offset; any of them throws when it runs past the end of the buffer. */
  function ReadEntryFields(buf: seq<byte>, base: nat): (r: Maybe<EntryFields>)
    ensures r.Just? <==> base + ENTRY_SIZE <= |buf|
    ensures r.Just? ==>
      && r.value.entryBlake3 == buf[base..base + 32]
      && r.value.offset == LittleEndian(buf[base + 32..base + 40])
      && r.value.size == LittleEndian(buf[base + 40..base + 48])
      && LittleEndian(buf[base + 48..base + 52]) < TWO_TO_THE_32
      && r.value.mode == LittleEndian(buf[base + 48..base + 52]) as bv32
      && r.value.pathBytes == buf[base + 52..base + ENTRY_SIZE]
  {
    var entryBlake3 :- View(buf, base, 32);
    var offset :- ReadU64(buf, base + 32);
    var size :- ReadU64(buf, base + 40);
    var mode :- ReadU32(buf, base + 48);
    var pathBytes :- View(buf, base + 52, PATH_SIZE);
    Just(EntryFields(entryBlake3, offset, size, mode, pathBytes))
  }

  /** One iteration of the entry loop: entry i decoded from its window, or the
      error naming it when the window overruns the buffer. */
  function DecodeEntry(buf: seq<byte>, i: nat): (r: Outcome<Entry, DecodeError>)
    ensures r.Ok? <==> EntryBase(i) + ENTRY_SIZE <= |buf|
    ensures r.Err? ==> r.error == TruncatedEntryTable(i)
    ensures r.Ok? ==> EntryLayout(buf[EntryBase(i)..EntryBase(i) + ENTRY_SIZE], i, r.value)
  {
    var base := EntryBase(i);
    var fields := ReadEntryFields(buf, base);
    if fields.Nothing? then Err(TruncatedEntryTable(i))
    else
      var f := fields.value;
      var e := Entry(i + 1, f.entryBlake3, f.offset, f.size, f.mode, UntilNul(f.pathBytes));
      LayoutOfFields(buf, base, i, f, e);
      Ok(e)
  }

  lemma LayoutOfFields(buf: seq<byte>, base: nat, i: nat, f: EntryFields, e: Entry)
    requires ReadEntryFields(buf, base) == Just(f)
    requires e == Entry(i + 1, f.entryBlake3, f.offset, f.size, f.mode, UntilNul(f.pathBytes))
    ensures EntryLayout(buf[base..base + ENTRY_SIZE], i, e)
  {
    SubWindows(buf, base);
  }

  lemma SubWindows(buf: seq<byte>, base: nat)
    requires base + ENTRY_SIZE <= |buf|
    ensures buf[base..base + ENTRY_SIZE][0..32] == buf[base..base + 32]
    ensures buf[base..base + ENTRY_SIZE][32..40] == buf[base + 32..base + 40]
    ensures buf[base..base + ENTRY_SIZE][40..48] == buf[base + 40..base + 48]
    ensures buf[base..base + ENTRY_SIZE][48..52] == buf[base + 48..base + 52]
    ensures buf[base..base + ENTRY_SIZE][52..308] == buf[base + 52..base + 308]
  {
    SliceOfSlice(buf, base, base + ENTRY_SIZE, 0, 32);
    SliceOfSlice(buf, base, base + ENTRY_SIZE, 32, 40);
    SliceOfSlice(buf, base, base + ENTRY_SIZE, 40, 48);
    SliceOfSlice(buf, base, base + ENTRY_SIZE, 48, 52);
    SliceOfSlice(buf, base, base + ENTRY_SIZE, 52, 308);
  }

  lemma SliceOfSlice(s: seq<byte>, a: nat, b: nat, lo: nat, hi: nat)
    requires a <= b <= |s| && lo <= hi <= b - a
    ensures s[a..b][lo..hi] == s[a + lo..a + hi]
  {
    var l, r := s[a..b][lo..hi], s[a + lo..a + hi];
    forall k | 0 <= k < |l|
      ensures l[k] == r[k]
    {
    }
  }

  /** The decoder as a whole: the header, then `count` entries in table order.
      It succeeds exactly when the buffer holds the header and every entry
      window, and a failure carries no partial report. */
  function Decode(buf: seq<byte>): (r: Outcome<Report, DecodeError>)
    ensures r == Err(TruncatedHeader) <==> |buf| < HEADER_SIZE
    ensures r.Ok? <==> |buf| >= HEADER_SIZE && EntryBase(LittleEndian(buf[128..136])) <= |buf|
    ensures r.Ok? ==>
      && HeaderLayout(buf, r.value.header)
      && |r.value.entries| == r.value.header.count
      && forall i :: 0 <= i < |r.value.entries| ==>
           EntryLayout(buf[EntryBase(i)..EntryBase(i) + ENTRY_SIZE], i, r.value.entries[i])
    ensures r.Err? && |buf| >= HEADER_SIZE ==>
      r.error == TruncatedEntryTable((|buf| - HEADER_SIZE) / ENTRY_SIZE)
  {
    var header :- DecodeHeader(buf);
    if EntryBase(header.count) <= |buf| then
      Ok(Report(header, seq(header.count, i requires 0 <= i < header.count => DecodeEntry(buf, i).value)))
    else
      Err(TruncatedEntryTable((|buf| - HEADER_SIZE) / ENTRY_SIZE))
  }

  /** The kind and permission strings shown for each decoded entry are
      `parseMode` of the little-endian 32-bit word at offset 48 of its window. */
  lemma DecodedModes(buf: seq<byte>, i: nat)
    requires Decode(buf).Ok? && i < |Decode(buf).value.entries|
    ensures EntryBase(i) + ENTRY_SIZE <= |buf|
    ensures LittleEndian(buf[EntryBase(i) + 48..EntryBase(i) + 52]) < TWO_TO_THE_32
    ensures Decode(buf).value.entries[i].ModeParsed()
         == ParseMode(LittleEndian(buf[EntryBase(i) + 48..EntryBase(i) + 52]) as bv32)
  {
    var rep := Decode(buf).value;
    var base := EntryBase(i);
    assert base + ENTRY_SIZE == EntryBase(i + 1) <= EntryBase(rep.header.count);
    var word := ModeWord(buf, i, rep.entries[i]);
    assert rep.entries[i].mode == word;
  }

  /** The mode word an entry laid out at entry i of `buf` carries */
  lemma ModeWord(buf: seq<byte>, i: nat, e: Entry) returns (word: bv32)
    requires EntryBase(i) + ENTRY_SIZE <= |buf|
    requires EntryLayout(buf[EntryBase(i)..EntryBase(i) + ENTRY_SIZE], i, e)
    ensures LittleEndian(buf[EntryBase(i) + 48..EntryBase(i) + 52]) < TWO_TO_THE_32
    ensures word == LittleEndian(buf[EntryBase(i) + 48..EntryBase(i) + 52]) as bv32
    ensures e.mode == word
  {
    Pow256Widths();
    SubWindows(buf, EntryBase(i));
    word := e.mode;
  }

  /** The drop handler's decoding body as written: read the header, then walk
      the table one entry at a time, giving up at the first entry that does not
      fit; only a complete walk produces a report. */
  method DecodeBuffer(buf: seq<byte>) returns (r: Outcome<Report, DecodeError>)
    ensures r == Decode(buf)
  {
    var header := DecodeHeader(buf);
    if header.Err? {
      return Err(header.error);
    }
    var h := header.value;
    var entries: seq<Entry> := [];
    var i: nat := 0;
    while i < h.count
      invariant i <= h.count
      invariant EntryBase(i) <= |buf|
      invariant |entries| == i
      invariant forall k :: 0 <= k < i ==> DecodeEntry(buf, k) == Ok(entries[k])
    {
      var entry := DecodeEntry(buf, i);
      if entry.Err? {
        DecodeStopsAt(buf, h, i);
        return Err(entry.error);
      }
      entries := entries + [entry.value];
      i := i + 1;
    }
    DecodeCompletes(buf, h, entries);
    return Ok(Report(h, entries));
  }

  /** When every entry of the table decodes, so does the container. */
  lemma DecodeCompletes(buf: seq<byte>, h: Header, entries: seq<Entry>)
    requires DecodeHeader(buf) == Ok(h)
    requires EntryBase(h.count) <= |buf| && |entries| == h.count
    requires forall k :: 0 <= k < h.count ==> DecodeEntry(buf, k) == Ok(entries[k])
    ensures Decode(buf) == Ok(Report(h, entries))
  {
    assert entries == seq(h.count, k requires 0 <= k < h.count => DecodeEntry(buf, k).value);
  }

  /** When entry i is the first whose window overruns the buffer, the
      container fails there, with no report. */
  lemma DecodeStopsAt(buf: seq<byte>, h: Header, i: nat)
    requires DecodeHeader(buf) == Ok(h)
    requires i < h.count && EntryBase(i) <= |buf| < EntryBase(i) + ENTRY_SIZE
    ensures Decode(buf) == Err(TruncatedEntryTable(i))
  {
    assert EntryBase(h.count) >= EntryBase(i + 1);
  }

  /** An entry a report can hold at table position i: labelled i + 1, its
      fields within their widths, its path at most 256 bytes and free of NUL */
  ghost predicate ValidEntry(e: Entry, i: nat) {
    && e.index == i + 1
    && |e.entryBlake3| == 32
    && e.offset < TWO_TO_THE_64
    && e.size < TWO_TO_THE_64
    && |e.path| <= PATH_SIZE
    && 0 !in e.path
  }

  /** A report some container decodes to */
  ghost predicate WellFormed(rep: Report) {
    && |rep.header.signature| == 64
    && |rep.header.publicKey| == 32
    && |rep.header.headerBlake3| == 32
    && rep.header.count < TWO_TO_THE_64
    && |rep.entries| == rep.header.count
    && forall i :: 0 <= i < |rep.entries| ==> ValidEntry(rep.entries[i], i)
  }

  function Zeros(n: nat): (z: seq<byte>)
    ensures |z| == n && forall k :: 0 <= k < n ==> z[k] == 0
  {
    seq(n, _ => 0)
  }

  /** The 308-byte window of an entry, its path padded with NULs */
  function EncodeEntry(e: Entry): (w: seq<byte>)
    requires |e.entryBlake3| == 32 && |e.path| <= PATH_SIZE
    ensures |w| == ENTRY_SIZE
  {
    e.entryBlake3 + ToLittleEndian(e.offset, 8) + ToLittleEndian(e.size, 8)
      + ToLittleEndian(e.mode as int, 4) + e.path + Zeros(PATH_SIZE - |e.path|)
  }

  function EncodeEntries(es: seq<Entry>): (t: seq<byte>)
    requires forall k :: 0 <= k < |es| ==> |es[k].entryBlake3| == 32 && |es[k].path| <= PATH_SIZE
    ensures |t| == ENTRY_SIZE * |es|
  {
    if |es| == 0 then [] else EncodeEntry(es[0]) + EncodeEntries(es[1..])
  }

  /** The container laid out from a report: the inverse of `Decode` */
  function Encode(rep: Report): (buf: seq<byte>)
    requires WellFormed(rep)
    ensures |buf| == EntryBase(|rep.entries|)
  {
    var h := rep.header;
    h.signature + h.publicKey + h.headerBlake3 + ToLittleEndian(h.count, 8) + EncodeEntries(rep.entries)
  }

  lemma {:induction false} EncodedEntryWindow(es: seq<Entry>, i: nat)
    requires forall k :: 0 <= k < |es| ==> |es[k].entryBlake3| == 32 && |es[k].path| <= PATH_SIZE
    requires i < |es|
    ensures EncodeEntries(es)[ENTRY_SIZE * i..ENTRY_SIZE * i + ENTRY_SIZE] == EncodeEntry(es[i])
    decreases i
  {
    var t := EncodeEntries(es);
    assert t == EncodeEntry(es[0]) + EncodeEntries(es[1..]);
    if i > 0 {
      EncodedEntryWindow(es[1..], i - 1);
      assert t[ENTRY_SIZE * i..ENTRY_SIZE * i + ENTRY_SIZE]
          == EncodeEntries(es[1..])[ENTRY_SIZE * (i - 1)..ENTRY_SIZE * (i - 1) + ENTRY_SIZE];
    }
  }

  /** The path survives NUL padding. */
  lemma UntilNulOfPadded(path: seq<byte>, n: nat)
    requires 0 !in path
    ensures UntilNul(path + Zeros(n)) == path
  {
    UntilNulUnique(path + Zeros(n), path);
  }

  /** An encoded entry window decodes to the entry. */
  lemma EncodedEntryLayout(e: Entry, i: nat)
    requires ValidEntry(e, i)
    ensures EntryLayout(EncodeEntry(e), i, e)
  {
    var offset, size, mode, padded := EncodedParts(e, i);
    LayoutOfParts(EncodeEntry(e), i, e, offset, size, mode, padded);
  }

  /** The window of a valid entry split into its five encoded fields, each
      of which reads back as the field it encodes */
  lemma EncodedParts(e: Entry, i: nat) returns (offset: seq<byte>, size: seq<byte>, mode: seq<byte>, padded: seq<byte>)
    requires ValidEntry(e, i)
    ensures |offset| == 8 && |size| == 8 && |mode| == 4 && |padded| == PATH_SIZE
    ensures EncodeEntry(e) == e.entryBlake3 + offset + size + mode + padded
    ensures LittleEndian(offset) == e.offset && LittleEndian(size) == e.size
    ensures LittleEndian(mode) == e.mode as int
    ensures UntilNul(padded) == e.path
  {
    padded := e.path + Zeros(PATH_SIZE - |e.path|);
    offset, size, mode := ToLittleEndian(e.offset, 8), ToLittleEndian(e.size, 8), ToLittleEndian(e.mode as int, 4);
    FieldsReadBack(e, i);
    ModeOfEncoding(e.mode);
    EncodeEntryIsParts(e);
  }

  /** The offset, size and path of a valid entry are read back from their encodings. */
  lemma FieldsReadBack(e: Entry, i: nat)
    requires ValidEntry(e, i)
    ensures LittleEndian(ToLittleEndian(e.offset, 8)) == e.offset
    ensures LittleEndian(ToLittleEndian(e.size, 8)) == e.size
    ensures UntilNul(e.path + Zeros(PATH_SIZE - |e.path|)) == e.path
  {
    Pow256Widths();
    LittleEndianOfEncoding(e.offset, 8);
    LittleEndianOfEncoding(e.size, 8);
    UntilNulOfPadded(e.path, PATH_SIZE - |e.path|);
  }

  /** The mode word read back from its 4-byte little-endian encoding */
  lemma ModeOfEncoding(m: bv32)
    ensures LittleEndian(ToLittleEndian(m as int, 4)) == m as int
  {
    Pow256Widths();
    LittleEndianOfEncoding(m as int, 4);
  }

  /** The window of an entry is its five encoded fields side by side, the
      path and its NUL padding forming the last. */
  lemma EncodeEntryIsParts(e: Entry)
    requires |e.entryBlake3| == 32 && |e.path| <= PATH_SIZE
    ensures EncodeEntry(e) == e.entryBlake3 + ToLittleEndian(e.offset, 8) + ToLittleEndian(e.size, 8)
      + ToLittleEndian(e.mode as int, 4) + (e.path + Zeros(PATH_SIZE - |e.path|))
  {
  }

  /** A window made of an entry's five encoded fields, each of which reads
      back as that field, holds the entry's layout. */
  lemma LayoutOfParts(w: seq<byte>, i: nat, e: Entry, offset: seq<byte>, size: seq<byte>, mode: seq<byte>, padded: seq<byte>)
    requires |e.entryBlake3| == 32 && |offset| == 8 && |size| == 8 && |mode| == 4 && |padded| == PATH_SIZE
    requires w == e.entryBlake3 + offset + size + mode + padded
    requires e.index == i + 1
    requires LittleEndian(offset) == e.offset && LittleEndian(size) == e.size
    requires LittleEndian(mode) == e.mode as int
    requires UntilNul(padded) == e.path
    ensures EntryLayout(w, i, e)
  {
    Pieces(e.entryBlake3, offset, size, mode, padded);
    BitsThroughInt(e.mode);
  }

  /** The five fields of an entry window sit side by side. */
  lemma Pieces(a: seq<byte>, b: seq<byte>, c: seq<byte>, d: seq<byte>, p: seq<byte>)
    requires |a| == 32 && |b| == 8 && |c| == 8 && |d| == 4 && |p| == PATH_SIZE
    ensures (a + b + c + d + p)[0..32] == a
    ensures (a + b + c + d + p)[32..40] == b
    ensures (a + b + c + d + p)[40..48] == c
    ensures (a + b + c + d + p)[48..52] == d
    ensures (a + b + c + d + p)[52..308] == p
  {
  }

  /** A window determines the entry laid out in it. */
  lemma LayoutDetermines(window: seq<byte>, i: nat, e1: Entry, e2: Entry)
    requires |window| == ENTRY_SIZE
    requires EntryLayout(window, i, e1) && EntryLayout(window, i, e2)
    ensures e1 == e2
  {
  }

  /** Entry i decodes to `e` whenever its window holds e's layout. */
  lemma DecodeEntryOfLayout(buf: seq<byte>, i: nat, e: Entry)
    requires EntryBase(i) + ENTRY_SIZE <= |buf|
    requires EntryLayout(buf[EntryBase(i)..EntryBase(i) + ENTRY_SIZE], i, e)
    ensures DecodeEntry(buf, i) == Ok(e)
  {
    var w := buf[EntryBase(i)..EntryBase(i) + ENTRY_SIZE];
    LayoutDetermines(w, i, DecodeEntry(buf, i).value, e);
  }

  lemma EncodedHeader(rep: Report)
    requires WellFormed(rep)
    ensures DecodeHeader(Encode(rep)) == Ok(rep.header)
  {
    var h := rep.header;
    var count := ToLittleEndian(h.count, 8);
    assert Encode(rep) == h.signature + h.publicKey + h.headerBlake3 + count + EncodeEntries(rep.entries);
    HeaderPieces(h.signature, h.publicKey, h.headerBlake3, count, EncodeEntries(rep.entries));
    Pow256Widths();
    LittleEndianOfEncoding(h.count, 8);
    HeaderOfLayout(Encode(rep), h);
  }

  /** The four header fields sit side by side ahead of the entry table. */
  lemma HeaderPieces(a: seq<byte>, b: seq<byte>, c: seq<byte>, d: seq<byte>, t: seq<byte>)
    requires |a| == 64 && |b| == 32 && |c| == 32 && |d| == 8
    ensures (a + b + c + d + t)[0..64] == a
    ensures (a + b + c + d + t)[64..96] == b
    ensures (a + b + c + d + t)[96..128] == c
    ensures (a + b + c + d + t)[128..136] == d
  {
  }

  /** A buffer holding a header's layout decodes to that header. */
  lemma HeaderOfLayout(buf: seq<byte>, h: Header)
    requires |buf| >= HEADER_SIZE && HeaderLayout(buf, h)
    ensures DecodeHeader(buf) == Ok(h)
  {
  }

  lemma EncodedEntry(rep: Report, i: nat)
    requires WellFormed(rep) && i < |rep.entries|
    ensures DecodeEntry(Encode(rep), i) == Ok(rep.entries[i])
  {
    var buf, es := Encode(rep), rep.entries;
    var t := EncodeEntries(es);
    EncodedEntryWindow(es, i);
    assert buf[EntryBase(i)..EntryBase(i) + ENTRY_SIZE] == t[ENTRY_SIZE * i..ENTRY_SIZE * i + ENTRY_SIZE];
    EncodedEntryLayout(es[i], i);
    DecodeEntryOfLayout(buf, i, es[i]);
  }

  /** Every well-formed report is decoded back, field for field, from its encoding. */
  lemma EncodeThenDecode(rep: Report)
    requires WellFormed(rep)
    ensures Decode(Encode(rep)) == Ok(rep)
  {
    EncodedHeader(rep);
    forall i | 0 <= i < |rep.entries|
      ensures DecodeEntry(Encode(rep), i) == Ok(rep.entries[i])
    {
      EncodedEntry(rep, i);
    }
    DecodeCompletes(Encode(rep), rep.header, rep.entries);
  }

  /** Every report `Decode` produces is well formed, so it can be re-encoded. */
  lemma DecodedIsWellFormed(buf: seq<byte>)
    requires Decode(buf).Ok?
    ensures WellFormed(Decode(buf).value)
  {
    var rep := Decode(buf).value;
    Pow256Widths();
    forall i | 0 <= i < |rep.entries|
      ensures ValidEntry(rep.entries[i], i)
    {
      var w := buf[EntryBase(i)..EntryBase(i) + ENTRY_SIZE];
      assert |w[32..40]| == 8 && |w[40..48]| == 8;
    }
  }

  /** Re-encoding a decoded report gives a container that decodes to the same report. */
  lemma DecodeEncodeDecode(buf: seq<byte>)
    requires Decode(buf).Ok?
    ensures WellFormed(Decode(buf).value) && Decode(Encode(Decode(buf).value)) == Decode(buf)
  {
    DecodedIsWellFormed(buf);
    EncodeThenDecode(Decode(buf).value);
  }

  /** Bytes after the entry table (the payloads) never change the report. */
  lemma DecodeIgnoresTrailingBytes(buf: seq<byte>, rest: seq<byte>)
    requires Decode(buf).Ok?
    ensures Decode(buf + rest) == Decode(buf)
  {
    var big := buf + rest;
    var rep := Decode(buf).value;
    var h := rep.header;
    assert big[0..64] == buf[0..64] && big[64..96] == buf[64..96];
    assert big[96..128] == buf[96..128] && big[128..136] == buf[128..136];
    assert DecodeHeader(big) == Ok(h);
    forall i | 0 <= i < h.count
      ensures DecodeEntry(big, i) == Ok(rep.entries[i])
    {
      var w := buf[EntryBase(i)..EntryBase(i) + ENTRY_SIZE];
      assert big[EntryBase(i)..EntryBase(i) + ENTRY_SIZE] == w;
      DecodeEntryOfLayout(big, i, rep.entries[i]);
    }
    DecodeCompletes(big, h, rep.entries);
  }
}
