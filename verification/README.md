# pkgar container analyzer, modelled in Dafny

pkgar-analyzer is a browser page that decodes a dropped pkgar package and
prints its contents. A container is laid out as follows:

- A 136-byte header:
  - a 64-byte signature,
  - a 32-byte public key,
  - a 32-byte BLAKE3 header hash,
  - a little-endian 64-bit entry count.
- A table of 308-byte entries, one after another. Each entry holds:
  - a 32-byte BLAKE3 hash,
  - little-endian 64-bit payload offset and size,
  - a little-endian 32-bit mode word,
  - a 256-byte NUL-padded path.

The page reads the header, walks the table entry by entry and turns each mode
word into a file kind, an octal permission string and a symbolic `rwx`
string (`parseMode`). Byte fields are rendered as lower-case hex.

This project models that core as pure functions over byte sequences:

- `Bytes`: bytes and little-endian integers.
- `Views`: the JavaScript `Uint8Array`/`DataView` reads, which throw
  `RangeError` out of range. Here they return `Nothing`.
- `Radix`: `Number.prototype.toString(radix)` and `String.prototype.padStart`.
- `Hex`: the per-byte hex rendering.
- `Mode`: `parseMode` and its inner `toSymbolic`.
- `Container`: the header and entry decoding, the whole-buffer decoder, and
  the loop as written as a method proved equal to it.

An encoder is defined only to state round trips. It is not part of the
page. `Results` holds the two outcome types used with `:-`.

Mode words are `bv32`, so `&` and `>>` are exact. Counts, offsets and sizes
are unbounded `nat`s below 2^64, which is what `getBigUint64` returns as a
`BigInt`.

## Model

| member | source | states |
|---|---|---|
| Bytes.LittleEndian | script.js:26 | the unsigned little-endian value of a byte string is below 256^length |
| Bytes.LittleEndianOfEncoding | script.js:26 | any integer that fits in `width` bytes is read back from its `width`-byte little-endian encoding |
| Bytes.EncodingOfLittleEndian | script.js:41-43 | re-encoding the value read from any byte string gives the same bytes back |
| Bytes.LittleEndianInjective | script.js:41-43 | two byte strings of the same length are read as the same integer exactly when they are equal |
| Views.View | script.js:23-25 | `new Uint8Array(buf, start, length)` exists exactly when the window lies inside the buffer, and then holds exactly the bytes from `start` up to `start + length` |
| Views.ReadU64 | script.js:26 | `getBigUint64(at, true)` succeeds exactly when 8 bytes are available at `at`, and gives the little-endian value of those 8 bytes, below 2^64 |
| Views.ReadU32 | script.js:43 | `getUint32(at, true)` succeeds exactly when 4 bytes are available at `at`, and gives the little-endian value of those 4 bytes as a 32-bit word |
| Radix.ToString | script.js:85 | `n.toString(base)` is a non-empty string of digits below the base, without a leading zero unless it is "0" |
| Radix.PadStart | script.js:85 | `padStart` yields `max(len, width)` characters, ends with the input, and has only the fill character before it; it never cuts |
| Radix.ValueOfToString | script.js:85 | `n.toString(base)` denotes `n` in that base |
| Radix.ToStringLength | script.js:85 | a number below base^k has at most k digits |
| Radix.ValueOfZeroPadded | script.js:85 | leading zeros do not change the value a digit string denotes |
| Radix.FixedWidth | script.js:85 | `n.toString(base).padStart(width, '0')`, for n below base^width, is exactly `width` digits below the base, denoting n |
| Radix.FixedDigits | script.js:85 | the padded rendering has exactly `width` digits below the base, denoting `n` |
| Radix.OctalDigitsOfValue | script.js:85 | four octal digits denoting n are the digits of n/512, n/64 mod 8, n/8 mod 8 and n mod 8 |
| Hex.ByteHex | script.js:30 | two lower-case digits whose value, high digit first, is the byte |
| Hex.ByteHexIsPaddedToString | script.js:30 | for every byte, `b.toString(16).padStart(2, '0')` is exactly its two-digit form |
| Hex.Hex | script.js:30-32 | the rendering of a byte string is two lower-case hex digits per byte |
| Hex.HexPlaces | script.js:30-32 | byte i of the input is rendered at places 2i and 2i+1, high digit first |
| Hex.UnhexOfHex | script.js:30-32 | every byte string is read back from its hex rendering |
| Hex.HexOfUnhex | script.js:30-32 | every string that reads as hex is the rendering of the bytes it reads as |
| Hex.HexInjective | script.js:30-32 | two byte strings render alike exactly when they are equal |
| Mode.TripletPlace | script.js:74-78 | place j of the triplet taken at shift i is the symbol of mode bit i + 2 - j |
| Mode.SymbolicFrom | script.js:73-80 | the outer loop from shift i down gives i + 3 symbols, each the symbol of its own permission bit |
| Mode.ToSymbolic | script.js:71-81 | `toSymbolic` is nine symbols; place p is "rwx"[p mod 3] when bit 8 - p is set and '-' otherwise |
| Mode.KindOf | script.js:60-69 | the kind is File exactly when the type bits are 0o100000, and Symlink exactly when they are 0o120000 |
| Mode.PermOctal | script.js:85 | "0o" followed by exactly four octal digits denoting the permission bits |
| Mode.PermNumber | script.js:59-65 | `mode & 0o7777` as a number is below 0o10000 and converts back to the masked word |
| Mode.ParseMode | script.js:58-88 | for every 32-bit mode: the kind decided by the type bits alone; "0o" and four octal digits denoting `mode & 0o7777`; nine symbols, place p showing bit 8 - p |
| Mode.PermBitsKeepRwx | script.js:65-86 | masking with 0o7777 keeps every rwx bit, so `toSymbolic(permBits)` shows the mode's own rwx bits |
| Mode.RwxMaskOfBits | script.js:74-78 | two modes agree under 0o777 exactly when they agree on each of the nine bits |
| Mode.SymbolicIffRwxBits | script.js:71-86 | two modes give the same symbolic string exactly when their nine rwx bits agree, whatever their type and special bits |
| Mode.OctalIffPermBits | script.js:59-85 | two modes give the same octal string exactly when `mode & 0o7777` agrees |
| Mode.PermOctalDigits | script.js:85 | the octal form is "0o" and the octal digits of n/512, n/64 mod 8, n/8 mod 8 and n mod 8 |
| Mode.FileExample | script.js:58-88 | 0o100755 is a File, "0o0755", "rwxr-xr-x" |
| Mode.SetuidFileExample | script.js:58-88 | 0o104755 is a File, "0o4755", "rwxr-xr-x": setuid shows in the octal form only |
| Mode.SymlinkExample | script.js:58-88 | 0o120644 is a Symlink, "0o0644", "rw-r--r--" |
| Container.UntilNul | script.js:45-46 | the path is the longest NUL-free prefix of the window: either the whole window or the bytes before its first NUL |
| Container.UntilNulOfPadded | script.js:46 | a NUL-free path followed by NUL padding gives the path back |
| Container.DecodeHeader | script.js:20-27 | succeeds exactly when the buffer has 136 bytes; the fields are bytes [0,64), [64,96) and [96,128), and the little-endian u64 at 128 |
| Container.HeaderOfLayout | script.js:22-27 | any buffer holding a header's layout decodes to that header |
| Container.ReadEntryFields | script.js:39-45 | the five reads at an entry's base succeed exactly when its 308-byte window fits, and give the hash, the little-endian u64 offset and size, the little-endian u32 mode word and the 256 path bytes at their offsets |
| Container.DecodeEntry | script.js:38-46 | entry i decodes exactly when bytes [136 + 308i, 136 + 308(i+1)) exist; otherwise it fails naming i; the entry is labelled i + 1 and its fields are read from their offsets in that window |
| Container.DecodeEntryOfLayout | script.js:39-46 | whenever entry i's window holds an entry's layout, entry i decodes to exactly that entry |
| Container.Decode | script.js:19-55 | fails with TruncatedHeader exactly when the header is short. It succeeds exactly when the whole table fits, with the header fields and `count` entries in table order, each read from its window. Otherwise it fails naming the first overrunning entry, with no partial report |
| Container.DecodedModes | script.js:43-44 | the kind and permission strings of each decoded entry are `parseMode` of the little-endian u32 at offset 48 of its window |
| Container.DecodeBuffer | script.js:38-55 | the loop as written (header, then one entry per iteration, stopping at the first that does not fit) returns exactly what `Decode` returns |
| Container.DecodeCompletes | script.js:38-55 | when every entry of the table decodes, the container decodes to the header and those entries |
| Container.DecodeStopsAt | script.js:38-45 | when entry i is the first whose window overruns, the container fails with TruncatedEntryTable(i) |
| Container.EncodeThenDecode | script.js:19-46 | every well-formed report is decoded back, field for field, from its encoding |
| Container.DecodedIsWellFormed | script.js:38-46 | every decoded report is well formed: widths in range, entries labelled 1..count, NUL-free paths of at most 256 bytes |
| Container.DecodeEncodeDecode | script.js:19-46 | re-encoding a decoded report gives a container that decodes to the same report |
| Container.DecodeIgnoresTrailingBytes | script.js:19-46 | bytes after a decodable container (the payloads) never change the report |

## Left out

- Container.UntilNul: the page decodes the 256 path bytes with `new TextDecoder().decode(...)` and then applies `.replace(/\0.*$/, '')` (script.js:46). The model keeps the path as raw bytes cut at the first NUL. The two differ in three ways:
  - A line terminator after the first NUL. `.` does not match a line terminator and `$` means end of input. For the window `61 00 0A 62 00 …` the regex matches only from the NUL after `b`, so the page shows `"a\u0000\nb"`. The model gives `[0x61]`.
  - A leading byte-order mark. TextDecoder drops it, so `EF BB BF 61 00 …` gives `"a"` on the page. The model keeps all four bytes.
  - Invalid UTF-8. The page gets U+FFFD replacement characters; the model keeps the raw bytes.

  The two agree whenever the path is valid UTF-8 without a BOM and only NUL padding follows it.
- Container.DecodeEntry: its path is `UntilNul` of the raw window, with the TextDecoder and regex differences listed for `Container.UntilNul`.
- Container.Decode: each entry's path is `UntilNul` of the raw window, with the same differences.
- Container.DecodeBuffer: it is proved equal to `Decode`, so it has the same path differences.
- BigInt to Number (script.js:39). `Number(136n + i * 308n)` is exact until 2^53. The model does its arithmetic on unbounded integers. Every base below the first overrunning entry lies inside the buffer, so no rounded base is ever used.
- Text output (script.js:29-33, 48-52, 55): the report text, the decimal rendering of counts, offsets and sizes, and the DOM update are not modelled. The model gives the decoded values and the hex and mode strings that text is built from.
- Errors. Every `RangeError` the views throw becomes `TruncatedHeader` when it comes from the header reads. It becomes `TruncatedEntryTable(i)` when it comes from entry i. The page itself only rejects the handler's promise: the output assignment at script.js:55 is skipped, so the previous report stays on the page unchanged. That is the "no partial report" of `Decode`.
- There is no entry-count overflow error and no invalid-path error. The page checks neither, so the model has neither.
- Page wiring (script.js:1-18): the drag-and-drop handlers, `file.arrayBuffer()` and the asynchronous control flow. The buffer is a parameter.
- Signatures and hashes are carried as bytes. Nothing is verified cryptographically, and the page does not do so either.
