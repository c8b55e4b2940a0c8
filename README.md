# ELF identification and endian codec — a Dafny model

This project models the two pieces of the `elf-parser` crate that have
behaviour: the endian codec (`read16`, `read32`, `read64` in
`src/endianness.rs`) and the identification-block parser (`parse_ident` in
`src/elf_parser.rs`), which validates the 16-byte `e_ident` block described in
the "ELF Identification" section of chapter 4 ("Object Files") of the System V
ABI generic specification.

Files:

- `wrappers.dfy` — `Option` and `Result` (Rust's `Result<T, E>`).
- `endianness.dfy` (module `EndianCodec`) — bytes as `nat < 256`, the
  `Endianness` enum, the three reads, reference definitions of the positional
  value of a byte sequence (`LittleValue`, `BigValue`), a matching encoder per
  width (`Write16`, `Write32`, `Write64`) and the round-trip, bound, injectivity
  and byte-reversal properties.
- `parse_error.dfy` (module `ParseErrors`) — the `ParseError` enum of
  `src/parse_error.rs`.
- `elf.dfy` (module `Elf`) — `EI_NIDENT`, the magic number `0x7F 'E' 'L' 'F'`,
  the offsets of the identification fields and the types `BitType`, `ABI` and
  `ElfIdent`. These last names are used by `src/elf_parser.rs` but not defined
  in the files modelled; they are defined here from that use. `ElfIdent`'s
  fields `e_bits`, `e_endianness`, `e_header_format_version`, `e_abi` and
  `e_abi_version` are named `bits`, `endianness`, `headerFormatVersion`, `abi`
  and `abiVersion`, and `BitType::_32`/`_64` are `Bits32`/`Bits64`.
- `elf_parser.dfy` (module `ElfParser`) — `ParseIdent`, the three code tables
  it matches on (each with its inverse), an encoder `EncodeIdent` and the
  lemmas relating the two.

The source builds each read with shifts and bitwise OR; the model writes the
same value as a sum of `b[i] * 256^k`, which is equal because the shifted
bytes occupy disjoint bit ranges. Each read is proved equal to the
independently defined positional value of its bytes in the chosen order, so the
closed forms in the source (byte `i` weighted `2^(8i)` little-endian,
`2^(8(n-1-i))` big-endian) are checked against a definition that does not
mention them.

The code checks the input size (`TooSmallIdent`) before the magic
(`NotELF`); the model keeps that order and the code's error name
`UnsupportedMode` for an unknown bit width.

## Model

| member | source | states |
|---|---|---|
| `EndianCodec.Read16` | src/endianness.rs:9-14 | the result is below 2^16 and equals the positional value of the two bytes, first byte least significant (little-endian) or most significant (big-endian) |
| `EndianCodec.Read32` | src/endianness.rs:17-32 | the result is below 2^32 and equals the positional value of the four bytes in the given byte order |
| `EndianCodec.Read64` | src/endianness.rs:35-58 | the result is below 2^64 and equals the positional value of the eight bytes in the given byte order |
| `EndianCodec.Write16` | src/endianness.rs:9-14 | for every value below 2^16 and each byte order there are two bytes that `read16` decodes to it (decode after encode is the identity) |
| `EndianCodec.Write32` | src/endianness.rs:17-32 | for every value below 2^32 and each byte order there are four bytes that `read32` decodes to it |
| `EndianCodec.Write64` | src/endianness.rs:35-58 | for every value below 2^64 and each byte order there are eight bytes that `read64` decodes to it |
| `EndianCodec.Read16RoundTrip` | src/endianness.rs:9-14 | encoding what `read16` read, in the same byte order, gives back the input array |
| `EndianCodec.Read32RoundTrip` | src/endianness.rs:17-32 | encoding what `read32` read, in the same byte order, gives back the input array |
| `EndianCodec.Read64RoundTrip` | src/endianness.rs:35-58 | encoding what `read64` read, in the same byte order, gives back the input array |
| `EndianCodec.Read16Injective` | src/endianness.rs:9-14 | for a fixed byte order, two arrays read to the same value if and only if they are equal |
| `EndianCodec.Read32Injective` | src/endianness.rs:17-32 | for a fixed byte order, two arrays read to the same value if and only if they are equal |
| `EndianCodec.Read64Injective` | src/endianness.rs:35-58 | for a fixed byte order, two arrays read to the same value if and only if they are equal |
| `EndianCodec.Read16Reversed` | src/endianness.rs:11-12 | big-endian `read16` equals little-endian `read16` of the reversed array |
| `EndianCodec.Read32Reversed` | src/endianness.rs:19-30 | big-endian `read32` equals little-endian `read32` of the reversed array |
| `EndianCodec.Read64Reversed` | src/endianness.rs:37-56 | big-endian `read64` equals little-endian `read64` of the reversed array |
| `EndianCodec.BigIsReversedLittle` | src/endianness.rs:10-57 | for any length, the most-significant-first value of a byte sequence is the least-significant-first value of its reversal |
| `EndianCodec.ValueBound` | src/endianness.rs:9-57 | an n-byte value, in either order, is below 256^n |
| `EndianCodec.DecodeEncode` | src/endianness.rs:9-57 | for a fixed byte order, decoding the n-byte encoding of a value below 256^n gives the value back |
| `EndianCodec.EncodeDecode` | src/endianness.rs:9-57 | for a fixed byte order, encoding the value of n bytes into n bytes gives the bytes back |
| `EndianCodec.OrdersAgreeOnPalindromes` | src/endianness.rs:11-12 | both byte orders give the same value for a byte sequence equal to its reversal |
| `EndianCodec.Read64Uniform` | src/endianness.rs:37-56 | an 8-byte array of one repeated byte reads the same in both byte orders |
| `ElfParser.DecodeBits` | src/elf_parser.rs:10-15 | `EI_CLASS` 1 and 2 are accepted and nothing else; an accepted code is the code of the returned bit width (1 for 32-bit, 2 for 64-bit) |
| `ElfParser.DecodeEndianness` | src/elf_parser.rs:17-22 | `EI_DATA` 1 and 2 are accepted and nothing else; an accepted code is the code of the returned byte order (1 little-endian, 2 big-endian) |
| `ElfParser.DecodeAbi` | src/elf_parser.rs:26-43 | exactly the fourteen codes 0-3, 6-12, 64, 97 and 255 are accepted; an accepted code is the code of the returned ABI, a rejected one is the code of no ABI |
| `ElfParser.ParseIdent` | src/elf_parser.rs:4-54 | fewer than 16 bytes give `TooSmallIdent` whatever they hold; then a wrong magic gives `NotELF`; then a class outside {1,2} gives `UnsupportedMode`; then a data code outside {1,2} gives `UnsupportedEndianness`; then an unknown OS/ABI code gives `UnsupportedABI`; otherwise the result is `Ok`, whose width, order and ABI encode bytes 4, 5 and 7 and whose format and ABI versions are bytes 6 and 8 verbatim |
| `ElfParser.ParseEncodeIdent` | src/elf_parser.rs:4-54 | parsing the encoding of any identification, followed by any bytes, returns that identification |
| `ElfParser.ParseIdentOk` | src/elf_parser.rs:4-54 | parsing returns `Ok(id)` if and only if the input has at least 16 bytes and its first nine bytes are those of the encoding of `id` |
| `ElfParser.ParseIdentReadsNineBytes` | src/elf_parser.rs:5-53 | two inputs of at least 16 bytes that agree on bytes 0-8 parse to the same result: bytes 9-15 and anything after the first 16 bytes are never inspected |
| `ElfParser.ParseIdentExample` | src/elf_parser.rs:10-53 | the block 7F 45 4C 46 02 01 01 00 followed by eight zero bytes parses to 64-bit, little-endian, version 1, UNIX System V, ABI version 0 |

## Left out

- `parse_header32` and `parse32` (src/elf_parser.rs:56-66) end in `todo!()`, so they have no behaviour to model. As written, `parse_header32` slices `&h[..EI_NIDENT]` before `parse_ident` runs, so a buffer shorter than 16 bytes would panic rather than return `TooSmallIdent`.
- The file header, program-header table, section-header table and image decoders have no code in the modelled files; the model does not invent their layouts or checks.
- src/elf.rs is struct declarations plus a constructor and a getter (`Elf32::new`, `get_entry_point`) with no behaviour to prove; only `EI_NIDENT` is mirrored from it.
- src/main.rs reads `/bin/ls` from disk and calls an `Elf64::parse` that does not exist; file I/O is outside the model.
- The shifted-OR expressions of the reads are modelled as the equal sums over disjoint bit ranges, not as fixed-width bit-vector operations; the `u16`/`u32`/`u64` result width appears as the proved bounds 2^16, 2^32 and 2^64.
- `Write16`, `Write32`, `Write64` and `EncodeIdent` have no counterpart in the source; they are the encoders against which the round trips are stated. `EncodeIdent` fills the reserved bytes 9-15 with zeros.
