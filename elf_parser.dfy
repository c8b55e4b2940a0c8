/**
 * The identification-block parser of the ELF decoder (`parse_ident`,
 * src/elf_parser.rs): validates the 16-byte `e_ident` block and decodes
 * bit width, byte order, header format version, OS/ABI and ABI version,
 * or returns the first error, checking in the fixed order size, magic,
 * class, data, OS/ABI.
 */
module ElfParser {
  import opened Wrappers
  import opened EndianCodec
  import opened ParseErrors
  import opened Elf

  // ---------------------------------------------------------------------
  // The closed code tables and their inverses
  // ---------------------------------------------------------------------

  /** The `EI_CLASS` code of each bit width. */
  function BitsCode(bits: BitType): byte
  {
    match bits
    case Bits32 => 1
    case Bits64 => 2
  }

  /** The `EI_DATA` code of each byte order. */
  function EndiannessCode(endian: Endianness): byte
  {
    match endian
    case LittleEndian => 1
    case BigEndian => 2
  }

  /** The `EI_OSABI` code of each supported ABI. */
  function AbiCode(abi: ABI): byte
  {
    match abi
    case UnixSystemV => 0
    case HP_UX => 1
    case NetBSD => 2
    case Linux => 3
    case SunSolaris => 6
    case IBM_AIX => 7
    case SGI_Irix => 8
    case FreeBSD => 9
    case CompaqTRU64 => 10
    case NovellModesto => 11
    case OpenBSD => 12
    case ARM_EABI => 64
    case ARM => 97
    case Standalone => 255
  }

  /** Every `EI_OSABI` code the parser accepts; all others are rejected. */
  const AbiCodes: set<byte> := {0, 1, 2, 3, 6, 7, 8, 9, 10, 11, 12, 64, 97, 255}

  /** The `EI_CLASS` match: 1 is 32-bit, 2 is 64-bit, nothing else is known. */
  function DecodeBits(code: byte): (r: Option<BitType>)
    ensures r.Some? <==> code in {1, 2}
    ensures r.Some? ==> BitsCode(r.value) == code
    ensures r.None? ==> forall bits: BitType :: BitsCode(bits) != code
  {
    match code
    case 1 => Some(Bits32)
    case 2 => Some(Bits64)
    case _ => None
  }

  /** The `EI_DATA` match: 1 is little-endian, 2 is big-endian, nothing else is known. */
  function DecodeEndianness(code: byte): (r: Option<Endianness>)
    ensures r.Some? <==> code in {1, 2}
    ensures r.Some? ==> EndiannessCode(r.value) == code
    ensures r.None? ==> forall endian: Endianness :: EndiannessCode(endian) != code
  {
    match code
    case 1 => Some(LittleEndian)
    case 2 => Some(BigEndian)
    case _ => None
  }

  /** The `EI_OSABI` match over the closed table of fourteen codes. */
  function DecodeAbi(code: byte): (r: Option<ABI>)
    ensures r.Some? <==> code in AbiCodes
    ensures r.Some? ==> AbiCode(r.value) == code
    ensures r.None? ==> forall abi: ABI :: AbiCode(abi) != code
  {
    match code
    case 0 => Some(UnixSystemV)
    case 1 => Some(HP_UX)
    case 2 => Some(NetBSD)
    case 3 => Some(Linux)
    case 6 => Some(SunSolaris)
    case 7 => Some(IBM_AIX)
    case 8 => Some(SGI_Irix)
    case 9 => Some(FreeBSD)
    case 10 => Some(CompaqTRU64)
    case 11 => Some(NovellModesto)
    case 12 => Some(OpenBSD)
    case 64 => Some(ARM_EABI)
    case 97 => Some(ARM)
    case 255 => Some(Standalone)
    case _ => None
  }

  // ---------------------------------------------------------------------
  // parse_ident
  // ---------------------------------------------------------------------

  /**
   * `parse_ident`: decodes the identification block at the start of `ident`,
   * or returns the first check that fails. Each error clause below holds
   * exactly when every earlier check has passed.
   */
  function ParseIdent(ident: seq<byte>): (r: Result<ElfIdent, ParseError>)
    ensures |ident| < EI_NIDENT ==> r == Err(TooSmallIdent)
    ensures |ident| >= EI_NIDENT && ident[..4] != ElfMagic ==> r == Err(NotELF)
    ensures |ident| >= EI_NIDENT && ident[..4] == ElfMagic && ident[4] !in {1, 2}
      ==> r == Err(UnsupportedMode)
    ensures |ident| >= EI_NIDENT && ident[..4] == ElfMagic && ident[4] in {1, 2}
      && ident[5] !in {1, 2}
      ==> r == Err(UnsupportedEndianness)
    ensures |ident| >= EI_NIDENT && ident[..4] == ElfMagic && ident[4] in {1, 2}
      && ident[5] in {1, 2} && ident[7] !in AbiCodes
      ==> r == Err(UnsupportedABI)
    ensures |ident| >= EI_NIDENT && ident[..4] == ElfMagic && ident[4] in {1, 2}
      && ident[5] in {1, 2} && ident[7] in AbiCodes
      ==> r.Ok?
    ensures r.Ok? ==>
      && BitsCode(r.value.bits) == ident[4]
      && EndiannessCode(r.value.endianness) == ident[5]
      && r.value.headerFormatVersion == ident[6]
      && AbiCode(r.value.abi) == ident[7]
      && r.value.abiVersion == ident[8]
  {
    if |ident| < EI_NIDENT then Err(TooSmallIdent)
    else if ident[0..4] != ElfMagic then Err(NotELF)
    else
      match DecodeBits(ident[EI_CLASS])
      case None => Err(UnsupportedMode)
      case Some(bits) =>
        match DecodeEndianness(ident[EI_DATA])
        case None => Err(UnsupportedEndianness)
        case Some(endianness) =>
          var headerFormatVersion := ident[EI_VERSION];
          match DecodeAbi(ident[EI_OSABI])
          case None => Err(UnsupportedABI)
          case Some(abi) =>
            var abiVersion := ident[EI_ABIVERSION];
            Ok(ElfIdent(bits, endianness, headerFormatVersion, abi, abiVersion))
  }

  // ---------------------------------------------------------------------
  // The matching encoder and what ParseIdent promises about it
  // ---------------------------------------------------------------------

  /** The identification block that describes `id`, with zero padding. */
  function EncodeIdent(id: ElfIdent): (ident: seq<byte>)
    ensures |ident| == EI_NIDENT
  {
    ElfMagic
      + [BitsCode(id.bits), EndiannessCode(id.endianness), id.headerFormatVersion,
         AbiCode(id.abi), id.abiVersion]
      + [0, 0, 0, 0, 0, 0, 0]
  }

  /** Parsing an encoded block, followed by anything, gives the identification back. */
  lemma ParseEncodeIdent(id: ElfIdent, rest: seq<byte>)
    ensures ParseIdent(EncodeIdent(id) + rest) == Ok(id)
  {
    var ident := EncodeIdent(id) + rest;
    assert ident[..4] == ElfMagic;
    assert ident[4] == BitsCode(id.bits);
    assert ident[5] == EndiannessCode(id.endianness);
    assert ident[7] == AbiCode(id.abi);
  }

  /**
   * Parsing succeeds with `id` exactly when the input is a full block whose
   * first nine bytes are those of `id`'s encoding: for a fixed set of nine
   * meaningful bytes the parser is a bijection.
   */
  lemma ParseIdentOk(ident: seq<byte>, id: ElfIdent)
    ensures ParseIdent(ident) == Ok(id)
      <==> |ident| >= EI_NIDENT && ident[..9] == EncodeIdent(id)[..9]
  {
    var enc := EncodeIdent(id);
    if ParseIdent(ident) == Ok(id) {
      assert ident[..9] == enc[..9] by {
        assert ident[..4] == ElfMagic;
        forall k | 0 <= k < 9 ensures ident[..9][k] == enc[..9][k] {
          if k < 4 {
            assert ident[..4][k] == ElfMagic[k];
          }
        }
      }
    }
    if |ident| >= EI_NIDENT && ident[..9] == enc[..9] {
      ParseEncodeIdent(id, []);
      ParseIdentReadsNineBytes(ident, enc + []);
    }
  }

  /** Only the first nine bytes of a full block decide the outcome. */
  lemma ParseIdentReadsNineBytes(a: seq<byte>, b: seq<byte>)
    requires |a| >= EI_NIDENT && |b| >= EI_NIDENT
    requires a[..9] == b[..9]
    ensures ParseIdent(a) == ParseIdent(b)
  {
    assert a[..4] == a[..9][..4] == b[..9][..4] == b[..4];
    assert a[4] == a[..9][4] && b[4] == b[..9][4];
    assert a[5] == a[..9][5] && b[5] == b[..9][5];
    assert a[6] == a[..9][6] && b[6] == b[..9][6];
    assert a[7] == a[..9][7] && b[7] == b[..9][7];
    assert a[8] == a[..9][8] && b[8] == b[..9][8];
  }

  /** A 64-bit little-endian System V block, as read from a typical executable. */
  lemma ParseIdentExample()
    ensures ParseIdent([0x7F, 0x45, 0x4C, 0x46, 0x02, 0x01, 0x01, 0x00, 0, 0, 0, 0, 0, 0, 0, 0])
      == Ok(ElfIdent(Bits64, LittleEndian, 1, UnixSystemV, 0))
  {
    var ident: seq<byte> := [0x7F, 0x45, 0x4C, 0x46, 0x02, 0x01, 0x01, 0x00, 0, 0, 0, 0, 0, 0, 0, 0];
    assert ident[..4] == ElfMagic;
  }
}
