/**
 * Constants and types of the ELF identification block. `EI_NIDENT` mirrors
 * src/elf.rs; `BitType`, `ABI`, `ElfIdent` and the magic number are defined
 * from their use in src/elf_parser.rs and the "ELF Identification" section of
 * chapter 4 ("Object Files") of the System V ABI generic specification.
 */
module Elf {
  import opened EndianCodec

  /** Size of the identification block `e_ident`. */
  const EI_NIDENT: nat := 16

  /** `ELF_MAGIC_NUM`: the bytes 0x7F 'E' 'L' 'F' that open every ELF file. */
  const ElfMagic: seq<byte> := [0x7F, 0x45, 0x4C, 0x46]

  /** Offsets of the fields inside `e_ident`. */
  const EI_CLASS: nat := 4
  const EI_DATA: nat := 5
  const EI_VERSION: nat := 6
  const EI_OSABI: nat := 7
  const EI_ABIVERSION: nat := 8

  /** Bit width of the object file (`EI_CLASS`). */
  datatype BitType = Bits32 | Bits64

  /** The operating system or ABI the object file targets (`EI_OSABI`). */
  datatype ABI =
    | UnixSystemV
    | HP_UX
    | NetBSD
    | Linux
    | SunSolaris
    | IBM_AIX
    | SGI_Irix
    | FreeBSD
    | CompaqTRU64
    | NovellModesto
    | OpenBSD
    | ARM_EABI
    | ARM
    | Standalone

  /** The decoded identification block. */
  datatype ElfIdent = ElfIdent(
    bits: BitType,
    endianness: Endianness,
    headerFormatVersion: byte,
    abi: ABI,
    abiVersion: byte)
}
