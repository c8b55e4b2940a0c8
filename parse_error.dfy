/** The decoder's error taxonomy (src/parse_error.rs): one distinct reason per rejected input. */
module ParseErrors {

  datatype ParseError =
    | NotELF
    | TooSmallIdent
    | TooSmallHeader
    | UnsupportedMode
    | UnsupportedEndianness
    | UnsupportedABI
    | UnsupportedFileType
    | UnsupportedMachineType
    | UnsupportedVersion
    | UnsupportedProgramHeaderType
}
