/**
 The records, error kinds and constants of the EOF container decoder: the
 value types the parser produces (src/lib.rs), its error sum type
 (src/error.rs) and its two constants (src/constants.rs).
 */
module EofTypes {

  /** An unsigned 8-bit value (Rust `u8`). */
  type u8 = x: int | 0 <= x < 0x100

  /** An unsigned 16-bit value (Rust `u16`). */
  type u16 = x: int | 0 <= x < 0x1_0000

  /** The two bytes every EOF container starts with. */
  const EOF_MAGIC: seq<u8> := [0xEF, 0x00]

  /** The largest number of code sections a header may declare. */
  const MAX_CODE_SECTIONS: nat := 1024

  /** Width in bytes of the fixed header: 2+1+1+2+1+2+2+1+2+1+1+2+1. */
  const HEADER_SIZE: nat := 19

  /**
   The failure kinds of a decode. `IoError` stands for every failure of the
   byte source, which for an in-memory source is a short read.
   */
  datatype Error =
    | InvalidMagic
    | InvalidVersion
    | InvalidCodeSectionCount
    | InvalidTypeSectionSize
    | InvalidZeroSectionMetadata
    | IoError

  datatype Result<+T> = Ok(value: T) | Err(error: Error) {
    predicate IsFailure() {
      Err?
    }

    function PropagateFailure<U>(): Result<U>
      requires Err?
    {
      Err(error)
    }

    function Extract(): T
      requires Ok?
    {
      value
    }
  }

  /** The fixed-width header, field by field in wire order. */
  datatype EofHeader = EofHeader(
    magic: seq<u8>,
    version: u8,
    kindType: u8,
    typeSize: u16,
    kindCode: u8,
    numCodeSections: u16,
    codeSize: u16,
    kindContainer: u8,
    numContainerSections: u16,
    containerSize: u8,
    kindData: u8,
    dataSize: u16,
    terminator: u8)

  /** One row of the types table. */
  datatype TypeMetadata = TypeMetadata(inputs: u8, outputs: u8, maxStackHeight: u16)

  /**
   The decoded body: the whole types table, the scalar fields copied from its
   first row, and the three opaque sections.
   */
  datatype Body = Body(
    typesSection: seq<TypeMetadata>,
    inputs: u8,
    outputs: u8,
    maxStackHeight: u16,
    codeSection: seq<u8>,
    containerSection: seq<u8>,
    dataSection: seq<u8>)

  datatype EofContainer = EofContainer(header: EofHeader, body: Body)
}
