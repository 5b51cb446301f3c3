/** The ways a conversion can fail. Each constructor stands for one exception the writer throws. */
module Outcomes {

  datatype Error =
    /** GetPositionOfRelativeVirtualAddress: "relative virtual address not in any section" */
    | RvaNotInAnySection
    /** GetSectionFromFileOffset over the Webcil directory: "file offset not in any section (Webcil)" */
    | FileOffsetNotInAnyWebcilSection
    /** GetSectionFromFileOffset over the PE section table: "file offset {offset} not in any section (PE)" */
    | FileOffsetNotInAnyPeSection(offset: int)
    /** Program.RvaToOffset: "RVA not found" */
    | RvaNotFound
    /** Stream.ReadExactly ran out of input bytes */
    | EndOfStream

  /** A computation that either yields a value or fails with an error. */
  datatype Result<+T> = Ok(value: T) | Err(error: Error)

  /** A computation with no value that either completes or fails with an error. */
  datatype Outcome = Pass | Fail(error: Error)
}
