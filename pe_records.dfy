/**
 * The records the writer works on: the PE section table and debug directory as the
 * PE reader exposes them, the Webcil header and section directory, and the two
 * summaries (PEFileInfo, WCFileInfo) that GatherInfo builds.
 */
module PeRecords {
  import opened Widths

  /** `sizeof(WebcilSectionHeader)`: four 32-bit integers. */
  const SectionHeaderSize: int := 16
  /** Bytes written per debug directory entry by WriteDebugDirectoryEntry. */
  const DebugDirectoryEntrySize: int := 28
  /** `Constants.WC_VERSION`. */
  const WcVersion: int := 0
  /** The numeric value of `DebugDirectoryEntryType.Reproducible`, the entry type without data. */
  const Reproducible: int := 16

  /**
   * A section header. The PE reader's SectionHeader and the writer's
   * WebcilSectionHeader carry the same four `int` fields that the writer uses.
   */
  datatype SectionHeader = SectionHeader(
    virtualSize: int32,
    virtualAddress: int32,
    sizeOfRawData: int32,
    pointerToRawData: int32)

  /**
   * The fields are non-negative and the ends of the section in both address
   * spaces are representable as `int`, so the writer's `int` sums do not wrap.
   */
  predicate SectionFits(s: SectionHeader) {
    0 <= s.virtualSize && 0 <= s.virtualAddress && 0 <= s.sizeOfRawData && 0 <= s.pointerToRawData &&
    s.virtualAddress + s.virtualSize <= Int32Max &&
    s.pointerToRawData + s.sizeOfRawData <= Int32Max &&
    s.pointerToRawData + s.virtualSize <= Int32Max
  }

  predicate AllSectionsFit(sections: seq<SectionHeader>) {
    forall i :: 0 <= i < |sections| ==> SectionFits(sections[i])
  }

  /** The section's virtual range holds `rva`. */
  predicate ContainsRva(s: SectionHeader, rva: int) {
    s.virtualAddress <= rva < s.virtualAddress + s.virtualSize
  }

  /** The section's raw data in the file holds `offset`. */
  predicate ContainsOffset(s: SectionHeader, offset: int) {
    s.pointerToRawData <= offset < s.pointerToRawData + s.sizeOfRawData
  }

  /** The total raw-data size of a run of sections. */
  function RawDataTotal(sections: seq<SectionHeader>): int
  {
    if sections == [] then 0
    else RawDataTotal(sections[..|sections| - 1]) + sections[|sections| - 1].sizeOfRawData
  }

  /** Growing a prefix by one section adds that section's raw size. */
  lemma RawDataTotalStep(sections: seq<SectionHeader>, k: int)
    requires 0 <= k < |sections|
    ensures RawDataTotal(sections[..k + 1]) == RawDataTotal(sections[..k]) + sections[k].sizeOfRawData
  {
    assert sections[..k + 1][..k] == sections[..k];
  }

  /** With non-negative sizes, a longer prefix never has a smaller raw total. */
  lemma {:induction false} RawDataTotalMonotone(sections: seq<SectionHeader>, a: int, b: int)
    requires AllSectionsFit(sections)
    requires 0 <= a <= b <= |sections|
    ensures 0 <= RawDataTotal(sections[..a]) <= RawDataTotal(sections[..b])
  {
    if b == 0 {
      assert sections[..0] == [];
    } else if a == b {
      RawDataTotalMonotone(sections, 0, a);
    } else {
      RawDataTotalMonotone(sections, a, b - 1);
      RawDataTotalStep(sections, b - 1);
    }
  }

  /** A PE data directory entry: `RelativeVirtualAddress` and `Size`, both `int`. */
  datatype DirectoryEntry = DirectoryEntry(relativeVirtualAddress: int32, size: int32)

  /** A debug directory entry as the PE reader exposes it. */
  datatype DebugDirectoryEntry = DebugDirectoryEntry(
    stamp: uint32,
    majorVersion: uint16,
    minorVersion: uint16,
    entryType: int32,
    dataSize: int32,
    dataRelativeVirtualAddress: int32,
    dataPointer: int32)

  /** What GatherInfo reads from the PE reader's headers. */
  datatype PEHeaders = PEHeaders(
    numberOfSections: int16,
    sectionHeaders: seq<SectionHeader>,
    corHeaderTableDirectory: DirectoryEntry,
    debugTableDirectory: DirectoryEntry)

  /** The fields of the Webcil header that the writer sets. */
  datatype WCHeader = WCHeader(
    id0: uint8,
    id1: uint8,
    version: uint8,
    reserved0: uint8,
    coffSections: uint16,
    reserved1: uint16,
    peCliHeaderRva: uint32,
    peCliHeaderSize: uint32,
    peDebugRva: uint32,
    peDebugSize: uint32)

  /** What the writer learned about the input PE file (WebcilWriter.cs:31-40). */
  datatype PEFileInfo = PEFileInfo(
    sectionHeaders: seq<SectionHeader>,
    debugTableDirectory: DirectoryEntry,
    sectionStart: FilePosition,
    debugDirectoryEntries: seq<DebugDirectoryEntry>)

  /** What the writer knows about the Webcil file it writes (WebcilWriter.cs:43-50). */
  datatype WCFileInfo = WCFileInfo(
    header: WCHeader,
    sectionHeaders: seq<SectionHeader>,
    sectionStart: FilePosition)
}
