# Webcil writer: layout translation, verified in Dafny

This project models the core of `WebcilWriter`, which turns a .NET assembly stored as a PE/COFF image into a Webcil file. A Webcil file has:
- a small Webcil header;
- a directory of 16-byte section headers;
- the section raw data, packed right after the directory.

The debug directory inside the copied sections is then rewritten, so that its file pointers refer to the new layout.

The model covers:

- **Layout planning** (`GatherInfo`):
  - it fills the Webcil header;
  - it builds the Webcil section directory, packing the raw data from the end of the header and the directory onwards;
  - it finds where the sections start in the PE file. A raw-data pointer of 0 counts as "not set yet", exactly as in the source.
- **Lookups**, all of them first-match linear searches that throw when nothing matches:
  - RVA to file position, over the Webcil directory;
  - file offset to section, over either the Webcil directory or the PE table;
  - the earlier `Program.RvaToOffset`.
- **Debug directory fixup.** Every entry that is not Reproducible has its `DataPointer` moved by the distance the section data moved. The fixup checks that the old pointer lies in some PE section and the new one in some Webcil section.
- **Section copy.** Each section's raw bytes are read from the input and written to the output stream, one after another.
- **Debug directory overwrite.** The 28-byte little-endian records are written in place at the file position of the header's `pe_debug_rva`, and the stream is then left at its end.

## How it is modelled

- C# `int`, `uint`, `ushort` and `byte` become subset types of `int` (`Widths`).
- Unchecked `int` arithmetic is written out as wrap-around modulo 2^32. This covers `FilePosition +` and the data-pointer subtraction.
- Section records are values (`PeRecords`).
- Each lookup is a recursive function proved equal to "the first section that contains the value".
- The loops that build something (`GatherInfo`, `FixupDebugDirectoryEntries`) are methods with loop invariants.
- An output stream is a class (`Streams.OutputStream`) with a byte sequence and a position. Its `Write` overwrites in place and extends the stream when needed.
- `CopySections` and `OverwriteDebugDirectoryEntries` are module-level methods that take an `OutputStream` parameter and modify it. Each one is proved against a specification function of the bytes it produces.
- The input file is a byte sequence.
- Each exception that a modelled operation throws, on the inputs its preconditions admit, is a constructor of `Outcomes.Error`, returned through `Result` or `Outcome`. Other exceptions of the writer are not modelled: see "## Left out".

## Model

| member | source | states |
|---|---|---|
| Widths.Add | Microsoft.WebAssembly.Webcil.Writer/WebcilWriter.cs:97-102 | `FilePosition + int` is the plain sum whenever that sum fits in an `int` |
| Widths.AddIsModular | Microsoft.WebAssembly.Webcil.Writer/WebcilWriter.cs:101 | even on overflow, `FilePosition +` agrees with the true sum modulo 2^32 (unchecked wrap-around) |
| Widths.ToUInt32 | Microsoft.WebAssembly.Webcil.Writer/WebcilWriter.cs:122-125 | the `(uint)` cast keeps non-negative values and adds 2^32 to negative ones |
| Widths.ToUInt16 | Microsoft.WebAssembly.Webcil.Writer/WebcilWriter.cs:120 | the `(ushort)` cast of `NumberOfSections` keeps non-negative values and adds 2^16 to negative ones |
| Widths.SignedUnsignedRoundTrip | Microsoft.WebAssembly.Webcil.Writer/WebcilWriter.cs:336 | writing `(uint)entry.Type` and reading the bits back as `int` gives the original type |
| LayoutPlanner.FillHeader | Microsoft.WebAssembly.Webcil.Writer/WebcilWriter.cs:115-125 | the header holds the id bytes 'W','C', version `WC_VERSION` = 0 and zero reserved fields. `coff_sections` is the section count. The CLI header and debug directory RVA and size are the PE directory values as 32-bit patterns |
| LayoutPlanner.FirstPeSectionOffset | Microsoft.WebAssembly.Webcil.Writer/WebcilWriter.cs:135-148 | `firstPESection` after the scan is 0 or the raw-data pointer of one of the sections, and fits in an `int` |
| LayoutPlanner.FirstPeSectionIsLowest | Microsoft.WebAssembly.Webcil.Writer/WebcilWriter.cs:141-148 | when no raw-data pointer is 0, `firstPESection` is the lowest pointer: it is one of them and no larger than any |
| LayoutPlanner.FirstPeSectionFromZero | Microsoft.WebAssembly.Webcil.Writer/WebcilWriter.cs:141-143 | once the running value is 0 ("unset"), the result depends only on the sections still to come |
| LayoutPlanner.ZeroPointerRestartsSearch | Microsoft.WebAssembly.Webcil.Writer/WebcilWriter.cs:141-143 | a section with pointer 0 makes the scan forget every earlier section: the result is the scan of the later sections alone |
| LayoutPlanner.ZeroPointerHidesLowerOffset | Microsoft.WebAssembly.Webcil.Writer/WebcilWriter.cs:141-148 | for raw-data pointers 0x200, 0, 0x600 in that order, `firstPESection` ends as 0x600, not the lowest non-zero pointer 0x200 |
| LayoutPlanner.PackedSectionsAreContiguous | Microsoft.WebAssembly.Webcil.Writer/WebcilWriter.cs:132-159 | in a packed directory, entry 0 starts at the section start, entry i+1 starts where entry i's raw data ends, and no two entries' raw data overlap |
| LayoutPlanner.GatherInfo | Microsoft.WebAssembly.Webcil.Writer/WebcilWriter.cs:109-171 | fills the header as FillHeader states. The section start is `sizeof(WCHeader) + 16*N`. The directory keeps the PE table's length, order and virtual fields and raw sizes, with each pointer at the section start plus the raw sizes before it (so contiguous). The PE section start is the scan's `firstPESection`, and the PE info carries the table and debug entries unchanged |
| SectionLookup.GetPositionOfRelativeVirtualAddress | Microsoft.WebAssembly.Webcil.Writer/WebcilWriter.cs:243-254 | fails, with "relative virtual address not in any section", exactly when no section's virtual range holds the RVA. Otherwise it gives `PointerToRawData + (rva - VirtualAddress)` of the first section that holds it |
| SectionLookup.GetSectionFromFileOffset | Microsoft.WebAssembly.Webcil.Writer/WebcilWriter.cs:257-268 | fails (Webcil error) exactly when no section's raw data holds the offset. Otherwise it returns the first such section and the offset within it, which lies in `[0, SizeOfRawData)` |
| SectionLookup.GetSectionFromPeFileOffset | Microsoft.WebAssembly.Webcil.Writer/WebcilWriter.cs:270-281 | passes exactly when some section's raw data holds the offset; otherwise throws the PE error carrying that offset |
| SectionLookup.FileOffsetOverloadsAgree | Microsoft.WebAssembly.Webcil.Writer/WebcilWriter.cs:257-281 | the two overloads accept exactly the same offsets on the same table |
| SectionLookup.RvaLookupOfDisjointSections | Microsoft.WebAssembly.Webcil.Writer/WebcilWriter.cs:245-250 | when virtual ranges do not overlap, the lookup answers from whichever section holds the RVA, so the scan order does not matter |
| ProgramRva.RvaToOffset | Program.cs:98-109 | throws "RVA not found" exactly when no section holds the RVA. Otherwise it returns `(rva - VirtualAddress) + PointerToRawData` of the earliest section holding it, a value within `[PointerToRawData, PointerToRawData + VirtualSize)` |
| ProgramRva.RvaToOffsetOfFirstMatch | Program.cs:100-107 | the result is fixed by the earliest containing section, whatever later sections hold |
| ProgramRva.RvaToOffsetAtSectionStart | Program.cs:102-105 | `rva == VirtualAddress` of the matching section maps to its `PointerToRawData` |
| ProgramRva.RvaToOffsetAtSectionEnd | Program.cs:102-105 | the last address of the matching section maps to `PointerToRawData + VirtualSize - 1` |
| ProgramRva.RvaToOffsetAgreesWithWriter | Program.cs:98-109 | `RvaToOffset` and the writer's GetPositionOfRelativeVirtualAddress fail together and give the same offset on every non-negative RVA; a negative RVA is in no section |
| DebugFixup.DataPointerAdjustment | Microsoft.WebAssembly.Webcil.Writer/WebcilWriter.cs:289 | the adjustment is `peInfo.SectionStart - wcInfo.SectionStart` whenever that difference fits in an `int` (unchecked subtraction otherwise) |
| DebugFixup.NewDataPointer | Microsoft.WebAssembly.Webcil.Writer/WebcilWriter.cs:303 | the new pointer is `DataPointer - adjustment` whenever that fits in an `int` |
| DebugFixup.FixedEntry | Microsoft.WebAssembly.Webcil.Writer/WebcilWriter.cs:294-304 | a Reproducible entry is unchanged. Any other entry keeps Stamp, versions, Type, DataSize and DataRelativeVirtualAddress, and gets the new data pointer |
| DebugFixup.FixupEntry | Microsoft.WebAssembly.Webcil.Writer/WebcilWriter.cs:294-308 | one entry succeeds exactly when it is Reproducible, or its old pointer is in some PE section and its new pointer in some Webcil section. It then yields FixedEntry; otherwise it throws the PE error first, then the Webcil one |
| DebugFixup.FixupDebugDirectoryEntries | Microsoft.WebAssembly.Webcil.Writer/WebcilWriter.cs:287-312 | succeeds exactly when every entry passes both checks, and then keeps count and order with entry i = FixedEntry of entry i. On failure it throws the error of the first entry that fails, all earlier entries having passed |
| DebugFixup.ShiftKeepsSectionOfContiguousImage | Microsoft.WebAssembly.Webcil.Writer/WebcilWriter.cs:303-307 | if the PE sections are themselves packed from the PE section start, a shifted pointer lands in the Webcil copy of the same section at the same local offset |
| DebugFixup.ContiguousImageEntriesRelocatable | Microsoft.WebAssembly.Webcil.Writer/WebcilWriter.cs:305-307 | for such an image, every entry whose pointer is in a PE section also passes the Webcil check, so the fixup cannot fail on it |
| Serializer.UInt16RoundTrip | Microsoft.WebAssembly.Webcil.Writer/WebcilWriter.cs:334-335 | a `ushort` written as 2 little-endian bytes reads back unchanged |
| Serializer.UInt32RoundTrip | Microsoft.WebAssembly.Webcil.Writer/WebcilWriter.cs:332-333 | a `uint` written as 4 little-endian bytes reads back unchanged |
| Serializer.Int32RoundTrip | Microsoft.WebAssembly.Webcil.Writer/WebcilWriter.cs:337-339 | an `int` written as 4 little-endian two's-complement bytes reads back unchanged |
| Serializer.EncodeDebugDirectoryEntry | Microsoft.WebAssembly.Webcil.Writer/WebcilWriter.cs:330-340 | a record is 28 bytes and starts with the 4-byte Characteristics value 0 |
| Serializer.DebugDirectoryEntryRoundTrip | Microsoft.WebAssembly.Webcil.Writer/WebcilWriter.cs:330-340 | reading the fields back from their offsets in the record gives back every field of the entry: Stamp 4, Major 8, Minor 10, Type 12, DataSize 16, DataRVA 20, DataPointer 24 |
| Serializer.EncodeDebugDirectory | Microsoft.WebAssembly.Webcil.Writer/WebcilWriter.cs:319-322 | the records of `count` entries written one after another take `28*count` bytes |
| Serializer.DebugRecordRoundTrip | Microsoft.WebAssembly.Webcil.Writer/WebcilWriter.cs:319-322 | bytes `[28*i, 28*i+28)` of the written directory decode to entry i |
| Serializer.DebugDirectoryRoundTrip | Microsoft.WebAssembly.Webcil.Writer/WebcilWriter.cs:319-322 | decoding the whole written directory gives back the entry list, in order |
| Streams.Overwrite | Microsoft.WebAssembly.Webcil.Writer/WebcilWriter.cs:239 | a stream write at a position replaces exactly the bytes under the data and keeps every other byte. It extends the stream, zero-filling any gap, when the data runs past the end |
| Streams.OverwriteConsecutive | Microsoft.WebAssembly.Webcil.Writer/WebcilWriter.cs:319-322 | two writes one after the other equal one write of the concatenated data |
| Streams.OutputStream.Write | Microsoft.WebAssembly.Webcil.Writer/WebcilWriter.cs:239 | `Stream.Write` overwrites from the position and advances the position by the length written |
| Streams.OutputStream.Seek | Microsoft.WebAssembly.Webcil.Writer/WebcilWriter.cs:316 | `Seek(offset, Begin)` moves the position and changes no byte |
| Streams.OutputStream.SeekToEnd | Microsoft.WebAssembly.Webcil.Writer/WebcilWriter.cs:327 | `Seek(0, End)` moves the position to the stream's length and changes no byte |
| SectionCopier.SectionBytes | Microsoft.WebAssembly.Webcil.Writer/WebcilWriter.cs:236-238 | the buffer read for a section has `SizeOfRawData` bytes, byte j being input byte `PointerToRawData + j` |
| SectionCopier.CopiedLength | Microsoft.WebAssembly.Webcil.Writer/WebcilWriter.cs:234-240 | the copy of the first k sections is as long as their raw sizes together |
| SectionCopier.CopiedAt | Microsoft.WebAssembly.Webcil.Writer/WebcilWriter.cs:234-240 | byte j of section i sits in the copy at the raw size of the sections before i, plus j, and equals input byte `PointerToRawData_i + j` |
| SectionCopier.CopySections | Microsoft.WebAssembly.Webcil.Writer/WebcilWriter.cs:231-241 | succeeds exactly when every section's raw data lies within the input. The output then holds the sections' bytes back to back from the old position, which advances by their total size. Otherwise it throws EndOfStream at the first short section, after writing exactly the sections before it |
| SectionCopier.RelocatedPayloadMatches | Microsoft.WebAssembly.Webcil.Writer/WebcilWriter.cs:231-241 | copying from the section start GatherInfo planned puts byte j of PE section i at Webcil pointer i + j, so every Webcil header points at its own section's data |
| DirectoryWriter.WriteRecords | Microsoft.WebAssembly.Webcil.Writer/WebcilWriter.cs:319-322 | the BinaryWriter loop leaves the stream as one write of all records from the old position, with the position advanced past them |
| DirectoryWriter.OverwriteDebugDirectoryEntries | Microsoft.WebAssembly.Webcil.Writer/WebcilWriter.cs:314-328 | fails, with the stream untouched, exactly when `pe_debug_rva` is in no Webcil section. Otherwise the records are written in place from that RVA's file position and the stream is left at its end |
| DirectoryWriter.OverwrittenDirectoryReadsBack | Microsoft.WebAssembly.Webcil.Writer/WebcilWriter.cs:314-328 | after the overwrite, the `pe_debug_size = 28*count` bytes at the debug position decode to exactly the entries written, and every other byte of the stream is unchanged |

## Left out

- PE parsing (`peReader.PEHeaders`, `ReadDebugDirectory`, WebcilWriter.cs:111-114, 166): the reader's output is taken as input records. The debug entries are a parameter of GatherInfo.
- `Write` (WebcilWriter.cs:75-95): the orchestration is left out, together with `File.Open`, `Flush`, the `BinaryWriter` lifetime and every logging call.
- `WriteHeader`, `WriteSectionHeaders`, `WriteSectionHeader` and `WriteStructure` (WebcilWriter.cs:173-228): these copy host memory layout, and the `BitConverter.IsLittleEndian` checks test the platform. The debug records, whose layout the source states field by field, are encoded explicitly instead.
- `SizeOfHeader` (WebcilWriter.cs:104-107): the writer's `WCHeader` struct is not part of this model, so `sizeof(WCHeader)` is the parameter `headerSize` of GatherInfo.
- Program.cs apart from `RvaToOffset` is left out: `Main`, `FillHeader`, `DumpPE` and `DumpBytes` are a draft and console output.
- webcil-writer/Program.cs (argument handling) is left out.
- The `NotImplementedException` of the endianness checks (WebcilWriter.cs:182, 200, 213) is not modelled, because the struct writers are left out; the record encoder always writes little-endian.
- The older header schema in WCHeader.cs is left out. That file is used only for the 16-byte section record.
- Constants.cs is folded in as `PeRecords.WcVersion` = 0.
- `DebugDirectoryEntryType` is its numeric `int` value; Reproducible is 16.
- GatherInfo: requires the section count to equal the number of section headers, as the PE reader guarantees. Otherwise `MoveToImmutable` (WebcilWriter.cs:169) would throw.
- GatherInfo: requires every section's four fields to be non-negative and its ends (`VirtualAddress + VirtualSize`, `PointerToRawData + SizeOfRawData`, `PointerToRawData + VirtualSize`) to fit in an `int`, and requires the header, the directory and all raw data to fit in an `int`. Layouts whose running positions would wrap around are not covered.
- SectionLookup.GetPositionOfRelativeVirtualAddress: requires every section's four fields to be non-negative and its ends (`VirtualAddress + VirtualSize`, `PointerToRawData + SizeOfRawData`, `PointerToRawData + VirtualSize`) to fit in an `int`, so negative fields and a wrapped-around `VirtualAddress + VirtualSize` are not modelled.
- SectionLookup.GetSectionFromFileOffset: requires every section's four fields to be non-negative and its ends (`VirtualAddress + VirtualSize`, `PointerToRawData + SizeOfRawData`, `PointerToRawData + VirtualSize`) to fit in an `int`, so negative fields and a wrapped-around `PointerToRawData + SizeOfRawData` are not modelled.
- SectionLookup.GetSectionFromPeFileOffset: requires every section's four fields to be non-negative and its ends (`VirtualAddress + VirtualSize`, `PointerToRawData + SizeOfRawData`, `PointerToRawData + VirtualSize`) to fit in an `int`, for the same reason.
- ProgramRva.RvaToOffset: requires every section's four fields to be non-negative and its ends (`VirtualAddress + VirtualSize`, `PointerToRawData + SizeOfRawData`, `PointerToRawData + VirtualSize`) to fit in an `int`, for the same reason.
- DebugFixup.FixupDebugDirectoryEntries: requires every section's four fields to be non-negative and its ends (`VirtualAddress + VirtualSize`, `PointerToRawData + SizeOfRawData`, `PointerToRawData + VirtualSize`) to fit in an `int`, for both tables, because it calls the lookups.
- SectionCopier.CopySections: requires every section's four fields to be non-negative and its ends (`VirtualAddress + VirtualSize`, `PointerToRawData + SizeOfRawData`, `PointerToRawData + VirtualSize`) to fit in an `int`; with a negative size or pointer, `new byte[]` and `Seek` (WebcilWriter.cs:236-237) would throw, and that is not modelled. It also requires the output position to be within the stream, as it always is after the header and directory writes. The input stream is a byte sequence, so its position after each `Seek` and `ReadExactly` is not modelled.
- DirectoryWriter.OverwriteDebugDirectoryEntries: requires every section's four fields to be non-negative and its ends (`VirtualAddress + VirtualSize`, `PointerToRawData + SizeOfRawData`, `PointerToRawData + VirtualSize`) to fit in an `int`. It also requires `28*count == pe_debug_size`: the source leaves this check as a TODO (WebcilWriter.cs:324), so it is a precondition here rather than behaviour of the code.
- The fixup checks that the new data pointer is in *some* Webcil section, not the section that held the old pointer, and the model follows the code in this. DebugFixup.ShiftKeepsSectionOfContiguousImage proves that it is the same section when the PE sections are themselves packed from the PE section start.
