/**
 * FixupDebugDirectoryEntries (WebcilWriter.cs:287-312): the debug directory entries
 * of the PE file, with every data pointer moved by the amount the section data
 * moves when the PE headers are replaced by the smaller Webcil ones.
 */
module DebugFixup {
  import opened Widths
  import opened PeRecords
  import opened Outcomes
  import opened SectionLookup
  import opened LayoutPlanner

  /**
   * `dataPointerAdjustment`: how far the section data moves towards the start of
   * the file, as an unchecked `int` subtraction.
   */
  function DataPointerAdjustment(peInfo: PEFileInfo, wcInfo: WCFileInfo): (r: int32)
    ensures InInt32(peInfo.sectionStart.position - wcInfo.sectionStart.position) ==>
      r == peInfo.sectionStart.position - wcInfo.sectionStart.position
  {
    Wrap32(peInfo.sectionStart.position - wcInfo.sectionStart.position)
  }

  /** The new data pointer of an entry: its old one less the adjustment, unchecked. */
  function NewDataPointer(dataPointer: int32, adjustment: int32): (r: int32)
    ensures InInt32(dataPointer - adjustment) ==> r == dataPointer - adjustment
  {
    Wrap32(dataPointer - adjustment)
  }

  /** The entry a given PE entry becomes in the Webcil file. */
  function FixedEntry(entry: DebugDirectoryEntry, adjustment: int32): (r: DebugDirectoryEntry)
    ensures entry.entryType == Reproducible ==> r == entry
    ensures entry.entryType != Reproducible ==>
      r.stamp == entry.stamp && r.majorVersion == entry.majorVersion &&
      r.minorVersion == entry.minorVersion && r.entryType == entry.entryType &&
      r.dataSize == entry.dataSize && r.dataRelativeVirtualAddress == entry.dataRelativeVirtualAddress &&
      r.dataPointer == NewDataPointer(entry.dataPointer, adjustment)
  {
    if entry.entryType == Reproducible then entry
    else entry.(dataPointer := NewDataPointer(entry.dataPointer, adjustment))
  }

  /** Some section of the table holds the file offset. */
  ghost predicate InSomeSection(sections: seq<SectionHeader>, offset: int) {
    exists i :: 0 <= i < |sections| && ContainsOffset(sections[i], offset)
  }

  /**
   * The entry passes both checks of the fixup: it is Reproducible, or its old data
   * pointer is in some PE section and its new one in some Webcil section.
   */
  ghost predicate Relocatable(peInfo: PEFileInfo, wcInfo: WCFileInfo, entry: DebugDirectoryEntry) {
    entry.entryType == Reproducible ||
    (InSomeSection(peInfo.sectionHeaders, entry.dataPointer) &&
     InSomeSection(wcInfo.sectionHeaders,
       NewDataPointer(entry.dataPointer, DataPointerAdjustment(peInfo, wcInfo))))
  }

  /** The exception the fixup throws on an entry that is not relocatable: the PE check comes first. */
  ghost function RelocationError(peInfo: PEFileInfo, entry: DebugDirectoryEntry): Error {
    if InSomeSection(peInfo.sectionHeaders, entry.dataPointer) then FileOffsetNotInAnyWebcilSection
    else FileOffsetNotInAnyPeSection(entry.dataPointer)
  }

  /**
   * One turn of the fixup loop: a Reproducible entry is copied as it is; any other
   * gets its shifted data pointer, after the old pointer has been found in some PE
   * section and the new one in some Webcil section.
   */
  method FixupEntry(peInfo: PEFileInfo, wcInfo: WCFileInfo, entry: DebugDirectoryEntry, dataPointerAdjustment: int32)
    returns (r: Result<DebugDirectoryEntry>)
    requires AllSectionsFit(peInfo.sectionHeaders) && AllSectionsFit(wcInfo.sectionHeaders)
    requires dataPointerAdjustment == DataPointerAdjustment(peInfo, wcInfo)
    ensures r.Ok? <==> Relocatable(peInfo, wcInfo, entry)
    ensures r.Ok? ==> r.value == FixedEntry(entry, dataPointerAdjustment)
    ensures r.Err? ==> r.error == RelocationError(peInfo, entry)
  {
    if entry.entryType == Reproducible {
      // a Reproducible entry points at no data, so it is kept as it is
      return Ok(entry);
    }
    var newDataPointer := NewDataPointer(entry.dataPointer, dataPointerAdjustment);
    var newEntry := entry.(dataPointer := newDataPointer);
    var inPe := GetSectionFromPeFileOffset(peInfo.sectionHeaders, FilePosition(entry.dataPointer));
    if inPe.Fail? {
      return Err(inPe.error);
    }
    // the shifted pointer must fall inside one of the Webcil sections, whichever it is
    var inWebcil := GetSectionFromFileOffset(wcInfo.sectionHeaders, FilePosition(newDataPointer));
    if inWebcil.Err? {
      return Err(inWebcil.error);
    }
    return Ok(newEntry);
  }

  /**
   * Fixes up every debug directory entry, in order. It succeeds exactly when every
   * entry is relocatable and then keeps their count and order; otherwise it throws
   * the error of the first entry that is not.
   */
  method FixupDebugDirectoryEntries(peInfo: PEFileInfo, wcInfo: WCFileInfo) returns (r: Result<seq<DebugDirectoryEntry>>)
    requires AllSectionsFit(peInfo.sectionHeaders) && AllSectionsFit(wcInfo.sectionHeaders)
    ensures r.Ok? <==> forall i :: 0 <= i < |peInfo.debugDirectoryEntries| ==>
      Relocatable(peInfo, wcInfo, peInfo.debugDirectoryEntries[i])
    ensures r.Ok? ==> |r.value| == |peInfo.debugDirectoryEntries|
    ensures r.Ok? ==> forall i :: 0 <= i < |r.value| ==>
      r.value[i] == FixedEntry(peInfo.debugDirectoryEntries[i], DataPointerAdjustment(peInfo, wcInfo))
    ensures r.Err? ==> exists i :: (0 <= i < |peInfo.debugDirectoryEntries| &&
      !Relocatable(peInfo, wcInfo, peInfo.debugDirectoryEntries[i]) &&
      (forall j :: 0 <= j < i ==> Relocatable(peInfo, wcInfo, peInfo.debugDirectoryEntries[j])) &&
      r.error == RelocationError(peInfo, peInfo.debugDirectoryEntries[i]))
  {
    var dataPointerAdjustment := DataPointerAdjustment(peInfo, wcInfo);
    var entries := peInfo.debugDirectoryEntries;
    var newEntries: seq<DebugDirectoryEntry> := [];
    var i := 0;
    while i < |entries|
      invariant 0 <= i <= |entries|
      invariant |newEntries| == i
      invariant forall j :: 0 <= j < i ==> Relocatable(peInfo, wcInfo, entries[j])
      invariant forall j :: 0 <= j < i ==> newEntries[j] == FixedEntry(entries[j], dataPointerAdjustment)
    {
      var fixedEntry := FixupEntry(peInfo, wcInfo, entries[i], dataPointerAdjustment);
      if fixedEntry.Err? {
        return Err(fixedEntry.error);
      }
      newEntries := newEntries + [fixedEntry.value];
      i := i + 1;
    }
    return Ok(newEntries);
  }

  /**
   * When the PE file itself keeps its sections' raw data back to back from
   * `peInfo.sectionStart`, the shifted data pointer of an entry lands in the
   * Webcil copy of the very section that held it, at the same offset within it.
   */
  lemma ShiftKeepsSectionOfContiguousImage(peInfo: PEFileInfo, wcInfo: WCFileInfo, k: int, dataPointer: int32)
    requires AllSectionsFit(peInfo.sectionHeaders) && AllSectionsFit(wcInfo.sectionHeaders)
    requires 0 <= peInfo.sectionStart.position && 0 <= wcInfo.sectionStart.position
    requires PackedFrom(peInfo.sectionHeaders, peInfo.sectionHeaders, peInfo.sectionStart.position)
    requires PackedFrom(peInfo.sectionHeaders, wcInfo.sectionHeaders, wcInfo.sectionStart.position)
    requires 0 <= k < |peInfo.sectionHeaders| && ContainsOffset(peInfo.sectionHeaders[k], dataPointer)
    ensures ContainsOffset(wcInfo.sectionHeaders[k], NewDataPointer(dataPointer, DataPointerAdjustment(peInfo, wcInfo)))
    ensures NewDataPointer(dataPointer, DataPointerAdjustment(peInfo, wcInfo)) - wcInfo.sectionHeaders[k].pointerToRawData ==
      dataPointer - peInfo.sectionHeaders[k].pointerToRawData
  {
    var adjustment := DataPointerAdjustment(peInfo, wcInfo);
    assert adjustment == peInfo.sectionStart.position - wcInfo.sectionStart.position;
    var moved := dataPointer - adjustment;
    assert moved == wcInfo.sectionHeaders[k].pointerToRawData + (dataPointer - peInfo.sectionHeaders[k].pointerToRawData);
    assert SectionFits(wcInfo.sectionHeaders[k]);
    assert NewDataPointer(dataPointer, adjustment) == moved;
  }

  /**
   * For such an image every entry whose data pointer lies in a PE section passes
   * both checks of the fixup, so the fixup cannot fail on it.
   */
  lemma ContiguousImageEntriesRelocatable(peInfo: PEFileInfo, wcInfo: WCFileInfo)
    requires AllSectionsFit(peInfo.sectionHeaders) && AllSectionsFit(wcInfo.sectionHeaders)
    requires 0 <= peInfo.sectionStart.position && 0 <= wcInfo.sectionStart.position
    requires PackedFrom(peInfo.sectionHeaders, peInfo.sectionHeaders, peInfo.sectionStart.position)
    requires PackedFrom(peInfo.sectionHeaders, wcInfo.sectionHeaders, wcInfo.sectionStart.position)
    requires forall i :: 0 <= i < |peInfo.debugDirectoryEntries| ==>
      peInfo.debugDirectoryEntries[i].entryType == Reproducible ||
      InSomeSection(peInfo.sectionHeaders, peInfo.debugDirectoryEntries[i].dataPointer)
    ensures forall i :: 0 <= i < |peInfo.debugDirectoryEntries| ==>
      Relocatable(peInfo, wcInfo, peInfo.debugDirectoryEntries[i])
  {
    forall i | 0 <= i < |peInfo.debugDirectoryEntries|
      ensures Relocatable(peInfo, wcInfo, peInfo.debugDirectoryEntries[i])
    {
      var entry := peInfo.debugDirectoryEntries[i];
      if entry.entryType != Reproducible {
        var k :| 0 <= k < |peInfo.sectionHeaders| && ContainsOffset(peInfo.sectionHeaders[k], entry.dataPointer);
        ShiftKeepsSectionOfContiguousImage(peInfo, wcInfo, k, entry.dataPointer);
      }
    }
  }
}
