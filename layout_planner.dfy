/**
 * GatherInfo (WebcilWriter.cs:109-171): fills the Webcil header, builds the Webcil
 * section directory with the raw data packed right after the header and the
 * directory, and finds where the sections start in the PE file.
 */
module LayoutPlanner {
  import opened Widths
  import opened PeRecords

  /**
   * One step of the search for the first PE section (WebcilWriter.cs:141-148):
   * a running value of 0 means "not set yet" and is replaced by the next pointer.
   */
  function NextFirstSection(first: int, pointer: int): int
  {
    if first == 0 then pointer else if pointer < first then pointer else first
  }

  /** The value GatherInfo leaves in `firstPESection` after scanning `sections` in order. */
  function FirstPeSectionOffset(sections: seq<SectionHeader>): (r: int)
    requires AllSectionsFit(sections)
    ensures 0 <= r <= Int32Max
    ensures r == 0 || exists i :: 0 <= i < |sections| && r == sections[i].pointerToRawData
  {
    if sections == [] then 0
    else
      var init := sections[..|sections| - 1];
      var r := NextFirstSection(FirstPeSectionOffset(init), sections[|sections| - 1].pointerToRawData);
      assert r != 0 && r != sections[|sections| - 1].pointerToRawData ==>
        exists i :: 0 <= i < |init| && r == init[i].pointerToRawData;
      r
  }

  /**
   * When every section has raw data at a non-zero offset, GatherInfo's first PE
   * section is the lowest raw-data pointer.
   */
  lemma {:induction false} FirstPeSectionIsLowest(sections: seq<SectionHeader>)
    requires AllSectionsFit(sections) && sections != []
    requires forall i :: 0 <= i < |sections| ==> sections[i].pointerToRawData != 0
    ensures exists i :: 0 <= i < |sections| && FirstPeSectionOffset(sections) == sections[i].pointerToRawData
    ensures forall i :: 0 <= i < |sections| ==> FirstPeSectionOffset(sections) <= sections[i].pointerToRawData
  {
    var init := sections[..|sections| - 1];
    if init != [] {
      FirstPeSectionIsLowest(init);
      assert forall i :: 0 <= i < |init| ==> init[i] == sections[i];
    }
  }

  /** Once the running value is 0, the rest of the scan ignores everything before it. */
  lemma {:induction false} FirstPeSectionFromZero(prefix: seq<SectionHeader>, rest: seq<SectionHeader>)
    requires AllSectionsFit(prefix + rest) && AllSectionsFit(prefix) && AllSectionsFit(rest)
    requires FirstPeSectionOffset(prefix) == 0
    ensures FirstPeSectionOffset(prefix + rest) == FirstPeSectionOffset(rest)
  {
    if rest == [] {
      assert prefix + rest == prefix;
    } else {
      var restInit := rest[..|rest| - 1];
      assert (prefix + rest)[..|prefix + rest| - 1] == prefix + restInit;
      FirstPeSectionFromZero(prefix, restInit);
    }
  }

  /**
   * A section whose raw-data pointer is 0 resets the search: the first PE section
   * is then computed from the sections after it alone, so a lower pointer that
   * came before the zero one is forgotten.
   */
  lemma ZeroPointerRestartsSearch(before: seq<SectionHeader>, zero: SectionHeader, after: seq<SectionHeader>)
    requires AllSectionsFit(before) && SectionFits(zero) && AllSectionsFit(after)
    requires zero.pointerToRawData == 0
    ensures AllSectionsFit(before + [zero] + after)
    ensures FirstPeSectionOffset(before + [zero] + after) == FirstPeSectionOffset(after)
  {
    var all := before + [zero] + after;
    var prefix := before + [zero];
    assert all == prefix + after;
    assert prefix[..|prefix| - 1] == before;
    FirstPeSectionFromZero(prefix, after);
  }

  /**
   * The reset on concrete pointers: for raw-data pointers 0x200, 0 and 0x600, in
   * that order, the scan yields 0x600 although 0x200 is the lowest non-zero pointer.
   */
  lemma ZeroPointerHidesLowerOffset()
    ensures FirstPeSectionOffset([SectionHeader(0, 0, 0, 0x200), SectionHeader(0, 0, 0, 0), SectionHeader(0, 0, 0, 0x600)]) == 0x600
  {
  }

  /**
   * The Webcil directory `wc` is the PE table `pe` with its raw data repacked from
   * `start`: same length and order, the virtual fields and the raw size copied, and
   * each raw-data pointer at `start` plus the raw sizes of the sections before it.
   */
  ghost predicate PackedFrom(pe: seq<SectionHeader>, wc: seq<SectionHeader>, start: int) {
    |wc| == |pe| &&
    forall i :: 0 <= i < |pe| ==>
      wc[i].virtualSize == pe[i].virtualSize &&
      wc[i].virtualAddress == pe[i].virtualAddress &&
      wc[i].sizeOfRawData == pe[i].sizeOfRawData &&
      wc[i].pointerToRawData == start + RawDataTotal(pe[..i])
  }

  /**
   * A packed directory starts at `start`, each section begins where the previous
   * one ends, and no two sections' raw data overlap.
   */
  lemma PackedSectionsAreContiguous(pe: seq<SectionHeader>, wc: seq<SectionHeader>, start: int)
    requires AllSectionsFit(pe) && PackedFrom(pe, wc, start)
    ensures |wc| > 0 ==> wc[0].pointerToRawData == start
    ensures forall i :: 0 <= i < |wc| - 1 ==>
      wc[i + 1].pointerToRawData == wc[i].pointerToRawData + pe[i].sizeOfRawData
    ensures forall i, j :: 0 <= i < j < |wc| ==>
      start <= wc[i].pointerToRawData + wc[i].sizeOfRawData <= wc[j].pointerToRawData
  {
    if |wc| > 0 {
      assert pe[..0] == [];
    }
    forall i | 0 <= i < |wc| - 1
      ensures wc[i + 1].pointerToRawData == wc[i].pointerToRawData + pe[i].sizeOfRawData
    {
      RawDataTotalStep(pe, i);
    }
    forall i, j | 0 <= i < j < |wc|
      ensures start <= wc[i].pointerToRawData + wc[i].sizeOfRawData <= wc[j].pointerToRawData
    {
      RawDataTotalStep(pe, i);
      RawDataTotalMonotone(pe, 0, i);
      RawDataTotalMonotone(pe, i + 1, j);
    }
  }

  /** A prefix of a table whose sections fit has sections that fit. */
  lemma PrefixFits(sections: seq<SectionHeader>, k: int)
    requires AllSectionsFit(sections) && 0 <= k <= |sections|
    ensures AllSectionsFit(sections[..k])
  {
    assert forall j :: 0 <= j < k ==> sections[..k][j] == sections[j];
  }

  /** One more iteration of the loop of GatherInfo on the first PE section. */
  lemma FirstPeSectionStep(sections: seq<SectionHeader>, k: int)
    requires AllSectionsFit(sections) && 0 <= k < |sections|
    ensures AllSectionsFit(sections[..k]) && AllSectionsFit(sections[..k + 1])
    ensures FirstPeSectionOffset(sections[..k + 1]) ==
      NextFirstSection(FirstPeSectionOffset(sections[..k]), sections[k].pointerToRawData)
  {
    PrefixFits(sections, k);
    PrefixFits(sections, k + 1);
    assert sections[..k + 1][..k] == sections[..k];
  }

  /** One more iteration of the loop of GatherInfo on the directory being built. */
  lemma PackedFromStep(pe: seq<SectionHeader>, wc: seq<SectionHeader>, start: int, k: int, next: SectionHeader)
    requires 0 <= k < |pe| && PackedFrom(pe[..k], wc, start)
    requires next.virtualSize == pe[k].virtualSize && next.virtualAddress == pe[k].virtualAddress
    requires next.sizeOfRawData == pe[k].sizeOfRawData
    requires next.pointerToRawData == start + RawDataTotal(pe[..k])
    ensures PackedFrom(pe[..k + 1], wc + [next], start)
  {
    forall j | 0 <= j <= k
      ensures pe[..k + 1][..j] == pe[..j] && pe[..k + 1][j] == pe[j]
    {
    }
    forall j | 0 <= j < k
      ensures pe[..k][..j] == pe[..j] && pe[..k][j] == pe[j]
    {
    }
  }

  /**
   * The Webcil header GatherInfo fills (WebcilWriter.cs:115-125): the magic "WC",
   * the format version, zero reserved fields, the section count, and the CLI header
   * and debug directory locations taken over from the PE optional header.
   */
  function FillHeader(headers: PEHeaders): (h: WCHeader)
    requires 0 <= headers.numberOfSections
    ensures h.id0 == 'W' as int && h.id1 == 'C' as int
    ensures h.version == WcVersion && h.reserved0 == 0 && h.reserved1 == 0
    ensures h.coffSections == headers.numberOfSections
    ensures h.peCliHeaderRva as int % TwoTo32 == headers.corHeaderTableDirectory.relativeVirtualAddress as int % TwoTo32
    ensures h.peCliHeaderSize as int % TwoTo32 == headers.corHeaderTableDirectory.size as int % TwoTo32
    ensures h.peDebugRva as int % TwoTo32 == headers.debugTableDirectory.relativeVirtualAddress as int % TwoTo32
    ensures h.peDebugSize as int % TwoTo32 == headers.debugTableDirectory.size as int % TwoTo32
  {
    WCHeader(
      'W' as int, 'C' as int, WcVersion, 0, ToUInt16(headers.numberOfSections), 0,
      ToUInt32(headers.corHeaderTableDirectory.relativeVirtualAddress),
      ToUInt32(headers.corHeaderTableDirectory.size),
      ToUInt32(headers.debugTableDirectory.relativeVirtualAddress),
      ToUInt32(headers.debugTableDirectory.size))
  }

  /**
   * GatherInfo on the PE reader's headers and debug directory (read by the caller).
   * `headerSize` is `sizeof(WCHeader)`.
   */
  method GatherInfo(headers: PEHeaders, debugDirectoryEntries: seq<DebugDirectoryEntry>, headerSize: int32)
    returns (wcInfo: WCFileInfo, peInfo: PEFileInfo)
    requires headerSize >= 0
    requires headers.numberOfSections as int == |headers.sectionHeaders|
    requires AllSectionsFit(headers.sectionHeaders)
    requires headerSize + SectionHeaderSize * |headers.sectionHeaders| + RawDataTotal(headers.sectionHeaders) <= Int32Max
    ensures wcInfo.header == FillHeader(headers)
    ensures wcInfo.sectionStart.position == headerSize + SectionHeaderSize * |headers.sectionHeaders|
    ensures PackedFrom(headers.sectionHeaders, wcInfo.sectionHeaders, wcInfo.sectionStart.position)
    ensures |wcInfo.sectionHeaders| > 0 ==> wcInfo.sectionHeaders[0].pointerToRawData == wcInfo.sectionStart.position
    ensures forall i :: 0 <= i < |wcInfo.sectionHeaders| - 1 ==>
      wcInfo.sectionHeaders[i + 1].pointerToRawData ==
        wcInfo.sectionHeaders[i].pointerToRawData + headers.sectionHeaders[i].sizeOfRawData
    ensures peInfo.sectionHeaders == headers.sectionHeaders
    ensures peInfo.debugTableDirectory == headers.debugTableDirectory
    ensures peInfo.sectionStart.position == FirstPeSectionOffset(headers.sectionHeaders)
    ensures peInfo.debugDirectoryEntries == debugDirectoryEntries
  {
    var sections := headers.sectionHeaders;
    var n := |sections|;
    var header := FillHeader(headers);

    RawDataTotalMonotone(sections, 0, n);
    assert sections[..n] == sections;
    // `pos` walks over the header and then one directory record per section
    var pos := FilePosition(headerSize);
    // `curSectionPos` is where the next section's raw data will go; the data begins past the whole directory
    var curSectionPos := Add(pos, SectionHeaderSize * headers.numberOfSections as int);
    var firstWCSection := curSectionPos;
    var firstPESection := FilePosition(0);
    var headerBuilder: seq<SectionHeader> := [];

    var i := 0;
    while i < n
      invariant 0 <= i <= n
      invariant pos.position == headerSize + SectionHeaderSize * i
      invariant curSectionPos.position == firstWCSection.position + RawDataTotal(sections[..i])
      invariant AllSectionsFit(sections[..i])
      invariant firstPESection.position == FirstPeSectionOffset(sections[..i])
      invariant PackedFrom(sections[..i], headerBuilder, firstWCSection.position)
    {
      var sectionHeader := sections[i];
      // running minimum of the raw-data pointers, where 0 means unset and a zero pointer resets it
      FirstPeSectionStep(sections, i);
      firstPESection := FilePosition(NextFirstSection(firstPESection.position, sectionHeader.pointerToRawData));
      var newHeader := SectionHeader(
        sectionHeader.virtualSize, sectionHeader.virtualAddress, sectionHeader.sizeOfRawData, curSectionPos.position);
      PackedFromStep(sections, headerBuilder, firstWCSection.position, i, newHeader);
      RawDataTotalStep(sections, i);
      RawDataTotalMonotone(sections, i + 1, n);
      pos := Add(pos, SectionHeaderSize);
      curSectionPos := Add(curSectionPos, sectionHeader.sizeOfRawData);
      headerBuilder := headerBuilder + [newHeader];
      i := i + 1;
    }
    assert sections[..i] == sections;

    peInfo := PEFileInfo(sections, headers.debugTableDirectory, firstPESection, debugDirectoryEntries);
    wcInfo := WCFileInfo(header, headerBuilder, firstWCSection);
    PackedSectionsAreContiguous(sections, headerBuilder, firstWCSection.position);
  }
}
