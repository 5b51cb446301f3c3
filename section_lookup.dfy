/**
 * The first-match searches of WebcilWriter.cs that translate a relative virtual
 * address to a file position and find the section holding a file offset.
 * Each scans the directory in order, stops at the first section that contains
 * the value, and fails when no section does.
 */
module SectionLookup {
  import opened Widths
  import opened PeRecords
  import opened Outcomes

  /** Section `i` is the earliest one whose virtual range holds `rva`. */
  ghost predicate FirstRvaMatch(sections: seq<SectionHeader>, rva: int, i: int) {
    0 <= i < |sections| && ContainsRva(sections[i], rva) &&
    forall j :: 0 <= j < i ==> !ContainsRva(sections[j], rva)
  }

  /** Section `i` is the earliest one whose raw data holds `offset`. */
  ghost predicate FirstOffsetMatch(sections: seq<SectionHeader>, offset: int, i: int) {
    0 <= i < |sections| && ContainsOffset(sections[i], offset) &&
    forall j :: 0 <= j < i ==> !ContainsOffset(sections[j], offset)
  }

  /** At most one section is the earliest match for an RVA. */
  lemma FirstRvaMatchUnique(sections: seq<SectionHeader>, rva: int, i: int, j: int)
    requires FirstRvaMatch(sections, rva, i) && FirstRvaMatch(sections, rva, j)
    ensures i == j
  {
  }

  /** Shifting a match past a skipped head section. */
  lemma FirstRvaMatchTail(sections: seq<SectionHeader>, rva: int, i: int)
    requires sections != [] && !ContainsRva(sections[0], rva)
    requires FirstRvaMatch(sections[1..], rva, i)
    ensures FirstRvaMatch(sections, rva, i + 1)
  {
    forall j | 0 <= j < i + 1
      ensures !ContainsRva(sections[j], rva)
    {
      if j > 0 {
        assert sections[j] == sections[1..][j - 1];
      }
    }
  }

  lemma FirstOffsetMatchTail(sections: seq<SectionHeader>, offset: int, i: int)
    requires sections != [] && !ContainsOffset(sections[0], offset)
    requires FirstOffsetMatch(sections[1..], offset, i)
    ensures FirstOffsetMatch(sections, offset, i + 1)
  {
    forall j | 0 <= j < i + 1
      ensures !ContainsOffset(sections[j], offset)
    {
      if j > 0 {
        assert sections[j] == sections[1..][j - 1];
      }
    }
  }

  /**
   * GetPositionOfRelativeVirtualAddress (WebcilWriter.cs:243-254): the file position
   * of `relativeVirtualAddress` in the first section whose virtual range holds it.
   */
  function GetPositionOfRelativeVirtualAddress(wcSections: seq<SectionHeader>, relativeVirtualAddress: uint32): (r: Result<FilePosition>)
    requires AllSectionsFit(wcSections)
    ensures r.Err? <==> forall i :: 0 <= i < |wcSections| ==> !ContainsRva(wcSections[i], relativeVirtualAddress)
    ensures r.Err? ==> r.error == RvaNotInAnySection
    ensures r.Ok? ==> exists i :: (FirstRvaMatch(wcSections, relativeVirtualAddress, i) &&
      r.value.position == wcSections[i].pointerToRawData + (relativeVirtualAddress - wcSections[i].virtualAddress))
  {
    if wcSections == [] then Err(RvaNotInAnySection)
    else
      var section := wcSections[0];
      if relativeVirtualAddress >= section.virtualAddress && relativeVirtualAddress < section.virtualAddress + section.virtualSize then
        assert FirstRvaMatch(wcSections, relativeVirtualAddress, 0);
        Ok(FilePosition(section.pointerToRawData + (relativeVirtualAddress - section.virtualAddress)))
      else
        var r := GetPositionOfRelativeVirtualAddress(wcSections[1..], relativeVirtualAddress);
        assert r.Err? <==> forall i :: 0 <= i < |wcSections| ==> !ContainsRva(wcSections[i], relativeVirtualAddress) by {
          forall i | 1 <= i < |wcSections| ensures wcSections[i] == wcSections[1..][i - 1] { }
        }
        assert r.Ok? ==> exists i :: (FirstRvaMatch(wcSections, relativeVirtualAddress, i) &&
            r.value.position == wcSections[i].pointerToRawData + (relativeVirtualAddress - wcSections[i].virtualAddress)) by {
          if r.Ok? {
            var k :| FirstRvaMatch(wcSections[1..], relativeVirtualAddress, k) &&
              r.value.position == wcSections[1..][k].pointerToRawData + (relativeVirtualAddress - wcSections[1..][k].virtualAddress);
            FirstRvaMatchTail(wcSections, relativeVirtualAddress, k);
          }
        }
        r
  }

  /**
   * GetSectionFromFileOffset over the Webcil directory (WebcilWriter.cs:257-268):
   * the first section whose raw data holds the offset, and the offset within it.
   */
  function GetSectionFromFileOffset(peSections: seq<SectionHeader>, fileOffset: FilePosition): (r: Result<(SectionHeader, int)>)
    requires AllSectionsFit(peSections)
    ensures r.Err? <==> forall i :: 0 <= i < |peSections| ==> !ContainsOffset(peSections[i], fileOffset.position)
    ensures r.Err? ==> r.error == FileOffsetNotInAnyWebcilSection
    ensures r.Ok? ==> exists i :: (FirstOffsetMatch(peSections, fileOffset.position, i) &&
      r.value.0 == peSections[i] && r.value.1 == fileOffset.position - peSections[i].pointerToRawData)
    ensures r.Ok? ==> 0 <= r.value.1 < r.value.0.sizeOfRawData
  {
    if peSections == [] then Err(FileOffsetNotInAnyWebcilSection)
    else
      var section := peSections[0];
      if fileOffset.position >= section.pointerToRawData && fileOffset.position < section.pointerToRawData + section.sizeOfRawData then
        assert FirstOffsetMatch(peSections, fileOffset.position, 0);
        Ok((section, fileOffset.position - section.pointerToRawData))
      else
        var r := GetSectionFromFileOffset(peSections[1..], fileOffset);
        assert r.Err? <==> forall i :: 0 <= i < |peSections| ==> !ContainsOffset(peSections[i], fileOffset.position) by {
          forall i | 1 <= i < |peSections| ensures peSections[i] == peSections[1..][i - 1] { }
        }
        assert r.Ok? ==> exists i :: (FirstOffsetMatch(peSections, fileOffset.position, i) &&
            r.value.0 == peSections[i] && r.value.1 == fileOffset.position - peSections[i].pointerToRawData) by {
          if r.Ok? {
            var k :| FirstOffsetMatch(peSections[1..], fileOffset.position, k) &&
              r.value.0 == peSections[1..][k] && r.value.1 == fileOffset.position - peSections[1..][k].pointerToRawData;
            FirstOffsetMatchTail(peSections, fileOffset.position, k);
          }
        }
        r
  }

  /**
   * GetSectionFromFileOffset over the PE section table (WebcilWriter.cs:270-281):
   * only a check that some section's raw data holds the offset.
   */
  function GetSectionFromPeFileOffset(sections: seq<SectionHeader>, fileOffset: FilePosition): (r: Outcome)
    requires AllSectionsFit(sections)
    ensures r.Pass? <==> exists i :: 0 <= i < |sections| && ContainsOffset(sections[i], fileOffset.position)
    ensures r.Fail? ==> r.error == FileOffsetNotInAnyPeSection(fileOffset.position)
  {
    if sections == [] then Fail(FileOffsetNotInAnyPeSection(fileOffset.position))
    else
      var section := sections[0];
      if fileOffset.position >= section.pointerToRawData && fileOffset.position < section.pointerToRawData + section.sizeOfRawData then
        Pass
      else
        var r := GetSectionFromPeFileOffset(sections[1..], fileOffset);
        assert r.Pass? <==> exists i :: 0 <= i < |sections| && ContainsOffset(sections[i], fileOffset.position) by {
          if r.Pass? {
            var k :| 0 <= k < |sections[1..]| && ContainsOffset(sections[1..][k], fileOffset.position);
            assert ContainsOffset(sections[k + 1], fileOffset.position);
          } else {
            forall i | 1 <= i < |sections| ensures sections[i] == sections[1..][i - 1] { }
          }
        }
        r
  }

  /** The two overloads agree on which offsets they accept. */
  lemma FileOffsetOverloadsAgree(sections: seq<SectionHeader>, fileOffset: FilePosition)
    requires AllSectionsFit(sections)
    ensures GetSectionFromPeFileOffset(sections, fileOffset).Pass? <==> GetSectionFromFileOffset(sections, fileOffset).Ok?
  {
  }

  /**
   * When no two sections overlap in the virtual address space, the lookup answers
   * from whichever section holds the address: the scan order does not matter.
   */
  lemma RvaLookupOfDisjointSections(wcSections: seq<SectionHeader>, relativeVirtualAddress: uint32, i: int)
    requires AllSectionsFit(wcSections)
    requires forall a, b :: 0 <= a < b < |wcSections| ==>
      wcSections[a].virtualAddress + wcSections[a].virtualSize <= wcSections[b].virtualAddress ||
      wcSections[b].virtualAddress + wcSections[b].virtualSize <= wcSections[a].virtualAddress
    requires 0 <= i < |wcSections| && ContainsRva(wcSections[i], relativeVirtualAddress)
    ensures GetPositionOfRelativeVirtualAddress(wcSections, relativeVirtualAddress) ==
      Ok(FilePosition(wcSections[i].pointerToRawData + (relativeVirtualAddress - wcSections[i].virtualAddress)))
  {
    forall j | 0 <= j < i
      ensures !ContainsRva(wcSections[j], relativeVirtualAddress)
    {
      assert wcSections[j].virtualAddress + wcSections[j].virtualSize <= wcSections[i].virtualAddress ||
        wcSections[i].virtualAddress + wcSections[i].virtualSize <= wcSections[j].virtualAddress;
    }
    assert FirstRvaMatch(wcSections, relativeVirtualAddress, i);
    var r := GetPositionOfRelativeVirtualAddress(wcSections, relativeVirtualAddress);
    var k :| FirstRvaMatch(wcSections, relativeVirtualAddress, k) &&
      r.value.position == wcSections[k].pointerToRawData + (relativeVirtualAddress - wcSections[k].virtualAddress);
    FirstRvaMatchUnique(wcSections, relativeVirtualAddress, k, i);
  }
}
