/**
 * Program.RvaToOffset (Program.cs:98-109): the first version of the RVA lookup,
 * over the PE section table and with a signed `int` address.
 */
module ProgramRva {
  import opened Widths
  import opened PeRecords
  import opened Outcomes
  import opened SectionLookup

  /**
   * The file offset of `rva` in the earliest section whose virtual range holds it;
   * "RVA not found" when no section does. The offset lies within the first
   * `VirtualSize` bytes of that section's raw data.
   */
  function RvaToOffset(sections: seq<SectionHeader>, rva: int32): (r: Result<int32>)
    requires AllSectionsFit(sections)
    ensures r.Err? <==> forall i :: 0 <= i < |sections| ==> !ContainsRva(sections[i], rva)
    ensures r.Err? ==> r.error == RvaNotFound
    ensures r.Ok? ==> exists i :: (FirstRvaMatch(sections, rva, i) &&
      r.value == (rva - sections[i].virtualAddress) + sections[i].pointerToRawData &&
      sections[i].pointerToRawData <= r.value < sections[i].pointerToRawData + sections[i].virtualSize)
  {
    if sections == [] then Err(RvaNotFound)
    else
      var section := sections[0];
      if rva >= section.virtualAddress && rva < section.virtualAddress + section.virtualSize then
        var relativeOffset := rva - section.virtualAddress;
        assert FirstRvaMatch(sections, rva, 0);
        Ok(relativeOffset + section.pointerToRawData)
      else
        var r := RvaToOffset(sections[1..], rva);
        assert r.Err? <==> forall i :: 0 <= i < |sections| ==> !ContainsRva(sections[i], rva) by {
          forall i | 1 <= i < |sections| ensures sections[i] == sections[1..][i - 1] { }
        }
        assert r.Ok? ==> exists i :: (FirstRvaMatch(sections, rva, i) &&
            r.value == (rva - sections[i].virtualAddress) + sections[i].pointerToRawData &&
            sections[i].pointerToRawData <= r.value < sections[i].pointerToRawData + sections[i].virtualSize) by {
          if r.Ok? {
            var k :| FirstRvaMatch(sections[1..], rva, k) &&
              r.value == (rva - sections[1..][k].virtualAddress) + sections[1..][k].pointerToRawData;
            FirstRvaMatchTail(sections, rva, k);
          }
        }
        r
  }

  /** The answer is fixed by the earliest containing section, whatever comes after it. */
  lemma RvaToOffsetOfFirstMatch(sections: seq<SectionHeader>, rva: int32, i: int)
    requires AllSectionsFit(sections)
    requires FirstRvaMatch(sections, rva, i)
    ensures RvaToOffset(sections, rva) == Ok((rva - sections[i].virtualAddress) + sections[i].pointerToRawData)
  {
    var r := RvaToOffset(sections, rva);
    var k :| FirstRvaMatch(sections, rva, k) &&
      r.value == (rva - sections[k].virtualAddress) + sections[k].pointerToRawData;
    FirstRvaMatchUnique(sections, rva, i, k);
  }

  /** The first address of the earliest section holding it maps to the section's raw-data pointer. */
  lemma RvaToOffsetAtSectionStart(sections: seq<SectionHeader>, i: int)
    requires AllSectionsFit(sections)
    requires 0 <= i < |sections|
    requires FirstRvaMatch(sections, sections[i].virtualAddress, i)
    ensures RvaToOffset(sections, sections[i].virtualAddress) == Ok(sections[i].pointerToRawData)
  {
    RvaToOffsetOfFirstMatch(sections, sections[i].virtualAddress, i);
  }

  /** The last address of the earliest section holding it maps to pointer + VirtualSize - 1. */
  lemma RvaToOffsetAtSectionEnd(sections: seq<SectionHeader>, i: int)
    requires AllSectionsFit(sections)
    requires 0 <= i < |sections|
    requires FirstRvaMatch(sections, sections[i].virtualAddress + sections[i].virtualSize - 1, i)
    ensures RvaToOffset(sections, sections[i].virtualAddress + sections[i].virtualSize - 1) ==
      Ok(sections[i].pointerToRawData + sections[i].virtualSize - 1)
  {
    var last: int32 := sections[i].virtualAddress + sections[i].virtualSize - 1;
    RvaToOffsetOfFirstMatch(sections, last, i);
  }

  /**
   * Program.RvaToOffset and the writer's GetPositionOfRelativeVirtualAddress are the
   * same search: on every non-negative address both fail or both give the same
   * offset, and a negative address is in no section.
   */
  lemma RvaToOffsetAgreesWithWriter(sections: seq<SectionHeader>, rva: int32)
    requires AllSectionsFit(sections)
    ensures rva < 0 ==> RvaToOffset(sections, rva).Err?
    ensures rva >= 0 ==>
      (RvaToOffset(sections, rva).Ok? <==> GetPositionOfRelativeVirtualAddress(sections, rva).Ok?) &&
      (RvaToOffset(sections, rva).Ok? ==>
        RvaToOffset(sections, rva).value == GetPositionOfRelativeVirtualAddress(sections, rva).value.position)
  {
    if rva >= 0 {
      var a := RvaToOffset(sections, rva);
      var b := GetPositionOfRelativeVirtualAddress(sections, rva);
      if a.Ok? {
        var i :| FirstRvaMatch(sections, rva, i) &&
          a.value == (rva - sections[i].virtualAddress) + sections[i].pointerToRawData;
        var j :| FirstRvaMatch(sections, rva, j) &&
          b.value.position == sections[j].pointerToRawData + (rva - sections[j].virtualAddress);
        FirstRvaMatchUnique(sections, rva, i, j);
      }
    }
  }
}
