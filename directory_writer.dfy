/**
 * OverwriteDebugDirectoryEntries (WebcilWriter.cs:314-328): once the sections are
 * copied, the debug directory inside them is rewritten in place with the fixed-up
 * entries, one WriteDebugDirectoryEntry record after another, starting at the
 * file position of the header's `pe_debug_rva`; the stream is then left at its end.
 */
module DirectoryWriter {
  import opened Widths
  import opened Outcomes
  import opened PeRecords
  import opened SectionLookup
  import opened Serializer
  import opened Streams

  /** The stream after the first `count` records of `items` have been written from `at`. */
  function AfterRecords<T>(before: seq<uint8>, at: nat, items: seq<T>, encode: T -> seq<uint8>, count: nat): seq<uint8>
    requires count <= |items|
  {
    if count == 0 then before else Overwrite(before, at, Concat(items[..count], encode))
  }

  /** The BinaryWriter loop: every record, one after another, from the stream position. */
  method WriteRecords<T>(s: OutputStream, items: seq<T>, encode: T -> seq<uint8>)
    modifies s
    ensures s.contents == AfterRecords(old(s.contents), old(s.position), items, encode, |items|)
    ensures s.position == old(s.position) + |Concat(items, encode)|
  {
    ghost var before, at := s.contents, s.position;
    ghost var done: seq<uint8> := [];
    assert items[..0] == [];
    for i := 0 to |items|
      invariant done == Concat(items[..i], encode)
      invariant s.contents == if i == 0 then before else Overwrite(before, at, done)
      invariant s.position == at + |done|
    {
      var record := encode(items[i]);
      ConcatStep(items, encode, i);
      ghost var next, offset := done + record, s.position;
      if i == 0 {
        assert next == record;
      } else {
        OverwriteConsecutive(before, at, done, record, next, offset);
      }
      s.Write(record);
      done := next;
    }
    assert items[..|items|] == items;
  }

  /**
   * Rewrites the debug directory. When the header's `pe_debug_rva` lies in no
   * section the lookup throws before anything is written; otherwise exactly the
   * 28-byte records of `entries` replace the bytes at its file position, nothing
   * else changes, and the stream is positioned at its end.
   */
  method OverwriteDebugDirectoryEntries(s: OutputStream, wcInfo: WCFileInfo, entries: seq<DebugDirectoryEntry>) returns (r: Outcome)
    requires AllSectionsFit(wcInfo.sectionHeaders)
    requires DebugDirectoryEntrySize * |entries| == wcInfo.header.peDebugSize
    modifies s
    ensures var lookup := GetPositionOfRelativeVirtualAddress(wcInfo.sectionHeaders, wcInfo.header.peDebugRva);
      r.Fail? <==> lookup.Err?
    ensures r.Fail? ==> r.error == RvaNotInAnySection && s.contents == old(s.contents) && s.position == old(s.position)
    ensures var lookup := GetPositionOfRelativeVirtualAddress(wcInfo.sectionHeaders, wcInfo.header.peDebugRva);
      r.Pass? ==> (lookup.Ok? && 0 <= lookup.value.position &&
        s.contents == AfterRecords(old(s.contents), lookup.value.position, entries, EncodeDebugDirectoryEntry, |entries|))
    ensures r.Pass? ==> s.position == |s.contents|
  {
    var lookup := GetPositionOfRelativeVirtualAddress(wcInfo.sectionHeaders, wcInfo.header.peDebugRva);
    if lookup.Err? {
      return Fail(lookup.error);
    }
    var at: nat := lookup.value.position;
    s.Seek(at);
    WriteRecords(s, entries, EncodeDebugDirectoryEntry);
    s.SeekToEnd();
    return Pass;
  }

  /**
   * After a successful overwrite at `at`, the `pe_debug_size` bytes there decode
   * to exactly the entries written, and every byte outside them is as before.
   */
  lemma OverwrittenDirectoryReadsBack(before: seq<uint8>, at: nat, entries: seq<DebugDirectoryEntry>, size: nat)
    requires DebugDirectoryEntrySize * |entries| == size
    ensures var after := AfterRecords(before, at, entries, EncodeDebugDirectoryEntry, |entries|);
      at + size <= |after| || size == 0
    ensures var after := AfterRecords(before, at, entries, EncodeDebugDirectoryEntry, |entries|);
      size > 0 ==> DecodeDebugDirectory(after[at .. at + size]) == entries
    ensures var after := AfterRecords(before, at, entries, EncodeDebugDirectoryEntry, |entries|);
      forall i :: 0 <= i < |before| && !(at <= i < at + size) ==> after[i] == before[i]
  {
    var after := AfterRecords(before, at, entries, EncodeDebugDirectoryEntry, |entries|);
    assert entries[..|entries|] == entries;
    if size > 0 {
      var b := EncodeDebugDirectory(entries);
      assert after[at .. at + size] == b;
      DebugDirectoryRoundTrip(entries);
    }
  }
}
