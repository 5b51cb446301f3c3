/**
 * CopySections (WebcilWriter.cs:231-241): for each PE section in order, seek the
 * input to the section's raw data, read exactly SizeOfRawData bytes and write
 * them to the output. The input file is a byte sequence; the output is an
 * OutputStream.
 */
module SectionCopier {
  import opened Widths
  import opened Outcomes
  import opened PeRecords
  import opened LayoutPlanner
  import opened Streams

  /**
   * `ReadExactly` of the section's buffer succeeds: an empty buffer reads nothing,
   * any other must lie wholly inside the input.
   */
  predicate Readable(input: seq<uint8>, s: SectionHeader) {
    0 <= s.pointerToRawData && 0 <= s.sizeOfRawData &&
    (s.sizeOfRawData == 0 || s.pointerToRawData + s.sizeOfRawData <= |input|)
  }

  /** The first `k` sections can all be read. */
  predicate ReadableUpTo(input: seq<uint8>, sections: seq<SectionHeader>, k: int) {
    forall m :: 0 <= m < k && m < |sections| ==> Readable(input, sections[m])
  }

  /** Section `k` is the first one whose raw data the input does not hold. */
  predicate FirstUnreadable(input: seq<uint8>, sections: seq<SectionHeader>, k: int) {
    0 <= k < |sections| && !Readable(input, sections[k]) && ReadableUpTo(input, sections, k)
  }

  /** The bytes read for one section. */
  function SectionBytes(input: seq<uint8>, s: SectionHeader): (b: seq<uint8>)
    requires Readable(input, s)
    ensures |b| == s.sizeOfRawData
    ensures forall j :: 0 <= j < |b| ==> b[j] == input[s.pointerToRawData + j]
  {
    seq(s.sizeOfRawData, j requires 0 <= j < s.sizeOfRawData => input[s.pointerToRawData + j])
  }

  /** What CopySections has written after the first `k` sections: their raw data, in order. */
  function Copied(input: seq<uint8>, sections: seq<SectionHeader>, k: nat): (b: seq<uint8>)
    requires k <= |sections| && ReadableUpTo(input, sections, k)
  {
    if k == 0 then [] else Copied(input, sections, k - 1) + SectionBytes(input, sections[k - 1])
  }

  /** The copy of the first `k` sections is as long as their raw sizes together. */
  lemma {:induction false} CopiedLength(input: seq<uint8>, sections: seq<SectionHeader>, k: nat)
    requires k <= |sections| && ReadableUpTo(input, sections, k)
    ensures |Copied(input, sections, k)| == RawDataTotal(sections[..k])
  {
    if k == 0 {
      assert sections[..0] == [];
    } else {
      CopiedLength(input, sections, k - 1);
      RawDataTotalStep(sections, k - 1);
    }
  }

  /**
   * Byte `j` of section `i` sits in the copy of any run of sections that
   * includes section `i`, at the raw size of the sections before it.
   */
  lemma {:induction false} CopiedAt(input: seq<uint8>, sections: seq<SectionHeader>, i: nat, j: int, k: nat)
    requires i < k <= |sections| && ReadableUpTo(input, sections, k)
    requires 0 <= j < sections[i].sizeOfRawData
    ensures |Copied(input, sections, i)| + j < |Copied(input, sections, k)|
    ensures Copied(input, sections, k)[|Copied(input, sections, i)| + j] == input[sections[i].pointerToRawData + j]
  {
    assert ReadableUpTo(input, sections, k - 1);
    var head := Copied(input, sections, k - 1);
    var last := SectionBytes(input, sections[k - 1]);
    var at := |Copied(input, sections, i)| + j;
    assert Copied(input, sections, k) == head + last;
    if i < k - 1 {
      CopiedAt(input, sections, i, j, k - 1);
      assert head[at] == input[sections[i].pointerToRawData + j];
      assert (head + last)[at] == head[at];
    } else {
      assert i == k - 1;
      assert at == |head| + j;
      assert last[j] == input[sections[i].pointerToRawData + j];
      assert (head + last)[at] == last[j];
    }
  }

  /**
   * Copies every section's raw data to the stream. The stream receives the
   * sections' bytes back to back from its position, which advances past them;
   * when the input ends inside a section, `ReadExactly` throws EndOfStream after
   * the sections before it have been written.
   */
  method CopySections(out: OutputStream, input: seq<uint8>, sections: seq<SectionHeader>) returns (r: Outcome)
    requires AllSectionsFit(sections)
    requires out.position <= |out.contents|
    modifies out
    ensures r.Pass? <==> ReadableUpTo(input, sections, |sections|)
    ensures r.Pass? ==> out.contents == Overwrite(old(out.contents), old(out.position), Copied(input, sections, |sections|))
    ensures r.Pass? ==> out.position == old(out.position) + RawDataTotal(sections)
    ensures r.Fail? ==> r.error == EndOfStream
    ensures r.Fail? ==> exists k :: (FirstUnreadable(input, sections, k) &&
      out.contents == Overwrite(old(out.contents), old(out.position), Copied(input, sections, k)) &&
      out.position == old(out.position) + RawDataTotal(sections[..k]))
  {
    ghost var start, before := out.position, out.contents;
    OverwriteEmpty(before, start);
    for i := 0 to |sections|
      invariant ReadableUpTo(input, sections, i)
      invariant out.contents == Overwrite(before, start, Copied(input, sections, i))
      invariant out.position == start + |Copied(input, sections, i)|
    {
      if !Readable(input, sections[i]) {
        assert FirstUnreadable(input, sections, i);
        CopiedLength(input, sections, i);
        return Fail(EndOfStream);
      }
      var buffer := SectionBytes(input, sections[i]);
      ghost var offset, done := out.position, Copied(input, sections, i);
      assert ReadableUpTo(input, sections, i + 1);
      ghost var next := Copied(input, sections, i + 1);
      assert next == done + buffer;
      OverwriteConsecutive(before, start, done, buffer, next, offset);
      out.Write(buffer);
    }
    CopiedLength(input, sections, |sections|);
    assert sections[..|sections|] == sections;
    return Pass;
  }

  /**
   * When the copy starts at the section start GatherInfo planned, every byte of
   * every PE section lands at the same local offset of its relocated Webcil
   * section.
   */
  lemma RelocatedPayloadMatches(before: seq<uint8>, input: seq<uint8>, pe: seq<SectionHeader>, wc: seq<SectionHeader>,
                                start: nat, i: int, j: int)
    requires ReadableUpTo(input, pe, |pe|) && PackedFrom(pe, wc, start)
    requires 0 <= i < |pe| && 0 <= j < pe[i].sizeOfRawData
    ensures 0 <= wc[i].pointerToRawData + j < |Overwrite(before, start, Copied(input, pe, |pe|))|
    ensures Overwrite(before, start, Copied(input, pe, |pe|))[wc[i].pointerToRawData + j] == input[pe[i].pointerToRawData + j]
  {
    var copied := Copied(input, pe, |pe|);
    var offset := |Copied(input, pe, i)| + j;
    CopiedLength(input, pe, i);
    CopiedAt(input, pe, i, j, |pe|);
    assert wc[i].pointerToRawData + j == start + offset;
    assert Overwrite(before, start, copied)[start + offset] == copied[offset];
  }
}
