/**
 * The output stream the writer writes through, as a byte sequence with a cursor.
 * A write stores its bytes at the cursor, replacing what is there and growing the
 * file when it runs past the end; a seek past the end leaves a gap that a later
 * write fills with zero bytes.
 */
module Streams {
  import opened Widths

  function Max(a: int, b: int): int {
    if a < b then b else a
  }

  /** The file contents after `data` is written at offset `pos` of `s`. */
  function Overwrite(s: seq<uint8>, pos: nat, data: seq<uint8>): (r: seq<uint8>)
    ensures |r| == Max(|s|, pos + |data|)
    ensures forall i :: 0 <= i < |data| ==> r[pos + i] == data[i]
    ensures forall i :: 0 <= i < |r| && !(pos <= i < pos + |data|) ==> r[i] == if i < |s| then s[i] else 0
  {
    seq(Max(|s|, pos + |data|), i =>
      if pos <= i < pos + |data| then data[i - pos] else if 0 <= i < |s| then s[i] else 0)
  }

  /** Two writes back to back store the same bytes as one write of both. */
  lemma OverwriteConsecutive(s: seq<uint8>, pos: nat, a: seq<uint8>, b: seq<uint8>, ab: seq<uint8>, next: nat)
    requires ab == a + b && next == pos + |a|
    ensures Overwrite(Overwrite(s, pos, a), next, b) == Overwrite(s, pos, ab)
  {
    var left := Overwrite(Overwrite(s, pos, a), next, b);
    var right := Overwrite(s, pos, ab);
    assert |left| == |right|;
    forall i | 0 <= i < |left|
      ensures left[i] == right[i]
    {
      if next <= i < next + |b| {
        assert left[i] == b[i - next] == ab[i - pos];
      } else if pos <= i < next {
        assert left[i] == a[i - pos] == ab[i - pos];
      }
    }
  }

  /** Writing nothing changes nothing. */
  lemma OverwriteEmpty(s: seq<uint8>, pos: nat)
    requires pos <= |s|
    ensures Overwrite(s, pos, []) == s
  {
  }

  class OutputStream {
    var contents: seq<uint8>
    var position: nat

    constructor ()
      ensures contents == [] && position == 0
    {
      contents := [];
      position := 0;
    }

    /** Stream.Write: store `data` at the cursor and move the cursor past it. */
    method Write(data: seq<uint8>)
      modifies this
      ensures contents == Overwrite(old(contents), old(position), data)
      ensures position == old(position) + |data|
    {
      contents := Overwrite(contents, position, data);
      position := position + |data|;
    }

    /** Stream.Seek from the beginning. */
    method Seek(offset: nat)
      modifies this
      ensures contents == old(contents) && position == offset
    {
      position := offset;
    }

    /** Stream.Seek(0, SeekOrigin.End). */
    method SeekToEnd()
      modifies this
      ensures contents == old(contents) && position == |contents|
    {
      position := |contents|;
    }
  }
}
