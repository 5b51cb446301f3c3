/**
 * The 28-byte debug directory record of WriteDebugDirectoryEntry
 * (WebcilWriter.cs:330-340), written out explicitly in little-endian order,
 * and the directory as those records one after another. Each layout has a
 * decoder, and the lemmas show that decoding undoes encoding.
 */
module Serializer {
  import opened Widths
  import opened PeRecords

  function EncodeUInt16(x: uint16): (b: seq<uint8>)
    ensures |b| == 2
  {
    [x % 0x100, x / 0x100]
  }

  function DecodeUInt16(b: seq<uint8>, at: int): uint16
    requires 0 <= at && at + 2 <= |b|
  {
    b[at] as int + 0x100 * b[at + 1] as int
  }

  function EncodeUInt32(x: uint32): (b: seq<uint8>)
    ensures |b| == 4
  {
    var x1 := x / 0x100;
    var x2 := x1 / 0x100;
    [x % 0x100, x1 % 0x100, x2 % 0x100, x2 / 0x100]
  }

  function DecodeUInt32(b: seq<uint8>, at: int): uint32
    requires 0 <= at && at + 4 <= |b|
  {
    b[at] as int + 0x100 * (b[at + 1] as int + 0x100 * (b[at + 2] as int + 0x100 * b[at + 3] as int))
  }

  /** A signed `int` is written as its two's-complement bit pattern. */
  function EncodeInt32(x: int32): (b: seq<uint8>)
    ensures |b| == 4
  {
    EncodeUInt32(ToUInt32(x))
  }

  function DecodeInt32(b: seq<uint8>, at: int): int32
    requires 0 <= at && at + 4 <= |b|
  {
    ToInt32(DecodeUInt32(b, at))
  }

  lemma UInt16RoundTrip(x: uint16)
    ensures DecodeUInt16(EncodeUInt16(x), 0) == x
  {
  }

  lemma UInt32RoundTrip(x: uint32)
    ensures DecodeUInt32(EncodeUInt32(x), 0) == x
  {
    var x1 := x / 0x100;
    var x2 := x1 / 0x100;
    assert x2 % 0x100 + 0x100 * (x2 / 0x100) == x2;
    assert x1 % 0x100 + 0x100 * x2 == x1;
    assert x % 0x100 + 0x100 * x1 == x;
  }

  lemma Int32RoundTrip(x: int32)
    ensures DecodeInt32(EncodeInt32(x), 0) == x
  {
    UInt32RoundTrip(ToUInt32(x));
    SignedUnsignedRoundTrip(x);
  }

  /**
   * WriteDebugDirectoryEntry: Characteristics (always 0), Stamp, MajorVersion,
   * MinorVersion, Type, DataSize, DataRelativeVirtualAddress, DataPointer.
   */
  function EncodeDebugDirectoryEntry(entry: DebugDirectoryEntry): (b: seq<uint8>)
    ensures |b| == DebugDirectoryEntrySize
    ensures b[..4] == [0, 0, 0, 0]
  {
    EncodeUInt32(0) + EncodeUInt32(entry.stamp) +
      EncodeUInt16(entry.majorVersion) + EncodeUInt16(entry.minorVersion) +
      EncodeUInt32(ToUInt32(entry.entryType)) + EncodeInt32(entry.dataSize) +
      EncodeInt32(entry.dataRelativeVirtualAddress) + EncodeInt32(entry.dataPointer)
  }

  /** Reads a 28-byte record back; the Characteristics field is skipped. */
  function DecodeDebugDirectoryEntry(b: seq<uint8>): DebugDirectoryEntry
    requires |b| == DebugDirectoryEntrySize
  {
    DebugDirectoryEntry(
      DecodeUInt32(b, 4), DecodeUInt16(b, 8), DecodeUInt16(b, 10),
      ToInt32(DecodeUInt32(b, 12)), DecodeInt32(b, 16),
      DecodeInt32(b, 20), DecodeInt32(b, 24))
  }

  /** Every field of an entry survives WriteDebugDirectoryEntry and can be read back. */
  lemma DebugDirectoryEntryRoundTrip(entry: DebugDirectoryEntry)
    ensures DecodeDebugDirectoryEntry(EncodeDebugDirectoryEntry(entry)) == entry
  {
    var b := EncodeDebugDirectoryEntry(entry);
    var stamp, major, minor := EncodeUInt32(entry.stamp), EncodeUInt16(entry.majorVersion), EncodeUInt16(entry.minorVersion);
    var kind, size := EncodeUInt32(ToUInt32(entry.entryType)), EncodeInt32(entry.dataSize);
    var rva, pointer := EncodeInt32(entry.dataRelativeVirtualAddress), EncodeInt32(entry.dataPointer);
    UInt32RoundTrip(entry.stamp);
    UInt16RoundTrip(entry.majorVersion);
    UInt16RoundTrip(entry.minorVersion);
    UInt32RoundTrip(ToUInt32(entry.entryType));
    SignedUnsignedRoundTrip(entry.entryType);
    Int32RoundTrip(entry.dataSize);
    Int32RoundTrip(entry.dataRelativeVirtualAddress);
    Int32RoundTrip(entry.dataPointer);
    assert forall t :: 0 <= t < 4 ==> b[4 + t] == stamp[t];
    assert forall t :: 0 <= t < 2 ==> b[8 + t] == major[t] && b[10 + t] == minor[t];
    assert forall t :: 0 <= t < 4 ==> b[12 + t] == kind[t] && b[16 + t] == size[t];
    assert forall t :: 0 <= t < 4 ==> b[20 + t] == rva[t] && b[24 + t] == pointer[t];
  }

  /** Fixed-size records laid end to end. */
  function Concat<T>(items: seq<T>, encode: T -> seq<uint8>): seq<uint8>
  {
    if items == [] then []
    else Concat(items[..|items| - 1], encode) + encode(items[|items| - 1])
  }

  /** Item `i` of records of `size` bytes each occupies bytes [size*i, size*i + size). */
  lemma {:induction false} ConcatAt<T>(items: seq<T>, encode: T -> seq<uint8>, size: nat, i: int, t: int)
    requires forall x :: |encode(x)| == size
    requires 0 <= i < |items| && 0 <= t < size
    ensures |Concat(items, encode)| == size * |items|
    ensures size * i + t < |Concat(items, encode)|
    ensures Concat(items, encode)[size * i + t] == encode(items[i])[t]
  {
    var n := |items|;
    var init := items[..n - 1];
    ConcatLength(init, encode, size);
    assert size * n == size * (n - 1) + size;
    if i < n - 1 {
      MulMonotone(size, i + 1, n - 1);
      assert size * (i + 1) == size * i + size;
      ConcatAt(init, encode, size, i, t);
      assert init[i] == items[i];
    }
  }

  lemma MulMonotone(size: nat, a: nat, b: nat)
    requires a <= b
    ensures size * a <= size * b
  {
  }

  /** The record of item `i` as a slice of the concatenation. */
  lemma ConcatSlice<T>(items: seq<T>, encode: T -> seq<uint8>, size: nat, i: int)
    requires forall x :: |encode(x)| == size
    requires 0 <= i < |items|
    ensures |Concat(items, encode)| == size * |items|
    ensures size * i + size <= |Concat(items, encode)|
    ensures Concat(items, encode)[size * i .. size * i + size] == encode(items[i])
  {
    ConcatLength(items, encode, size);
    var c := Concat(items, encode);
    var lo := size * i;
    assert lo + size <= |c| by {
      MulMonotone(size, i + 1, |items|);
      assert size * (i + 1) == lo + size;
    }
    var record := encode(items[i]);
    forall t | 0 <= t < size
      ensures c[lo + t] == record[t]
    {
      ConcatAt(items, encode, size, i, t);
    }
    assert c[lo .. lo + size] == record;
  }

  lemma {:induction false} ConcatLength<T>(items: seq<T>, encode: T -> seq<uint8>, size: nat)
    requires forall x :: |encode(x)| == size
    ensures |Concat(items, encode)| == size * |items|
  {
    if items != [] {
      ConcatLength(items[..|items| - 1], encode, size);
    }
  }

  /** Appending one item appends its record. */
  lemma ConcatStep<T>(items: seq<T>, encode: T -> seq<uint8>, k: int)
    requires 0 <= k < |items|
    ensures Concat(items[..k + 1], encode) == Concat(items[..k], encode) + encode(items[k])
  {
    assert items[..k + 1][..k] == items[..k];
  }

  /** The entries written one after the other, as the loop of OverwriteDebugDirectoryEntries does. */
  function EncodeDebugDirectory(entries: seq<DebugDirectoryEntry>): (b: seq<uint8>)
    ensures |b| == DebugDirectoryEntrySize * |entries|
  {
    ConcatLength(entries, EncodeDebugDirectoryEntry, DebugDirectoryEntrySize);
    Concat(entries, EncodeDebugDirectoryEntry)
  }

  /** Decodes a whole directory of 28-byte records. */
  function DecodeDebugDirectory(b: seq<uint8>): (entries: seq<DebugDirectoryEntry>)
    requires |b| % DebugDirectoryEntrySize == 0
    ensures |entries| == |b| / DebugDirectoryEntrySize
  {
    seq(|b| / DebugDirectoryEntrySize, i requires 0 <= i < |b| / DebugDirectoryEntrySize =>
      DecodeDebugDirectoryEntry(b[DebugDirectoryEntrySize * i .. DebugDirectoryEntrySize * i + DebugDirectoryEntrySize]))
  }

  /** The record written for entry `i` decodes back to that entry. */
  lemma DebugRecordRoundTrip(entries: seq<DebugDirectoryEntry>, i: int)
    requires 0 <= i < |entries|
    ensures DebugDirectoryEntrySize * i + DebugDirectoryEntrySize <= |EncodeDebugDirectory(entries)|
    ensures DecodeDebugDirectoryEntry(EncodeDebugDirectory(entries)[DebugDirectoryEntrySize * i .. DebugDirectoryEntrySize * i + DebugDirectoryEntrySize]) == entries[i]
  {
    ConcatSlice(entries, EncodeDebugDirectoryEntry, DebugDirectoryEntrySize, i);
    DebugDirectoryEntryRoundTrip(entries[i]);
  }

  /** Reading the overwritten bytes back gives exactly the entries that were written. */
  lemma DebugDirectoryRoundTrip(entries: seq<DebugDirectoryEntry>)
    ensures DecodeDebugDirectory(EncodeDebugDirectory(entries)) == entries
  {
    var b := EncodeDebugDirectory(entries);
    assert |b| % DebugDirectoryEntrySize == 0 && |b| / DebugDirectoryEntrySize == |entries|;
    var decoded := DecodeDebugDirectory(b);
    forall i | 0 <= i < |entries|
      ensures decoded[i] == entries[i]
    {
      DebugRecordRoundTrip(entries, i);
    }
  }
}
