/**
 * The sidecar's binary layout: .NET's BinaryWriter/BinaryReader for Int64 and
 * Int16 (little-endian two's complement) and the fixed 10-byte index record.
 */
module Binary {
  import opened Wrappers

  newtype byte = x: int | 0 <= x < 256

  const TWO_TO_64: int := 0x1_0000_0000_0000_0000
  const TWO_TO_63: int := 0x8000_0000_0000_0000
  const TWO_TO_16: int := 0x1_0000
  const TWO_TO_15: int := 0x8000

  /** short.MaxValue */
  const SHORT_MAX: int := 32767

  /** Size in bytes of one index record: an Int64 offset then an Int16 length. */
  const RECORD_SIZE: int := 10

  predicate IsInt64(v: int) { -TWO_TO_63 <= v < TWO_TO_63 }

  predicate IsInt16(v: int) { -TWO_TO_15 <= v < TWO_TO_15 }

  function Pow256(k: nat): (p: nat)
    ensures p >= 1
  {
    if k == 0 then 1 else 256 * Pow256(k - 1)
  }

  /** The k low-order base-256 digits of n, least significant first. */
  function LittleEndian(n: nat, k: nat): (r: seq<byte>)
    ensures |r| == k
  {
    if k == 0 then [] else [(n % 256) as byte] + LittleEndian(n / 256, k - 1)
  }

  /** The unsigned number whose little-endian digits are s. */
  function FromLittleEndian(s: seq<byte>): (n: nat)
    ensures n < Pow256(|s|)
  {
    if s == [] then 0 else s[0] as nat + 256 * FromLittleEndian(s[1..])
  }

  lemma {:induction false} LittleEndianRoundTrip(n: nat, k: nat)
    requires n < Pow256(k)
    ensures FromLittleEndian(LittleEndian(n, k)) == n
  {
    if k > 0 {
      assert n / 256 < Pow256(k - 1);
      LittleEndianRoundTrip(n / 256, k - 1);
      assert LittleEndian(n, k)[1..] == LittleEndian(n / 256, k - 1);
    }
  }

  /** C#'s unchecked cast `(short) x`: keeps the low 16 bits, read as signed. */
  function ToShort(x: int): (r: int)
    ensures IsInt16(r) && (x - r) % TWO_TO_16 == 0
    ensures IsInt16(x) ==> r == x
  {
    var u := x % TWO_TO_16;
    if u >= TWO_TO_15 then u - TWO_TO_16 else u
  }

  /** BinaryWriter.Write(long): eight bytes, two's complement, little-endian. */
  function Int64Bytes(v: int): (r: seq<byte>)
    ensures |r| == 8
  {
    LittleEndian(v % TWO_TO_64, 8)
  }

  /** BinaryWriter.Write(short): two bytes, two's complement, little-endian. */
  function Int16Bytes(v: int): (r: seq<byte>)
    ensures |r| == 2
  {
    LittleEndian(v % TWO_TO_16, 2)
  }

  /** BinaryReader.ReadInt64 applied to exactly eight bytes. */
  function ReadInt64(s: seq<byte>): (v: int)
    requires |s| == 8
    ensures IsInt64(v)
  {
    var u := FromLittleEndian(s);
    assert Pow256(8) == TWO_TO_64;
    if u >= TWO_TO_63 then u - TWO_TO_64 else u
  }

  /** BinaryReader.ReadInt16 applied to exactly two bytes. */
  function ReadInt16(s: seq<byte>): (v: int)
    requires |s| == 2
    ensures IsInt16(v)
  {
    var u := FromLittleEndian(s);
    assert Pow256(2) == TWO_TO_16;
    if u >= TWO_TO_15 then u - TWO_TO_16 else u
  }

  lemma Int64RoundTrip(v: int)
    requires IsInt64(v)
    ensures ReadInt64(Int64Bytes(v)) == v
  {
    assert Pow256(8) == TWO_TO_64;
    LittleEndianRoundTrip(v % TWO_TO_64, 8);
  }

  lemma Int16RoundTrip(v: int)
    requires IsInt16(v)
    ensures ReadInt16(Int16Bytes(v)) == v
  {
    assert Pow256(2) == TWO_TO_16;
    LittleEndianRoundTrip(v % TWO_TO_16, 2);
  }

  /** One index entry: where an entry starts in its source file and how many bytes it has. */
  datatype Record = Record(offset: int, length: int)

  predicate Encodable(r: Record) { IsInt64(r.offset) && IsInt16(r.length) }

  function EncodeRecord(r: Record): (b: seq<byte>)
    ensures |b| == RECORD_SIZE
  {
    Int64Bytes(r.offset) + Int16Bytes(r.length)
  }

  /** The sidecar content holding the given records, in order. */
  function EncodeRecords(rs: seq<Record>): (b: seq<byte>)
    ensures |b| == RECORD_SIZE * |rs|
  {
    if rs == [] then [] else EncodeRecord(rs[0]) + EncodeRecords(rs[1..])
  }

  /** Writing one record's offset and then its length appends exactly its encoding. */
  lemma AppendRecord(prefix: seq<byte>, r: Record)
    ensures prefix + Int64Bytes(r.offset) + Int16Bytes(r.length) == prefix + EncodeRecords([r])
  {
    var a, b := Int64Bytes(r.offset), Int16Bytes(r.length);
    assert EncodeRecords([r]) == a + b + EncodeRecords([]);
    assert a + b + [] == a + b;
    assert prefix + a + b == prefix + (a + b);
  }

  lemma {:induction false} EncodeRecordsAppend(a: seq<Record>, b: seq<Record>)
    ensures EncodeRecords(a + b) == EncodeRecords(a) + EncodeRecords(b)
  {
    if a == [] {
      assert a + b == b;
    } else {
      assert (a + b)[1..] == a[1..] + b;
      EncodeRecordsAppend(a[1..], b);
    }
  }

  /**
   * Positioning a BinaryReader over the sidecar at k * 10 and reading an Int64
   * then an Int16; None where the reader would hit the end of the stream.
   */
  function ReadRecordAt(sidecar: seq<byte>, k: nat): (r: Option<Record>)
    ensures r.Some? <==> k * RECORD_SIZE + RECORD_SIZE <= |sidecar|
    ensures r.Some? ==> Encodable(r.value)
  {
    var at := k * RECORD_SIZE;
    if at + RECORD_SIZE <= |sidecar| then
      Some(Record(ReadInt64(sidecar[at..at + 8]), ReadInt16(sidecar[at + 8..at + 10])))
    else
      None
  }

  lemma RecordRoundTrip(r: Record)
    requires Encodable(r)
    ensures ReadRecordAt(EncodeRecord(r), 0) == Some(r)
  {
    var b := EncodeRecord(r);
    assert b[0..8] == Int64Bytes(r.offset);
    assert b[8..10] == Int16Bytes(r.length);
    Int64RoundTrip(r.offset);
    Int16RoundTrip(r.length);
  }

  lemma {:induction false} EncodeRecordsSlice(rs: seq<Record>, k: nat)
    requires k < |rs|
    ensures EncodeRecords(rs)[k * RECORD_SIZE..k * RECORD_SIZE + RECORD_SIZE] == EncodeRecord(rs[k])
  {
    var b := EncodeRecords(rs);
    if k == 0 {
      assert b[..RECORD_SIZE] == EncodeRecord(rs[0]);
    } else {
      EncodeRecordsSlice(rs[1..], k - 1);
      var tail := EncodeRecords(rs[1..]);
      assert b == EncodeRecord(rs[0]) + tail;
      assert b[k * RECORD_SIZE..k * RECORD_SIZE + RECORD_SIZE]
          == tail[(k - 1) * RECORD_SIZE..(k - 1) * RECORD_SIZE + RECORD_SIZE];
    }
  }

  /** Reading record k looks at nothing but its own ten bytes. */
  lemma ReadRecordInSlice(sidecar: seq<byte>, k: nat)
    requires k * RECORD_SIZE + RECORD_SIZE <= |sidecar|
    ensures ReadRecordAt(sidecar, k) == ReadRecordAt(sidecar[k * RECORD_SIZE..k * RECORD_SIZE + RECORD_SIZE], 0)
  {
    var at := k * RECORD_SIZE;
    var w := sidecar[at..at + RECORD_SIZE];
    assert w[0..8] == sidecar[at..at + 8];
    assert w[8..10] == sidecar[at + 8..at + 10];
  }

  /** The k-th record written is the one read back at offset k * 10; past the end nothing is read. */
  lemma SidecarRoundTrip(rs: seq<Record>, k: nat)
    requires forall i :: 0 <= i < |rs| ==> Encodable(rs[i])
    ensures k < |rs| ==> ReadRecordAt(EncodeRecords(rs), k) == Some(rs[k])
    ensures k >= |rs| ==> ReadRecordAt(EncodeRecords(rs), k) == None
  {
    if k < |rs| {
      EncodeRecordsSlice(rs, k);
      RecordRoundTrip(rs[k]);
      ReadRecordInSlice(EncodeRecords(rs), k);
    } else {
      assert k * RECORD_SIZE >= |rs| * RECORD_SIZE;
    }
  }

  /** BinaryWriter over a freshly created sidecar stream. */
  class BinaryWriter {
    var written: seq<byte>

    constructor ()
      ensures written == []
    {
      written := [];
    }

    method WriteInt64(v: int)
      modifies this
      ensures written == old(written) + Int64Bytes(v)
    {
      written := written + Int64Bytes(v);
    }

    method WriteInt16(v: int)
      requires IsInt16(v)
      modifies this
      ensures written == old(written) + Int16Bytes(v)
    {
      written := written + Int16Bytes(v);
    }
  }
}
