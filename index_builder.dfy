/**
 * The index builder: the rebuild branch of GetUpdatedFortuneSources and
 * IsBomfStart. Turns a source file into the sidecar's 10-byte records.
 */
module IndexBuilder {
  import opened Binary
  import opened Streams
  import opened Scanner

  /** The UTF-8 byte order mark. */
  const BOM: seq<byte> := [0xEF, 0xBB, 0xBF]

  predicate HasBom(data: seq<byte>)
  {
    |data| >= 3 && data[..3] == BOM
  }

  /** Offset of the first entry: just past a byte order mark, else the start of the file. */
  function FirstEntryStart(data: seq<byte>): int
  {
    if HasBom(data) then 3 else 0
  }

  /** Where the first scan begins: IsBomfStart has read up to three bytes either way. */
  function FirstScanPosition(data: seq<byte>): (p: nat)
    ensures p <= |data| && (p == 3 <==> |data| >= 3) && (|data| < 3 ==> p == |data|)
  {
    if |data| < 3 then |data| else 3
  }

  /** Reads up to three bytes and tells whether they were the byte order mark. */
  method IsBomfStart(source: ByteStream) returns (isBom: bool)
    requires source.Valid() && source.position == 0
    modifies source
    ensures source.Valid()
    ensures isBom == HasBom(source.data)
    ensures source.position == FirstScanPosition(source.data)
  {
    var bomf := new byte[3](_ => 0);
    var n := source.Read(bomf, 3);
    if n == 3 {
      assert forall i :: 0 <= i < 3 ==> bomf[i] == source.data[i];
      isBom := bomf[0] == 0xEF && bomf[1] == 0xBB && bomf[2] == 0xBF;
      assert source.data[..3] == [source.data[0], source.data[1], source.data[2]];
    } else {
      isBom := false;
    }
  }

  /**
   * The records the build loop writes, from the entry that starts at
   * prevStart with the stream at pos: one per break point whose entry length
   * is at most short.MaxValue, until the break that ends the file.
   */
  function RecordsFrom(data: seq<byte>, prevStart: int, pos: int): seq<Record>
    requires 0 <= prevStart <= pos <= |data|
    decreases |data| - pos
  {
    var bp := FindBreak(data, pos);
    var len := bp.prevEnd - prevStart;
    var here := if len <= SHORT_MAX then [Record(prevStart, ToShort(len))] else [];
    if bp.nextStart == -1 then here else here + RecordsFrom(data, bp.nextStart, bp.nextStart)
  }

  /**
   * What the records written from prevStart on mean: lengths lie in
   * [-1, short.MaxValue], offsets are at or after prevStart, every entry stops
   * at the end of the file less its last byte or right before the newline of a
   * `%` line, and entries come in file order, at least two bytes apart (the
   * newline and the `%`).
   */
  ghost predicate RecordInFile(data: seq<byte>, prevStart: int, x: Record)
  {
    && -1 <= x.length <= SHORT_MAX && prevStart <= x.offset
    && x.offset + x.length <= |data| - 1
    && (x.offset + x.length == |data| - 1 || EndsBeforeDelimiterLine(data, x.offset + x.length))
  }

  ghost predicate WellFormedRecords(data: seq<byte>, prevStart: int, r: seq<Record>)
  {
    && (forall i :: 0 <= i < |r| ==> RecordInFile(data, prevStart, r[i]))
    && (forall i, j :: 0 <= i < j < |r| ==> r[i].offset + r[i].length + 2 <= r[j].offset)
  }

  /** Putting the entry before a `%` line in front of well-formed later records keeps them well formed. */
  lemma WellFormedCons(data: seq<byte>, prevStart: int, next: int, here: seq<Record>, rest: seq<Record>)
    requires prevStart <= next && WellFormedRecords(data, next, rest)
    requires here == [] || (|here| == 1 && here[0].offset == prevStart && -1 <= here[0].length <= SHORT_MAX
                            && here[0].offset + here[0].length + 2 <= next
                            && EndsBeforeDelimiterLine(data, here[0].offset + here[0].length))
    ensures WellFormedRecords(data, prevStart, here + rest)
  {
    if here == [] {
      assert here + rest == rest;
      LaterStartKeepsInFile(data, prevStart, next, rest);
    } else {
      assert here == [here[0]];
      LaterStartKeepsInFile(data, prevStart, next, rest);
      ConsInFile(data, prevStart, here[0], rest);
      ConsOrdered(here[0], next, rest);
    }
  }

  lemma LaterStartKeepsInFile(data: seq<byte>, prevStart: int, next: int, rest: seq<Record>)
    requires prevStart <= next && WellFormedRecords(data, next, rest)
    ensures WellFormedRecords(data, prevStart, rest)
  {
    forall i | 0 <= i < |rest| ensures RecordInFile(data, prevStart, rest[i])
    {
      assert RecordInFile(data, next, rest[i]);
    }
  }

  lemma ConsInFile(data: seq<byte>, prevStart: int, h: Record, rest: seq<Record>)
    requires RecordInFile(data, prevStart, h)
    requires forall i :: 0 <= i < |rest| ==> RecordInFile(data, prevStart, rest[i])
    ensures forall i :: 0 <= i < |[h] + rest| ==> RecordInFile(data, prevStart, ([h] + rest)[i])
  {
    forall i | 0 <= i < |[h] + rest| ensures RecordInFile(data, prevStart, ([h] + rest)[i])
    {
      if i > 0 { assert ([h] + rest)[i] == rest[i - 1]; }
    }
  }

  lemma ConsOrdered(h: Record, next: int, rest: seq<Record>)
    requires h.offset + h.length + 2 <= next
    requires forall i :: 0 <= i < |rest| ==> next <= rest[i].offset
    requires forall i, j :: 0 <= i < j < |rest| ==> rest[i].offset + rest[i].length + 2 <= rest[j].offset
    ensures forall i, j :: 0 <= i < j < |[h] + rest| ==>
              ([h] + rest)[i].offset + ([h] + rest)[i].length + 2 <= ([h] + rest)[j].offset
  {
    var r := [h] + rest;
    forall i, j | 0 <= i < j < |r| ensures r[i].offset + r[i].length + 2 <= r[j].offset
    {
      assert r[j] == rest[j - 1];
      if i > 0 { assert r[i] == rest[i - 1]; }
    }
  }

  lemma {:induction false} RecordsFromShape(data: seq<byte>, prevStart: int, pos: int)
    requires 0 <= prevStart <= pos <= |data|
    decreases |data| - pos
    ensures WellFormedRecords(data, prevStart, RecordsFrom(data, prevStart, pos))
  {
    var bp := FindBreak(data, pos);
    var here := RecordFor(prevStart, bp);
    RecordsFromUnfold(data, prevStart, pos);
    var len := bp.prevEnd - prevStart;
    assert here == [] || (here == [Record(prevStart, len)] && -1 <= len <= SHORT_MAX);
    if bp.nextStart == -1 {
      assert RecordsFrom(data, prevStart, pos) == here;
    } else {
      FoundBreakEndsBeforeDelimiterLine(data, pos);
      RecordsFromShape(data, bp.nextStart, bp.nextStart);
      WellFormedCons(data, prevStart, bp.nextStart, here, RecordsFrom(data, bp.nextStart, bp.nextStart));
    }
  }

  /** The record, if any, that one pass of the build loop writes. */
  function RecordFor(prevStart: int, bp: BreakPoint): seq<Record>
  {
    var len := bp.prevEnd - prevStart;
    if len <= SHORT_MAX then [Record(prevStart, ToShort(len))] else []
  }

  lemma RecordsFromUnfold(data: seq<byte>, prevStart: int, pos: int)
    requires 0 <= prevStart <= pos <= |data|
    ensures var bp := FindBreak(data, pos);
            RecordsFrom(data, prevStart, pos)
            == RecordFor(prevStart, bp) + (if bp.nextStart == -1 then [] else RecordsFrom(data, bp.nextStart, bp.nextStart))
  {
    var bp := FindBreak(data, pos);
    if bp.nextStart == -1 {
      assert RecordFor(prevStart, bp) + [] == RecordFor(prevStart, bp);
    }
  }

  /** The records still to be written when the loop is at prevStart with the stream at pos. */
  function Remaining(data: seq<byte>, prevStart: int, pos: int): seq<Record>
  {
    if 0 <= prevStart <= pos <= |data| then RecordsFrom(data, prevStart, pos) else []
  }

  /** One pass of the build loop: the records still to come are this pass's record, then those after the break. */
  lemma BuildStep(data: seq<byte>, prevStart: int, pos: int, bp: BreakPoint)
    requires 0 <= prevStart <= pos <= |data| && bp == FindBreak(data, pos)
    ensures Remaining(data, prevStart, pos)
            == RecordFor(prevStart, bp) + Remaining(data, bp.nextStart, PositionAfter(data, bp))
  {
    RecordsFromUnfold(data, prevStart, pos);
    if bp.nextStart == -1 {
      assert RecordFor(prevStart, bp) + [] == RecordFor(prevStart, bp);
    }
  }

  lemma Regroup(done: seq<Record>, here: seq<Record>, rest: seq<Record>, todo: seq<Record>, all: seq<Record>)
    requires done + todo == all && todo == here + rest
    ensures (done + here) + rest == all
  {
  }

  /** The body of the build loop: write the entry's offset and length when the length fits a short. */
  method WriteRecord(data: BinaryWriter, prevStart: int, bp: BreakPoint)
    modifies data
    ensures data.written == old(data.written) + EncodeRecords(RecordFor(prevStart, bp))
  {
    var len := bp.prevEnd - prevStart;
    if len <= SHORT_MAX {
      data.WriteInt64(prevStart);
      data.WriteInt16(ToShort(len));
      AppendRecord(old(data.written), Record(prevStart, ToShort(len)));
    } else {
      assert data.written == old(data.written) + EncodeRecords([]);
    }
  }

  /** The records a rebuild writes for a source file with the given bytes. */
  function BuildRecords(data: seq<byte>): seq<Record>
  {
    RecordsFrom(data, FirstEntryStart(data), FirstScanPosition(data))
  }

  /** Rebuilds a sidecar: the bytes the BinaryWriter has written when the loop stops. */
  method BuildSidecar(content: seq<byte>) returns (sidecar: seq<byte>)
    ensures sidecar == EncodeRecords(BuildRecords(content))
  {
    var source := new ByteStream(content);
    var data := new BinaryWriter();
    var prevStart := 0;
    var isBom := IsBomfStart(source);
    if isBom {
      prevStart := 3;
    }
    ghost var done: seq<Record> := [];
    while prevStart > -1
      invariant source.Valid() && source.data == content && source.position <= |content|
      invariant prevStart == -1 || 0 <= prevStart <= source.position
      invariant data.written == EncodeRecords(done)
      invariant done + Remaining(content, prevStart, source.position) == BuildRecords(content)
      decreases |content| - source.position + (if prevStart == -1 then 0 else 1)
    {
      ghost var from := source.position;
      var pos := FindNextFortuneBreak(source);
      BuildStep(content, prevStart, from, pos);
      WriteRecord(data, prevStart, pos);
      ghost var here := RecordFor(prevStart, pos);
      EncodeRecordsAppend(done, here);
      Regroup(done, here, Remaining(content, pos.nextStart, source.position),
              Remaining(content, prevStart, from), BuildRecords(content));
      done := done + here;
      prevStart := pos.nextStart;
    }
    assert done + [] == done;
    sidecar := data.written;
  }

  /** Every record lies after the byte order mark, if any; and every record can be written as Int64 + Int16. */
  lemma BuildRecordsShape(data: seq<byte>)
    ensures WellFormedRecords(data, FirstEntryStart(data), BuildRecords(data))
    ensures |data| < TWO_TO_63 ==>
              forall i :: 0 <= i < |BuildRecords(data)| ==> Encodable(BuildRecords(data)[i])
  {
    var r := BuildRecords(data);
    RecordsFromShape(data, FirstEntryStart(data), FirstScanPosition(data));
    forall i | 0 <= i < |r| && |data| < TWO_TO_63 ensures Encodable(r[i])
    {
      assert RecordInFile(data, FirstEntryStart(data), r[i]);
    }
  }

  /** An empty source file still gets one record, of length -1. */
  lemma EmptyFileRecord()
    ensures BuildRecords([]) == [Record(0, -1)]
  {
    assert FirstDelimiter([], 0, 0) == -1;
  }

  /** A file that ends with a `%` line gets a final record of length -1 just past it. */
  lemma TrailingDelimiterRecord()
    ensures BuildRecords([0x48, 0x65, 0x6C, 0x6C, 0x6F, 0x0A, 0x25, 0x0A])  // "Hello\n%\n"
            == [Record(0, 5), Record(8, -1)]
  {
    var data: seq<byte> := [0x48, 0x65, 0x6C, 0x6C, 0x6F, 0x0A, 0x25, 0x0A];
    assert data[..3][0] != 0xEF;
    assert IsDelimiterAt(data, 3, 6);
    assert FirstDelimiter(data, 3, 3) == 6;
    assert FindBreak(data, 3) == BreakPoint(5, 8);
    assert FindBreak(data, 8) == BreakPoint(7, -1);
  }

  /**
   * A `%` line ended by a bare `\r` at the end of the file: the scanner backs
   * off onto that `\r`, so the last record is empty rather than of length -1.
   */
  lemma BareCRDelimiterRecord()
    ensures BuildRecords([0x48, 0x65, 0x6C, 0x6C, 0x6F, 0x0A, 0x25, 0x0D])  // "Hello\n%\r"
            == [Record(0, 5), Record(7, 0)]
  {
    var data: seq<byte> := [0x48, 0x65, 0x6C, 0x6C, 0x6F, 0x0A, 0x25, 0x0D];
    assert data[..3][0] != 0xEF;
    assert IsDelimiterAt(data, 3, 6);
    assert FirstDelimiter(data, 3, 3) == 6;
    assert FindBreak(data, 3) == BreakPoint(5, 7);
    assert FindBreak(data, 7) == BreakPoint(7, -1);
  }

  /** The three bytes IsBomfStart consumed are never scanned: a `%` line there does not split. */
  lemma EarlyDelimiterIgnored()
    ensures BuildRecords([0x78, 0x0A, 0x25, 0x0A, 0x79, 0x0A])  // "x\n%\ny\n"
            == [Record(0, 5)]
  {
    var data: seq<byte> := [0x78, 0x0A, 0x25, 0x0A, 0x79, 0x0A];
    assert data[..3][0] != 0xEF;
    assert !IsDelimiterAt(data, 3, 3) && !IsDelimiterAt(data, 3, 4) && !IsDelimiterAt(data, 3, 5);
    assert FirstDelimiter(data, 3, 3) == -1;
  }
}
