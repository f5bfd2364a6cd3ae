/**
 * The delimiter scanner (FindNextFortuneBreak): from the stream's position,
 * finds the next `%` line and reports where the previous entry ends and the
 * next begins.
 */
module Scanner {
  import opened Binary
  import opened Streams

  const PERCENT: int := 0x25
  const CR: int := 0x0D
  const LF: int := 0x0A

  /** The boundary between two entries; nextStart == -1 marks the end of the file. */
  datatype BreakPoint = BreakPoint(prevEnd: int, nextStart: int)

  predicate IsLineEnd(b: byte) { b as int == CR || b as int == LF }

  /** C#'s unchecked `(byte) b`, which turns ReadByte's -1 into 255. */
  function ToByte(b: int): (r: byte)
    ensures 0 <= b < 256 ==> r as int == b
  {
    (b % 256) as byte
  }

  /**
   * The `%` at k is a delimiter for a scan that started at `from`: the byte
   * before it was read by the same scan and ends a line, and the byte after it
   * exists and ends a line.
   */
  predicate IsDelimiterAt(data: seq<byte>, from: int, k: int)
  {
    0 <= from < k && k + 1 < |data|
    && data[k] as int == PERCENT && IsLineEnd(data[k - 1]) && IsLineEnd(data[k + 1])
  }

  /** The first delimiter at or after k, or -1 when there is none. */
  function FirstDelimiter(data: seq<byte>, from: int, k: int): (d: int)
    requires 0 <= k
    decreases |data| - k
    ensures d == -1 ==> forall j :: k <= j < |data| ==> !IsDelimiterAt(data, from, j)
    ensures d != -1 ==> k <= d && IsDelimiterAt(data, from, d)
    ensures d != -1 ==> forall j :: k <= j < d ==> !IsDelimiterAt(data, from, j)
  {
    if k >= |data| then -1
    else if IsDelimiterAt(data, from, k) then k
    else FirstDelimiter(data, from, k + 1)
  }

  /** Where the entry before the delimiter at k ends: before its `\r\n`, or before a lone `\r` or `\n`. */
  function EndBefore(data: seq<byte>, from: int, k: int): (e: int)
    requires IsDelimiterAt(data, from, k)
    ensures from <= e && (e == k - 2 || e == k - 1)
    ensures e == k - 2 <==> k - 2 >= from && data[k - 2] as int == CR && data[k - 1] as int == LF
  {
    if k - 2 >= from && data[k - 2] as int == CR && data[k - 1] as int == LF then k - 2 else k - 1
  }

  /**
   * Where the entry after the delimiter at k starts: past `%\n` or `%\r\n`;
   * after `%\r` and another byte it backs off to that byte, and when `%\r`
   * ends the file the backing off lands on the `\r` itself.
   */
  function StartAfter(data: seq<byte>, k: int): (s: int)
    requires 0 <= k && k + 1 < |data| && IsLineEnd(data[k + 1])
    ensures k + 1 <= s <= k + 3 && s <= |data|
    ensures data[k + 1] as int == LF ==> s == k + 2
    ensures data[k + 1] as int == CR && k + 2 < |data| && data[k + 2] as int == LF ==> s == k + 3
    ensures data[k + 1] as int == CR && k + 2 < |data| && data[k + 2] as int != LF ==> s == k + 2
    ensures data[k + 1] as int == CR && k + 2 == |data| ==> s == k + 1
  {
    if data[k + 1] as int == LF then k + 2
    else if k + 2 == |data| then k + 1
    else if data[k + 2] as int == LF then k + 3
    else k + 2
  }

  /** The break point a scan from `from` returns. */
  function FindBreak(data: seq<byte>, from: int): (bp: BreakPoint)
    requires 0 <= from <= |data|
    ensures bp.nextStart == -1 ==> bp.prevEnd == |data| - 1
    ensures bp.nextStart != -1 ==> from <= bp.prevEnd && bp.prevEnd + 2 <= bp.nextStart <= |data|
  {
    var k := FirstDelimiter(data, from, from);
    if k == -1 then BreakPoint(|data| - 1, -1)
    else BreakPoint(EndBefore(data, from, k), StartAfter(data, k))
  }

  /** Where the stream stands after the scan. */
  function PositionAfter(data: seq<byte>, bp: BreakPoint): int
  {
    if bp.nextStart == -1 then |data| else bp.nextStart
  }

  /** A delimiter with none before it, from k0 on, is the first one. */
  lemma {:induction false} FirstDelimiterIs(data: seq<byte>, from: int, k0: int, k: int)
    requires 0 <= k0 <= k && IsDelimiterAt(data, from, k)
    requires forall j :: k0 <= j < k ==> !IsDelimiterAt(data, from, j)
    decreases k - k0
    ensures FirstDelimiter(data, from, k0) == k
  {
    if k0 < k {
      FirstDelimiterIs(data, from, k0 + 1, k);
    }
  }

  /** The scan from `from` breaks at the first delimiter it meets. */
  lemma BreakAtFirstDelimiter(data: seq<byte>, from: int, k: int)
    requires 0 <= from <= |data| && IsDelimiterAt(data, from, k)
    requires forall j :: from <= j < k ==> !IsDelimiterAt(data, from, j)
    ensures FindBreak(data, from) == BreakPoint(EndBefore(data, from, k), StartAfter(data, k))
  {
    FirstDelimiterIs(data, from, from, k);
  }

  method FindNextFortuneBreak(source: ByteStream) returns (bp: BreakPoint)
    requires source.Valid() && source.position <= |source.data|
    modifies source
    ensures source.Valid()
    ensures bp == FindBreak(source.data, old(source.position))
    ensures source.position == PositionAfter(source.data, bp)
  {
    ghost var from := source.position;
    ghost var data := source.data;
    var prev := new byte[2](_ => 0);
    while source.position < |source.data|
      invariant source.Valid() && source.data == data
      invariant from <= source.position <= |data|
      invariant forall j :: from <= j < source.position ==> !IsDelimiterAt(data, from, j)
      invariant source.position < |data| ==>
                  prev[1] == if source.position > from then data[source.position - 1] else 0
      invariant prev[1] as int == LF ==>
                  (prev[0] as int == CR <==> source.position - 2 >= from && data[source.position - 2] as int == CR)
      decreases |data| - source.position
    {
      ghost var k := source.position;
      var b := source.ReadByte();
      if b == PERCENT {
        var end := 0;
        var lineStart := true;
        if prev[0] as int == CR && prev[1] as int == LF {
          end := source.position - 3;
        } else if prev[1] as int == CR || prev[1] as int == LF {
          end := source.position - 2;
        } else {
          lineStart := false;
        }
        if lineStart {
          b := source.ReadByte();
          if b == CR {
            b := source.ReadByte();
            var start;
            if b == LF {
              start := source.position;
            } else {
              source.position := source.position - 1;
              start := source.position;
            }
            BreakAtFirstDelimiter(data, from, k);
            bp := BreakPoint(end, start);
            return;
          } else if b == LF {
            BreakAtFirstDelimiter(data, from, k);
            bp := BreakPoint(end, source.position);
            return;
          }
        }
      }
      assert !IsDelimiterAt(data, from, k);
      prev[0] := prev[1];
      prev[1] := ToByte(b);
    }
    bp := BreakPoint(|source.data| - 1, -1);
  }

  /** The byte just past e starts the newline that precedes a `%` line. */
  predicate EndsBeforeDelimiterLine(data: seq<byte>, e: int)
  {
    0 <= e && e + 2 < |data| && IsLineEnd(data[e])
    && (data[e + 1] as int == PERCENT
        || (data[e] as int == CR && data[e + 1] as int == LF && e + 2 < |data| && data[e + 2] as int == PERCENT))
  }

  /** A break that is not the last one ends its entry right before the newline of a `%` line. */
  lemma FoundBreakEndsBeforeDelimiterLine(data: seq<byte>, from: int)
    requires 0 <= from <= |data| && FindBreak(data, from).nextStart != -1
    ensures EndsBeforeDelimiterLine(data, FindBreak(data, from).prevEnd)
  {
    var k := FirstDelimiter(data, from, from);
    assert IsDelimiterAt(data, from, k);
  }
}
