/** A read-only file stream over in-memory bytes, with the position as an explicit field. */
module Streams {
  import opened Binary

  class ByteStream {
    /** The file's bytes; Length is |data|. */
    const data: seq<byte>
    /** Stream.Position; .NET lets it move past the end but never below zero. */
    var position: int

    ghost predicate Valid()
      reads this
    {
      0 <= position
    }

    constructor (content: seq<byte>)
      ensures Valid() && data == content && position == 0
    {
      data := content;
      position := 0;
    }

    /** Stream.ReadByte: the next byte, or -1 at the end without moving. */
    method ReadByte() returns (b: int)
      requires Valid()
      modifies this
      ensures Valid()
      ensures old(position) < |data| ==> b == data[old(position)] as int && position == old(position) + 1
      ensures old(position) >= |data| ==> b == -1 && position == old(position)
    {
      if position < |data| {
        b := data[position] as int;
        position := position + 1;
      } else {
        b := -1;
      }
    }

    /**
     * Stream.Read(buffer, 0, count): copies the bytes available (at most count)
     * to the front of buffer, leaves the rest of buffer alone and reports how
     * many were copied.
     */
    method Read(buffer: array<byte>, count: nat) returns (n: nat)
      requires Valid() && count <= buffer.Length
      modifies this, buffer
      ensures Valid()
      ensures n == if old(position) >= |data| then 0
                   else if |data| - old(position) < count then |data| - old(position)
                   else count
      ensures position == old(position) + n
      ensures forall i :: 0 <= i < n ==> buffer[i] == data[old(position) + i]
      ensures buffer[n..] == old(buffer[n..])
    {
      n := if position >= |data| then 0 else if |data| - position < count then |data| - position else count;
      var i := 0;
      while i < n
        invariant 0 <= i <= n
        invariant position == old(position) && (n > 0 ==> position + n <= |data|)
        invariant forall j :: 0 <= j < i ==> buffer[j] == data[position + j]
        invariant buffer[n..] == old(buffer[n..])
      {
        buffer[i] := data[position + i];
        i := i + 1;
      }
      position := position + n;
    }
  }
}
