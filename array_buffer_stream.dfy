/**
 * ArrayBufferStream: a forward-only cursor over a byte buffer. The buffer is never written;
 * every read moves the cursor `offset`. The readers that go through a DataView throw a
 * RangeError when the window they ask for does not lie inside the buffer; because the view is
 * built before `offset` moves, the cursor is then where it was.
 */
module ArrayBufferStreams {
  import opened Bytes
  import opened Leb128

  /** A reader's outcome: its value, or the RangeError the DataView constructor throws. */
  datatype Result<T> = Ok(value: T) | RangeError

  function Min(a: nat, b: nat): nat
  {
    if a <= b then a else b
  }

  /** The bytes from offset to the end of the buffer; none once the cursor is at or past the end. */
  function Rest(buffer: seq<byte>, offset: nat): seq<byte>
  {
    if offset <= |buffer| then buffer[offset..] else []
  }

  /**
   * ArrayBuffer.prototype.slice(begin, end) for non-negative arguments: both ends are clamped
   * to the length and an empty copy comes back when the clamped end is not after the clamped begin.
   */
  function Slice(buffer: seq<byte>, begin: nat, end: nat): (r: seq<byte>)
    ensures begin <= end ==> r == Rest(buffer, begin)[..Min(end - begin, |Rest(buffer, begin)|)]
    ensures end <= begin ==> r == []
  {
    var first, final := Min(begin, |buffer|), Min(end, |buffer|);
    if first < final then buffer[first..final] else []
  }

  class ArrayBufferStream {
    var buffer: seq<byte>
    var offset: nat

    /** A cursor at the start of the given buffer. */
    constructor (buffer: seq<byte>)
      ensures this.buffer == buffer && offset == 0
    {
      this.buffer := buffer;
      offset := 0;
    }

    /** Whether the end of the stream is reached: nothing is left to read. */
    function Eof(): (b: bool)
      reads this
      ensures b <==> Rest(buffer, offset) == []
    {
      offset >= |buffer|
    }

    /** A copy of the next byteLength bytes, as many as there are; the cursor moves by byteLength regardless. */
    method ReadBytes(byteLength: nat) returns (bytes: seq<byte>)
      modifies this`offset
      ensures buffer == old(buffer)
      ensures offset == old(offset) + byteLength
      ensures |bytes| == Min(byteLength, |Rest(buffer, old(offset))|)
      ensures bytes == Rest(buffer, old(offset))[..|bytes|]
      ensures Eof() <==> old(offset) + byteLength >= |buffer|
    {
      bytes := Slice(buffer, offset, offset + byteLength);
      offset := offset + byteLength;
    }

    method ReadUint8() returns (r: Result<nat>)
      modifies this`offset
      ensures buffer == old(buffer)
      ensures old(offset) + 1 <= |buffer| ==>
        r == Ok(buffer[old(offset)]) && offset == old(offset) + 1
      ensures old(offset) + 1 > |buffer| ==> r == RangeError && offset == old(offset)
      ensures r.Ok? ==> r.value == LittleEndian(buffer[old(offset)..offset]) < 0x100
    {
      if offset + 1 > |buffer| {
        return RangeError;
      }
      var view := buffer[offset..offset + 1];
      offset := offset + 1;
      r := Ok(view[0]);
      assert view[..0] == [];
    }

    method ReadUint16LE() returns (r: Result<nat>)
      modifies this`offset
      ensures buffer == old(buffer)
      ensures old(offset) + 2 <= |buffer| ==>
        r == Ok(LittleEndian(buffer[old(offset)..old(offset) + 2])) && offset == old(offset) + 2
      ensures old(offset) + 2 > |buffer| ==> r == RangeError && offset == old(offset)
      ensures r.Ok? ==> r.value < 0x1_0000
    {
      if offset + 2 > |buffer| {
        return RangeError;
      }
      var view := buffer[offset..offset + 2];
      offset := offset + 2;
      r := Ok(view[0] + 0x100 * view[1] as int);
      assert LittleEndian(view[..1]) == view[0] by {
        assert view[..1][..0] == [];
      }
    }

    method ReadUint32LE() returns (r: Result<nat>)
      modifies this`offset
      ensures buffer == old(buffer)
      ensures old(offset) + 4 <= |buffer| ==>
        r == Ok(LittleEndian(buffer[old(offset)..old(offset) + 4])) && offset == old(offset) + 4
      ensures old(offset) + 4 > |buffer| ==> r == RangeError && offset == old(offset)
      ensures r.Ok? ==> r.value < 0x1_0000_0000
    {
      if offset + 4 > |buffer| {
        return RangeError;
      }
      var view := buffer[offset..offset + 4];
      offset := offset + 4;
      r := Ok(view[0] + 0x100 * view[1] as int + 0x1_0000 * view[2] as int + 0x100_0000 * view[3] as int);
      LittleEndianFour(view);
    }

    /** getBigUint64(0, true): the low and the high 32-bit halves, the high one weighted 2^32. */
    method ReadUint64LE() returns (r: Result<nat>)
      modifies this`offset
      ensures buffer == old(buffer)
      ensures old(offset) + 8 <= |buffer| ==>
        r == Ok(LittleEndian(buffer[old(offset)..old(offset) + 8])) && offset == old(offset) + 8
      ensures old(offset) + 8 > |buffer| ==> r == RangeError && offset == old(offset)
      ensures r.Ok? ==> r.value < 0x1_0000_0000_0000_0000
    {
      if offset + 8 > |buffer| {
        return RangeError;
      }
      var view := buffer[offset..offset + 8];
      offset := offset + 8;
      var lo := view[0] + 0x100 * view[1] as int + 0x1_0000 * view[2] as int + 0x100_0000 * view[3] as int;
      var hi := view[4] + 0x100 * view[5] as int + 0x1_0000 * view[6] as int + 0x100_0000 * view[7] as int;
      r := Ok(lo + 0x1_0000_0000 * hi);
      LittleEndianFour(view[..4]);
      LittleEndianFour(view[4..]);
      assert view == view[..4] + view[4..];
      LittleEndianAppend(view[..4], view[4..]);
      assert Pow(256, 4) == 0x1_0000_0000;
      assert Pow(256, 8) == 0x1_0000_0000_0000_0000 by { PowAdd(256, 4, 4); }
    }

    /**
     * Unsigned LEB128 with JavaScript's 32-bit `|=` and `<<`: reads bytes up to and including the
     * first one without bit 0x80. When the buffer ends before such a byte, the read of the byte
     * after the last one throws, and the cursor stays past every byte consumed.
     */
    method ReadLEB128() returns (r: Result<int>)
      modifies this`offset
      ensures buffer == old(buffer)
      ensures FirstStop(Rest(buffer, old(offset))).Some? ==>
        var n := FirstStop(Rest(buffer, old(offset))).value;
        r == Ok(Int32(Bits(Rest(buffer, old(offset))[..n + 1]))) && offset == old(offset) + n + 1
      ensures FirstStop(Rest(buffer, old(offset))).None? ==>
        r == RangeError && offset == old(offset) + |Rest(buffer, old(offset))|
    {
      ghost var start, rest := offset, Rest(buffer, offset);
      ghost var k: nat := 0;
      var num: nat := 0;
      var shift: nat := 0;
      while true
        invariant buffer == old(buffer)
        invariant k <= |rest| && offset == start + k && shift == 7 * k
        invariant forall i :: 0 <= i < k ==> Continues(rest[i])
        invariant num == Bits(rest[..k])
        decreases |rest| - k
      {
        var read := ReadUint8();
        if read.RangeError? {
          assert k == |rest|;
          return RangeError;
        }
        var b: byte := read.value;
        assert b == rest[k];
        BitsStep(rest, k);
        num := Or(num, ShiftLeft(Payload(b), shift));
        if !Continues(b) {
          break;
        }
        shift := shift + 7;
        k := k + 1;
      }
      assert FirstStop(rest) == Some(k);
      r := Ok(Int32(num));
    }

    /** TextDecoder('ascii') over the window; the decoder is a parameter, the cursor moves by byteLength. */
    method ReadAsciiString(byteLength: nat, decode: seq<byte> -> string) returns (r: Result<string>)
      modifies this`offset
      ensures buffer == old(buffer)
      ensures old(offset) + byteLength <= |buffer| ==>
        r == Ok(decode(buffer[old(offset)..old(offset) + byteLength])) && offset == old(offset) + byteLength
      ensures old(offset) + byteLength > |buffer| ==> r == RangeError && offset == old(offset)
    {
      if offset + byteLength > |buffer| {
        return RangeError;
      }
      var view := buffer[offset..offset + byteLength];
      offset := offset + byteLength;
      r := Ok(decode(view));
    }

    /** TextDecoder('utf-16le') over the window: the cursor moves by bytes, not by characters. */
    method ReadUTF16LEString(byteLength: nat, decode: seq<byte> -> string) returns (r: Result<string>)
      modifies this`offset
      ensures buffer == old(buffer)
      ensures old(offset) + byteLength <= |buffer| ==>
        r == Ok(decode(buffer[old(offset)..old(offset) + byteLength])) && offset == old(offset) + byteLength
      ensures old(offset) + byteLength > |buffer| ==> r == RangeError && offset == old(offset)
    {
      if offset + byteLength > |buffer| {
        return RangeError;
      }
      var view := buffer[offset..offset + byteLength];
      offset := offset + byteLength;
      r := Ok(decode(view));
    }
  }
}
