/** `Buffer` of `muduo/net/Buffer.h` and `muduo/net/Buffer.cc` against a plain sequence of bytes. */
module Buffer {
  import opened Bytes

  const CHEAP_PREPEND := 8
  const INITIAL_SIZE := 1024
  const EXTRA := 65536

  /** What `readv` did: an error, or bytes, first into the writable space and then into the extra area. */
  datatype Read = Error | Got(bytes: seq<byte>)

  class Buffer {
    var buffer: array<byte>
    var readerIndex: nat
    var writerIndex: nat

    constructor (initialSize: nat)
      ensures Valid() && fresh(buffer) && Contents() == []
      ensures WritableBytes() == initialSize && PrependableBytes() == CHEAP_PREPEND
    {
      buffer := new byte[CHEAP_PREPEND + initialSize](_ => 0);
      readerIndex, writerIndex := CHEAP_PREPEND, CHEAP_PREPEND;
    }

    predicate Valid()
      reads this
    {
      readerIndex <= writerIndex <= buffer.Length && CHEAP_PREPEND <= buffer.Length
    }

    /** The readable bytes: the sequence that the buffer stands for. */
    ghost function Contents(): (s: seq<byte>)
      requires Valid()
      reads this, buffer
    {
      buffer[readerIndex..writerIndex]
    }

    function ReadableBytes(): (n: nat)
      requires Valid()
      reads this
    {
      writerIndex - readerIndex
    }

    function WritableBytes(): (n: nat)
      requires Valid()
      reads this
    {
      buffer.Length - writerIndex
    }

    function PrependableBytes(): (n: nat)
      reads this
    {
      readerIndex
    }

    /** The room in front is what it was, or what a new buffer has. */
    ghost predicate KeepsRoom(before: nat)
      reads this
    {
      readerIndex == before || readerIndex == CHEAP_PREPEND
    }

    /** How room for `len` more bytes was made: not at all, in a larger block, or by moving the contents down. */
    ghost predicate Spaced(len: nat, block: array<byte>, reader: nat, writer: nat)
      requires writer <= block.Length
      reads this
    {
      if writer + len <= block.Length then buffer == block && readerIndex == reader
      else if block.Length - writer + reader < len + CHEAP_PREPEND then
        buffer.Length == writer + len && readerIndex == reader
      else buffer == block && readerIndex == CHEAP_PREPEND
    }

    method RetrieveAll()
      requires Valid()
      modifies this`readerIndex, this`writerIndex
      ensures Valid() && Contents() == [] && PrependableBytes() == CHEAP_PREPEND
    {
      readerIndex, writerIndex := CHEAP_PREPEND, CHEAP_PREPEND;
    }

    method Retrieve(len: nat)
      requires Valid() && len <= ReadableBytes()
      modifies this`readerIndex, this`writerIndex
      ensures Valid() && Contents() == old(Contents())[len..]
      ensures PrependableBytes() == if Contents() == [] then CHEAP_PREPEND else old(PrependableBytes()) + len
    {
      if len < ReadableBytes() {
        readerIndex := readerIndex + len;
      } else {
        RetrieveAll();
      }
    }

    method RetrieveAsString(len: nat) returns (result: seq<byte>)
      requires Valid() && len <= ReadableBytes()
      modifies this`readerIndex, this`writerIndex
      ensures Valid() && result == old(Contents())[..len] && Contents() == old(Contents())[len..]
    {
      result := buffer[readerIndex..readerIndex + len];
      Retrieve(len);
    }

    method Unwrite(len: nat)
      requires Valid() && len <= ReadableBytes()
      modifies this`writerIndex
      ensures Valid() && Contents() == old(Contents())[..|old(Contents())| - len]
    {
      writerIndex := writerIndex - len;
    }

    /** More room at the end: a larger block, or the readable bytes moved to the front. */
    method MakeSpace(len: nat)
      requires Valid() && WritableBytes() < len
      modifies this, buffer
      ensures Valid() && (buffer == old(buffer) || fresh(buffer))
      ensures Contents() == old(Contents()) && WritableBytes() >= len && KeepsRoom(old(readerIndex))
      ensures Spaced(len, old(buffer), old(readerIndex), old(writerIndex))
    {
      if WritableBytes() + PrependableBytes() < len + CHEAP_PREPEND {
        Resize(writerIndex + len);
      } else {
        assert CHEAP_PREPEND < readerIndex;
        var readable := ReadableBytes();
        MoveDown(readable);
        readerIndex := CHEAP_PREPEND;
        writerIndex := readerIndex + readable;
      }
    }

    /** `vector::resize` to a larger size. */
    method Resize(size: nat)
      requires Valid() && buffer.Length <= size
      modifies this`buffer
      ensures Valid() && fresh(buffer) && buffer.Length == size && Contents() == old(Contents())
    {
      var larger := new byte[size](_ => 0);
      for i := 0 to buffer.Length
        invariant buffer == old(buffer) && buffer[..] == old(buffer[..])
        invariant forall k :: 0 <= k < i ==> larger[k] == buffer[k]
      {
        larger[i] := buffer[i];
      }
      buffer := larger;
    }

    /** `std::copy` of the readable bytes to the front, byte by byte in the same block. */
    method MoveDown(readable: nat)
      requires Valid() && readable == ReadableBytes() && CHEAP_PREPEND < readerIndex
      modifies buffer
      ensures buffer[CHEAP_PREPEND..CHEAP_PREPEND + readable] == old(Contents())
    {
      ghost var was := Contents();
      for i := 0 to readable
        invariant forall j :: CHEAP_PREPEND <= j < CHEAP_PREPEND + i ==> buffer[j] == was[j - CHEAP_PREPEND]
        invariant forall j :: readerIndex + i <= j < writerIndex ==> buffer[j] == was[j - readerIndex]
      {
        buffer[CHEAP_PREPEND + i] := buffer[readerIndex + i];
      }
    }

    method EnsureWritableBytes(len: nat)
      requires Valid()
      modifies this, buffer
      ensures Valid() && (buffer == old(buffer) || fresh(buffer))
      ensures Contents() == old(Contents()) && WritableBytes() >= len && KeepsRoom(old(readerIndex))
      ensures Spaced(len, old(buffer), old(readerIndex), old(writerIndex))
    {
      if WritableBytes() < len {
        MakeSpace(len);
      }
    }

    method CopyIn(at: nat, data: seq<byte>)
      requires at + |data| <= buffer.Length
      modifies buffer
      ensures buffer[..at] == old(buffer[..at]) && buffer[at..at + |data|] == data
        && buffer[at + |data|..] == old(buffer[at + |data|..])
    {
      for i := 0 to |data|
        invariant forall k :: 0 <= k < i ==> buffer[at + k] == data[k]
        invariant buffer[..at] == old(buffer[..at]) && buffer[at + |data|..] == old(buffer[at + |data|..])
      {
        buffer[at + i] := data[i];
      }
    }

    method Append(data: seq<byte>)
      requires Valid()
      modifies this, buffer
      ensures Valid() && (buffer == old(buffer) || fresh(buffer)) && Contents() == old(Contents()) + data
        && KeepsRoom(old(readerIndex))
      ensures Spaced(|data|, old(buffer), old(readerIndex), old(writerIndex))
    {
      EnsureWritableBytes(|data|);
      AppendWithin(data);
    }

    /** Bytes go in front as long as there is room, which there is for eight bytes in a new buffer. */
    method Prepend(data: seq<byte>)
      requires Valid() && |data| <= PrependableBytes()
      modifies this`readerIndex, buffer
      ensures Valid() && Contents() == data + old(Contents()) && PrependableBytes() == old(PrependableBytes()) - |data|
    {
      ghost var rest := buffer[readerIndex..];
      readerIndex := readerIndex - |data|;
      CopyIn(readerIndex, data);
      Joined(buffer[..], readerIndex, readerIndex + |data|, writerIndex);
      assert buffer[readerIndex + |data|..][..writerIndex - readerIndex - |data|] ==
        rest[..writerIndex - readerIndex - |data|];
    }

    /** The contents in a new block with room for `reserve` more bytes. */
    method Shrink(reserve: nat)
      requires Valid()
      modifies this
      ensures Valid() && fresh(buffer) && Contents() == old(Contents()) && PrependableBytes() == CHEAP_PREPEND
      ensures WritableBytes() == if |Contents()| + reserve <= INITIAL_SIZE then INITIAL_SIZE - |Contents()| else reserve
    {
      var other := new Buffer(INITIAL_SIZE);
      other.EnsureWritableBytes(ReadableBytes() + reserve);
      other.AppendWithin(buffer[readerIndex..writerIndex]);
      buffer, readerIndex, writerIndex := other.buffer, other.readerIndex, other.writerIndex;
    }

    /** `append` when the room is there: the block stays. */
    method AppendWithin(data: seq<byte>)
      requires Valid() && |data| <= WritableBytes()
      modifies this`writerIndex, buffer
      ensures Valid() && Contents() == old(Contents()) + data && WritableBytes() == old(WritableBytes()) - |data|
    {
      ghost var before := Contents();
      CopyIn(writerIndex, data);
      writerIndex := writerIndex + |data|;
      Joined(buffer[..], readerIndex, writerIndex - |data|, writerIndex);
      assert buffer[..writerIndex - |data|][readerIndex..] == before;
    }

    /** `readFd`: whatever the scatter read brought is appended, in order. */
    method ReadFd(r: Read) returns (n: int)
      requires Valid()
      requires r.Got? ==> |r.bytes| <= if WritableBytes() < EXTRA then WritableBytes() + EXTRA else WritableBytes()
      modifies this, buffer
      ensures Valid() && (buffer == old(buffer) || fresh(buffer))
      ensures r.Error? ==> n < 0 && Contents() == old(Contents())
      ensures r.Got? ==> n == |r.bytes| && Contents() == old(Contents()) + r.bytes
    {
      var writable := WritableBytes();
      if r.Error? {
        n := -1;
      } else if |r.bytes| <= writable {
        n := |r.bytes|;
        AppendWithin(r.bytes);
      } else {
        n := |r.bytes|;
        AppendWithin(r.bytes[..writable]);
        Append(r.bytes[writable..]);
        assert r.bytes == r.bytes[..writable] + r.bytes[writable..];
      }
    }

    // ----- integers

    method AppendInt(k: nat, x: int)
      requires Valid() && FitsIn(k, x)
      modifies this, buffer
      ensures Valid() && (buffer == old(buffer) || fresh(buffer)) && Contents() == old(Contents()) + EncodeInt(k, x)
      ensures KeepsRoom(old(readerIndex))
    {
      Append(EncodeInt(k, x));
    }

    method PrependInt(k: nat, x: int)
      requires Valid() && FitsIn(k, x) && k <= PrependableBytes()
      modifies this`readerIndex, buffer
      ensures Valid() && Contents() == EncodeInt(k, x) + old(Contents())
    {
      Prepend(EncodeInt(k, x));
    }

    method PeekInt(k: nat) returns (x: int)
      requires Valid() && k <= ReadableBytes()
      ensures x == DecodeInt(Contents()[..k])
    {
      x := DecodeInt(buffer[readerIndex..readerIndex + k]);
      assert buffer[readerIndex..readerIndex + k] == Contents()[..k];
    }

    method ReadInt(k: nat) returns (x: int)
      requires Valid() && k <= ReadableBytes()
      modifies this`readerIndex, this`writerIndex
      ensures Valid() && x == DecodeInt(old(Contents())[..k]) && Contents() == old(Contents())[k..]
    {
      x := PeekInt(k);
      Retrieve(k);
    }
  }

  lemma Joined(s: seq<byte>, a: nat, b: nat, c: nat)
    requires a <= b <= c <= |s|
    ensures s[a..b] + s[b..c] == s[a..c]
  {
  }
}
