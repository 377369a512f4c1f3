/**
 code/buffer/buffer.cpp: a growing, compacting byte buffer. What a caller sees of
 it is a queue of bytes: `Contents`, the bytes from `readPos_` to `writePos_`.
 Pointers into the storage are positions in it.
 */
module Buffers {

  /** `sizeof(buff)` in `ReadFd`. */
  const SIDE_BUFFER_SIZE: nat := 65535

  /** The result of `readv`, `writev` or `write`. */
  datatype Transfer<T> = Failed(errno: int) | Done(value: T)

  class Buffer {
    var buffer: array<char>
    var readPos: nat
    var writePos: nat

    ghost predicate Valid()
      reads this
    {
      readPos <= writePos <= buffer.Length
    }

    /** The readable bytes, oldest first. */
    function Contents(): string
      requires Valid()
      reads this, buffer
    {
      buffer[readPos..writePos]
    }

    constructor (initBuffSize: nat)
      ensures Valid() && fresh(buffer) && Contents() == [] && buffer.Length == initBuffSize
    {
      buffer := new char[initBuffSize](_ => '\0');
      readPos, writePos := 0, 0;
    }

    function ReadableBytes(): nat
      requires Valid()
      reads this
    {
      writePos - readPos
    }

    function WritableBytes(): nat
      requires Valid()
      reads this
    {
      buffer.Length - writePos
    }

    function PrependableBytes(): nat
      reads this
    {
      readPos
    }

    method Retrieve(len: nat)
      requires Valid() && len <= ReadableBytes()
      modifies this`readPos
      ensures Valid() && Contents() == old(Contents())[len..]
    {
      readPos := readPos + len;
    }

    /** `end` is a position in the storage. */
    method RetrieveUntil(end: nat)
      requires Valid() && readPos <= end <= writePos
      modifies this`readPos
      ensures Valid() && readPos == end && Contents() == old(Contents())[end - old(readPos)..]
    {
      Retrieve(end - readPos);
    }

    method RetrieveAll()
      requires Valid()
      modifies this`readPos, this`writePos, buffer
      ensures Valid() && Contents() == [] && readPos == 0
      ensures forall i :: 0 <= i < buffer.Length ==> buffer[i] == '\0'
    {
      forall i | 0 <= i < buffer.Length {
        buffer[i] := '\0';
      }
      readPos := 0;
      writePos := 0;
    }

    method RetrieveAllToStr() returns (str: string)
      requires Valid()
      modifies this`readPos, this`writePos, buffer
      ensures Valid() && Contents() == [] && str == old(Contents())
    {
      str := buffer[readPos..writePos];
      RetrieveAll();
    }

    /** The source does not ask for room: past the end the buffer is no longer valid. */
    method HasWritten(len: nat)
      requires Valid()
      modifies this`writePos
      ensures writePos == old(writePos) + len
      ensures Valid() <==> len <= old(WritableBytes())
      ensures Valid() ==> Contents() == old(Contents()) + buffer[old(writePos)..writePos]
    {
      writePos := writePos + len;
    }

    /** Makes room for `len` bytes: by growing when the free bytes on both sides are
        too few, else by moving the readable bytes to the front, over themselves. */
    method MakeSpace(len: nat)
      requires Valid()
      modifies this, buffer
      ensures Valid() && (buffer == old(buffer) || fresh(buffer))
      ensures len <= WritableBytes() && Contents() == old(Contents())
      ensures if old(WritableBytes() + PrependableBytes()) < len then buffer.Length == old(writePos) + len + 1
              else buffer.Length == old(buffer.Length) && readPos == 0
    {
      if WritableBytes() + PrependableBytes() < len {
        Resize(writePos + len + 1);
      } else {
        var readable := ReadableBytes();
        CopyToFront(readable);
        assert buffer[..readable] == old(Contents());
        readPos := 0;
        writePos := readPos + readable;
      }
    }

    /** `vector::resize` to a larger size. */
    method Resize(size: nat)
      requires Valid() && buffer.Length <= size
      modifies this`buffer
      ensures Valid() && fresh(buffer) && buffer.Length == size
      ensures buffer[..old(buffer.Length)] == old(buffer[..]) && Contents() == old(Contents())
    {
      var grown := new char[size](_ => '\0');
      forall i | 0 <= i < buffer.Length {
        grown[i] := buffer[i];
      }
      assert grown[..buffer.Length] == buffer[..];
      buffer := grown;
      assert buffer[..old(buffer.Length)][readPos..writePos] == old(buffer[..])[readPos..writePos];
    }

    /** `std::copy` of the readable bytes to the front, first byte first. */
    method CopyToFront(readable: nat)
      requires Valid() && readable == ReadableBytes()
      modifies buffer
      ensures buffer[..readable] == old(buffer[readPos..writePos])
    {
      var k := 0;
      while k < readable
        invariant 0 <= k <= readable
        invariant forall i :: 0 <= i < k ==> buffer[i] == old(buffer[readPos + i])
        invariant forall i :: k <= i < buffer.Length ==> buffer[i] == old(buffer[i])
      {
        buffer[k] := buffer[readPos + k];
        k := k + 1;
      }
    }

    method EnsureWriteable(len: nat)
      requires Valid()
      modifies this, buffer
      ensures Valid() && (buffer == old(buffer) || fresh(buffer))
      ensures len <= WritableBytes() && Contents() == old(Contents())
      ensures len <= old(WritableBytes()) ==>
                buffer == old(buffer) && buffer[..] == old(buffer[..]) && writePos == old(writePos)
    {
      if WritableBytes() < len {
        MakeSpace(len);
      }
    }

    method Append(str: string)
      requires Valid()
      modifies this, buffer
      ensures Valid() && (buffer == old(buffer) || fresh(buffer))
      ensures Contents() == old(Contents()) + str
    {
      EnsureWriteable(|str|);
      FillTail(str);
    }

    /** Copies `str` to the storage from position `at` on. */
    method Store(at: nat, str: string)
      requires at + |str| <= buffer.Length
      modifies buffer
      ensures buffer[..at] == old(buffer[..at]) && buffer[at + |str|..] == old(buffer[at + |str|..])
      ensures buffer[at..at + |str|] == str
    {
      forall i | 0 <= i < |str| {
        buffer[at + i] := str[i];
      }
    }

    /** `Append(const Buffer&)`: the source bytes are found before room is made, so
        a buffer is appended to itself only if it has the room already. */
    method AppendBuffer(other: Buffer)
      requires Valid() && other.Valid() && (other != this ==> other.buffer != buffer)
      modifies this, buffer
      ensures Valid() && (buffer == old(buffer) || fresh(buffer))
      ensures other != this || old(ReadableBytes()) <= old(WritableBytes()) ==>
                Contents() == old(Contents()) + old(other.Contents())
    {
      var data, at, len := other.buffer, other.readPos, other.ReadableBytes();
      EnsureWriteable(len);
      FillTail(data[at..at + len]);
    }

    /** Reads into the free space at the end, and what does not fit there into a side
        buffer that is appended. `arrived` is what `readv` does: it fails, or it fills
        the two vectors with some bytes, one after the other. */
    method ReadFd(arrived: Transfer<string>) returns (len: int, saveErrno: int)
      requires Valid()
      requires arrived.Done? ==> |arrived.value| <= WritableBytes() + SIDE_BUFFER_SIZE
      modifies this, buffer
      ensures Valid() && (buffer == old(buffer) || fresh(buffer))
      ensures arrived.Failed? ==> len < 0 && saveErrno == arrived.errno && Contents() == old(Contents())
      ensures arrived.Done? ==> len == |arrived.value| && Contents() == old(Contents()) + arrived.value
    {
      saveErrno := 0;
      var writable := WritableBytes();
      if arrived.Failed? {
        return -1, arrived.errno;
      }
      len := |arrived.value|;
      if len <= writable {
        FillTail(arrived.value);
      } else {
        var buff := arrived.value[writable..];
        assert arrived.value == arrived.value[..writable] + buff;
        FillTail(arrived.value[..writable]);
        Append(buff);
      }
    }

    /** The kernel's store behind the readable bytes, and `writePos_` moved past it. */
    method FillTail(bytes: string)
      requires Valid() && |bytes| <= WritableBytes()
      modifies this`writePos, buffer
      ensures Valid() && writePos == old(writePos) + |bytes|
      ensures Contents() == old(Contents()) + bytes
    {
      Store(writePos, bytes);
      HasWritten(|bytes|);
    }

    /** Writes the readable bytes; `taken` is what `write` does with them: it fails, or
        it takes some from the front. */
    method WriteFd(taken: Transfer<nat>) returns (len: int, saveErrno: int)
      requires Valid()
      requires taken.Done? ==> taken.value <= ReadableBytes()
      modifies this`readPos
      ensures Valid()
      ensures taken.Failed? ==> len < 0 && saveErrno == taken.errno && Contents() == old(Contents())
      ensures taken.Done? ==> len == taken.value && old(Contents()) == old(Contents())[..len] + Contents()
    {
      saveErrno := 0;
      if taken.Failed? {
        return -1, taken.errno;
      }
      len := taken.value;
      readPos := readPos + len;
    }
  }
}
