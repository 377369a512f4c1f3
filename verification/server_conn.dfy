/**
 The response side of code/http/serverconn.cpp: the two vectors handed to
 `writev`, header and file, and the loop that accounts for partial writes.
 */
module ServerConns {
  import opened CppInts
  import opened Buffers

  const LEVEL_TRIGGERED_REST: int := 10240

  /** On Linux. */
  const EAGAIN: int := 11

  /** What `OnWrite_` does with the connection: goes on to `OnProcess`, which registers
      it again, registers it for the rest, or does neither. */
  datatype Next = Process | AwaitWritable | Stalled

  function Min(a: nat, b: nat): nat {
    if a < b then a else b
  }

  /** What is left of `size` bytes when `writev` gives this answer. */
  function LeftBy(size: nat, answer: Transfer<nat>): nat {
    if answer.Failed? then size else size - Min(answer.value, size)
  }

  /** What is left of them after `k` calls. */
  function RestAfter(size: nat, answer: nat -> Transfer<nat>, k: nat): nat {
    if k == 0 then size else LeftBy(RestAfter(size, answer, k - 1), answer(k - 1))
  }

  /** After its k-th call `write` makes another: that one took something, and the
      connection is edge-triggered or has more than 10240 bytes left. */
  predicate GoesOn(size: nat, answer: nat -> Transfer<nat>, k: nat, isET: bool)
    requires 0 < k
  {
    var left := RestAfter(size, answer, k);
    left < RestAfter(size, answer, k - 1) && (isET || 10240 < ToInt32(left))
  }

  /** It does so after each call before the n-th. */
  predicate AllGoOn(size: nat, answer: nat -> Transfer<nat>, n: nat, isET: bool) {
    n <= 1 || (AllGoOn(size, answer, n - 1, isET) && GoesOn(size, answer, n - 1, isET))
  }

  class ServerConn {
    const isET: bool
    const writeBuff: Buffer
    /** The mapped file of the response, and the vectors: `base0` is a position in
        the storage of `writeBuff`, `base1` one in the file. */
    var file: string
    var iovCnt: nat
    var base0: nat
    var len0: nat
    var base1: nat
    var len1: nat
    /** What the peer was sent, in order. */
    var wire: string
    /** `errno` of the thread that writes; only a failing call sets it. */
    var errno: int

    /** What is still to be sent. */
    ghost var rest: string

    /** The vectors point at the rest: the readable bytes of `writeBuff`, then what
        is left of the file. With one vector only, the other one's fields are left
        from an earlier response. */
    ghost predicate Valid()
      reads this, writeBuff, writeBuff.buffer
    {
      && writeBuff.Valid() && (iovCnt == 1 || iovCnt == 2)
      && base0 + len0 <= writeBuff.buffer.Length
      && len0 == writeBuff.ReadableBytes() && (0 < len0 ==> base0 == writeBuff.readPos)
      && (iovCnt == 2 ==> base1 + len1 <= |file|)
      && rest == Vectors()
    }

    /** The bytes the vectors point at. */
    function Vectors(): string
      requires base0 + len0 <= writeBuff.buffer.Length && (iovCnt == 2 ==> base1 + len1 <= |file|)
      reads this, writeBuff, writeBuff.buffer
    {
      writeBuff.buffer[base0..base0 + len0] + if iovCnt == 2 then file[base1..base1 + len1] else []
    }

    /** What has been sent and what is still to be. */
    ghost function Response(): string
      reads this`wire, this`rest
    {
      wire + rest
    }

    constructor (isET: bool)
      ensures Valid() && rest == [] && wire == [] && this.isET == isET
      ensures fresh(writeBuff) && fresh(writeBuff.buffer) && writeBuff.Contents() == []
    {
      this.isET := isET;
      writeBuff := new Buffer(1024);
      file, iovCnt, base0, len0, base1, len1, wire, errno, rest := [], 1, 0, 0, 0, 0, [], 0, [];
    }

    /** `processHttpRequest` from `MakeResponse` on. */
    method SetResponse(header: string, mapped: string)
      requires Valid()
      modifies this, writeBuff, writeBuff.buffer
      ensures Valid() && wire == old(wire)
      ensures writeBuff.buffer == old(writeBuff.buffer) || fresh(writeBuff.buffer)
      ensures writeBuff.Contents() == old(writeBuff.Contents()) + header
      ensures rest == old(writeBuff.Contents()) + header + mapped
    {
      writeBuff.Append(header);
      SetVectors(mapped);
    }

    method SetVectors(mapped: string)
      requires writeBuff.Valid()
      modifies this
      ensures Valid() && wire == old(wire) && rest == writeBuff.Contents() + mapped
    {
      base0 := writeBuff.readPos;
      len0 := writeBuff.ReadableBytes();
      iovCnt := 1;
      rest := writeBuff.Contents() + mapped;
      if |mapped| > 0 {
        file := mapped;
        base1 := 0;
        len1 := |mapped|;
        iovCnt := 2;
      }
      assert iovCnt == 2 ==> file[base1..base1 + len1] == mapped;
    }

    /** An `int` in the source. */
    function ToWriteBytes(): int
      reads this
    {
      ToInt32(if iovCnt > 1 then len0 + len1 else len0)
    }

    lemma ToWriteIsRest()
      requires Valid()
      ensures ToWriteBytes() == ToInt32(|rest|)
    {
    }

    /** `writev`: the kernel fails, or takes bytes from the front of the vectors. */
    method Writev(answer: Transfer<nat>) returns (len: int)
      requires Valid()
      modifies this`wire, this`errno
      ensures Valid() && errno == if answer.Failed? then answer.errno else old(errno)
      ensures answer.Failed? ==> len == -1 && wire == old(wire)
      ensures answer.Done? ==> len == Min(answer.value, |rest|) && wire == old(wire) + rest[..len]
    {
      if answer.Failed? {
        errno := answer.errno;
        return -1;
      }
      var bytes := Vectors();
      len := Min(answer.value, |bytes|);
      wire := wire + bytes[..len];
    }

    /** What the loop does to the vectors and the buffer when `len` bytes have gone:
        the rest is what is left behind them. (The source first tests for two empty
        vectors; bytes have just been taken from them, so the test never holds.) */
    method Account(len: nat)
      requires Valid() && 0 < len <= |rest|
      modifies this`base0, this`len0, this`base1, this`len1, this`rest, writeBuff, writeBuff.buffer
      ensures Valid() && writeBuff.buffer == old(writeBuff.buffer)
      ensures rest == old(rest)[len..]
    {
      if len > len0 {
        PastHeader(len);
      } else {
        WithinHeader(len);
      }
    }

    method PastHeader(len: nat)
      requires Valid() && len0 < len <= |rest|
      modifies this`len0, this`base1, this`len1, this`rest, writeBuff, writeBuff.buffer
      ensures Valid() && writeBuff.buffer == old(writeBuff.buffer)
      ensures rest == old(rest)[len..] && len0 == 0 && writeBuff.Contents() == []
    {
      ghost var head := writeBuff.buffer[base0..base0 + len0];
      ghost var tail := file[base1..base1 + len1];
      DropFront(head, tail, len);
      rest := rest[len..];
      AdvanceFile(len - len0);
      if len0 != 0 {
        DropHeader();
      }
      assert Vectors() == file[base1..base1 + len1];
    }

    method AdvanceFile(n: nat)
      requires base1 + len1 <= |file| && n <= len1
      modifies this`base1, this`len1
      ensures base1 + len1 <= |file| && file[base1..base1 + len1] == old(file[base1..base1 + len1])[n..]
    {
      base1 := base1 + n;
      len1 := len1 - n;
    }

    method DropHeader()
      requires writeBuff.Valid()
      modifies this`len0, writeBuff`readPos, writeBuff`writePos, writeBuff.buffer
      ensures writeBuff.Valid() && len0 == writeBuff.ReadableBytes() == 0
    {
      writeBuff.RetrieveAll();
      len0 := 0;
    }

    method WithinHeader(len: nat)
      requires Valid() && 0 < len <= len0
      modifies this`base0, this`len0, this`rest, writeBuff`readPos
      ensures Valid() && rest == old(rest)[len..]
    {
      ghost var head := writeBuff.buffer[base0..base0 + len0];
      ghost var tail := if iovCnt == 2 then file[base1..base1 + len1] else [];
      DropFront(head, tail, len);
      rest := rest[len..];
      base0 := base0 + len;
      len0 := len0 - len;
      writeBuff.Retrieve(len);
      assert writeBuff.buffer[base0..base0 + len0] == head[len..];
    }

    /** One turn of the loop of `write`: one `writev` and its accounting. `len` is the
        kernel's answer; the rest shrinks exactly when something was taken. When
        nothing was, `errno` is passed on, also if it is left from an earlier call. */
    method WriteOnce(answer: Transfer<nat>) returns (len: int, saveErrno: int)
      requires Valid()
      modifies this`wire, this`errno, this`base0, this`len0, this`base1, this`len1, this`rest
      modifies writeBuff, writeBuff.buffer
      ensures Valid() && writeBuff.buffer == old(writeBuff.buffer)
      ensures Response() == old(Response())
      ensures errno == if answer.Failed? then answer.errno else old(errno)
      ensures len == if answer.Failed? then -1 else Min(answer.value, old(|rest|))
      ensures |rest| == LeftBy(old(|rest|), answer) && ToWriteBytes() == ToInt32(|rest|)
      ensures len <= 0 ==> wire == old(wire) && rest == old(rest)
      ensures Explained(len, saveErrno, answer)
    {
      ToWriteIsRest();
      len := Writev(answer);
      saveErrno := 0;
      if len <= 0 {
        saveErrno := errno;
        return;
      }
      Rejoin(old(wire), rest, len);
      Account(len);
      ToWriteIsRest();
    }

    /** `write`: `answer(k)` is what the kernel does with the k-th `writev`. Whatever
        it does, what has been sent followed by what is left is the response. An
        edge-triggered connection only stops when the kernel takes nothing: when it
        fails, when it takes zero bytes, or when the response is out. */
    method Write(answer: nat -> Transfer<nat>) returns (len: int, saveErrno: int, calls: nat)
      requires Valid()
      modifies this`wire, this`errno, this`base0, this`len0, this`base1, this`len1, this`rest
      modifies writeBuff, writeBuff.buffer
      ensures Valid() && writeBuff.buffer == old(writeBuff.buffer)
      ensures Response() == old(Response())
      ensures 0 < calls && |rest| == RestAfter(old(|rest|), answer, calls)
      ensures AllGoOn(old(|rest|), answer, calls, isET) && !GoesOn(old(|rest|), answer, calls, isET)
      ensures len == if answer(calls - 1).Failed? then -1 else RestAfter(old(|rest|), answer, calls - 1) - |rest|
      ensures Explained(len, saveErrno, answer(calls - 1))
    {
      ghost var size := |rest|;
      len, saveErrno, calls := 1, 0, 0;
      while calls == 0 || (0 < len && (isET || ToWriteBytes() > LEVEL_TRIGGERED_REST))
        invariant Valid() && writeBuff.buffer == old(writeBuff.buffer) && Response() == old(Response())
        invariant |rest| == RestAfter(size, answer, calls) && ToWriteBytes() == ToInt32(|rest|)
        invariant AllGoOn(size, answer, calls, isET)
        invariant calls == 0 ==> len == 1
        invariant 0 < calls ==>
                    && Explained(len, saveErrno, answer(calls - 1))
                    && len == if answer(calls - 1).Failed? then -1 else RestAfter(size, answer, calls - 1) - |rest|
        decreases |rest|, if calls == 0 then 2 else if 0 < len then 1 else 0
      {
        assert 0 < calls ==> GoesOn(size, answer, calls, isET);
        len, saveErrno := WriteOnce(answer(calls));
        calls := calls + 1;
      }
    }

    /** `OnWrite_`: a one-shot registration is renewed when nothing is left, or when
        the kernel asked to try again; in every other case the rest is never sent. A
        level-triggered connection ends like that whenever a write leaves from 1 to
        10240 bytes, already at the first. */
    method OnWrite(answer: nat -> Transfer<nat>) returns (next: Next, len: int, saveErrno: int)
      requires Valid()
      modifies this`wire, this`errno, this`base0, this`len0, this`base1, this`len1, this`rest
      modifies writeBuff, writeBuff.buffer
      ensures Valid() && Response() == old(Response())
      ensures next == Process <==> ToInt32(|rest|) == 0
      ensures next == Stalled <==> ToInt32(|rest|) != 0 && (0 <= len || saveErrno != 11)
      ensures !isET && 0 < len && 0 < |rest| < 0x8000_0000 ==> next == Stalled && |rest| <= 10240
      ensures var left := LeftBy(old(|rest|), answer(0));
              !isET && answer(0).Done? && 0 < left <= 10240 ==> next == Stalled && |rest| == left
    {
      var calls;
      ghost var size := |rest|;
      len, saveErrno, calls := Write(answer);
      ToWriteIsRest();
      assert RestAfter(size, answer, 1) == LeftBy(RestAfter(size, answer, 0), answer(0)) == LeftBy(size, answer(0));
      if !isET && ToInt32(RestAfter(size, answer, 1)) <= 10240 {
        StopsFirst(size, answer, calls, isET);
      }
      if ToWriteBytes() == 0 {
        return Process, len, saveErrno;
      }
      if len < 0 && saveErrno == EAGAIN {
        return AwaitWritable, len, saveErrno;
      }
      return Stalled, len, saveErrno;
    }

    /** When nothing was taken, the last call failed with the reason in `errno`, or took
        nothing, for want of bytes or not. */
    ghost predicate Explained(len: int, saveErrno: int, last: Transfer<nat>)
      reads this`errno, this`rest
    {
      len <= 0 ==>
        && saveErrno == errno
        && if last.Failed? then errno == last.errno else len == 0 && (last.value == 0 || rest == [])
    }
  }

  lemma {:induction false} StopsFirst(size: nat, answer: nat -> Transfer<nat>, n: nat, isET: bool)
    requires 0 < n && AllGoOn(size, answer, n, isET) && !GoesOn(size, answer, 1, isET)
    ensures n == 1
  {
    if 2 < n {
      StopsFirst(size, answer, n - 1, isET);
    }
  }

  lemma Rejoin(before: string, s: string, n: nat)
    requires n <= |s|
    ensures before + s[..n] + s[n..] == before + s
  {
  }

  lemma DropFront(head: string, tail: string, n: nat)
    requires n <= |head + tail|
    ensures (head + tail)[n..] == if n > |head| then tail[n - |head|..] else head[n..] + tail
  {
  }
}
