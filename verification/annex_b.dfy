/**
 code/rtp/h264parser.cpp: cutting a byte stream in the format of Annex B of
 ITU-T H.264 into frames, each a start code and the NAL unit that follows it.
 */
module AnnexB {

  type Byte = b: int | 0 <= b < 256
  type Bytes = seq<Byte>

  predicate ThreeAt(s: Bytes, p: nat) {
    p + 3 <= |s| && s[p] == 0 && s[p + 1] == 0 && s[p + 2] == 1
  }

  predicate FourAt(s: Bytes, p: nat) {
    p + 4 <= |s| && s[p] == 0 && s[p + 1] == 0 && s[p + 2] == 0 && s[p + 3] == 1
  }

  predicate CodeAt(s: Bytes, p: nat) {
    ThreeAt(s, p) || FourAt(s, p)
  }

  /** The first start code at or after `p`; |s| when there is none. */
  function NextCode(s: Bytes, p: nat): (q: nat)
    requires p <= |s|
    ensures p <= q <= |s|
    ensures q < |s| ==> CodeAt(s, q)
    ensures forall r :: p <= r < q ==> !CodeAt(s, r)
    decreases |s| - p
  {
    if p == |s| || CodeAt(s, p) then p else NextCode(s, p + 1)
  }

  lemma NextCodeIsLeast(s: Bytes, p: nat, q: nat)
    requires p <= q < |s| && CodeAt(s, q)
    requires forall r :: p <= r < q ==> !CodeAt(s, r)
    ensures NextCode(s, p) == q
  {
  }

  lemma NextCodeNone(s: Bytes, p: nat)
    requires p <= |s|
    requires forall r :: p <= r < |s| ==> !CodeAt(s, r)
    ensures NextCode(s, p) == |s|
  {
  }

  /** What one call of `get_next_frame` finds at the front of the unread bytes. */
  datatype Fetched = Frame(size: nat) | Done | Malformed

  /** `rest` is the unread part of the file and `slack` the three bytes of memory
      behind it: with two bytes or less after the first three, the search's last
      test reads into `slack`. */
  function Fetch(rest: Bytes, slack: Bytes): (f: Fetched)
    ensures f.Frame? ==> 3 <= f.size <= |rest| && CodeAt(rest[..f.size], 0)
  {
    if rest == [] then Done
    else if !CodeAt(rest, 0) then Malformed
    else
      var q := NextCode(rest, 3);
      if q < |rest| then Frame(q) else if ThreeAt(rest + slack, 3) then Frame(3) else Done
  }

  /** The frames that repeated calls return. */
  function Frames(rest: Bytes, slack: Bytes): (frames: seq<Bytes>)
    ensures forall f :: f in frames ==> 3 <= |f| && CodeAt(f, 0)
    decreases |rest|
  {
    match Fetch(rest, slack)
    case Frame(size) =>
      [rest[..size]] + Frames(rest[size..], slack)
    case _ => []
  }

  /** What is unread when they stop, and how they stop. */
  function Unread(rest: Bytes, slack: Bytes): Bytes
    decreases |rest|
  {
    match Fetch(rest, slack)
    case Frame(size) => Unread(rest[size..], slack)
    case _ => rest
  }

  function Ending(rest: Bytes, slack: Bytes): Fetched
    decreases |rest|
  {
    match Fetch(rest, slack)
    case Frame(size) => Ending(rest[size..], slack)
    case f => f
  }

  /** The search starts three bytes on, and its last test reads memory, not the file. */
  lemma ReadAhead(mem: Bytes, cur: nat, end: nat)
    requires cur + 3 <= end && end + 3 == |mem|
    ensures mem[cur..end][3..] == mem[cur + 3..end]
    ensures ThreeAt(mem[cur + 3..], 0) <==> ThreeAt(mem[cur..end] + mem[end..], 3)
  {
  }

  /** What `find_next_start_code` answers three bytes on decides the fetch. */
  lemma FoundIsFetched(mem: Bytes, cur: nat, end: nat, found: int)
    requires cur + 3 <= end && end + 3 == |mem| && CodeAt(mem[cur..end], 0)
    requires found == Found(mem, cur + 3, end)
    ensures Fetch(mem[cur..end], mem[end..]) == if found < 0 then Done else Frame(found - cur)
  {
    ReadAhead(mem, cur, end);
    NextCodeOfTail(mem[cur..end], 3);
  }

  /** The position of the first start code in memory from `at` to `end`, or -1. */
  function Found(mem: Bytes, at: nat, end: nat): (found: int)
    requires at <= end <= |mem|
    ensures found == -1 || at <= found <= end
  {
    var q := NextCode(mem[at..end], 0);
    if q < end - at then at + q else if ThreeAt(mem[at..], 0) then at else -1
  }

  lemma CutAt(mem: Bytes, cur: nat, end: nat, n: nat)
    requires cur + n <= end <= |mem|
    ensures mem[cur..end][..n] == mem[cur..cur + n] && mem[cur..end][n..] == mem[cur + n..end]
  {
  }

  /** Reading on past one frame. */
  lemma FramesStep(rest: Bytes, slack: Bytes, size: nat)
    requires Fetch(rest, slack) == Frame(size)
    ensures Frames(rest, slack) != [] && Frames(rest, slack)[0] == rest[..size]
    ensures Frames(rest, slack)[1..] == Frames(rest[size..], slack)
    ensures Unread(rest, slack) == Unread(rest[size..], slack)
    ensures Ending(rest, slack) == Ending(rest[size..], slack)
  {
  }

  /** Where less than four bytes are left, only a three-byte code can still come. */
  lemma LastChance(s: Bytes, i: nat)
    requires i == if |s| < 3 then 0 else |s| - 3
    requires forall r :: 0 <= r < i ==> !CodeAt(s, r)
    ensures NextCode(s, 0) == if 3 <= |s| && ThreeAt(s, i) then i else |s|
  {
    if 3 <= |s| && ThreeAt(s, i) {
      NextCodeIsLeast(s, 0, i);
    } else {
      NextCodeNone(s, 0);
    }
  }

  class H264Parser {
    /** The mapped file, and the memory that follows it. */
    const mem: Bytes
    const fileSize: nat
    var cur: nat

    ghost predicate Valid()
      reads this
    {
      fileSize + 3 == |mem| && cur <= fileSize
    }

    ghost function Rest(): Bytes
      requires Valid()
      reads this
    {
      mem[cur..fileSize]
    }

    ghost function Slack(): Bytes
      requires Valid()
      reads this
    {
      mem[fileSize..]
    }

    /** Mapping an empty file fails, and the source asserts that it does not. */
    constructor (file: Bytes, slack: Bytes)
      requires file != [] && |slack| == 3
      ensures Valid() && Rest() == file && Slack() == slack
    {
      mem, fileSize, cur := file + slack, |file|, 0;
    }

    /** `is_start_code` on the memory at `at`; `len` is the length the caller vouches for. */
    predicate IsStartCode(at: nat, len: int, kind: int)
      requires kind == 3 && 3 <= len ==> at + 3 <= |mem|
      requires kind == 4 && 4 <= len ==> at + 4 <= |mem|
    {
      if kind == 3 then len >= 3 && mem[at] == 0 && mem[at + 1] == 0 && mem[at + 2] == 1
      else if kind == 4 then len >= 4 && mem[at] == 0 && mem[at + 1] == 0 && mem[at + 2] == 0 && mem[at + 3] == 1
      else false
    }

    /** The position of the next start code in the last `len` bytes of the file, or -1. */
    method FindNextStartCode(at: nat, len: nat) returns (found: int)
      requires Valid() && at + len == fileSize
      ensures found == Found(mem, at, fileSize)
    {
      ghost var tail := mem[at..fileSize];
      var i := 0;
      while i < len - 3
        invariant 0 <= i <= if len < 3 then 0 else len - 3
        invariant forall r :: 0 <= r < i ==> !CodeAt(tail, r)
      {
        if IsStartCode(at + i, len - i, 3) || IsStartCode(at + i, len - i, 4) {
          NextCodeIsLeast(tail, 0, i);
          return at + i;
        }
        i := i + 1;
      }
      LastChance(tail, i);
      assert 3 <= len ==> (IsStartCode(at + i, 3, 3) <==> ThreeAt(tail, i));
      return if IsStartCode(at + i, 3, 3) then at + i else -1;
    }

    /** `size` is that of the source: positive for a frame, 0 at the end, -1 for a
        file that does not go on with a start code. */
    method GetNextFrame() returns (start: nat, size: int)
      requires Valid()
      modifies this
      ensures Valid() && Slack() == old(Slack())
      ensures match Fetch(old(Rest()), Slack())
              case Frame(n) => size == n && start == old(cur) && start + n <= fileSize
                               && mem[start..start + n] == old(Rest())[..n] && Rest() == old(Rest())[n..]
              case Done => size == 0 && Rest() == old(Rest())
              case Malformed => size == -1 && Rest() == old(Rest())
    {
      var remain := fileSize - cur;
      if remain == 0 {
        return 0, 0;
      }
      if !IsStartCode(cur, remain, 4) && !IsStartCode(cur, remain, 3) {
        return 0, -1;
      }
      var found := FindNextStartCode(cur + 3, remain - 3);
      FoundIsFetched(mem, cur, fileSize, found);
      if found < 0 {
        return 0, 0;
      }
      start, size := cur, found - cur;
      CutAt(mem, cur, fileSize, size);
      cur := cur + size;
    }
  }

  /** Searching a tail is searching from where it starts. */
  lemma {:induction false} NextCodeOfTail(s: Bytes, p: nat)
    requires p <= |s|
    ensures NextCode(s[p..], 0) + p == NextCode(s, p)
  {
    var q := NextCode(s, p);
    forall r | 0 <= r < q - p ensures !CodeAt(s[p..], r) {
      assert !CodeAt(s, p + r);
    }
    if q < |s| {
      assert CodeAt(s[p..], q - p);
      NextCodeIsLeast(s[p..], 0, q - p);
    } else {
      NextCodeNone(s[p..], 0);
    }
  }

  function Concat(frames: seq<Bytes>): Bytes {
    if frames == [] then [] else frames[0] + Concat(frames[1..])
  }

  lemma ConcatFirst(frames: seq<Bytes>)
    requires frames != []
    ensures Concat(frames) == frames[0] + Concat(frames[1..])
  {
  }

  /** Nothing is lost, repeated or reordered: the frames followed by what is
      unread are the file. */
  lemma {:induction false} FramesTile(rest: Bytes, slack: Bytes)
    ensures Concat(Frames(rest, slack)) + Unread(rest, slack) == rest
    decreases |rest|
  {
    var f := Fetch(rest, slack);
    if f.Frame? {
      var head, tail := rest[..f.size], rest[f.size..];
      FramesTile(tail, slack);
      FramesStep(rest, slack, f.size);
      ConcatFirst(Frames(rest, slack));
      Rejoin(head, Concat(Frames(tail, slack)), Unread(tail, slack), rest);
    }
  }

  lemma Rejoin(head: Bytes, middle: Bytes, end: Bytes, whole: Bytes)
    requires |head| <= |whole| && head == whole[..|head|] && middle + end == whole[|head|..]
    ensures head + middle + end == whole
  {
  }

  /** The memory behind the file completes a start code that the file's last zeros begin. */
  predicate Stray(slack: Bytes)
    requires |slack| == 3
  {
    slack[0] == 1 || (slack[0] == 0 && (slack[1] == 1 || (slack[1] == 0 && slack[2] == 1)))
  }

  /** The search's reads past the end go unnoticed on every file exactly when the
      memory there completes no start code. (The end of a mapped page is zero
      filled, so only a file that fills its last page can fail.) */
  lemma SlackMatters(slack: Bytes)
    requires |slack| == 3
    ensures (forall rest :: Fetch(rest, slack) == Fetch(rest, [])) <==> !Stray(slack)
  {
    if Stray(slack) {
      var zeros := if slack[0] == 1 then 2 else if slack[1] == 1 then 1 else 0;
      var rest: Bytes := [0, 0, 1] + seq(zeros, _ => 0);
      NextCodeNone(rest, 3);
      assert ThreeAt(rest + slack, 3) && !ThreeAt(rest + [], 3);
      assert Fetch(rest, slack) == Frame(3) && Fetch(rest, []) == Done;
    } else {
      forall rest: Bytes ensures Fetch(rest, slack) == Fetch(rest, []) {
      }
    }
  }

  /** The memory behind the file begins with a 1, perhaps behind one 0: then a start
      code may reach out of the file with file bytes behind where it begins. */
  predicate Overhanging(slack: Bytes)
    requires |slack| == 3
  {
    slack[0] == 1 || (slack[0] == 0 && slack[1] == 1)
  }

  lemma MalformedStep(rest: Bytes, slack: Bytes, size: nat)
    requires |slack| == 3 && !Overhanging(slack) && Fetch(rest, slack) == Frame(size)
    ensures rest[size..] == [] || CodeAt(rest[size..], 0)
  {
    if NextCode(rest, 3) < |rest| {
      assert CodeAt(rest, size);
    }
  }

  /** After a frame the unread bytes begin with a start code, or there are none; so
      failing for want of one can only happen on the first call. */
  lemma {:induction false} MalformedOnlyAtFirst(rest: Bytes, slack: Bytes)
    requires |slack| == 3 && !Overhanging(slack)
    ensures Ending(rest, slack).Malformed? <==> rest != [] && !CodeAt(rest, 0)
    ensures Ending(rest, slack).Malformed? ==> Frames(rest, slack) == []
    decreases |rest|
  {
    match Fetch(rest, slack)
    case Frame(size) =>
      MalformedStep(rest, slack, size);
      MalformedOnlyAtFirst(rest[size..], slack);
      assert CodeAt(rest[..size], 0);
    case _ =>
  }

  /** That holds of every file exactly when the memory behind it does not overhang. */
  lemma MalformedFirstIff(slack: Bytes)
    requires |slack| == 3
    ensures (forall rest :: Ending(rest, slack).Malformed? ==> Frames(rest, slack) == []) <==> !Overhanging(slack)
  {
    if Overhanging(slack) {
      var tail: Bytes := if slack[0] == 1 then [0, 0] else [0];
      var rest: Bytes := [0, 0, 1] + tail;
      NextCodeNone(rest, 3);
      assert ThreeAt(rest + slack, 3);
      assert Fetch(rest, slack) == Frame(3) && rest[3..] == tail;
      assert Fetch(tail, slack) == Malformed;
      FramesStep(rest, slack, 3);
      assert Ending(rest, slack).Malformed?;
    } else {
      forall rest: Bytes | Ending(rest, slack).Malformed? ensures Frames(rest, slack) == [] {
        MalformedOnlyAtFirst(rest, slack);
      }
    }
  }

  /** A NAL unit as Annex B writes it: after a start code of either length. */
  datatype Unit = Unit(long: bool, nal: Bytes)

  function CodeOf(long: bool): Bytes {
    if long then [0, 0, 0, 1] else [0, 0, 1]
  }

  function UnitBytes(u: Unit): Bytes {
    CodeOf(u.long) + u.nal
  }

  lemma UnitBytesAre(nal: Bytes)
    ensures UnitBytes(Unit(true, nal)) == [0, 0, 0, 1] + nal && UnitBytes(Unit(false, nal)) == [0, 0, 1] + nal
  {
  }

  function Stream(units: seq<Unit>): Bytes {
    if units == [] then [] else UnitBytes(units[0]) + Stream(units[1..])
  }

  /** What section 7.4.1 of ITU-T H.264 asks of a NAL unit's bytes. */
  ghost predicate Plain(nal: Bytes) {
    (forall p: nat :: !ThreeAt(nal, p)) && (nal != [] ==> nal[|nal| - 1] != 0)
  }

  /** The first start code behind a unit is that of the next one. */
  lemma CodeBehindUnit(u: Unit, tail: Bytes)
    requires Plain(u.nal) && (tail == [] || CodeAt(tail, 0))
    ensures NextCode(UnitBytes(u) + tail, 3) == |UnitBytes(u)|
  {
    var s, n, c := UnitBytes(u) + tail, |UnitBytes(u)|, |CodeOf(u.long)|;
    forall r | 3 <= r < n ensures !CodeAt(s, r) {
      if c <= r {
        assert s[r] == u.nal[r - c] && s[n - 1] == u.nal[n - 1 - c];
        assert !ThreeAt(u.nal, r - c) && !ThreeAt(u.nal, r - c + 1);
      }
    }
    if tail != [] {
      assert CodeAt(s, n);
      NextCodeIsLeast(s, 3, n);
    } else {
      NextCodeNone(s, 3);
    }
  }

  /** What the parser finds at the front of a stream: its first unit, or, when that
      is the last, the end. */
  lemma FetchUnit(units: seq<Unit>, slack: Bytes)
    requires |slack| == 3 && units != [] && forall i :: 0 <= i < |units| ==> Plain(units[i].nal)
    requires units[|units| - 1].nal != [] || !ThreeAt(slack, 0)
    ensures var s, n := Stream(units), |UnitBytes(units[0])|;
            && n <= |s| && s[..n] == UnitBytes(units[0]) && s[n..] == Stream(units[1..])
            && Fetch(s, slack) == if |units| == 1 then Done else Frame(n)
  {
    var u, later := units[0], units[1..];
    var s, n := Stream(units), |UnitBytes(u)|;
    assert CodeAt(s, 0);
    assert later != [] ==> CodeAt(Stream(later), 0);
    CodeBehindUnit(u, Stream(later));
    if later == [] {
      assert u.nal != [] ==> s[n - 1] == u.nal[|u.nal| - 1];
      assert !ThreeAt(s + slack, 3);
    }
  }

  /** Iterating `get_next_frame` over an Annex B stream gives back every unit with
      its start code, in order, except the last, which it never returns. */
  lemma {:induction false} AnnexBRoundTrip(units: seq<Unit>, slack: Bytes)
    requires |slack| == 3 && units != [] && forall i :: 0 <= i < |units| ==> Plain(units[i].nal)
    requires units[|units| - 1].nal != [] || !ThreeAt(slack, 0)
    ensures var frames := Frames(Stream(units), slack);
            |frames| == |units| - 1 && forall i :: 0 <= i < |frames| ==> frames[i] == UnitBytes(units[i])
    decreases |units|
  {
    FetchUnit(units, slack);
    if 1 < |units| {
      var s, n, later := Stream(units), |UnitBytes(units[0])|, units[1..];
      FramesStep(s, slack, n);
      AnnexBRoundTrip(later, slack);
      assert Frames(s, slack) == [UnitBytes(units[0])] + Frames(Stream(later), slack);
    }
  }

  /** The last unit stays unread, and the parser reports the end. */
  lemma {:induction false} LastUnitUnread(units: seq<Unit>, slack: Bytes)
    requires |slack| == 3 && units != [] && forall i :: 0 <= i < |units| ==> Plain(units[i].nal)
    requires units[|units| - 1].nal != [] || !ThreeAt(slack, 0)
    ensures Unread(Stream(units), slack) == UnitBytes(units[|units| - 1])
    ensures Ending(Stream(units), slack) == Done
    decreases |units|
  {
    FetchUnit(units, slack);
    if 1 < |units| {
      FramesStep(Stream(units), slack, |UnitBytes(units[0])|);
      LastUnitUnread(units[1..], slack);
    } else {
      assert Stream(units) == UnitBytes(units[0]) + Stream(units[1..]) == UnitBytes(units[0]);
    }
  }
}
