/**
 code/timer/heaptimer.cpp: an indexed binary min-heap of connection deadlines.

 Clock readings are integers in nanoseconds and are passed in; timeouts are in
 milliseconds, as in the source.
 */
module HeapTimers {
  import opened CppInts
  import opened HeapOrder

  const NANOS_PER_MILLI: int := 1_000_000

  /** `duration_cast<MS>(...).count()`. */
  function MillisLeft(expires: int, now: int): int {
    TruncDiv(expires - now, NANOS_PER_MILLI)
  }

  /** `tick` fires a node whose remaining whole milliseconds are not positive. */
  predicate Due(expires: int, now: int) {
    MillisLeft(expires, now) <= 0
  }

  /** `tick` part way through: it has fired `fired`, in that order, node `k` at
      clock reading `k`, and `after` is left of the timers `before`. */
  ghost predicate TickSoFar(before: map<int, Deadline>, fired: seq<TimerNode>, after: map<int, Deadline>,
                            clock: nat -> int)
  {
    && (forall k :: 0 <= k < |fired| ==>
          && fired[k].id in before && before[fired[k].id] == Deadline(fired[k].expires, fired[k].cb)
          && Due(fired[k].expires, clock(k)))
    && (forall j, k :: 0 <= j < k < |fired| ==> fired[j].id != fired[k].id && fired[j].expires <= fired[k].expires)
    && after == before - FiredIds(fired)
    && (forall id, k :: id in after && 0 <= k < |fired| ==> fired[k].expires <= after[id].expires)
  }

  /** What one call of `tick` does: nothing that is left was due at the last reading. */
  ghost predicate TickRun(before: map<int, Deadline>, fired: seq<TimerNode>, after: map<int, Deadline>,
                          clock: nat -> int)
  {
    && TickSoFar(before, fired, after, clock)
    && forall id :: id in after ==> !Due(after[id].expires, clock(|fired|))
  }

  ghost function FiredIds(fired: seq<TimerNode>): set<int> {
    set k | 0 <= k < |fired| :: fired[k].id
  }

  /** Firing the earliest of the timers that are left, when due, goes on with the tick. */
  lemma TickStep(before: map<int, Deadline>, fired: seq<TimerNode>, after: map<int, Deadline>, clock: nat -> int,
                 node: TimerNode)
    requires TickSoFar(before, fired, after, clock) && IsEarliest(after, node.id)
    requires after[node.id] == Deadline(node.expires, node.cb) && Due(node.expires, clock(|fired|))
    ensures TickSoFar(before, fired + [node], after - {node.id}, clock)
  {
  }

  /** The value `GetNextTick` returns when `timers` are live at the reading `now`. */
  ghost predicate IsNextWait(timers: map<int, Deadline>, res: int, now: int) {
    if timers == map[] then res == -1
    else exists id :: IsEarliest(timers, id) && res == ToInt32(MillisLeft(timers[id].expires, now))
  }

  /** `tick`, from the k-th reading of the clock on, stays inside the vector. */
  predicate TickStays(h: seq<TimerNode>, clock: nat -> int, k: nat)
    decreases |h|
  {
    h == [] || !Due(h[0].expires, clock(k)) || (PopStays(h) && TickStays(Popped(h), clock, k + 1))
  }

  /** `tick` does not abort: where it leaves the vector it gets a lucky answer. */
  predicate Survives(h: seq<TimerNode>, clock: nat -> int, k: nat, stray: nat -> bool, strays: nat)
    decreases |h|
  {
    || h == [] || !Due(h[0].expires, clock(k))
    || (if PopStays(h) then Survives(Popped(h), clock, k + 1, stray, strays)
        else stray(strays) && Survives(Popped(h), clock, k + 1, stray, strays + 1))
  }

  /** Every comparison with storage outside the vector ends the loop. */
  ghost predicate Lucky(stray: nat -> bool) {
    forall n :: stray(n)
  }

  /** With lucky answers a tick always survives, and it survives whatever the answers
      are exactly when it does with unlucky ones. */
  lemma {:induction false} SurvivesByLuck(h: seq<TimerNode>, clock: nat -> int, k: nat, stray: nat -> bool, strays: nat)
    ensures Lucky(stray) || TickStays(h, clock, k) ==> Survives(h, clock, k, stray, strays)
    ensures (forall n :: !stray(n)) ==> (Survives(h, clock, k, stray, strays) <==> TickStays(h, clock, k))
    decreases |h|
  {
    if h != [] {
      SurvivesByLuck(Popped(h), clock, k + 1, stray, if PopStays(h) then strays else strays + 1);
    }
  }

  /** How many timers it fires then. */
  function Fires(h: seq<TimerNode>, clock: nat -> int, k: nat): (n: nat)
    ensures n <= |h|
    decreases |h|
  {
    if h == [] || !Due(h[0].expires, clock(k)) then 0 else 1 + Fires(Popped(h), clock, k + 1)
  }

  /** Adding timer `id` with this deadline stays inside the vector. */
  ghost predicate AddStays(timers: map<int, Deadline>, ref: map<int, nat>, h: seq<TimerNode>, id: int, expires: int)
    requires Represents(timers, ref, h)
  {
    if id in ref then Settles(h[ref[id] := h[ref[id]].(expires := expires)], |h|, ref[id])
    else exists e :: e in timers && timers[e].expires < expires
  }

  /** In a caller's terms, when no live deadline lies behind the new one: another
      timer expires strictly earlier, or the timer to overwrite has a child in the
      heap. */
  lemma AddStaysIff(timers: map<int, Deadline>, ref: map<int, nat>, h: seq<TimerNode>, id: int, expires: int)
    requires Represents(timers, ref, h) && HeapOrdered(h, |h|)
    requires forall e :: e in timers ==> timers[e].expires <= expires
    ensures AddStays(timers, ref, h, id, expires) <==>
            || (exists e :: e in timers && e != id && timers[e].expires < expires)
            || (id in ref && 2 * ref[id] + 1 < |h|)
  {
    if id in ref {
      OverwriteSettlesIff(timers, ref, h, id, h[ref[id]].(expires := expires));
    }
  }

  /** When all live deadlines lie before the new one, only another timer matters. */
  lemma AddStaysRising(timers: map<int, Deadline>, ref: map<int, nat>, h: seq<TimerNode>, id: int, expires: int)
    requires Represents(timers, ref, h) && HeapOrdered(h, |h|)
    requires forall e :: e in timers ==> timers[e].expires < expires
    ensures AddStays(timers, ref, h, id, expires) <==> exists e :: e in timers && e != id
  {
    AddStaysIff(timers, ref, h, id, expires);
    if id in ref && 2 * ref[id] + 1 < |h| {
      assert h[2 * ref[id] + 1].id in timers && h[2 * ref[id] + 1].id != id;
    }
  }

  /** A lone client that comes back on its old descriptor: its timer is overwritten,
      and without a lucky answer the program aborts. */
  lemma LoneReconnectAborts(expires: int, later: int)
    requires expires <= later
    ensures var h := [TimerNode(5, expires, 5)];
            Represents(map[5 := Deadline(expires, 5)], map[5 := 0], h)
            && !AddStays(map[5 := Deadline(expires, 5)], map[5 := 0], h, 5, later)
  {
  }

  class HeapTimer {
    var heap: seq<TimerNode>
    var ref: map<int, nat>
    /** The timers that the heap stands for. */
    ghost var timers: map<int, Deadline>

    /** `siftup_` never stops at the root: `j` is unsigned, so `j >= 0` holds
        always and `(0 - 1) / 2` is 2^63 - 1. The comparison it then makes reads
        storage outside the vector, which C++ leaves undefined. `stray(n)` is the
        answer that the n-th such comparison happens to get: true ends the loop,
        as was meant; false runs into `SwapNode_`'s assertion, which aborts. */
    const stray: nat -> bool
    /** How many of them there have been. */
    var strays: nat

    ghost predicate Valid()
      reads this
    {
      Represents(timers, ref, heap) && HeapOrdered(heap, |heap|)
    }

    constructor (stray: nat -> bool)
      ensures Valid() && timers == map[] && this.stray == stray && strays == 0
    {
      heap, ref, timers, strays := [], map[], map[], 0;
      this.stray := stray;
    }

    method SwapNode(i: nat, j: nat)
      requires i < |heap| && j < |heap| && Represents(timers, ref, heap)
      modifies this`heap, this`ref
      ensures heap == Exchange(old(heap), i, j) && Represents(timers, ref, heap)
    {
      ExchangeRepresents(timers, heap, ref, i, j);
      heap := Exchange(heap, i, j);
      ref := ref[heap[i].id := i];
      ref := ref[heap[j].id := j];
    }

    /** Moves node `index` up to its place; `ok` is false when the program aborts.
        `n` is the length of the prefix that is to be a heap. */
    method SiftUp(index: nat, ghost n: nat) returns (ok: bool)
      requires index < n <= |heap| && Represents(timers, ref, heap)
      requires OrderedAround(heap, n, index) && Leads(heap, n, index)
      modifies this`heap, this`ref, this`strays
      ensures ok <==> !ClimbsOut(old(heap), index) || stray(old(strays))
      ensures strays == old(strays) + if ClimbsOut(old(heap), index) then 1 else 0
      ensures Represents(timers, ref, heap)
      ensures SameFrom(old(heap), heap, n) && HeapOrdered(heap, n) && (index == 0 ==> heap == old(heap))
    {
      var i := index;
      while true
        invariant strays == old(strays) && 0 <= i <= index && SameFrom(old(heap), heap, n)
        invariant Represents(timers, ref, heap)
        invariant OrderedAround(heap, n, i) && Leads(heap, n, i) && heap[i] == old(heap)[index]
        invariant 0 < i ==> heap[0] == old(heap)[0]
        invariant i == 0 ==> ClimbsOut(old(heap), index)
        invariant i == index ==> heap == old(heap)
        decreases i
      {
        if i == 0 {
          OrderRestored(heap, n, i);
          strays := strays + 1;
          return stray(strays - 1);
        }
        var j := Parent(i);
        if heap[j].expires < heap[i].expires {
          RootIsEarliest(heap, j + 1, j);
          OrderRestored(heap, n, i);
          return true;
        }
        ClimbStep(heap, n, i);
        ExchangeSameFrom(old(heap), heap, n, i, j);
        SwapNode(i, j);
        i := j;
      }
    }

    /** Moves node `index` down within the first `n` nodes. */
    method SiftDown(index: nat, n: nat) returns (moved: bool)
      requires index < n <= |heap| && Represents(timers, ref, heap) && OrderedAround(heap, n, index)
      modifies this`heap, this`ref
      ensures moved == Sinks(old(heap), n, index) && heap == Sunk(old(heap), n, index)
      ensures Represents(timers, ref, heap) && SameFrom(old(heap), heap, n)
      ensures moved ==> HeapOrdered(heap, n)
      ensures !moved ==> heap == old(heap) && ref == old(ref) && Leads(heap, n, index)
    {
      var i, j := index, index * 2 + 1;
      while j < n
        invariant index <= i < n && j == i * 2 + 1
        invariant Represents(timers, ref, heap) && SameFrom(old(heap), heap, n)
        invariant OrderedAround(heap, n, i)
        invariant i == index ==> heap == old(heap) && ref == old(ref)
        invariant Sunk(heap, n, i) == Sunk(old(heap), n, index)
        invariant index < i ==> Sinks(old(heap), n, index) && heap[Parent(i)].expires <= heap[i].expires
        decreases n - i
      {
        j := EarlierChild(i, n);
        PickedChildIsLeast(heap, n, i);
        if heap[i].expires < heap[j].expires {
          break;
        }
        SinkStep(heap, n, i, j);
        ExchangeSameFrom(old(heap), heap, n, i, j);
        SwapNode(i, j);
        i := j;
        j := i * 2 + 1;
      }
      StuckLeads(heap, n, i);
      if i > index {
        OrderRestored(heap, n, i);
      }
      return i > index;
    }

    method EarlierChild(i: nat, n: nat) returns (j: nat)
      requires i < n <= |heap| && 2 * i + 1 < n
      ensures j == PickedChild(heap, n, i)
    {
      j := i * 2 + 1;
      if j + 1 < n && heap[j + 1].expires < heap[j].expires {
        j := j + 1;
      }
    }

    /** Re-seats node `i`, whose key may have changed either way. */
    method Reseat(i: nat, n: nat) returns (ok: bool)
      requires i < n <= |heap| && Represents(timers, ref, heap) && OrderedAround(heap, n, i)
      modifies this`heap, this`ref, this`strays
      ensures ok <==> Settles(old(heap), n, i) || stray(old(strays))
      ensures strays == old(strays) + if Settles(old(heap), n, i) then 0 else 1
      ensures Represents(timers, ref, heap) && SameFrom(old(heap), heap, n) && HeapOrdered(heap, n)
      ensures i == 0 ==> heap == Sunk(old(heap), n, 0)
    {
      var moved := SiftDown(i, n);
      ok := true;
      if !moved {
        ok := SiftUp(i, n);
      }
    }

    /** Inserts timer `id`, or overwrites it. */
    method Add(id: int, timeout: int, cb: Callback, now: int) returns (ok: bool)
      requires Valid() && 0 <= id
      modifies this
      ensures ok ==> Valid() && timers == old(timers)[id := Deadline(now + timeout * NANOS_PER_MILLI, cb)]
      ensures var stays := old(AddStays(timers, ref, heap, id, now + timeout * NANOS_PER_MILLI));
              (ok <==> stays || stray(old(strays))) && strays == old(strays) + if stays then 0 else 1
    {
      var node := TimerNode(id, now + timeout * NANOS_PER_MILLI, cb);
      if id !in ref {
        AppendKeepsOrderAround(timers, heap, ref, node);
        AppendRepresents(timers, heap, ref, node);
        var i := |heap|;
        ref := ref[id := i];
        heap := heap + [node];
        timers := timers[id := Deadline(node.expires, cb)];
        ok := SiftUp(i, |heap|);
      } else {
        var i := ref[id];
        RekeyRepresents(timers, heap, ref, i, node);
        RekeyKeepsOrderAround(heap, i, node);
        heap := heap[i := node];
        timers := timers[id := Deadline(node.expires, cb)];
        ok := Reseat(i, |heap|);
      }
    }

    /** Removes the node at `index`: exactly its timer goes. */
    method Del(index: nat) returns (ok: bool)
      requires Valid() && index < |heap|
      modifies this
      ensures ok ==> Valid() && timers == old(timers) - {old(heap)[index].id} && |heap| == old(|heap|) - 1
      ensures ok <==> DelStays(old(heap), index) || stray(old(strays))
      ensures strays == old(strays) + if DelStays(old(heap), index) then 0 else 1
      ensures ok && index == 0 ==> heap == Popped(old(heap))
    {
      var i, n := index, |heap| - 1;
      ok := true;
      if i < n {
        ok := ToBack(i);
        if !ok {
          return;
        }
      }
      DropLast();
    }

    /** Exchanges node `i` with the last and puts the rest in order. */
    method ToBack(i: nat) returns (ok: bool)
      requires Valid() && i < |heap| - 1
      modifies this`heap, this`ref, this`strays
      ensures |heap| == old(|heap|) && heap[|heap| - 1] == old(heap)[i]
      ensures ok <==> DelStays(old(heap), i) || stray(old(strays))
      ensures strays == old(strays) + if DelStays(old(heap), i) then 0 else 1
      ensures Represents(timers, ref, heap) && HeapOrdered(heap, |heap| - 1)
      ensures i == 0 ==> heap == Sunk(Exchange(old(heap), 0, |heap| - 1), |heap| - 1, 0)
    {
      ExchangeWithLast(heap, i);
      var n := |heap| - 1;
      ghost var stays := DelStays(heap, i);
      SwapNode(i, n);
      assert Settles(heap, n, i) == stays;
      ok := Reseat(i, n);
    }

    /** The last node goes, and its timer with it. */
    method DropLast()
      requires heap != [] && Represents(timers, ref, heap) && HeapOrdered(heap, |heap| - 1)
      modifies this`heap, this`ref, this`timers
      ensures Valid() && heap == old(heap)[..old(|heap|) - 1]
      ensures timers == old(timers) - {old(heap)[old(|heap|) - 1].id}
    {
      var n := |heap| - 1;
      DropLastRepresents(timers, heap, ref, n);
      timers := timers - {heap[n].id};
      ref := ref - {heap[n].id};
      heap := heap[..n];
    }

    /** Runs the callback of timer `id`, if there is one, and removes it. */
    method DoWork(id: int) returns (called: seq<Callback>, ok: bool)
      requires Valid()
      modifies this
      ensures called == if id in old(timers) then [old(timers)[id].cb] else []
      ensures ok ==> Valid() && timers == old(timers) - {id}
      ensures ok <==> id !in old(timers) || DelStays(old(heap), old(ref)[id]) || stray(old(strays))
    {
      if heap == [] || id !in ref {
        RootIsEarliestTimer(timers, heap, ref);
        assert timers == timers - {id};
        return [], true;
      }
      var i := ref[id];
      called := [heap[i].cb];
      ok := Del(i);
    }

    /** Sets the deadline of timer `id`. Only `siftdown_` runs, so the result is a
        heap exactly when the new deadline is not earlier than the parent's. */
    method Adjust(id: int, timeout: int, now: int)
      requires Valid() && id in ref
      modifies this
      ensures Represents(timers, ref, heap)
      ensures timers == old(timers)[id := Deadline(now + timeout * NANOS_PER_MILLI, old(timers)[id].cb)]
      ensures Valid() <==> old(ref)[id] == 0
                           || old(heap)[Parent(old(ref)[id])].expires <= now + timeout * NANOS_PER_MILLI
      ensures old(timers)[id].expires <= now + timeout * NANOS_PER_MILLI ==> Valid()
    {
      var i := ref[id];
      var node := heap[i].(expires := now + timeout * NANOS_PER_MILLI);
      assert timers[id] == Deadline(heap[i].expires, heap[i].cb);
      RekeyRepresents(timers, heap, ref, i, node);
      RekeyKeepsOrderAround(heap, i, node);
      OnlySinking(heap, i, node);
      heap := heap[i := node];
      timers := timers[id := Deadline(node.expires, node.cb)];
      var moved := SiftDown(i, |heap|);
    }

    /** Removes the earliest timer. It is safe from the read outside the vector
        unless one timer is left, or two are and the last node's is the earlier. */
    method Pop() returns (ok: bool)
      requires Valid() && heap != []
      modifies this
      ensures ok ==> Valid() && timers == old(timers) - {old(heap)[0].id} && heap == Popped(old(heap))
      ensures ok <==> PopStays(old(heap)) || stray(old(strays))
      ensures strays == old(strays) + if PopStays(old(heap)) then 0 else 1
      ensures PopStays(old(heap)) <==>
              old(|heap|) != 2 && (old(|heap|) == 3 ==> old(heap)[1].expires <= old(heap)[2].expires)
    {
      PopStaysIff(heap);
      ok := Del(0);
    }

    method Clear()
      modifies this
      ensures Valid() && timers == map[]
    {
      ref := map[];
      heap := [];
      timers := map[];
    }

    /** One turn of `tick` that finds the front due: `fired` grows by it. */
    method FireFront(fired: seq<TimerNode>, ghost before: map<int, Deadline>, ghost clock: nat -> int)
      returns (fired': seq<TimerNode>, ok: bool)
      requires Valid() && heap != [] && TickSoFar(before, fired, timers, clock)
      requires Due(heap[0].expires, clock(|fired|))
      modifies this
      ensures fired' == fired + [old(heap)[0]]
      ensures ok ==> Valid() && |heap| < old(|heap|) && TickSoFar(before, fired', timers, clock)
      ensures Survives(old(heap), clock, |fired|, stray, old(strays))
              <==> ok && Survives(heap, clock, |fired'|, stray, strays)
    {
      RootIsEarliestTimer(timers, heap, ref);
      TickStep(before, fired, timers, clock, heap[0]);
      fired' := fired + [heap[0]];
      ok := Pop();
    }

    /** Fires what is due. `clock(k)` is the k-th reading of the clock; callbacks
        are recorded, not run, since none touches the timer. */
    method Tick(clock: nat -> int) returns (fired: seq<TimerNode>, ok: bool)
      requires Valid()
      modifies this
      ensures ok ==> Valid() && TickRun(old(timers), fired, timers, clock)
      ensures ok <==> Survives(old(heap), clock, 0, stray, old(strays))
    {
      fired, ok := [], true;
      while heap != []
        invariant ok && Valid() && TickSoFar(old(timers), fired, timers, clock)
        invariant Survives(heap, clock, |fired|, stray, strays)
                  <==> Survives(old(heap), clock, 0, stray, old(strays))
        decreases |heap|
      {
        RootIsEarliestTimer(timers, heap, ref);
        if MillisLeft(heap[0].expires, clock(|fired|)) > 0 {
          NoneDue(timers, heap[0].id, clock(|fired|));
          return;
        }
        fired, ok := FireFront(fired, old(timers), clock);
        if !ok {
          return;
        }
      }
      RootIsEarliestTimer(timers, heap, ref);
    }

    /** Runs `tick` and returns the wait for `epoll_wait`; the clock is read once
        more after the tick. */
    method GetNextTick(clock: nat -> int) returns (res: int, fired: seq<TimerNode>, ok: bool)
      requires Valid()
      modifies this
      ensures ok ==> Valid() && TickRun(old(timers), fired, timers, clock)
      ensures ok ==> IsNextWait(timers, res, clock(|fired| + 1))
      ensures ok <==> Survives(old(heap), clock, 0, stray, old(strays))
    {
      res := -1;
      fired, ok := Tick(clock);
      if ok {
        RootIsEarliestTimer(timers, heap, ref);
        if heap != [] {
          res := ToInt32(MillisLeft(heap[0].expires, clock(|fired| + 1)));
          assert IsEarliest(timers, heap[0].id) && timers[heap[0].id].expires == heap[0].expires;
        }
      }
    }
  }

  lemma MillisLeftMonotone(early: int, late: int, now: int)
    requires early <= late
    ensures MillisLeft(early, now) <= MillisLeft(late, now)
  {
  }

  /** If the earliest timer is not due, no timer is. */
  lemma NoneDue(timers: map<int, Deadline>, id: int, now: int)
    requires IsEarliest(timers, id) && !Due(timers[id].expires, now)
    ensures forall e :: e in timers ==> !Due(timers[e].expires, now)
  {
  }

  lemma DueLater(expires: int, now: int, later: int)
    requires now <= later && Due(expires, now)
    ensures Due(expires, later)
  {
  }

  /** With one clock reading for the whole tick, exactly the timers with less
      than a millisecond left fire. */
  lemma TickExact(before: map<int, Deadline>, fired: seq<TimerNode>, after: map<int, Deadline>,
                  clock: nat -> int, now: int)
    requires TickRun(before, fired, after, clock) && forall k :: clock(k) == now
    ensures FiredIds(fired) == set id | id in before && before[id].expires - now < NANOS_PER_MILLI
    ensures forall id :: id in after <==> id in before && NANOS_PER_MILLI <= before[id].expires - now
    ensures forall id :: id in after ==> after[id] == before[id]
  {
    forall id | id in before ensures id in FiredIds(fired) <==> before[id].expires - now < NANOS_PER_MILLI {
      if id in FiredIds(fired) {
        var k :| 0 <= k < |fired| && fired[k].id == id;
        assert Due(fired[k].expires, clock(k));
      } else {
        assert id in after && !Due(after[id].expires, clock(|fired|));
      }
    }
    forall id | id in FiredIds(fired) ensures id in before {
      var k :| 0 <= k < |fired| && fired[k].id == id;
    }
  }

  /** With a clock that does not run backwards, a tick fires everything that was
      due when it began, and nothing that is not due when it ends. */
  lemma TickBetween(before: map<int, Deadline>, fired: seq<TimerNode>, after: map<int, Deadline>, clock: nat -> int,
                    id: int)
    requires TickRun(before, fired, after, clock) && id in before
    requires forall j: nat, k: nat :: j <= k ==> clock(j) <= clock(k)
    ensures Due(before[id].expires, clock(0)) ==> id in FiredIds(fired) && id !in after
    ensures id in FiredIds(fired) ==> Due(before[id].expires, clock(|fired|))
  {
    if id in FiredIds(fired) {
      var k :| 0 <= k < |fired| && fired[k].id == id;
      DueLater(fired[k].expires, clock(k), clock(|fired|));
    } else {
      assert id in after;
      if Due(before[id].expires, clock(0)) {
        DueLater(before[id].expires, clock(0), clock(|fired|));
      }
    }
  }

  /** When a tick that has something to fire survives, whatever the storage outside
      the vector holds: with a single timer, or leaving three timers or more, or
      leaving two of which the left child of the root was not the later one when
      three were left. Leaving one or none of two or more, it always aborts. */
  lemma {:induction false} TickStaysIff(timers: map<int, Deadline>, ref: map<int, nat>, h: seq<TimerNode>,
                                        clock: nat -> int, k: nat)
    requires Represents(timers, ref, h) && HeapOrdered(h, |h|)
    ensures var f, n := Fires(h, clock, k), |h|;
            TickStays(h, clock, k) <==>
            f == 0 || n == 1 || 3 <= n - f || (n - f == 2 && InOrder(Pops(h, f - 1)))
    decreases |h|
  {
    if h != [] && Due(h[0].expires, clock(k)) {
      var ref' := PoppedRepresents(timers, ref, h);
      PopStaysIff(h);
      TickStaysIff(timers - {h[0].id}, ref', Popped(h), clock, k + 1);
    }
  }

  /** The root's children, by age. */
  predicate InOrder(h: seq<TimerNode>)
    requires |h| == 3
  {
    h[1].expires <= h[2].expires
  }

  function DueIds(timers: map<int, Deadline>, now: int): set<int> {
    set id | id in timers && Due(timers[id].expires, now)
  }

  /** With one clock reading for the whole tick it fires what is due at that. */
  lemma {:induction false} FiresDue(timers: map<int, Deadline>, ref: map<int, nat>, h: seq<TimerNode>,
                                    clock: nat -> int, k: nat, now: int)
    requires Represents(timers, ref, h) && HeapOrdered(h, |h|) && forall j :: clock(j) == now
    ensures Fires(h, clock, k) == |DueIds(timers, now)|
    decreases |h|
  {
    RootIsEarliestTimer(timers, h, ref);
    if h != [] && Due(h[0].expires, now) {
      var ref' := PoppedRepresents(timers, ref, h);
      FiresDue(timers - {h[0].id}, ref', Popped(h), clock, k + 1, now);
      assert DueIds(timers - {h[0].id}, now) == DueIds(timers, now) - {h[0].id};
    } else {
      if h != [] {
        NoneDue(timers, h[0].id, now);
      }
      assert forall id :: id in timers ==> !Due(timers[id].expires, now);
      assert DueIds(timers, now) == {};
    }
  }

  /** So with a fixed clock the numbers of live and of due timers decide, but for
      the case that leaves two. */
  lemma TickStaysByCount(timers: map<int, Deadline>, ref: map<int, nat>, h: seq<TimerNode>, clock: nat -> int, now: int)
    requires Represents(timers, ref, h) && HeapOrdered(h, |h|) && forall j :: clock(j) == now
    ensures var n, due := |timers|, |DueIds(timers, now)|;
            && (due == 0 || n == 1 || 3 <= n - due ==> TickStays(h, clock, 0))
            && (0 < due && 2 <= n && n - due < 2 ==> !TickStays(h, clock, 0))
            && (0 < due && n - due == 2 ==> |h| == n && (TickStays(h, clock, 0) <==> InOrder(Pops(h, due - 1))))
  {
    OneNodeEach(timers, ref, h);
    FiresDue(timers, ref, h, clock, 0, now);
    TickStaysIff(timers, ref, h, clock, 0);
  }

  /** Two clients, one of them due: without the lucky stray answer the tick aborts. */
  lemma TickAbortsAtTwo()
    ensures var h := [TimerNode(5, 0, 5), TimerNode(6, 60_000_000_000, 6)];
            HeapOrdered(h, 2) && !TickStays(h, _ => 0, 0)
  {
    var h := [TimerNode(5, 0, 5), TimerNode(6, 60_000_000_000, 6)];
    assert HeapOrdered(h, 2);
    PopStaysIff(h);
  }

  /** Whole milliseconds, cut off toward zero. */
  lemma MillisLeftIs(expires: int, now: int)
    ensures var d, m := expires - now, MillisLeft(expires, now);
            && (0 <= d ==> m * 1_000_000 <= d < (m + 1) * 1_000_000)
            && (d <= 0 ==> (m - 1) * 1_000_000 < d <= m * 1_000_000)
  {
  }

  /** The milliseconds to this deadline fit a 32-bit `int`. */
  predicate Near(expires: int, now: int) {
    -0x8000_0000 * 1_000_000 <= expires - now < 0x8000_0000 * 1_000_000
  }

  /** The wait is the time to the earliest deadline, in whole milliseconds. */
  lemma WaitIsTimeLeft(timers: map<int, Deadline>, res: int, now: int, id: int)
    requires IsNextWait(timers, res, now) && IsEarliest(timers, id) && Near(timers[id].expires, now)
    ensures var d := timers[id].expires - now;
            && (0 <= d ==> res * 1_000_000 <= d < (res + 1) * 1_000_000)
            && (d <= 0 ==> (res - 1) * 1_000_000 < d <= res * 1_000_000)
  {
    MillisLeftIs(timers[id].expires, now);
  }

  /** Beyond that it is cut down to 32 bits: with 25 days to go it comes out negative,
      which means "block". */
  lemma WaitIsInt32(timers: map<int, Deadline>, res: int, now: int, id: int)
    requires IsNextWait(timers, res, now) && IsEarliest(timers, id)
    ensures -0x8000_0000 <= res < 0x8000_0000 && (res - MillisLeft(timers[id].expires, now)) % 0x1_0000_0000 == 0
    ensures timers[id].expires - now == 25 * 24 * 3600 * 1000 * 1_000_000 ==> res == -2_134_967_296
  {
    MillisLeftIs(timers[id].expires, now);
  }

  /** The wait never reaches past a deadline, and is negative only when there is
      no timer, exactly when no live timer is overdue by a whole millisecond at
      the second reading. Otherwise the wait is negative with timers live, which
      `epoll_wait` takes for "block": the source's clamp to zero tests an
      unsigned value and never applies. */
  lemma WaitBoundsDeadlines(timers: map<int, Deadline>, res: int, now: int)
    requires IsNextWait(timers, res, now)
    requires forall id :: id in timers ==> Near(timers[id].expires, now)
    ensures res < 0 <==> timers == map[] || exists id :: id in timers && timers[id].expires - now <= -1_000_000
    ensures (forall id :: id in timers ==> -1_000_000 < timers[id].expires - now)
            <==> (timers == map[] && res == -1)
                 || (0 <= res && forall id :: id in timers ==> res == 0 || res * 1_000_000 <= timers[id].expires - now)
  {
    if timers != map[] {
      var e :| IsEarliest(timers, e) && res == ToInt32(MillisLeft(timers[e].expires, now));
      WaitIsTimeLeft(timers, res, now, e);
    }
  }

  /** A timer one millisecond away at the tick and two milliseconds gone at the
      second reading: the wait comes out as -1. */
  lemma WaitBlocksOverdueTimer()
    ensures var timers := map[7 := Deadline(1_000_000, 7)];
            && !Due(timers[7].expires, 0)
            && IsNextWait(timers, -1, 2_000_000)
  {
  }
}
