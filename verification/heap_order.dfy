/**
 The sequence-level facts behind code/timer/heaptimer.cpp: what a min-heap of
 timer nodes is, what the position index `ref_` must agree with, and what one
 exchange of two nodes keeps.
 */
module HeapOrder {

  /** Names the client that a bound `WebServer::CloseConn_` closes. */
  type Callback = int

  /** One element of `heap_`; `expires` counts nanoseconds of the clock. */
  datatype TimerNode = TimerNode(id: int, expires: int, cb: Callback)

  /** What a caller knows of a timer: when it fires and what it calls. */
  datatype Deadline = Deadline(expires: int, cb: Callback)

  function Parent(i: nat): nat
    requires 0 < i
  {
    (i - 1) / 2
  }

  /** Min-heap order of the first `n` nodes. */
  ghost predicate HeapOrdered(h: seq<TimerNode>, n: nat)
    requires n <= |h|
  {
    forall k {:trigger Parent(k)} :: 0 < k < n ==> h[Parent(k)].expires <= h[k].expires
  }

  /** Heap order of the first `n` nodes once node `i` is left out: only the two
      or three edges at `i` may be wrong. */
  ghost predicate OrderedAround(h: seq<TimerNode>, n: nat, i: nat)
    requires i < n <= |h|
  {
    && (forall k {:trigger Parent(k)} :: 0 < k < n && k != i && Parent(k) != i ==> h[Parent(k)].expires <= h[k].expires)
    && (0 < i ==> forall k {:trigger Parent(k)} :: 0 < k < n && Parent(k) == i ==> h[Parent(i)].expires <= h[k].expires)
  }

  /** No child of `i` expires earlier than `i`. */
  ghost predicate Leads(h: seq<TimerNode>, n: nat, i: nat)
    requires i < n <= |h|
  {
    forall k {:trigger Parent(k)} :: 0 < k < n && Parent(k) == i ==> h[i].expires <= h[k].expires
  }

  /** Some child of `i` expires no later than `i`, so `siftdown_` moves it. */
  predicate Sinks(h: seq<TimerNode>, n: nat, i: nat)
    requires i < n <= |h|
  {
    || (2 * i + 1 < n && h[2 * i + 1].expires <= h[i].expires)
    || (2 * i + 2 < n && h[2 * i + 2].expires <= h[i].expires)
  }

  /** No strictly earlier node stands between `i` and the top, so `siftup_`
      carries node `i` to the root and then compares it with storage that lies
      outside the vector. */
  predicate ClimbsOut(h: seq<TimerNode>, i: nat)
    requires i < |h|
  {
    i == 0 || h[i].expires <= h[0].expires
  }

  /** Re-seating node `i` (`siftdown_`, else `siftup_`) stays inside the vector. */
  predicate Settles(h: seq<TimerNode>, n: nat, i: nat)
    requires i < n <= |h|
  {
    Sinks(h, n, i) || !ClimbsOut(h, i)
  }

  /** `ref` is the inverse of the map from positions to ids, and the nodes are the
      timers of `timers`. */
  ghost predicate Represents(timers: map<int, Deadline>, ref: map<int, nat>, h: seq<TimerNode>)
  {
    && timers.Keys == ref.Keys
    && (forall i :: 0 <= i < |h| ==>
          h[i].id in ref && ref[h[i].id] == i && timers[h[i].id] == Deadline(h[i].expires, h[i].cb))
    && (forall id :: id in ref ==> ref[id] < |h| && h[ref[id]].id == id)
  }

  function Exchange(h: seq<TimerNode>, i: nat, j: nat): seq<TimerNode>
    requires i < |h| && j < |h|
  {
    h[i := h[j]][j := h[i]]
  }

  /** Exchanging two nodes and re-pointing their two index entries changes no timer. */
  lemma ExchangeRepresents(timers: map<int, Deadline>, h: seq<TimerNode>, ref: map<int, nat>, i: nat, j: nat)
    requires Represents(timers, ref, h) && i < |h| && j < |h|
    ensures var g := Exchange(h, i, j);
            Represents(timers, ref[g[i].id := i][g[j].id := j], g)
  {
  }

  /** Replacing the node at position `i` by one with the same id changes that
      timer only. */
  lemma RekeyRepresents(timers: map<int, Deadline>, h: seq<TimerNode>, ref: map<int, nat>, i: nat, node: TimerNode)
    requires Represents(timers, ref, h) && i < |h| && node.id == h[i].id
    ensures Represents(timers[node.id := Deadline(node.expires, node.cb)], ref, h[i := node])
  {
  }

  /** Dropping the last node removes exactly its timer. */
  lemma DropLastRepresents(timers: map<int, Deadline>, h: seq<TimerNode>, ref: map<int, nat>, n: nat)
    requires Represents(timers, ref, h) && |h| == n + 1
    ensures Represents(timers - {h[n].id}, ref - {h[n].id}, h[..n])
    ensures HeapOrdered(h, n) ==> HeapOrdered(h[..n], n)
  {
  }

  /** Appending a node with a new id adds exactly its timer. */
  lemma AppendRepresents(timers: map<int, Deadline>, h: seq<TimerNode>, ref: map<int, nat>, node: TimerNode)
    requires Represents(timers, ref, h) && node.id !in ref
    ensures Represents(timers[node.id := Deadline(node.expires, node.cb)], ref[node.id := |h|], h + [node])
  {
  }

  /** The root of a heap expires first. */
  lemma {:induction false} RootIsEarliest(h: seq<TimerNode>, n: nat, k: nat)
    requires k < n <= |h| && HeapOrdered(h, n)
    ensures h[0].expires <= h[k].expires
    decreases k
  {
    if 0 < k {
      RootIsEarliest(h, n, Parent(k));
    }
  }

  ghost predicate IsLeastChild(h: seq<TimerNode>, n: nat, i: nat, j: nat)
    requires i < n <= |h|
  {
    && 0 < j < n && Parent(j) == i
    && forall k :: 0 < k < n && Parent(k) == i ==> h[j].expires <= h[k].expires
  }

  /** The child that `siftdown_` compares with: the right one only if it is
      strictly earlier. */
  function PickedChild(h: seq<TimerNode>, n: nat, i: nat): nat
    requires i < n <= |h| && 2 * i + 1 < n
  {
    if 2 * i + 2 < n && h[2 * i + 2].expires < h[2 * i + 1].expires then 2 * i + 2 else 2 * i + 1
  }

  /** It is a least one, and it decides whether `i` sinks. */
  lemma PickedChildIsLeast(h: seq<TimerNode>, n: nat, i: nat)
    requires i < n <= |h| && 2 * i + 1 < n
    ensures var j := PickedChild(h, n, i);
            && IsLeastChild(h, n, i, j) && (Sinks(h, n, i) <==> h[j].expires <= h[i].expires)
            && (j == 2 * i + 2 <==> 2 * i + 2 < n && h[2 * i + 2].expires < h[2 * i + 1].expires)
  {
  }

  /** What `siftdown_` makes of a heap. */
  function Sunk(h: seq<TimerNode>, n: nat, i: nat): (g: seq<TimerNode>)
    requires i < n <= |h|
    ensures |g| == |h|
    decreases n - i
  {
    if !Sinks(h, n, i) then h else Sunk(Exchange(h, i, PickedChild(h, n, i)), n, PickedChild(h, n, i))
  }

  /** A node that does not sink leads its children. */
  lemma StuckLeads(h: seq<TimerNode>, n: nat, i: nat)
    requires i < n <= |h| && !Sinks(h, n, i)
    ensures Leads(h, n, i)
  {
  }

  /** Once node `i` fits below its parent and above its children, order is whole. */
  lemma OrderRestored(h: seq<TimerNode>, n: nat, i: nat)
    requires i < n <= |h| && OrderedAround(h, n, i) && Leads(h, n, i)
    requires 0 < i ==> h[Parent(i)].expires <= h[i].expires
    ensures HeapOrdered(h, n)
  {
  }

  /** One step of `siftdown_`: exchanging node `i` with its earliest child moves
      the only disorder down to that child. */
  lemma SinkStep(h: seq<TimerNode>, n: nat, i: nat, j: nat)
    requires i < n <= |h| && OrderedAround(h, n, i)
    requires IsLeastChild(h, n, i, j) && h[j].expires <= h[i].expires
    ensures OrderedAround(Exchange(h, i, j), n, j)
    ensures Exchange(h, i, j)[i].expires <= Exchange(h, i, j)[j].expires
  {
  }

  /** One step of `siftup_`: exchanging node `i` with its parent moves the only
      disorder up to the parent. */
  lemma ClimbStep(h: seq<TimerNode>, n: nat, i: nat)
    requires 0 < i < n <= |h| && OrderedAround(h, n, i) && !(h[Parent(i)].expires < h[i].expires)
    requires Leads(h, n, i)
    ensures OrderedAround(Exchange(h, i, Parent(i)), n, Parent(i))
    ensures Leads(Exchange(h, i, Parent(i)), n, Parent(i))
  {
  }

  /** The root of an indexed heap is a timer that no other precedes. */
  lemma RootIsEarliestTimer(timers: map<int, Deadline>, h: seq<TimerNode>, ref: map<int, nat>)
    requires Represents(timers, ref, h) && HeapOrdered(h, |h|)
    ensures h != [] ==> IsEarliest(timers, h[0].id) && timers[h[0].id] == Deadline(h[0].expires, h[0].cb)
    ensures h == [] <==> timers == map[]
  {
    if h != [] {
      assert h[0].id in ref;
      forall id | id in timers ensures h[0].expires <= timers[id].expires {
        assert id in ref && h[ref[id]].id == id;
        RootIsEarliest(h, |h|, ref[id]);
      }
    } else {
      assert forall id :: id !in ref;
    }
  }

  ghost predicate IsEarliest(timers: map<int, Deadline>, id: int) {
    id in timers && forall e :: e in timers ==> timers[id].expires <= timers[e].expires
  }

  /** Changing one key leaves every edge away from it in order. */
  lemma RekeyKeepsOrderAround(h: seq<TimerNode>, i: nat, node: TimerNode)
    requires i < |h| && HeapOrdered(h, |h|)
    ensures OrderedAround(h[i := node], |h|, i)
  {
  }

  /** Exchanging a node with the last one leaves a heap around it. */
  lemma ExchangeWithLast(h: seq<TimerNode>, i: nat)
    requires i < |h| - 1 && HeapOrdered(h, |h|)
    ensures OrderedAround(Exchange(h, i, |h| - 1), |h| - 1, i)
  {
  }

  /** What `siftdown_` alone makes of a heap whose node `i` got a new key: it is a
      heap again if the node sinks; if it does not, exactly when the node fits
      below its parent. A node that sinks fits there, and so does a postponed one. */
  lemma OnlySinking(h: seq<TimerNode>, i: nat, node: TimerNode)
    requires i < |h| && HeapOrdered(h, |h|)
    ensures var g := h[i := node];
            && (!Sinks(g, |h|, i) ==>
                  (HeapOrdered(g, |h|) <==> i == 0 || h[Parent(i)].expires <= node.expires))
            && (Sinks(g, |h|, i) && 0 < i ==> h[Parent(i)].expires <= node.expires)
            && (0 < i && h[i].expires <= node.expires ==> h[Parent(i)].expires <= node.expires)
  {
    var g := h[i := node];
    RekeyKeepsOrderAround(h, i, node);
    if Sinks(g, |h|, i) {
      assert 2 * i + 1 < |h| ==> Parent(2 * i + 1) == i;
      assert 2 * i + 2 < |h| ==> Parent(2 * i + 2) == i;
    } else {
      StuckLeads(g, |h|, i);
      if i == 0 || h[Parent(i)].expires <= node.expires {
        OrderRestored(g, |h|, i);
      } else {
        assert g[Parent(i)].expires > g[i].expires;
      }
    }
  }

  /** Same length, and the same nodes from position `n` on. */
  ghost predicate SameFrom(g: seq<TimerNode>, h: seq<TimerNode>, n: nat) {
    |g| == |h| && forall k :: n <= k < |h| ==> h[k] == g[k]
  }

  lemma ExchangeSameFrom(g: seq<TimerNode>, h: seq<TimerNode>, n: nat, i: nat, j: nat)
    requires SameFrom(g, h, n) && i < n <= |h| && j < n
    ensures SameFrom(g, Exchange(h, i, j), n)
  {
  }

  /** Postponing a node to the last deadline of all: it sinks if it has a child, and
      else meets a strictly earlier node above unless all others are as late. */
  lemma OverwriteSettlesIff(timers: map<int, Deadline>, ref: map<int, nat>, h: seq<TimerNode>, id: int, node: TimerNode)
    requires Represents(timers, ref, h) && HeapOrdered(h, |h|) && id in ref && node.id == id
    requires forall e :: e in timers ==> timers[e].expires <= node.expires
    ensures Settles(h[ref[id] := node], |h|, ref[id]) <==>
            2 * ref[id] + 1 < |h| || exists e :: e in timers && e != id && timers[e].expires < node.expires
  {
    var i := ref[id];
    assert forall k :: 0 <= k < |h| ==> h[k].expires <= node.expires by {
      assert forall k :: 0 <= k < |h| ==> h[k].id in timers && timers[h[k].id].expires == h[k].expires;
    }
    if |h| <= 2 * i + 1 {
      if i != 0 && h[0].expires < node.expires {
        assert h[0].id in timers && h[0].id != id;
      }
      if e :| e in timers && e != id && timers[e].expires < node.expires {
        assert h[ref[e]].id == e;
        RootIsEarliest(h, |h|, ref[e]);
      }
    }
  }

  /** Deleting the node at `i` stays inside the vector. */
  predicate DelStays(h: seq<TimerNode>, i: nat)
    requires i < |h|
  {
    i == |h| - 1 || Settles(Exchange(h, i, |h| - 1), |h| - 1, i)
  }

  // ---------- taking the earliest timers away, one by one ----------

  /** What `pop` leaves, if it does not abort. */
  function Popped(h: seq<TimerNode>): (g: seq<TimerNode>)
    requires h != []
    ensures |g| == |h| - 1
  {
    var n := |h| - 1;
    if n == 0 then [] else Sunk(Exchange(h, 0, n), n, 0)[..n]
  }

  /** What `n` of them leave. */
  function Pops(h: seq<TimerNode>, n: nat): (g: seq<TimerNode>)
    requires n <= |h|
    ensures |g| == |h| - n
    decreases n
  {
    if n == 0 then h else Pops(Popped(h), n - 1)
  }

  /** `pop` stays inside the vector. */
  predicate PopStays(h: seq<TimerNode>)
    requires h != []
  {
    |h| == 1 || Sinks(Exchange(h, 0, |h| - 1), |h| - 1, 0)
  }

  /** It does unless one timer is left, or two are and the last node's turns out
      to be the earlier one. */
  lemma PopStaysIff(h: seq<TimerNode>)
    requires h != [] && HeapOrdered(h, |h|)
    ensures PopStays(h) <==> |h| != 2 && (|h| == 3 ==> h[1].expires <= h[2].expires)
  {
    if 4 <= |h| {
      SomeChildIsEarlier(h, |h| - 1);
    }
  }

  /** One of the root's children is no later than any node below them. */
  lemma {:induction false} SomeChildIsEarlier(h: seq<TimerNode>, k: nat)
    requires 3 <= k < |h| && HeapOrdered(h, |h|)
    ensures h[1].expires <= h[k].expires || h[2].expires <= h[k].expires
    decreases k
  {
    assert h[Parent(k)].expires <= h[k].expires;
    if 3 <= Parent(k) {
      SomeChildIsEarlier(h, Parent(k));
    }
  }

  lemma {:induction false} SunkOrdered(h: seq<TimerNode>, n: nat, i: nat)
    requires i < n <= |h| && OrderedAround(h, n, i)
    requires 0 < i ==> h[Parent(i)].expires <= h[i].expires
    ensures HeapOrdered(Sunk(h, n, i), n)
    decreases n - i
  {
    if !Sinks(h, n, i) {
      StuckLeads(h, n, i);
      OrderRestored(h, n, i);
    } else {
      var j := PickedChild(h, n, i);
      PickedChildIsLeast(h, n, i);
      SinkStep(h, n, i, j);
      SunkOrdered(Exchange(h, i, j), n, j);
    }
  }

  lemma {:induction false} SunkRepresents(timers: map<int, Deadline>, ref: map<int, nat>, h: seq<TimerNode>, n: nat,
                                          i: nat)
    returns (ref': map<int, nat>)
    requires i < n <= |h| && Represents(timers, ref, h)
    ensures Represents(timers, ref', Sunk(h, n, i)) && SameFrom(h, Sunk(h, n, i), n)
    decreases n - i
  {
    ref' := ref;
    if Sinks(h, n, i) {
      var j := PickedChild(h, n, i);
      PickedChildIsLeast(h, n, i);
      var g := Exchange(h, i, j);
      ExchangeRepresents(timers, h, ref, i, j);
      ref' := SunkRepresents(timers, ref[g[i].id := i][g[j].id := j], g, n, j);
    }
  }

  /** `pop` removes exactly the root's timer and leaves a heap. */
  lemma PoppedRepresents(timers: map<int, Deadline>, ref: map<int, nat>, h: seq<TimerNode>)
    returns (ref': map<int, nat>)
    requires h != [] && Represents(timers, ref, h) && HeapOrdered(h, |h|)
    ensures Represents(timers - {h[0].id}, ref', Popped(h)) && HeapOrdered(Popped(h), |h| - 1)
  {
    var n := |h| - 1;
    var g := Exchange(h, 0, n);
    ExchangeRepresents(timers, h, ref, 0, n);
    ref' := ref[g[0].id := 0][g[n].id := n];
    if 0 < n {
      ExchangeWithLast(h, 0);
      ref' := SunkRepresents(timers, ref', g, n, 0);
      SunkOrdered(g, n, 0);
      g := Sunk(g, n, 0);
    }
    DropLastRepresents(timers, g, ref', n);
    ref' := ref' - {g[n].id};
  }

  /** A heap has one node for each timer. */
  lemma {:induction false} OneNodeEach(timers: map<int, Deadline>, ref: map<int, nat>, h: seq<TimerNode>)
    requires Represents(timers, ref, h)
    ensures |timers| == |h|
    decreases |h|
  {
    if h == [] {
      assert forall id :: id !in ref;
      assert timers == map[];
    } else {
      var n := |h| - 1;
      DropLastRepresents(timers, h, ref, n);
      OneNodeEach(timers - {h[n].id}, ref - {h[n].id}, h[..n]);
      assert h[n].id in ref;
      assert (timers - {h[n].id}).Keys == timers.Keys - {h[n].id};
      assert |timers.Keys| == |timers| && |(timers - {h[n].id}).Keys| == |timers - {h[n].id}|;
    }
  }

  /** A node appended to a heap is the only one out of order; it climbs out of the
      vector exactly when no timer expires strictly earlier. */
  lemma AppendKeepsOrderAround(timers: map<int, Deadline>, h: seq<TimerNode>, ref: map<int, nat>, node: TimerNode)
    requires Represents(timers, ref, h) && HeapOrdered(h, |h|)
    ensures OrderedAround(h + [node], |h| + 1, |h|) && Leads(h + [node], |h| + 1, |h|)
    ensures ClimbsOut(h + [node], |h|) <==> !exists e :: e in timers && timers[e].expires < node.expires
  {
    RootIsEarliestTimer(timers, h, ref);
  }
}
