/**
 code/server/webserver.cpp: what the event loop does to its clients, as functions on
 `Loop`: the clients, the kernel's view of them and the timers. `WebServer`'s methods
 are proved against these functions, and the interleaved runs are made of them.
 */
module ServerLoops {
  import opened HeapOrder
  import opened HeapTimers

  const MAX_FD: int := 65536

  /** `open` holds the descriptors whose `isClose_` is false, `interest` those
      registered with epoll, `sockets` those that are open for the kernel. */
  datatype Loop = Loop(open: set<int>, userCount: int, interest: set<int>, sockets: set<int>,
                       timers: map<int, Deadline>)

  function ExpiryAt(now: int, timeoutMS: int): int {
    now + timeoutMS * NANOS_PER_MILLI
  }

  /** `AddClient_` with `ServerConn::init`. */
  function Opened(l: Loop, fd: int, timeoutMS: int, now: int): Loop {
    Loop(l.open + {fd}, l.userCount + 1, l.interest + {fd}, l.sockets + {fd},
         if timeoutMS > 0 then l.timers[fd := Deadline(ExpiryAt(now, timeoutMS), fd)] else l.timers)
  }

  /** `ExtentTime_`. */
  function Touched(l: Loop, fd: int, timeoutMS: int, now: int): Loop
    requires timeoutMS > 0 ==> fd in l.timers
  {
    if timeoutMS > 0 then l.(timers := l.timers[fd := l.timers[fd].(expires := ExpiryAt(now, timeoutMS))]) else l
  }

  /** The first half of `CloseConn_`: the descriptor leaves epoll. */
  function Unregistered(l: Loop, fd: int): Loop {
    l.(interest := l.interest - {fd})
  }

  /** What `ServerConn::Close` does once it has seen `isClose_ == false`: it sets the
      flag and counts the client out, */
  function Flagged(l: Loop, fd: int): Loop {
    l.(open := l.open - {fd}, userCount := l.userCount - 1)
  }

  /** and closes the descriptor, whichever socket that is by now; the kernel takes a
      closed socket out of epoll. */
  function SocketClosed(l: Loop, fd: int): Loop {
    l.(sockets := l.sockets - {fd}, interest := l.interest - {fd})
  }

  /** `CloseConn_` when no other thread comes between. */
  function Closed(l: Loop, fd: int): Loop {
    if fd in l.open then SocketClosed(Flagged(Unregistered(l, fd), fd), fd) else Unregistered(l, fd)
  }

  /** `DealListen_` from the k-th `accept` on; `accept` fails after the last of `accepted`. */
  function Listened(l: Loop, accepted: seq<int>, k: nat, edge: bool, timeoutMS: int, clock: nat -> int): (l': Loop)
    ensures l.timers.Keys <= l'.timers.Keys
    decreases |accepted| - k
  {
    if k >= |accepted| || accepted[k] <= 0 || l.userCount >= MAX_FD then l
    else
      var l' := Opened(l, accepted[k], timeoutMS, clock(k));
      if edge then Listened(l', accepted, k + 1, edge, timeoutMS, clock) else l'
  }

  /** A call of `DealListen_` can accept no more at this point. */
  predicate ListenEnds(accepted: seq<int>, k: nat, userCount: int) {
    k >= |accepted| || accepted[k] <= 0 || userCount >= 65536
  }

  /** What accepting these clients makes of the loop, but for their deadlines. */
  predicate HasAccepted(l: Loop, l': Loop, fds: set<int>, m: nat, timeoutMS: int) {
    && l'.userCount == l.userCount + m && l'.open == l.open + fds
    && l'.interest == l.interest + fds && l'.sockets == l.sockets + fds
    && l'.timers.Keys == if timeoutMS > 0 then l.timers.Keys + fds else l.timers.Keys
  }

  /** How many clients a call of `DealListen_` accepts, from the k-th `accept` on. */
  function Takes(accepted: seq<int>, k: nat, userCount: int, edge: bool): nat
    decreases |accepted| - k
  {
    if ListenEnds(accepted, k, userCount) then 0
    else 1 + if edge then Takes(accepted, k + 1, userCount + 1, edge) else 0
  }

  /** Edge-triggered it goes on to a failing `accept` or a full server; level-triggered
      it accepts one client, if it can. */
  lemma {:induction false} TakesIs(accepted: seq<int>, k: nat, userCount: int, edge: bool)
    requires k <= |accepted|
    ensures var m := Takes(accepted, k, userCount, edge);
            && k + m <= |accepted| && (forall j :: k <= j < k + m ==> 0 < accepted[j])
            && (m > 0 ==> userCount + m <= 65536)
            && var ends := ListenEnds(accepted, k + m, userCount + m);
               if edge then ends else m == 1 || (m == 0 && ends)
    decreases |accepted| - k
  {
    if !ListenEnds(accepted, k, userCount) && edge {
      TakesIs(accepted, k + 1, userCount + 1, edge);
    }
  }

  lemma ListenedFirst(l: Loop, accepted: seq<int>, k: nat, edge: bool, timeoutMS: int, clock: nat -> int)
    ensures var l' := Listened(l, accepted, k, edge, timeoutMS, clock);
            if ListenEnds(accepted, k, l.userCount) then l' == l
            else
              var l1 := Opened(l, accepted[k], timeoutMS, clock(k));
              l' == if edge then Listened(l1, accepted, k + 1, edge, timeoutMS, clock) else l1
  {
  }

  /** A call accepts just these, and each is open, counted, registered and timed. */
  lemma {:induction false} ListenedTakes(l: Loop, accepted: seq<int>, k: nat, edge: bool, timeoutMS: int,
                                         clock: nat -> int, l': Loop, m: nat, fds: set<int>)
    requires k <= |accepted| && m == Takes(accepted, k, l.userCount, edge) && k + m <= |accepted|
    requires l' == Listened(l, accepted, k, edge, timeoutMS, clock) && fds == Fds(accepted, k, k + m)
    ensures HasAccepted(l, l', fds, m, timeoutMS)
    decreases |accepted| - k
  {
    ListenedFirst(l, accepted, k, edge, timeoutMS, clock);
    if ListenEnds(accepted, k, l.userCount) {
      NoneAccepted(l, fds, timeoutMS);
      return;
    }
    var l1, later := Opened(l, accepted[k], timeoutMS, clock(k)), Fds(accepted, k + 1, k + m);
    if edge {
      ListenedTakes(l1, accepted, k + 1, edge, timeoutMS, clock, l', m - 1, later);
    } else {
      NoneAccepted(l1, later, timeoutMS);
    }
    FdsMore(accepted, k, k + m);
    AcceptedMore(l, l1, l', accepted[k], later, fds, m, timeoutMS, clock(k));
  }

  /** How many clients a call of `DealListen_` accepts, and what becomes of them. */
  lemma ListenedCount(l: Loop, accepted: seq<int>, edge: bool, timeoutMS: int, clock: nat -> int) returns (m: nat)
    ensures m <= |accepted| && (forall j :: 0 <= j < m ==> 0 < accepted[j])
    ensures m > 0 ==> l.userCount + m <= 65536
    ensures var ends := m == |accepted| || accepted[m] <= 0 || l.userCount + m >= 65536;
            if edge then ends else m == 1 || (m == 0 && ends)
    ensures HasAccepted(l, Listened(l, accepted, 0, edge, timeoutMS, clock), Fds(accepted, 0, m), m, timeoutMS)
  {
    m := Takes(accepted, 0, l.userCount, edge);
    TakesIs(accepted, 0, l.userCount, edge);
    ListenedTakes(l, accepted, 0, edge, timeoutMS, clock, Listened(l, accepted, 0, edge, timeoutMS, clock), m,
                  Fds(accepted, 0, m));
  }

  lemma NoneAccepted(l: Loop, fds: set<int>, timeoutMS: int)
    requires fds == {}
    ensures HasAccepted(l, l, fds, 0, timeoutMS)
  {
  }

  lemma AcceptedMore(l: Loop, l1: Loop, l': Loop, fd: int, later: set<int>, fds: set<int>, m: nat, timeoutMS: int,
                     now: int)
    requires l1 == Opened(l, fd, timeoutMS, now) && 0 < m && HasAccepted(l1, l', later, m - 1, timeoutMS)
    requires fds == {fd} + later
    ensures HasAccepted(l, l', fds, m, timeoutMS)
  {
    assert timeoutMS > 0 ==> l1.timers.Keys == l.timers.Keys + {fd};
  }

  function Fds(accepted: seq<int>, i: nat, j: nat): set<int>
    requires j <= |accepted|
  {
    set x | i <= x < j :: accepted[x]
  }

  lemma FdsMore(accepted: seq<int>, i: nat, j: nat)
    requires i < j <= |accepted|
    ensures Fds(accepted, i, j) == {accepted[i]} + Fds(accepted, i + 1, j)
  {
  }

  /** Each new client's deadline is one timeout after its own reading of the clock. */
  lemma {:induction false} ListenedDeadlines(l: Loop, accepted: seq<int>, k: nat, edge: bool, timeoutMS: int,
                                             clock: nat -> int, fd: int)
    requires k <= |accepted| && timeoutMS > 0
    ensures var l' := Listened(l, accepted, k, edge, timeoutMS, clock);
            fd in l'.timers ==>
              || (fd in l.timers && l'.timers[fd] == l.timers[fd])
              || exists j :: k <= j < |accepted| && fd == accepted[j]
                             && l'.timers[fd] == Deadline(clock(j) + timeoutMS * 1_000_000, fd)
    decreases |accepted| - k
  {
    if k < |accepted| && 0 < accepted[k] && l.userCount < MAX_FD && edge {
      ListenedDeadlines(Opened(l, accepted[k], timeoutMS, clock(k)), accepted, k + 1, edge, timeoutMS, clock, fd);
    }
  }

  predicate Distinct(accepted: seq<int>) {
    forall i, j :: 0 <= i < j < |accepted| ==> accepted[i] != accepted[j]
  }

  /** The callbacks of the fired timers, in order. */
  function ClosedAll(l: Loop, fired: seq<TimerNode>): Loop {
    if fired == [] then l else Closed(ClosedAll(l, fired[..|fired| - 1]), fired[|fired| - 1].cb)
  }

  /** Closing clients leaves the timers alone, so the callbacks of a tick may as
      well run after it. */
  lemma {:induction false} ClosedAllKeepsTimers(l: Loop, fired: seq<TimerNode>, timers: map<int, Deadline>)
    ensures ClosedAll(l.(timers := timers), fired) == ClosedAll(l, fired).(timers := timers)
  {
    if fired != [] {
      ClosedAllKeepsTimers(l, fired[..|fired| - 1], timers);
    }
  }

  /** What `epoll_wait` reports: clients to accept, or an event of one client. */
  datatype Event = Incoming(accepted: seq<int>) | Broken(fd: int) | Readable(fd: int) | Writable(fd: int)

  /** The kernel reports events of registered clients only. */
  predicate Reported(events: seq<Event>, interest: set<int>) {
    forall e :: e in events && !e.Incoming? ==> e.fd in interest
  }

  /** The clock from its k-th reading on. */
  function From(clock: nat -> int, k: nat): nat -> int {
    (j: nat) => clock(k + j)
  }

  /** Readings of the clock that an event's handler may take. */
  function Readings(e: Event): nat {
    if e.Incoming? then |e.accepted| else 1
  }

  /** One turn of the loop over events in `Start`. */
  function Served(l: Loop, e: Event, edge: bool, timeoutMS: int, clock: nat -> int, k: nat): (l': Loop)
    requires timeoutMS > 0 && !e.Incoming? ==> e.fd in l.timers
    ensures l.timers.Keys <= l'.timers.Keys
  {
    match e
    case Incoming(accepted) => Listened(l, accepted, 0, edge, timeoutMS, From(clock, k))
    case Broken(fd) => Closed(l, fd)
    case Readable(fd) => Touched(l, fd, timeoutMS, clock(k))
    case Writable(fd) => Touched(l, fd, timeoutMS, clock(k))
  }

  /** The loop over the events from the i-th on. */
  function ServedAll(l: Loop, events: seq<Event>, i: nat, edge: bool, timeoutMS: int, clock: nat -> int, k: nat): Loop
    requires timeoutMS > 0 ==> Reported(events, l.timers.Keys)
    decreases |events| - i
  {
    if i >= |events| then l
    else
      ServedAll(Served(l, events[i], edge, timeoutMS, clock, k), events, i + 1, edge, timeoutMS, clock,
                k + Readings(events[i]))
  }

  lemma ServedNext(l: Loop, events: seq<Event>, i: nat, edge: bool, timeoutMS: int, clock: nat -> int, k: nat)
    returns (l': Loop)
    requires i < |events| && (timeoutMS > 0 ==> Reported(events, l.timers.Keys))
    ensures l' == Served(l, events[i], edge, timeoutMS, clock, k) && l.timers.Keys <= l'.timers.Keys
    ensures ServedAll(l', events, i + 1, edge, timeoutMS, clock, k + Readings(events[i]))
            == ServedAll(l, events, i, edge, timeoutMS, clock, k)
  {
    l' := Served(l, events[i], edge, timeoutMS, clock, k);
  }

  /** What the loop has made of its clients after a tick that fired `fired`. */
  ghost function Ticked(l: Loop, fired: seq<TimerNode>): Loop {
    ClosedAll(l, fired).(timers := l.timers - FiredIds(fired))
  }

  lemma NoneTicked(l: Loop)
    ensures Ticked(l, []) == l
  {
    assert FiredIds([]) == {};
  }

  /** Clients that are registered or open are timed, a timer closes its own client,
      and none is later than one timeout from now. */
  ghost predicate Timely(l: Loop, timeoutMS: int, now: int) {
    timeoutMS > 0 ==>
      && l.interest + l.open <= l.timers.Keys
      && forall id :: id in l.timers ==>
           l.timers[id].cb == id && l.timers[id].expires <= ExpiryAt(now, timeoutMS)
  }

  ghost predicate Forward(clock: nat -> int) {
    forall j: nat, k: nat :: j <= k ==> clock(j) <= clock(k)
  }

  lemma {:induction false} ListenedTimely(l: Loop, accepted: seq<int>, k: nat, edge: bool, timeoutMS: int,
                                          clock: nat -> int)
    requires k <= |accepted| && Timely(l, timeoutMS, clock(k)) && Forward(clock)
    ensures Timely(Listened(l, accepted, k, edge, timeoutMS, clock), timeoutMS, clock(|accepted|))
    decreases |accepted| - k
  {
    if k < |accepted| && 0 < accepted[k] && l.userCount < MAX_FD && edge {
      ListenedTimely(Opened(l, accepted[k], timeoutMS, clock(k)), accepted, k + 1, edge, timeoutMS, clock);
    }
  }

  lemma ServedTimely(l: Loop, e: Event, edge: bool, timeoutMS: int, clock: nat -> int, k: nat)
    requires timeoutMS > 0 && !e.Incoming? ==> e.fd in l.timers
    requires Timely(l, timeoutMS, clock(k)) && Forward(clock)
    ensures Timely(Served(l, e, edge, timeoutMS, clock, k), timeoutMS, clock(k + Readings(e)))
  {
    if e.Incoming? {
      assert clock(k) == From(clock, k)(0) && clock(k + |e.accepted|) == From(clock, k)(|e.accepted|);
      ListenedTimely(l, e.accepted, 0, edge, timeoutMS, From(clock, k));
    }
  }

  function Cbs(fired: seq<TimerNode>): set<int> {
    set k | 0 <= k < |fired| :: fired[k].cb
  }

  /** What closing these clients makes of the loop. */
  ghost predicate HasClosed(l: Loop, l': Loop, fds: set<int>) {
    && l'.open == l.open - fds && l'.interest == l.interest - fds && l'.timers == l.timers
    && l'.userCount == l.userCount - |l.open * fds|
    && l'.sockets == l.sockets - l.open * fds
  }

  lemma ClosedMore(l: Loop, l': Loop, fds: set<int>, fd: int)
    requires HasClosed(l, l', fds)
    ensures HasClosed(l, Closed(l', fd), fds + {fd})
  {
    if fd in l'.open {
      assert l.open * (fds + {fd}) == l.open * fds + {fd};
    } else {
      assert l.open * (fds + {fd}) == l.open * fds;
    }
  }

  /** The callbacks of the fired timers close their clients, and nothing else. */
  lemma {:induction false} ClosedAllOpen(l: Loop, fired: seq<TimerNode>)
    ensures HasClosed(l, ClosedAll(l, fired), Cbs(fired))
    decreases |fired|
  {
    if fired != [] {
      var before := fired[..|fired| - 1];
      ClosedAllOpen(l, before);
      ClosedMore(l, ClosedAll(l, before), Cbs(before), fired[|fired| - 1].cb);
      CbsMore(fired);
    } else {
      assert Cbs(fired) == {} && l.open * {} == {};
    }
  }

  lemma CbsMore(fired: seq<TimerNode>)
    requires fired != []
    ensures Cbs(fired) == Cbs(fired[..|fired| - 1]) + {fired[|fired| - 1].cb}
  {
    var before := fired[..|fired| - 1];
    assert forall k :: 0 <= k < |before| ==> before[k] == fired[k];
  }

  lemma TickedTimely(l: Loop, fired: seq<TimerNode>, after: map<int, Deadline>, timeoutMS: int, clock: nat -> int,
                     k: nat)
    requires Timely(l, timeoutMS, clock(0)) && Forward(clock) && timeoutMS > 0
    requires TickRun(l.timers, fired, after, clock)
    ensures Timely(Ticked(l, fired), timeoutMS, clock(k))
  {
    ClosedAllOpen(l, fired);
  }

  /** The tasks that the handlers give the thread pool. */
  datatype Task = ReadTask(fd: int) | WriteTask(fd: int)

  function TasksOf(e: Event): seq<Task> {
    match e
    case Readable(fd) => [ReadTask(fd)]
    case Writable(fd) => [WriteTask(fd)]
    case _ => []
  }

  /** Those of the events from the i-th on, and the readings of the clock they take. */
  function AllTasks(events: seq<Event>, i: nat): seq<Task>
    decreases |events| - i
  {
    if i >= |events| then [] else TasksOf(events[i]) + AllTasks(events, i + 1)
  }

  lemma TasksNext(before: seq<Task>, events: seq<Event>, i: nat)
    requires i < |events|
    ensures before + TasksOf(events[i]) + AllTasks(events, i + 1) == before + AllTasks(events, i)
  {
  }

  function AllReadings(events: seq<Event>, i: nat): nat
    decreases |events| - i
  {
    if i >= |events| then 0 else Readings(events[i]) + AllReadings(events, i + 1)
  }

  /** What one event changes: a broken client is closed and keeps its timer; a client
      that can be read or written gets its deadline moved and a task queued, and
      nothing else changes. */
  lemma ServedIs(l: Loop, e: Event, edge: bool, timeoutMS: int, clock: nat -> int, k: nat)
    requires !e.Incoming? && (timeoutMS > 0 ==> e.fd in l.timers)
    ensures var l' := Served(l, e, edge, timeoutMS, clock, k);
            && (e.Broken? ==> l'.open == l.open - {e.fd} && l'.interest == l.interest - {e.fd} && l'.timers == l.timers)
            && (e.Broken? ==> l'.userCount == if e.fd in l.open then l.userCount - 1 else l.userCount)
            && (e.Broken? ==> l'.sockets == if e.fd in l.open then l.sockets - {e.fd} else l.sockets)
            && (e.Broken? ==> TasksOf(e) == [])
            && (e.Readable? ==> TasksOf(e) == [ReadTask(e.fd)]) && (e.Writable? ==> TasksOf(e) == [WriteTask(e.fd)])
            && (!e.Broken? ==> l' == l.(timers := l'.timers))
            && (!e.Broken? && timeoutMS <= 0 ==> l' == l)
            && (!e.Broken? && timeoutMS > 0 ==>
                  l'.timers == l.timers[e.fd := Deadline(clock(k) + timeoutMS * 1_000_000, l.timers[e.fd].cb)])
  {
  }

  /** The clients whose read tasks these are. */
  function ReadFds(tasks: seq<Task>): multiset<int> {
    if tasks == [] then multiset{}
    else (if tasks[0].ReadTask? then multiset{tasks[0].fd} else multiset{}) + ReadFds(tasks[1..])
  }

  lemma ReadFdsOf(e: Event)
    ensures ReadFds(TasksOf(e)) == if e.Readable? then multiset{e.fd} else multiset{}
  {
    assert TasksOf(e) != [] ==> TasksOf(e)[1..] == [];
  }

  lemma {:induction false} ReadFdsAdd(a: seq<Task>, b: seq<Task>)
    ensures ReadFds(a + b) == ReadFds(a) + ReadFds(b)
  {
    if a == [] {
      assert a + b == b;
    } else {
      assert (a + b)[0] == a[0] && (a + b)[1..] == a[1..] + b;
      ReadFdsAdd(a[1..], b);
    }
  }

  // ---------- rounds ----------

  /** What one round of `Start` meets with: the timers that fire, and the events. */
  datatype Turn = Turn(fired: seq<TimerNode>, events: seq<Event>)

  /** Readings of the clock up to the wait, without a timeout none. */
  function TickReadings(turn: Turn, timeoutMS: int): nat {
    if timeoutMS > 0 then |turn.fired| + 2 else 0
  }

  function TurnReadings(turn: Turn, timeoutMS: int): nat {
    TickReadings(turn, timeoutMS) + AllReadings(turn.events, 0)
  }

  /** The tick fires just these timers, and the kernel reports events of clients that
      are still registered then. */
  ghost predicate TurnPossible(l: Loop, turn: Turn, timeoutMS: int, clock: nat -> int) {
    var l' := Ticked(l, turn.fired);
    && (if timeoutMS > 0 then TickRun(l.timers, turn.fired, l'.timers, clock) else turn.fired == [])
    && Reported(turn.events, l'.interest)
    && (timeoutMS > 0 ==> Reported(turn.events, l'.timers.Keys))
  }

  /** What a round makes of the loop. */
  ghost function Turned(l: Loop, turn: Turn, edge: bool, timeoutMS: int, clock: nat -> int): Loop
    requires TurnPossible(l, turn, timeoutMS, clock)
  {
    ServedAll(Ticked(l, turn.fired), turn.events, 0, edge, timeoutMS, clock, TickReadings(turn, timeoutMS))
  }

  /** The clock when these rounds are over. */
  function ClockAfter(clock: nat -> int, turns: seq<Turn>, timeoutMS: int): nat -> int {
    if turns == [] then clock
    else From(ClockAfter(clock, turns[..|turns| - 1], timeoutMS), TurnReadings(turns[|turns| - 1], timeoutMS))
  }

  ghost predicate TurnsPossible(l: Loop, turns: seq<Turn>, edge: bool, timeoutMS: int, clock: nat -> int)
    decreases |turns|, 0
  {
    turns != [] ==>
      var before, turn := turns[..|turns| - 1], turns[|turns| - 1];
      && TurnsPossible(l, before, edge, timeoutMS, clock)
      && TurnPossible(TurnedAll(l, before, edge, timeoutMS, clock), turn, timeoutMS,
                      ClockAfter(clock, before, timeoutMS))
  }

  /** What one round after another makes of it. */
  ghost function TurnedAll(l: Loop, turns: seq<Turn>, edge: bool, timeoutMS: int, clock: nat -> int): Loop
    requires TurnsPossible(l, turns, edge, timeoutMS, clock)
    decreases |turns|, 1
  {
    if turns == [] then l
    else
      var before, turn := turns[..|turns| - 1], turns[|turns| - 1];
      Turned(TurnedAll(l, before, edge, timeoutMS, clock), turn, edge, timeoutMS, ClockAfter(clock, before, timeoutMS))
  }

  function TurnsTasks(turns: seq<Turn>): seq<Task> {
    if turns == [] then []
    else TurnsTasks(turns[..|turns| - 1]) + AllTasks(turns[|turns| - 1].events, 0)
  }

  lemma TasksGoOn(before: seq<Task>, turns: seq<Turn>, turn: Turn)
    ensures before + TurnsTasks(turns) + AllTasks(turn.events, 0) == before + TurnsTasks(turns + [turn])
  {
    assert (turns + [turn])[..|turns|] == turns;
  }

  lemma OneMoreTurn(l: Loop, turns: seq<Turn>, turn: Turn, edge: bool, timeoutMS: int, clock: nat -> int)
    requires TurnsPossible(l, turns, edge, timeoutMS, clock)
    requires TurnPossible(TurnedAll(l, turns, edge, timeoutMS, clock), turn, timeoutMS,
                          ClockAfter(clock, turns, timeoutMS))
    ensures TurnsPossible(l, turns + [turn], edge, timeoutMS, clock)
    ensures ClockAfter(clock, turns + [turn], timeoutMS)
            == From(ClockAfter(clock, turns, timeoutMS), TurnReadings(turn, timeoutMS))
    ensures TurnedAll(l, turns + [turn], edge, timeoutMS, clock)
            == Turned(TurnedAll(l, turns, edge, timeoutMS, clock), turn, edge, timeoutMS,
                      ClockAfter(clock, turns, timeoutMS))
  {
    assert (turns + [turn])[..|turns|] == turns;
  }

  lemma {:induction false} ClockGoesOn(clock: nat -> int, turns: seq<Turn>, timeoutMS: int)
    requires Forward(clock)
    ensures Forward(ClockAfter(clock, turns, timeoutMS))
    decreases |turns|
  {
    if turns != [] {
      ClockGoesOn(clock, turns[..|turns| - 1], timeoutMS);
    }
  }
}
