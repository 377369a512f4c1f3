/**
 code/server/webserver.cpp: the server's methods on its clients, its epoll interest
 set and its timer, proved against the functions on `Loop`.
 */
module WebServers {
  import opened HeapOrder
  import opened HeapTimers
  import opened ServerLoops

  class WebServer {
    const timeoutMS: int
    const edgeTriggered: bool
    const timer: HeapTimer
    /** `users_`: the descriptor's `isClose_`. */
    var users: map<int, bool>
    var userCount: int
    /** What the kernel has: the registered descriptors, and the open ones. */
    var epoll: set<int>
    var sockets: set<int>
    /** What the thread pool has been given, in order. */
    var tasks: seq<Task>

    ghost predicate Valid()
      reads this, timer
    {
      timer.Valid() && epoll <= users.Keys && forall id :: id in timer.timers ==> timer.timers[id].cb in users
    }

    ghost function View(): Loop
      reads this, timer
    {
      Loop((set fd | fd in users && !users[fd]), userCount, epoll, sockets, timer.timers)
    }

    constructor (timeoutMS: int, edgeTriggered: bool, stray: nat -> bool)
      ensures Valid() && fresh(timer) && timer.stray == stray
      ensures this.timeoutMS == timeoutMS && this.edgeTriggered == edgeTriggered
      ensures View() == Loop({}, 0, {}, {}, map[]) && tasks == []
    {
      this.timeoutMS, this.edgeTriggered := timeoutMS, edgeTriggered;
      users, userCount, epoll, sockets, tasks := map[], 0, {}, {}, [];
      timer := new HeapTimer(stray);
    }

    method CloseConn(fd: int)
      requires Valid() && fd in users
      modifies this
      ensures Valid() && View() == Closed(old(View()), fd)
      ensures users.Keys == old(users.Keys) && tasks == old(tasks)
    {
      epoll := epoll - {fd};
      if !users[fd] {
        users := users[fd := true];
        userCount := userCount - 1;
        sockets := sockets - {fd};
      }
    }

    /** Adding this client stays inside the timer's vector. */
    ghost predicate ClientStays(fd: int, now: int)
      requires timer.Valid()
      reads this, timer
    {
      timeoutMS > 0 ==> AddStays(timer.timers, timer.ref, timer.heap, fd, ExpiryAt(now, timeoutMS))
    }

    method AddTimer(fd: int, now: int) returns (ok: bool)
      requires timer.Valid() && 0 < fd
      modifies timer
      ensures ok <==> old(ClientStays(fd, now)) || timer.stray(old(timer.strays))
      ensures ok ==> timer.Valid()
      ensures ok ==> timer.timers == if timeoutMS > 0 then old(timer.timers)[fd := Deadline(ExpiryAt(now, timeoutMS), fd)]
                                     else old(timer.timers)
    {
      ok := true;
      if timeoutMS > 0 {
        ok := timer.Add(fd, timeoutMS, fd, now);
      }
    }

    /** `accept` has opened the socket. `ok` is false when the timer aborts. */
    method AddClient(fd: int, now: int) returns (ok: bool)
      requires Valid() && 0 < fd
      modifies this, timer
      ensures ok <==> old(ClientStays(fd, now)) || timer.stray(old(timer.strays))
      ensures ok ==> Valid() && View() == Opened(old(View()), fd, timeoutMS, now)
      ensures users.Keys == old(users.Keys) + {fd} && tasks == old(tasks)
    {
      sockets := sockets + {fd};
      users := users[fd := false];
      userCount := userCount + 1;
      ok := AddTimer(fd, now);
      epoll := epoll + {fd};
      assert View().open == old(View()).open + {fd};
    }

    /** With a clock that moves on between two readings, each accepted descriptor a new
        one, a batch can abort on its first client only: when no other client has a
        timer. */
    method DealListen(accepted: seq<int>, clock: nat -> int) returns (ok: bool)
      requires Valid()
      modifies this, timer
      ensures Lucky(timer.stray) ==> ok
      ensures old(Rises(clock) && AllBefore(clock(0))) && Distinct(accepted) ==>
                (ok <==> accepted == [] || accepted[0] <= 0 || old(userCount) >= MAX_FD || old(FirstStays(accepted[0])))
      ensures ok ==> Valid() && View() == Listened(old(View()), accepted, 0, edgeTriggered, timeoutMS, clock)
      ensures tasks == old(tasks) && old(users.Keys) <= users.Keys
    {
      var k := 0;
      ok := true;
      ghost var l := View();
      ghost var goal := Listened(l, accepted, 0, edgeTriggered, timeoutMS, clock);
      ghost var rises := Rises(clock) && AllBefore(clock(0)) && Distinct(accepted);
      ghost var first := accepted == [] || accepted[0] <= 0 || userCount >= MAX_FD || FirstStays(accepted[0]);
      while true
        invariant 0 <= k <= |accepted| && ok && Valid() && View() == l && tasks == old(tasks)
        invariant old(users.Keys) <= users.Keys
        invariant Listened(l, accepted, k, edgeTriggered, timeoutMS, clock) == goal
        invariant k == 0 ==> timer.timers == old(timer.timers) && timer.strays == old(timer.strays)
                             && userCount == old(userCount)
        invariant rises ==> AllBefore(clock(k))
        invariant rises && 0 < k ==> first && accepted[0] in timer.timers
        decreases |accepted| - k
      {
        var fd := if k < |accepted| then accepted[k] else -1;
        if fd <= 0 || userCount >= MAX_FD {
          return;
        }
        ok := AcceptOne(accepted, k, clock);
        l := Opened(l, fd, timeoutMS, clock(k));
        if !ok || !edgeTriggered {
          return;
        }
        k := k + 1;
      }
    }

    /** One turn of `DealListen_` that accepts. */
    method AcceptOne(accepted: seq<int>, k: nat, clock: nat -> int) returns (ok: bool)
      requires Valid() && k < |accepted| && 0 < accepted[k]
      modifies this, timer
      ensures Lucky(timer.stray) ==> ok
      ensures ok ==> Valid() && View() == Opened(old(View()), accepted[k], timeoutMS, clock(k))
      ensures users.Keys == old(users.Keys) + {accepted[k]} && tasks == old(tasks)
      ensures old(Rises(clock) && AllBefore(clock(k))) ==>
                && (ok <==> old(FirstStays(accepted[k])))
                && (ok ==> accepted[k] in timer.timers && AllBefore(clock(k + 1)))
    {
      if Rises(clock) && AllBefore(clock(k)) {
        AddStaysRising(timer.timers, timer.ref, timer.heap, accepted[k], ExpiryAt(clock(k), timeoutMS));
      }
      ok := AddClient(accepted[k], clock(k));
    }

    /** Every live deadline lies before that of a client that is active now. */
    ghost predicate AllBefore(now: int)
      reads this, timer
    {
      forall e :: e in timer.timers ==> timer.timers[e].expires < ExpiryAt(now, timeoutMS)
    }

    ghost predicate FirstStays(fd: int)
      reads this, timer
    {
      timer.stray(timer.strays) || exists e :: e in timer.timers && e != fd
    }

    ghost predicate Rises(clock: nat -> int) {
      timeoutMS > 0 && forall j: nat, k: nat :: j < k ==> clock(j) < clock(k)
    }

    /** The loop stays valid exactly when the timer's heap does; see `HeapTimer.Adjust`. */
    method ExtentTime(fd: int, now: int)
      requires Valid() && (timeoutMS > 0 ==> fd in timer.timers)
      modifies timer
      ensures Represents(timer.timers, timer.ref, timer.heap) && View() == Touched(old(View()), fd, timeoutMS, now)
      ensures timeoutMS <= 0 || old(timer.timers)[fd].expires <= ExpiryAt(now, timeoutMS) ==> Valid()
    {
      if timeoutMS > 0 {
        timer.Adjust(fd, timeoutMS, now);
      }
    }

    method DealRead(fd: int, now: int)
      requires Valid() && (timeoutMS > 0 ==> fd in timer.timers)
      modifies this, timer
      ensures Represents(timer.timers, timer.ref, timer.heap) && View() == Touched(old(View()), fd, timeoutMS, now)
      ensures timeoutMS <= 0 || old(timer.timers)[fd].expires <= ExpiryAt(now, timeoutMS) ==> Valid()
      ensures tasks == old(tasks) + [ReadTask(fd)] && users == old(users)
    {
      ExtentTime(fd, now);
      tasks := tasks + [ReadTask(fd)];
    }

    method DealWrite(fd: int, now: int)
      requires Valid() && (timeoutMS > 0 ==> fd in timer.timers)
      modifies this, timer
      ensures Represents(timer.timers, timer.ref, timer.heap) && View() == Touched(old(View()), fd, timeoutMS, now)
      ensures timeoutMS <= 0 || old(timer.timers)[fd].expires <= ExpiryAt(now, timeoutMS) ==> Valid()
      ensures tasks == old(tasks) + [WriteTask(fd)] && users == old(users)
    {
      ExtentTime(fd, now);
      tasks := tasks + [WriteTask(fd)];
    }

    /** `OnRead_` up to `OnProcess`, on a worker: `ret` is what the read returned, and
        `again` whether it stopped for want of more bytes. */
    method OnRead(fd: int, ret: int, again: bool) returns (goesOn: bool)
      requires Valid() && fd in users
      modifies this
      ensures Valid() && goesOn == (0 < ret || again)
      ensures users.Keys == old(users.Keys) && tasks == old(tasks)
      ensures View() == if goesOn then old(View()) else Closed(old(View()), fd)
    {
      if ret <= 0 && !again {
        CloseConn(fd);
        return false;
      }
      return true;
    }

    /** The timer part of one round of `Start`: the callbacks of what fires close
        their clients, and the wait for epoll comes from what is left. */
    method NextTick(clock: nat -> int) returns (wait: int, fired: seq<TimerNode>, ok: bool)
      requires Valid()
      modifies this, timer
      ensures ok <==> Survives(old(timer.heap), clock, 0, timer.stray, old(timer.strays))
      ensures Lucky(timer.stray) ==> ok
      ensures ok ==> Valid() && TickRun(old(timer.timers), fired, timer.timers, clock)
      ensures ok ==> View() == Ticked(old(View()), fired)
      ensures ok ==> IsNextWait(timer.timers, wait, clock(|fired| + 1))
      ensures tasks == old(tasks) && users.Keys == old(users.Keys)
    {
      SurvivesByLuck(timer.heap, clock, 0, timer.stray, timer.strays);
      wait, fired, ok := timer.GetNextTick(clock);
      if !ok {
        return;
      }
      ghost var start := View();
      assert start == old(View()).(timers := timer.timers);
      var k := 0;
      while k < |fired|
        invariant 0 <= k <= |fired| && timer.Valid() && users.Keys == old(users.Keys) && tasks == old(tasks)
        invariant epoll <= users.Keys
        invariant View() == ClosedAll(start, fired[..k])
        modifies this
      {
        assert fired[..k + 1][..k] == fired[..k];
        CloseConn(fired[k].cb);
        k := k + 1;
      }
      assert fired[..k] == fired;
      ClosedAllKeepsTimers(old(View()), fired, timer.timers);
    }

    /** The branches on one event. */
    method ServeOne(e: Event, clock: nat -> int, k: nat) returns (ok: bool)
      requires Valid() && Forward(clock) && Timely(View(), timeoutMS, clock(k))
      requires !e.Incoming? ==> e.fd in users && (timeoutMS > 0 ==> e.fd in timer.timers)
      modifies this, timer
      ensures Lucky(timer.stray) ==> ok
      ensures old(users.Keys) <= users.Keys && tasks == old(tasks) + TasksOf(e)
      ensures ok ==> Valid() && View() == Served(old(View()), e, edgeTriggered, timeoutMS, clock, k)
      ensures ok ==> Timely(View(), timeoutMS, clock(k + Readings(e)))
    {
      ServedTimely(View(), e, edgeTriggered, timeoutMS, clock, k);
      ok := true;
      match e {
        case Incoming(accepted) => ok := DealListen(accepted, From(clock, k));
        case Broken(fd) => CloseConn(fd);
        case Readable(fd) => DealRead(fd, clock(k));
        case Writable(fd) => DealWrite(fd, clock(k));
      }
    }

    /** The i-th of the events, with the loop so far `l`. */
    method ServeNext(events: seq<Event>, i: nat, clock: nat -> int, k: nat, ghost l: Loop)
      returns (ok: bool, ghost l': Loop)
      requires Valid() && View() == l && Forward(clock) && Timely(l, timeoutMS, clock(k)) && i < |events|
      requires Reported(events, users.Keys) && (timeoutMS > 0 ==> Reported(events, l.timers.Keys))
      modifies this, timer
      ensures Lucky(timer.stray) ==> ok
      ensures old(users.Keys) <= users.Keys && tasks == old(tasks) + TasksOf(events[i])
      ensures ok ==> Valid() && View() == l' && Timely(l', timeoutMS, clock(k + Readings(events[i])))
      ensures l.timers.Keys <= l'.timers.Keys
      ensures ServedAll(l', events, i + 1, edgeTriggered, timeoutMS, clock, k + Readings(events[i]))
              == ServedAll(l, events, i, edgeTriggered, timeoutMS, clock, k)
    {
      l' := ServedNext(l, events, i, edgeTriggered, timeoutMS, clock, k);
      ok := ServeOne(events[i], clock, k);
    }

    /** The loop over the events of one round. */
    method Serve(events: seq<Event>, clock: nat -> int, start: nat) returns (ok: bool)
      requires Valid() && Reported(events, epoll) && Forward(clock) && Timely(View(), timeoutMS, clock(start))
      modifies this, timer
      ensures Lucky(timer.stray) ==> ok
      ensures old(users.Keys) <= users.Keys
      ensures ok ==> Valid() && Timely(View(), timeoutMS, clock(start + AllReadings(events, 0)))
      ensures ok ==> (timeoutMS > 0 ==> Reported(events, old(timer.timers).Keys))
                     && View() == ServedAll(old(View()), events, 0, edgeTriggered, timeoutMS, clock, start)
      ensures ok ==> tasks == old(tasks) + AllTasks(events, 0)
    {
      ok := true;
      var i, k: nat := 0, start;
      ghost var l := View();
      ghost var goal := ServedAll(l, events, 0, edgeTriggered, timeoutMS, clock, start);
      ghost var allTasks := tasks + AllTasks(events, 0);
      while i < |events|
        invariant 0 <= i <= |events| && Valid() && View() == l && Timely(l, timeoutMS, clock(k))
        invariant k + AllReadings(events, i) == start + AllReadings(events, 0)
        invariant old(users.Keys) <= users.Keys && tasks + AllTasks(events, i) == allTasks
        invariant Reported(events, users.Keys) && (timeoutMS > 0 ==> Reported(events, l.timers.Keys))
        invariant ServedAll(l, events, i, edgeTriggered, timeoutMS, clock, k) == goal
      {
        TasksNext(tasks, events, i);
        ok, l := ServeNext(events, i, clock, k, l);
        if !ok {
          return;
        }
        i, k := i + 1, k + Readings(events[i]);
      }
    }

    /** One round of `Start`: the tick, the wait, and the events that `kernel` reports
        of the clients registered by then. Rounds can follow one another: what a
        round asks for it leaves behind. */
    method Round(clock: nat -> int, kernel: set<int> -> seq<Event>) returns (wait: int, turn: Turn, ok: bool)
      requires Valid() && Forward(clock) && Timely(View(), timeoutMS, clock(0))
      requires forall interest :: Reported(kernel(interest), interest)
      modifies this, timer
      ensures Lucky(timer.stray) ==> ok
      ensures old(users.Keys) <= users.Keys
      ensures ok ==> Valid() && Timely(View(), timeoutMS, clock(TurnReadings(turn, timeoutMS)))
      ensures ok ==> TurnPossible(old(View()), turn, timeoutMS, clock)
                     && turn.events == kernel(Ticked(old(View()), turn.fired).interest)
                     && View() == Turned(old(View()), turn, edgeTriggered, timeoutMS, clock)
      ensures ok ==> tasks == old(tasks) + AllTasks(turn.events, 0)
      ensures ok && timeoutMS > 0 ==>
                && Survives(old(timer.heap), clock, 0, timer.stray, old(timer.strays))
                && IsNextWait(old(timer.timers) - FiredIds(turn.fired), wait, clock(|turn.fired| + 1))
      ensures ok && timeoutMS <= 0 ==> wait == -1
    {
      wait, ok := -1, true;
      var fired: seq<TimerNode> := [];
      ghost var was := View();
      if timeoutMS > 0 {
        wait, fired, ok := NextTick(clock);
        if !ok {
          return wait, Turn(fired, []), false;
        }
        TickedTimely(was, fired, timer.timers, timeoutMS, clock, |fired| + 2);
      } else {
        NoneTicked(was);
      }
      turn := Turn(fired, kernel(epoll));
      assert View() == Ticked(was, fired);
      ok := Serve(turn.events, clock, TickReadings(turn, timeoutMS));
    }

    /** `Start` for as many rounds; `kernel(i)` answers the i-th wait. */
    method Start(clock: nat -> int, kernel: nat -> set<int> -> seq<Event>, rounds: nat)
      returns (turns: seq<Turn>, ok: bool)
      requires Valid() && Forward(clock) && Timely(View(), timeoutMS, clock(0))
      requires forall i, interest :: Reported(kernel(i)(interest), interest)
      modifies this, timer
      ensures Lucky(timer.stray) ==> ok
      ensures old(users.Keys) <= users.Keys
      ensures ok ==> Valid() && Timely(View(), timeoutMS, ClockAfter(clock, turns, timeoutMS)(0))
      ensures ok ==> |turns| == rounds && TurnsPossible(old(View()), turns, edgeTriggered, timeoutMS, clock)
                     && View() == TurnedAll(old(View()), turns, edgeTriggered, timeoutMS, clock)
      ensures ok ==> tasks == old(tasks) + TurnsTasks(turns)
    {
      turns, ok := [], true;
      var later := clock;
      while |turns| < rounds
        invariant ok && Valid() && |turns| <= rounds && later == ClockAfter(clock, turns, timeoutMS)
        invariant Forward(later) && Timely(View(), timeoutMS, later(0)) && old(users.Keys) <= users.Keys
        invariant TurnsPossible(old(View()), turns, edgeTriggered, timeoutMS, clock)
        invariant View() == TurnedAll(old(View()), turns, edgeTriggered, timeoutMS, clock)
        invariant tasks == old(tasks) + TurnsTasks(turns)
        decreases rounds - |turns|
      {
        var wait, turn;
        wait, turn, ok := Round(later, kernel(|turns|));
        if !ok {
          return;
        }
        TasksGoOn(old(tasks), turns, turn);
        OneMoreTurn(old(View()), turns, turn, edgeTriggered, timeoutMS, clock);
        turns := turns + [turn];
        ClockGoesOn(clock, turns, timeoutMS);
        later := From(later, TurnReadings(turn, timeoutMS));
      }
    }
  }
}
