/**
 Whole runs of the server: the event loop thread of `WebServer::Start`, the
 worker threads that close clients from `OnRead_`, and the clock, in every
 interleaving. `ServerConn::Close` is not atomic in the source: a thread tests
 `isClose_`, later sets it and counts the client out, and later still closes the
 descriptor. Each is a step of its own here, with the kernel's sockets beside the
 server's flags.
 */
module EventLoop {
  import opened Options
  import opened HeapOrder
  import opened HeapTimers
  import opened ServerLoops

  /** Where the event loop thread is: inside `tick`, before `epoll_wait`, or
      handling what it returned. */
  datatype Phase = Ticking | Waiting | Handling

  /** A thread in `Close`: it has seen the flag unset, or it has set it. */
  datatype Closing = Seen(fd: int) | Marked(fd: int)

  /** When clients were accepted or last extended; closes that found the client
      already closed; accepts that found the flag of a client unset; and clients
      accepted with no close of their descriptor under way and none begun since. */
  datatype History = History(lastActive: map<int, int>, doubleCloses: nat, reopens: nat, untouched: set<int>)

  datatype State = State(
    loop: Loop,
    now: int,
    phase: Phase,
    batch: seq<int>,             // descriptors whose events are still to be handled
    firing: Option<int>,         // the timer whose callback runs, not yet popped
    main: Option<Closing>,       // the loop thread, in Close
    workers: multiset<Closing>,  // worker threads in Close
    readTasks: multiset<int>,    // clients with an OnRead_ task queued or running
    history: History)

  datatype Step =
    | Clock(reading: int)
    | Fire(id: int)            // tick: the earliest timer is due, its callback starts
    | Popped                   // tick: the callback has returned, the timer is removed
    | TickDone
    | Wait(ready: seq<int>)    // epoll_wait returns
    | Accept(fd: int)          // one turn of DealListen_
    | Read                     // DealRead_ for the next event
    | Write                    // DealWrite_ for the next event; OnWrite_ closes nothing
    | HangUp                   // CloseConn_ for the next event
    | BatchDone
    | MainFlag                 // Close on the loop thread: the flag and the count
    | MainClose                // Close on the loop thread: the descriptor
    | WorkerServe(fd: int)     // OnRead_ goes on to OnProcess
    | WorkerTest(fd: int)      // OnRead_ could not read: CloseConn_ starts on the worker
    | WorkerFlag(fd: int)
    | WorkerClose(fd: int)

  const START: State :=
    State(Loop({}, 0, {}, {}, map[]), 0, Ticking, [], None, None, multiset{}, multiset{}, History(map[], 0, 0, {}))

  ghost predicate Enabled(s: State, step: Step) {
    match step
    case Clock(t) => s.now <= t
    case Fire(id) =>
      && s.phase == Ticking && s.firing == None && s.main == None
      && IsEarliest(s.loop.timers, id) && Due(s.loop.timers[id].expires, s.now)
    case Popped => s.firing.Some? && s.main == None
    case TickDone =>
      && s.phase == Ticking && s.firing == None && s.main == None
      && forall id :: id in s.loop.timers ==> !Due(s.loop.timers[id].expires, s.now)
    case Wait(ready) => s.phase == Waiting && forall fd :: fd in ready ==> fd in s.loop.interest
    case Accept(fd) =>
      && s.phase == Handling && s.main == None
      && 0 < fd && fd !in s.loop.sockets && s.loop.userCount < MAX_FD
    case Read => s.phase == Handling && s.main == None && s.batch != [] && s.batch[0] in s.loop.timers
    case Write => s.phase == Handling && s.main == None && s.batch != [] && s.batch[0] in s.loop.timers
    case HangUp => s.phase == Handling && s.main == None && s.batch != []
    case BatchDone => s.phase == Handling && s.main == None && s.batch == []
    case MainFlag => s.main.Some? && s.main.value.Seen?
    case MainClose => s.main.Some? && s.main.value.Marked?
    case WorkerServe(fd) => fd in s.readTasks
    case WorkerTest(fd) => fd in s.readTasks
    case WorkerFlag(fd) => Seen(fd) in s.workers
    case WorkerClose(fd) => Marked(fd) in s.workers
  }

  /** Some thread is in `Close` for this descriptor. */
  predicate UnderWay(s: State, fd: int) {
    || Seen(fd) in s.workers || Marked(fd) in s.workers
    || (s.main.Some? && s.main.value.fd == fd)
  }

  /** A close begins: the descriptor leaves epoll. */
  function Begun(s: State, fd: int): State {
    s.(loop := Unregistered(s.loop, fd), history := s.history.(untouched := s.history.untouched - {fd}))
  }

  /** On the loop thread, with the test in `Close`. */
  function MainBegun(s: State, fd: int): State {
    Begun(s, fd).(main := if fd in s.loop.open then Some(Seen(fd)) else None)
  }

  function Flagging(s: State, fd: int): State {
    var n := s.history.doubleCloses;
    s.(loop := Flagged(s.loop, fd),
       history := s.history.(doubleCloses := if fd in s.loop.open then n else n + 1))
  }

  function Accepting(s: State, fd: int, timeoutMS: int): State {
    var h := s.history;
    s.(loop := Opened(s.loop, fd, timeoutMS, s.now),
       history := History(h.lastActive[fd := s.now], h.doubleCloses,
                          if fd in s.loop.open then h.reopens + 1 else h.reopens,
                          if UnderWay(s, fd) then h.untouched - {fd} else h.untouched + {fd}))
  }

  /** `ExtentTime_` for the client of the next event. */
  function Extended(s: State, timeoutMS: int): State
    requires s.batch != [] && s.batch[0] in s.loop.timers
  {
    var fd := s.batch[0];
    s.(loop := Touched(s.loop, fd, timeoutMS, s.now), batch := s.batch[1..],
       history := s.history.(lastActive := s.history.lastActive[fd := s.now]))
  }

  function Apply(s: State, step: Step, timeoutMS: int): State
    requires Enabled(s, step)
  {
    match step
    case Clock(t) => s.(now := t)
    case Fire(id) => MainBegun(s, s.loop.timers[id].cb).(firing := Some(id))
    case Popped => s.(loop := s.loop.(timers := s.loop.timers - {s.firing.value}), firing := None)
    case TickDone => s.(phase := Waiting)
    case Wait(ready) => s.(phase := Handling, batch := ready)
    case Accept(fd) => Accepting(s, fd, timeoutMS)
    case Read => Extended(s, timeoutMS).(readTasks := s.readTasks + multiset{s.batch[0]})
    case Write => Extended(s, timeoutMS)
    case HangUp => MainBegun(s, s.batch[0]).(batch := s.batch[1..])
    case BatchDone => s.(phase := Ticking)
    case MainFlag => Flagging(s, s.main.value.fd).(main := Some(Marked(s.main.value.fd)))
    case MainClose => s.(loop := SocketClosed(s.loop, s.main.value.fd), main := None)
    case WorkerServe(fd) => s.(readTasks := s.readTasks - multiset{fd})
    case WorkerTest(fd) =>
      Begun(s, fd).(readTasks := s.readTasks - multiset{fd},
                    workers := if fd in s.loop.open then s.workers + multiset{Seen(fd)} else s.workers)
    case WorkerFlag(fd) => Flagging(s, fd).(workers := s.workers - multiset{Seen(fd)} + multiset{Marked(fd)})
    case WorkerClose(fd) => s.(loop := SocketClosed(s.loop, fd), workers := s.workers - multiset{Marked(fd)})
  }

  /** A run of the server, last step outermost. */
  datatype Run = Begin | Then(before: Run, step: Step)

  ghost predicate Possible(r: Run, timeoutMS: int)
    decreases r, 0
  {
    r.Then? ==> Possible(r.before, timeoutMS) && Enabled(End(r.before, timeoutMS), r.step)
  }

  ghost function End(r: Run, timeoutMS: int): State
    requires Possible(r, timeoutMS)
    decreases r, 1
  {
    if r.Begin? then START else Apply(End(r.before, timeoutMS), r.step, timeoutMS)
  }

  ghost predicate Inv(s: State, timeoutMS: int) {
    && Timed(s, timeoutMS)
    && s.loop.interest <= s.loop.sockets
    && s.loop.userCount == |s.loop.open| + s.history.reopens - s.history.doubleCloses
    && s.loop.userCount <= MAX_FD
    && forall fd :: fd in s.history.untouched ==>
         fd in s.loop.open && fd in s.loop.interest && !UnderWay(s, fd)
  }

  ghost predicate Timed(s: State, timeoutMS: int) {
    && Timely(s.loop, timeoutMS, s.now)
    && (forall fd :: fd in s.loop.open && fd in s.loop.timers ==>
          fd in s.history.lastActive && s.loop.timers[fd].expires == ExpiryAt(s.history.lastActive[fd], timeoutMS))
    && (s.phase != Handling ==> s.batch == [])
    && (s.phase != Ticking ==> s.firing == None)
    && (forall fd :: fd in s.batch ==> fd in s.loop.timers)
    && (s.firing.Some? ==> s.firing.value in s.loop.timers && s.firing.value !in s.loop.interest)
    && (s.firing.Some? && s.main.Some? ==> s.main.value.fd == s.firing.value)
    && (s.firing.Some? && (s.main == None || s.main.value.Marked?) ==> s.firing.value !in s.loop.open)
  }

  lemma AcceptKeepsTimed(s: State, fd: int, timeoutMS: int)
    requires Timed(s, timeoutMS) && Enabled(s, Accept(fd)) && timeoutMS > 0
    ensures Timed(Accepting(s, fd, timeoutMS), timeoutMS)
  {
  }

  lemma ExtendKeepsTimed(s: State, timeoutMS: int)
    requires Timed(s, timeoutMS) && Enabled(s, Write) && timeoutMS > 0
    ensures Timed(Extended(s, timeoutMS), timeoutMS)
  {
  }

  lemma StepKeepsTimed(s: State, step: Step, timeoutMS: int)
    requires Timed(s, timeoutMS) && Enabled(s, step) && timeoutMS > 0
    ensures Timed(Apply(s, step, timeoutMS), timeoutMS)
  {
    match step
    case Accept(fd) => AcceptKeepsTimed(s, fd, timeoutMS);
    case Read => ExtendKeepsTimed(s, timeoutMS);
    case Write => ExtendKeepsTimed(s, timeoutMS);
    case _ =>
  }

  lemma FlagKeepsCount(s: State, fd: int)
    ensures var t := Flagging(s, fd);
            t.loop.userCount + t.history.doubleCloses - |t.loop.open|
            == s.loop.userCount + s.history.doubleCloses - |s.loop.open|
  {
    assert fd in s.loop.open ==> |s.loop.open - {fd}| == |s.loop.open| - 1;
    assert fd !in s.loop.open ==> s.loop.open - {fd} == s.loop.open;
  }

  lemma AcceptKeepsCount(s: State, fd: int, timeoutMS: int)
    ensures var t := Accepting(s, fd, timeoutMS);
            t.loop.userCount - t.history.reopens - |t.loop.open|
            == s.loop.userCount - s.history.reopens - |s.loop.open|
  {
    assert fd in s.loop.open ==> s.loop.open + {fd} == s.loop.open;
  }

  lemma StepKeepsInv(s: State, step: Step, timeoutMS: int)
    requires Inv(s, timeoutMS) && Enabled(s, step) && timeoutMS > 0
    ensures Inv(Apply(s, step, timeoutMS), timeoutMS)
  {
    StepKeepsTimed(s, step, timeoutMS);
    match step
    case Accept(fd) => AcceptKeepsCount(s, fd, timeoutMS);
    case MainFlag => FlagKeepsCount(s, s.main.value.fd);
    case WorkerFlag(fd) => FlagKeepsCount(s, fd);
    case _ =>
  }

  lemma {:induction false} RunKeepsInv(r: Run, timeoutMS: int)
    requires Possible(r, timeoutMS) && timeoutMS > 0
    ensures Inv(End(r, timeoutMS), timeoutMS)
  {
    if r.Then? {
      RunKeepsInv(r.before, timeoutMS);
      StepKeepsInv(End(r.before, timeoutMS), r.step, timeoutMS);
    }
  }

  /** In every reachable state each client that is open or registered has its timer,
      and that of an open one, also one whose descriptor was used before, expires one
      timeout after the client was last active. The user count, never over MAX_FD,
      is the number of open clients less the closes that came second, and more by
      the accepts on a descriptor whose flag a late close had left unset. */
  lemma OpenClientsAreTimed(r: Run, timeoutMS: int)
    requires Possible(r, timeoutMS) && timeoutMS > 0
    ensures var s := End(r, timeoutMS);
            var h := s.history;
            && (forall fd :: fd in s.loop.open ==>
                  && fd in s.loop.timers && fd in h.lastActive
                  && s.loop.timers[fd] == Deadline(ExpiryAt(h.lastActive[fd], timeoutMS), fd))
            && s.loop.interest <= s.loop.timers.Keys && s.loop.interest <= s.loop.sockets
            && s.loop.userCount + h.doubleCloses == |s.loop.open| + h.reopens && s.loop.userCount <= 65536
            && (s.loop.userCount == |s.loop.open| <==> h.doubleCloses == h.reopens)
  {
    RunKeepsInv(r, timeoutMS);
  }

  /** No client is closed but for its own events: one that was accepted with no close
      of its descriptor under way is open, flag, socket and registration, until a
      close of it begins. */
  lemma UntouchedIsServed(r: Run, timeoutMS: int, fd: int)
    requires Possible(r, timeoutMS) && timeoutMS > 0 && fd in End(r, timeoutMS).history.untouched
    ensures var l := End(r, timeoutMS).loop; fd in l.open && fd in l.sockets && fd in l.interest
  {
    RunKeepsInv(r, timeoutMS);
  }

  /** `adjust` is only ever called for a timer that exists, and only postpones it:
      so its assertion holds and its heap stays ordered. */
  lemma AdjustOnlyPostpones(r: Run, timeoutMS: int)
    requires Possible(r, timeoutMS) && timeoutMS > 0
    requires var s := End(r, timeoutMS); s.phase == Handling && s.batch != []
    ensures var s := End(r, timeoutMS);
            s.batch[0] in s.loop.timers && s.loop.timers[s.batch[0]].expires <= ExpiryAt(s.now, timeoutMS)
  {
    RunKeepsInv(r, timeoutMS);
    var s := End(r, timeoutMS);
    var fd := s.batch[0];
    assert Inv(s, timeoutMS) && fd in s.batch;
  }

  /** A timer that fires on an open client fires no earlier than its timeout
      allows, counted from that client's own last activity: a timer left over
      from an earlier client on the same descriptor never closes its successor
      early. */
  lemma NoEarlyTimeout(r: Run, timeoutMS: int, id: int)
    requires Possible(r, timeoutMS) && timeoutMS > 0
    requires Enabled(End(r, timeoutMS), Fire(id))
    ensures var s := End(r, timeoutMS);
            && s.loop.timers[id].cb == id
            && (id in s.loop.open ==>
                  id in s.history.lastActive && s.now - s.history.lastActive[id] > (timeoutMS - 1) * NANOS_PER_MILLI)
  {
    RunKeepsInv(r, timeoutMS);
  }

  /** When the callback has returned, and the timer is about to be removed, its
      client is closed. So removing a timer never leaves an open client untimed. */
  lemma FiredClientIsClosed(r: Run, timeoutMS: int)
    requires Possible(r, timeoutMS) && timeoutMS > 0
    requires Enabled(End(r, timeoutMS), Popped)
    ensures var s := End(r, timeoutMS);
            s.firing.value in s.loop.timers && s.firing.value !in s.loop.open
  {
    RunKeepsInv(r, timeoutMS);
  }

  /** When `tick` is done, every client still open has at least a millisecond left. */
  lemma TickLeavesNoOverdueClient(r: Run, timeoutMS: int, fd: int)
    requires Possible(r, timeoutMS) && timeoutMS > 0
    requires Enabled(End(r, timeoutMS), TickDone) && fd in End(r, timeoutMS).loop.open
    ensures var s := End(r, timeoutMS);
            fd in s.history.lastActive && s.now - s.history.lastActive[fd] <= (timeoutMS - 1) * NANOS_PER_MILLI
  {
    RunKeepsInv(r, timeoutMS);
  }

  /** The client a step begins to close. */
  function Closes(s: State, step: Step): Option<int>
    requires step.HangUp? ==> s.batch != []
    requires step.Fire? ==> step.id in s.loop.timers
  {
    match step
    case Fire(id) => Some(s.loop.timers[id].cb)
    case HangUp => Some(s.batch[0])
    case WorkerTest(fd) => Some(fd)
    case _ => None
  }

  // ---------- what the histories mean, over runs ----------

  /** The clock when this client was last accepted or extended. */
  ghost function LastActive(r: Run, timeoutMS: int, fd: int): Option<int>
    requires Possible(r, timeoutMS)
  {
    if r.Begin? then None
    else
      var s := End(r.before, timeoutMS);
      if r.step == Accept(fd) || ((r.step.Read? || r.step.Write?) && s.batch[0] == fd) then Some(s.now)
      else LastActive(r.before, timeoutMS, fd)
  }

  /** Accepted with no close of its descriptor under way, and none begun since. */
  ghost predicate IsUntouched(r: Run, timeoutMS: int, fd: int)
    requires Possible(r, timeoutMS)
  {
    r.Then? &&
    var s := End(r.before, timeoutMS);
    if r.step == Accept(fd) then !UnderWay(s, fd)
    else IsUntouched(r.before, timeoutMS, fd) && Closes(s, r.step) != Some(fd)
  }

  predicate ClosesAgain(s: State, step: Step) {
    || (step.MainFlag? && s.main.Some? && s.main.value.fd !in s.loop.open)
    || (step.WorkerFlag? && step.fd !in s.loop.open)
  }

  /** Flags that were set though they were set already, */
  ghost function DoubleCloses(r: Run, timeoutMS: int): nat
    requires Possible(r, timeoutMS)
  {
    if r.Begin? then 0
    else DoubleCloses(r.before, timeoutMS) + if ClosesAgain(End(r.before, timeoutMS), r.step) then 1 else 0
  }

  /** and accepts that found a flag unset. */
  ghost function Reopens(r: Run, timeoutMS: int): nat
    requires Possible(r, timeoutMS)
  {
    if r.Begin? then 0
    else
      Reopens(r.before, timeoutMS)
      + if r.step.Accept? && r.step.fd in End(r.before, timeoutMS).loop.open then 1 else 0
  }

  lemma {:induction false} UntouchedAre(r: Run, timeoutMS: int, fd: int)
    requires Possible(r, timeoutMS)
    ensures fd in End(r, timeoutMS).history.untouched <==> IsUntouched(r, timeoutMS, fd)
  {
    if r.Then? {
      UntouchedAre(r.before, timeoutMS, fd);
      UntouchedStep(End(r.before, timeoutMS), r.step, timeoutMS, fd);
    }
  }

  lemma UntouchedStep(s: State, step: Step, timeoutMS: int, fd: int)
    requires Enabled(s, step)
    ensures fd in Apply(s, step, timeoutMS).history.untouched <==>
            if step == Accept(fd) then !UnderWay(s, fd)
            else fd in s.history.untouched
                 && !(step.HangUp? && s.batch[0] == fd) && !(step.Fire? && s.loop.timers[step.id].cb == fd)
                 && step != WorkerTest(fd)
  {
  }

  lemma {:induction false} LastActiveIs(r: Run, timeoutMS: int, fd: int)
    requires Possible(r, timeoutMS)
    ensures var h := End(r, timeoutMS).history;
            LastActive(r, timeoutMS, fd) == if fd in h.lastActive then Some(h.lastActive[fd]) else None
  {
    if r.Then? {
      LastActiveIs(r.before, timeoutMS, fd);
      LastActiveStep(End(r.before, timeoutMS), r.step, timeoutMS, fd);
    }
  }

  lemma LastActiveStep(s: State, step: Step, timeoutMS: int, fd: int)
    requires Enabled(s, step)
    ensures var old', new' := s.history.lastActive, Apply(s, step, timeoutMS).history.lastActive;
            if step == Accept(fd) || ((step.Read? || step.Write?) && s.batch[0] == fd) then fd in new' && new'[fd] == s.now
            else (fd in new' <==> fd in old') && (fd in old' ==> new'[fd] == old'[fd])
  {
    match step
    case Accept(f) =>
    case Read =>
    case Write =>
    case _ =>
  }

  lemma {:induction false} CountsAre(r: Run, timeoutMS: int)
    requires Possible(r, timeoutMS)
    ensures var h := End(r, timeoutMS).history;
            h.doubleCloses == DoubleCloses(r, timeoutMS) && h.reopens == Reopens(r, timeoutMS)
  {
    if r.Then? {
      CountsAre(r.before, timeoutMS);
      CountsStep(End(r.before, timeoutMS), r.step, timeoutMS);
    }
  }

  lemma CountsStep(s: State, step: Step, timeoutMS: int)
    requires Enabled(s, step)
    ensures var h, h' := s.history, Apply(s, step, timeoutMS).history;
            && h'.doubleCloses == h.doubleCloses + (if ClosesAgain(s, step) then 1 else 0)
            && h'.reopens == h.reopens + if step.Accept? && step.fd in s.loop.open then 1 else 0
  {
    match step
    case Accept(fd) =>
    case MainFlag =>
    case WorkerFlag(fd) =>
    case _ =>
  }

  /** Read tasks that the loop thread has queued, and those that workers have taken on. */
  ghost function QueuedReads(r: Run, timeoutMS: int): multiset<int>
    requires Possible(r, timeoutMS)
  {
    if r.Begin? then multiset{}
    else
      QueuedReads(r.before, timeoutMS)
      + if r.step.Read? then multiset{End(r.before, timeoutMS).batch[0]} else multiset{}
  }

  function TakenReads(r: Run): multiset<int> {
    if r.Begin? then multiset{}
    else TakenReads(r.before) + if r.step.WorkerServe? || r.step.WorkerTest? then multiset{r.step.fd} else multiset{}
  }

  /** No read task is lost and none is run twice. */
  lemma {:induction false} ReadsAre(r: Run, timeoutMS: int)
    requires Possible(r, timeoutMS)
    ensures End(r, timeoutMS).readTasks + TakenReads(r) == QueuedReads(r, timeoutMS)
  {
    if r.Then? {
      ReadsAre(r.before, timeoutMS);
      ReadsStep(End(r.before, timeoutMS), r.step, timeoutMS);
    }
  }

  lemma ReadsStep(s: State, step: Step, timeoutMS: int)
    requires Enabled(s, step)
    ensures Apply(s, step, timeoutMS).readTasks
            + (if step.WorkerServe? || step.WorkerTest? then multiset{step.fd} else multiset{})
            == s.readTasks + if step.Read? then multiset{s.batch[0]} else multiset{}
  {
    match step
    case Read =>
    case WorkerServe(fd) =>
    case WorkerTest(fd) =>
    case _ =>
  }

  /** In the terms of the run: an open client's timer is one timeout after its last
      accept or event, and a client that no close has touched is served. */
  lemma OpenClientsByRun(r: Run, timeoutMS: int, fd: int)
    requires Possible(r, timeoutMS) && timeoutMS > 0
    ensures var l := End(r, timeoutMS).loop;
            && (fd in l.open ==>
                  && LastActive(r, timeoutMS, fd).Some? && fd in l.timers
                  && l.timers[fd] == Deadline(LastActive(r, timeoutMS, fd).value + timeoutMS * 1_000_000, fd))
            && (IsUntouched(r, timeoutMS, fd) ==> fd in l.open && fd in l.sockets && fd in l.interest)
            && l.userCount == |l.open| + Reopens(r, timeoutMS) - DoubleCloses(r, timeoutMS)
  {
    LastActiveIs(r, timeoutMS, fd);
    UntouchedAre(r, timeoutMS, fd);
    CountsAre(r, timeoutMS);
    OpenClientsAreTimed(r, timeoutMS);
    RunKeepsInv(r, timeoutMS);
  }

  /** No step begins to close a client that another thread is about to close. */
  ghost predicate OneCloserEach(r: Run, timeoutMS: int)
    requires Possible(r, timeoutMS)
  {
    r.Then? ==>
      && OneCloserEach(r.before, timeoutMS)
      && var s := End(r.before, timeoutMS);
         var c := Closes(s, r.step);
         c.Some? ==> Seen(c.value) !in s.workers && s.main != Some(Seen(c.value))
  }

  /** Under that discipline no close comes second and none comes late: the user count
      is exact, registered clients are open, and open ones have their socket. */
  lemma {:induction false} OneCloserKeepsCount(r: Run, timeoutMS: int)
    requires Possible(r, timeoutMS) && timeoutMS > 0 && OneCloserEach(r, timeoutMS)
    ensures var s := End(r, timeoutMS);
            && s.history.doubleCloses == s.history.reopens == 0 && s.loop.userCount == |s.loop.open|
            && s.loop.interest <= s.loop.open <= s.loop.sockets && ClosersApart(s)
  {
    RunKeepsInv(r, timeoutMS);
    if r.Then? {
      OneCloserKeepsCount(r.before, timeoutMS);
      CloserStep(End(r.before, timeoutMS), r.step, timeoutMS);
    }
  }

  /** Every client being closed is closed by one thread: with its flag unset until
      that thread sets it, with its socket open until that thread closes it, and no
      longer registered. */
  ghost predicate ClosersApart(s: State) {
    && s.loop.open <= s.loop.sockets && s.loop.interest <= s.loop.open
    && (forall c :: c in s.workers ==>
          && s.workers[c] == 1 && c.fd in s.loop.sockets && c.fd !in s.loop.interest
          && (c.Seen? <==> c.fd in s.loop.open)
          && (s.main.Some? ==> s.main.value.fd != c.fd))
    && (s.main.Some? ==>
          var c := s.main.value;
          c.fd in s.loop.sockets && c.fd !in s.loop.interest && (c.Seen? <==> c.fd in s.loop.open))
  }

  lemma CloserStep(s: State, step: Step, timeoutMS: int)
    requires Enabled(s, step) && ClosersApart(s)
    requires (step.HangUp? ==> s.batch != []) && (step.Fire? ==> step.id in s.loop.timers)
    requires var c := Closes(s, step); c.Some? ==> Seen(c.value) !in s.workers && s.main != Some(Seen(c.value))
    ensures var t := Apply(s, step, timeoutMS);
            && ClosersApart(t)
            && t.history.doubleCloses == s.history.doubleCloses && t.history.reopens == s.history.reopens
  {
    if step.WorkerTest? || step.WorkerFlag? || step.WorkerClose? {
      WorkerStep(s, step, timeoutMS);
    }
  }

  lemma WorkerStep(s: State, step: Step, timeoutMS: int)
    requires Enabled(s, step) && ClosersApart(s) && (step.WorkerTest? || step.WorkerFlag? || step.WorkerClose?)
    requires step.WorkerTest? ==> Seen(step.fd) !in s.workers && s.main != Some(Seen(step.fd))
    ensures var t := Apply(s, step, timeoutMS);
            ClosersApart(t) && t.history.doubleCloses == s.history.doubleCloses && t.history.reopens == s.history.reopens
  {
    match step
    case WorkerTest(fd) =>
    case WorkerFlag(fd) => assert Marked(fd) !in s.workers;
    case WorkerClose(fd) =>
  }

  lemma Extend(r: Run, s: State, timeoutMS: int, step: Step) returns (r': Run, s': State)
    requires Possible(r, timeoutMS) && End(r, timeoutMS) == s && Enabled(s, step)
    ensures Possible(r', timeoutMS) && End(r', timeoutMS) == s' && s' == Apply(s, step, timeoutMS)
  {
    r', s' := Then(r, step), Apply(s, step, timeoutMS);
  }

  // ---------- the tick of HeapTimer is the tick of the runs ----------

  /** The loop thread is in `tick`, between two timers. */
  predicate BetweenTimers(s: State) {
    s.phase == Ticking && s.firing == None && s.main == None
  }

  /** One timer, read as due: its callback closes its client, then it is removed. */
  lemma FireOne(r: Run, s: State, timeoutMS: int, id: int, reading: int) returns (r': Run, s': State)
    requires Possible(r, timeoutMS) && End(r, timeoutMS) == s && BetweenTimers(s) && s.now <= reading
    requires IsEarliest(s.loop.timers, id) && Due(s.loop.timers[id].expires, reading)
    ensures Possible(r', timeoutMS) && End(r', timeoutMS) == s'
    ensures s' == s.(now := reading, history := s'.history,
                     loop := Closed(s.loop, s.loop.timers[id].cb).(timers := s.loop.timers - {id}))
  {
    r', s' := Extend(r, s, timeoutMS, Clock(reading));
    r', s' := Extend(r', s', timeoutMS, Fire(id));
    if s'.main.Some? {
      r', s' := FinishClose(r', s', timeoutMS);
    }
    r', s' := Extend(r', s', timeoutMS, Popped);
  }

  /** The loop thread, once it has seen the flag unset, finishes its close. */
  lemma FinishClose(r: Run, s: State, timeoutMS: int) returns (r': Run, s': State)
    requires Possible(r, timeoutMS) && End(r, timeoutMS) == s && s.main.Some? && s.main.value.Seen?
    ensures Possible(r', timeoutMS) && End(r', timeoutMS) == s'
    ensures var fd := s.main.value.fd;
            s' == s.(main := None, history := s'.history, loop := SocketClosed(Flagged(s.loop, fd), fd))
  {
    r', s' := Extend(r, s, timeoutMS, MainFlag);
    r', s' := Extend(r', s', timeoutMS, MainClose);
  }

  /** The k-th timer that a tick fires is the earliest of those left. */
  lemma NextIsEarliest(before: map<int, Deadline>, fired: seq<TimerNode>, after: map<int, Deadline>,
                       clock: nat -> int, k: nat)
    requires TickRun(before, fired, after, clock) && k < |fired|
    ensures var left := before - FiredIds(fired[..k]);
            && IsEarliest(left, fired[k].id) && left[fired[k].id] == Deadline(fired[k].expires, fired[k].cb)
            && left - {fired[k].id} == before - FiredIds(fired[..k + 1])
  {
    var left := before - FiredIds(fired[..k]);
    assert forall j :: 0 <= j < k ==> fired[..k][j] == fired[j];
    assert forall j :: 0 <= j < k ==> fired[j].id in FiredIds(fired[..k]);
    forall e | e in left ensures fired[k].expires <= left[e].expires {
      if e in FiredIds(fired) {
        var j :| 0 <= j < |fired| && fired[j].id == e;
      } else {
        assert e in after;
      }
    }
    assert FiredIds(fired[..k + 1]) == FiredIds(fired[..k]) + {fired[k].id} by {
      assert fired[..k + 1][k] == fired[k];
      assert forall j :: 0 <= j < k ==> fired[..k + 1][j] == fired[..k][j];
    }
  }

  /** The state when a tick begun in s has fired these timers and the clock reads now. */
  ghost function Fired(s: State, fired: seq<TimerNode>, now: int, history: History): State {
    s.(now := now, history := history,
       loop := ClosedAll(s.loop, fired).(timers := s.loop.timers - FiredIds(fired)))
  }

  lemma NoneFired(s: State)
    ensures Fired(s, [], s.now, s.history) == s
  {
    assert FiredIds([]) == {};
  }

  lemma FiredNext(s: State, fired: seq<TimerNode>, after: map<int, Deadline>, clock: nat -> int, k: nat, now: int,
                  history: History, history': History)
    requires TickRun(s.loop.timers, fired, after, clock) && k < |fired|
    ensures var t := Fired(s, fired[..k], now, history);
            var id := fired[k].id;
            && IsEarliest(t.loop.timers, id) && t.loop.timers[id] == Deadline(fired[k].expires, fired[k].cb)
            && Fired(s, fired[..k + 1], clock(k), history') ==
               t.(now := clock(k), history := history',
                  loop := Closed(t.loop, fired[k].cb).(timers := t.loop.timers - {id}))
  {
    NextIsEarliest(s.loop.timers, fired, after, clock, k);
    assert fired[..k + 1][..k] == fired[..k];
    ClosedKeepsTimers(ClosedAll(s.loop, fired[..k]), s.loop.timers - FiredIds(fired[..k]), fired[k].cb);
  }

  lemma FireNext(r: Run, s: State, timeoutMS: int, fired: seq<TimerNode>, after: map<int, Deadline>,
                 clock: nat -> int, k: nat, now: int, history: History)
    returns (r': Run, history': History)
    requires BetweenTimers(s) && TickRun(s.loop.timers, fired, after, clock) && k < |fired| && now <= clock(k)
    requires Possible(r, timeoutMS) && End(r, timeoutMS) == Fired(s, fired[..k], now, history)
    ensures Possible(r', timeoutMS) && End(r', timeoutMS) == Fired(s, fired[..k + 1], clock(k), history')
  {
    FiredNext(s, fired, after, clock, k, now, history, history);
    var s';
    r', s' := FireOne(r, Fired(s, fired[..k], now, history), timeoutMS, fired[k].id, clock(k));
    history' := s'.history;
    FiredNext(s, fired, after, clock, k, now, history, history');
  }

  /** The first k timers of a tick. */
  lemma {:induction false} FireMany(r: Run, s: State, timeoutMS: int, fired: seq<TimerNode>,
                                    after: map<int, Deadline>, clock: nat -> int, k: nat)
    returns (r': Run, now: int, history: History)
    requires Possible(r, timeoutMS) && End(r, timeoutMS) == s && BetweenTimers(s) && s.now <= clock(0)
    requires TickRun(s.loop.timers, fired, after, clock) && k <= |fired| && Forward(clock)
    ensures Possible(r', timeoutMS) && End(r', timeoutMS) == Fired(s, fired[..k], now, history) && now <= clock(k)
  {
    if k == 0 {
      NoneFired(s);
      return r, s.now, s.history;
    }
    r', now, history := FireMany(r, s, timeoutMS, fired, after, clock, k - 1);
    r', history := FireNext(r', s, timeoutMS, fired, after, clock, k - 1, now, history);
    now := clock(k - 1);
  }

  lemma ClosedKeepsTimers(l: Loop, timers: map<int, Deadline>, fd: int)
    ensures Closed(l.(timers := timers), fd) == Closed(l, fd).(timers := timers)
  {
  }

  /** What `HeapTimer.Tick` and the callbacks do in one go, the loop thread can do
      step by step: the runs above cover it, ending before `epoll_wait`. */
  lemma TickRefines(r: Run, s: State, timeoutMS: int, fired: seq<TimerNode>, after: map<int, Deadline>,
                    clock: nat -> int)
    returns (r': Run, s': State)
    requires Possible(r, timeoutMS) && End(r, timeoutMS) == s && BetweenTimers(s) && s.now <= clock(0)
    requires TickRun(s.loop.timers, fired, after, clock) && Forward(clock)
    ensures Possible(r', timeoutMS) && End(r', timeoutMS) == s'
    ensures s' == s.(now := clock(|fired|), phase := Waiting, history := s'.history, loop := Ticked(s.loop, fired))
  {
    var now, history;
    r', now, history := FireMany(r, s, timeoutMS, fired, after, clock, |fired|);
    assert fired[..|fired|] == fired;
    r', s' := Extend(r', Fired(s, fired, now, history), timeoutMS, Clock(clock(|fired|)));
    r', s' := Extend(r', s', timeoutMS, TickDone);
  }

  // ---------- a round of the server is part of a run ----------

  /** The kernel accepts no descriptor that it has open, and none twice. */
  predicate AreNew(l: Loop, accepted: seq<int>, k: nat) {
    && (forall j :: k <= j < |accepted| ==> accepted[j] !in l.sockets)
    && (forall i, j :: k <= i < j < |accepted| ==> accepted[i] != accepted[j])
  }

  /** What `WebServer.DealListen` does; the batch of events waits. */
  lemma {:induction false} ListenRefines(r: Run, s: State, timeoutMS: int, accepted: seq<int>, k: nat, edge: bool,
                                         clock: nat -> int)
    returns (r': Run, s': State)
    requires Possible(r, timeoutMS) && End(r, timeoutMS) == s && s.phase == Handling && s.main == None
    requires k <= |accepted| && s.now <= clock(k) && Forward(clock) && AreNew(s.loop, accepted, k)
    ensures Possible(r', timeoutMS) && End(r', timeoutMS) == s' && s'.now <= clock(|accepted|)
    ensures s' == s.(now := s'.now, history := s'.history,
                     loop := Listened(s.loop, accepted, k, edge, timeoutMS, clock))
    decreases |accepted| - k
  {
    r', s' := r, s;
    if k < |accepted| && 0 < accepted[k] && s.loop.userCount < MAX_FD {
      r', s' := Extend(r', s', timeoutMS, Clock(clock(k)));
      r', s' := Extend(r', s', timeoutMS, Accept(accepted[k]));
      if edge {
        r', s' := ListenRefines(r', s', timeoutMS, accepted, k + 1, edge, clock);
      }
    }
  }

  /** What `WebServer.CloseConn` does for the next event. */
  lemma CloseRefines(r: Run, s: State, timeoutMS: int) returns (r': Run, s': State)
    requires Possible(r, timeoutMS) && End(r, timeoutMS) == s && Enabled(s, HangUp)
    ensures Possible(r', timeoutMS) && End(r', timeoutMS) == s'
    ensures s' == s.(loop := Closed(s.loop, s.batch[0]), batch := s.batch[1..], history := s'.history)
  {
    r', s' := Extend(r, s, timeoutMS, HangUp);
    if s'.main.Some? {
      r', s' := FinishClose(r', s', timeoutMS);
    }
  }

  /** What `WebServer.DealRead` and `WebServer.DealWrite` do. */
  lemma TouchRefines(r: Run, s: State, timeoutMS: int, step: Step, now: int) returns (r': Run, s': State)
    requires Possible(r, timeoutMS) && End(r, timeoutMS) == s && s.now <= now
    requires (step == Read || step == Write) && Enabled(s, step)
    ensures Possible(r', timeoutMS) && End(r', timeoutMS) == s'
    ensures s' == s.(now := now, loop := Touched(s.loop, s.batch[0], timeoutMS, now), batch := s.batch[1..],
                     history := s'.history, readTasks := s'.readTasks)
    ensures s'.readTasks == if step == Read then s.readTasks + multiset{s.batch[0]} else s.readTasks
  {
    r', s' := Extend(r, s, timeoutMS, Clock(now));
    r', s' := Extend(r', s', timeoutMS, step);
  }

  /** The loop thread before the i-th of the events. */
  ghost predicate ServingNext(s: State, events: seq<Event>, i: nat) {
    && s.phase == Handling && s.main == None && s.firing == None && s.batch == Clients(events, i)
    && Reported(events, s.loop.timers.Keys)
  }

  /** The clients whose events these are, from the i-th on. */
  function Clients(events: seq<Event>, i: nat): seq<int>
    decreases |events| - i
  {
    if i >= |events| then []
    else (if events[i].Incoming? then [] else [events[i].fd]) + Clients(events, i + 1)
  }

  predicate AcceptsNew(l: Loop, events: seq<Event>, i: nat, edge: bool, timeoutMS: int, clock: nat -> int, k: nat)
    requires Reported(events, l.timers.Keys)
    decreases |events| - i
  {
    i < |events| ==>
      && (events[i].Incoming? ==> AreNew(l, events[i].accepted, 0))
      && AcceptsNew(Served(l, events[i], edge, timeoutMS, clock, k), events, i + 1, edge, timeoutMS, clock,
                    k + Readings(events[i]))
  }

  lemma ServeClient(r: Run, s: State, timeoutMS: int, e: Event, edge: bool, clock: nat -> int, k: nat)
    returns (r': Run, s': State)
    requires Possible(r, timeoutMS) && End(r, timeoutMS) == s && s.phase == Handling && s.main == None
    requires !e.Incoming? && s.batch != [] && s.batch[0] == e.fd && e.fd in s.loop.timers && s.now <= clock(k)
    ensures Possible(r', timeoutMS) && End(r', timeoutMS) == s' && s'.now <= clock(k)
    ensures s' == s.(now := s'.now, batch := s.batch[1..], history := s'.history, readTasks := s'.readTasks,
                     loop := Served(s.loop, e, edge, timeoutMS, clock, k))
    ensures s'.readTasks == s.readTasks + if e.Readable? then multiset{e.fd} else multiset{}
  {
    match e
    case Broken(fd) => r', s' := CloseRefines(r, s, timeoutMS);
    case Readable(fd) => r', s' := TouchRefines(r, s, timeoutMS, Read, clock(k));
    case Writable(fd) => r', s' := TouchRefines(r, s, timeoutMS, Write, clock(k));
  }

  lemma ServeIncoming(r: Run, s: State, timeoutMS: int, e: Event, edge: bool, clock: nat -> int, k: nat)
    returns (r': Run, s': State)
    requires Possible(r, timeoutMS) && End(r, timeoutMS) == s && s.phase == Handling && s.main == None
    requires e.Incoming? && s.now <= clock(k) && Forward(clock) && AreNew(s.loop, e.accepted, 0)
    ensures Possible(r', timeoutMS) && End(r', timeoutMS) == s' && s'.now <= clock(k + Readings(e))
    ensures s' == s.(now := s'.now, history := s'.history, loop := Served(s.loop, e, edge, timeoutMS, clock, k))
  {
    var later := From(clock, k);
    assert later(0) == clock(k) && later(|e.accepted|) == clock(k + Readings(e));
    r', s' := ListenRefines(r, s, timeoutMS, e.accepted, 0, edge, later);
  }

  lemma ServeNth(r: Run, s: State, timeoutMS: int, events: seq<Event>, i: nat, edge: bool, clock: nat -> int, k: nat,
                 l': Loop, k': nat)
    returns (r': Run, s': State)
    requires Possible(r, timeoutMS) && End(r, timeoutMS) == s && i < |events| && ServingNext(s, events, i)
    requires l' == Served(s.loop, events[i], edge, timeoutMS, clock, k) && s.loop.timers.Keys <= l'.timers.Keys
    requires (events[i].Incoming? ==> AreNew(s.loop, events[i].accepted, 0)) && s.now <= clock(k) && Forward(clock)
    requires k' == k + Readings(events[i])
    ensures Possible(r', timeoutMS) && End(r', timeoutMS) == s' && ServingNext(s', events, i + 1)
    ensures s'.loop == l' && s'.now <= clock(k') && s'.readTasks == s.readTasks + ReadFds(TasksOf(events[i]))
  {
    ReadFdsOf(events[i]);
    if events[i].Incoming? {
      r', s' := ServeIncoming(r, s, timeoutMS, events[i], edge, clock, k);
    } else {
      r', s' := ServeClient(r, s, timeoutMS, events[i], edge, clock, k);
    }
  }

  lemma NthServed(l: Loop, events: seq<Event>, i: nat, edge: bool, timeoutMS: int, clock: nat -> int, k: nat)
    returns (l': Loop, k': nat)
    requires i < |events| && Reported(events, l.timers.Keys)
    requires AcceptsNew(l, events, i, edge, timeoutMS, clock, k)
    ensures l' == Served(l, events[i], edge, timeoutMS, clock, k) && l.timers.Keys <= l'.timers.Keys
    ensures k' == k + Readings(events[i]) && k' + AllReadings(events, i + 1) == k + AllReadings(events, i)
    ensures events[i].Incoming? ==> AreNew(l, events[i].accepted, 0)
    ensures AcceptsNew(l', events, i + 1, edge, timeoutMS, clock, k')
    ensures ServedAll(l', events, i + 1, edge, timeoutMS, clock, k') == ServedAll(l, events, i, edge, timeoutMS, clock, k)
  {
    l' := ServedNext(l, events, i, edge, timeoutMS, clock, k);
    k' := k + Readings(events[i]);
  }

  lemma ReadsNext(queued: multiset<int>, events: seq<Event>, i: nat)
    requires i < |events|
    ensures queued + ReadFds(TasksOf(events[i])) + ReadFds(AllTasks(events, i + 1))
            == queued + ReadFds(AllTasks(events, i))
  {
    ReadFdsAdd(TasksOf(events[i]), AllTasks(events, i + 1));
  }

  /** A batch of events, from the i-th on. */
  lemma {:induction false} ServeAllRefines(r: Run, s: State, timeoutMS: int, events: seq<Event>, i: nat, edge: bool,
                                           clock: nat -> int, k: nat)
    returns (r': Run, s': State)
    requires Possible(r, timeoutMS) && End(r, timeoutMS) == s && ServingNext(s, events, i) && i <= |events|
    requires AcceptsNew(s.loop, events, i, edge, timeoutMS, clock, k) && s.now <= clock(k) && Forward(clock)
    ensures Possible(r', timeoutMS) && End(r', timeoutMS) == s' && ServingNext(s', events, |events|)
    ensures s'.loop == ServedAll(s.loop, events, i, edge, timeoutMS, clock, k)
    ensures s'.now <= clock(k + AllReadings(events, i)) && s'.readTasks == s.readTasks + ReadFds(AllTasks(events, i))
    decreases |events| - i
  {
    if i == |events| {
      return r, s;
    }
    ReadsNext(s.readTasks, events, i);
    var l', k' := NthServed(s.loop, events, i, edge, timeoutMS, clock, k);
    r', s' := ServeNth(r, s, timeoutMS, events, i, edge, clock, k, l', k');
    r', s' := ServeAllRefines(r', s', timeoutMS, events, i + 1, edge, clock, k');
  }

  lemma {:induction false} ClientsReported(events: seq<Event>, i: nat, interest: set<int>)
    requires Reported(events, interest)
    ensures forall fd :: fd in Clients(events, i) ==> fd in interest
    decreases |events| - i
  {
    if i < |events| {
      ClientsReported(events, i + 1, interest);
    }
  }

  predicate TurnAccepts(l: Loop, turn: Turn, edge: bool, timeoutMS: int, clock: nat -> int)
    requires timeoutMS > 0 && Reported(turn.events, l.timers.Keys)
  {
    AcceptsNew(l, turn.events, 0, edge, timeoutMS, clock, TickReadings(turn, timeoutMS))
  }

  /** What `WebServer.Round` makes of the loop in one go, the loop thread can make of
      it step by step. */
  lemma RoundRefines(r: Run, s: State, timeoutMS: int, turn: Turn, edge: bool, clock: nat -> int)
    returns (r': Run, s': State)
    requires Possible(r, timeoutMS) && End(r, timeoutMS) == s && BetweenTimers(s) && s.now <= clock(0)
    requires timeoutMS > 0 && Forward(clock) && TurnPossible(s.loop, turn, timeoutMS, clock)
    requires TurnAccepts(Ticked(s.loop, turn.fired), turn, edge, timeoutMS, clock)
    ensures Possible(r', timeoutMS) && End(r', timeoutMS) == s' && BetweenTimers(s')
    ensures s'.loop == Turned(s.loop, turn, edge, timeoutMS, clock) && s'.now <= clock(TurnReadings(turn, timeoutMS))
    ensures s'.readTasks == s.readTasks + ReadFds(AllTasks(turn.events, 0))
  {
    var l, events := Ticked(s.loop, turn.fired), turn.events;
    r', s' := TickRefines(r, s, timeoutMS, turn.fired, l.timers, clock);
    ClientsReported(events, 0, l.interest);
    r', s' := Extend(r', s', timeoutMS, Wait(Clients(events, 0)));
    r', s' := ServeAllRefines(r', s', timeoutMS, events, 0, edge, clock, |turn.fired| + 2);
    r', s' := Extend(r', s', timeoutMS, BatchDone);
  }

  ghost predicate TurnsAccept(l: Loop, turns: seq<Turn>, edge: bool, timeoutMS: int, clock: nat -> int)
    requires timeoutMS > 0 && TurnsPossible(l, turns, edge, timeoutMS, clock)
    decreases |turns|
  {
    turns != [] ==>
      var before, turn := turns[..|turns| - 1], turns[|turns| - 1];
      && TurnsAccept(l, before, edge, timeoutMS, clock)
      && TurnAccepts(Ticked(TurnedAll(l, before, edge, timeoutMS, clock), turn.fired), turn, edge, timeoutMS,
                     ClockAfter(clock, before, timeoutMS))
  }

  /** So any number of rounds is part of a run. */
  lemma {:induction false} RoundsRefine(r: Run, s: State, timeoutMS: int, turns: seq<Turn>, edge: bool,
                                        clock: nat -> int)
    returns (r': Run, s': State)
    requires Possible(r, timeoutMS) && End(r, timeoutMS) == s && BetweenTimers(s) && s.now <= clock(0)
    requires timeoutMS > 0 && Forward(clock) && TurnsPossible(s.loop, turns, edge, timeoutMS, clock)
    requires TurnsAccept(s.loop, turns, edge, timeoutMS, clock)
    ensures Possible(r', timeoutMS) && End(r', timeoutMS) == s' && BetweenTimers(s')
    ensures s'.loop == TurnedAll(s.loop, turns, edge, timeoutMS, clock)
    ensures s'.now <= ClockAfter(clock, turns, timeoutMS)(0) && s'.readTasks == s.readTasks + ReadFds(TurnsTasks(turns))
    decreases |turns|
  {
    if turns == [] {
      return r, s;
    }
    var before, turn := turns[..|turns| - 1], turns[|turns| - 1];
    r', s' := RoundsRefine(r, s, timeoutMS, before, edge, clock);
    ClockGoesOn(clock, before, timeoutMS);
    ReadsGoOn(s.readTasks, turns);
    r', s' := RoundRefines(r', s', timeoutMS, turn, edge, ClockAfter(clock, before, timeoutMS));
  }

  lemma ReadsGoOn(queued: multiset<int>, turns: seq<Turn>)
    requires turns != []
    ensures var before, turn := turns[..|turns| - 1], turns[|turns| - 1];
            queued + ReadFds(TurnsTasks(before)) + ReadFds(AllTasks(turn.events, 0)) == queued + ReadFds(TurnsTasks(turns))
  {
    ReadFdsAdd(TurnsTasks(turns[..|turns| - 1]), AllTasks(turns[|turns| - 1].events, 0));
  }

  /** What `WebServer.Start` makes of a new server is the end of a run: what holds in
      every reachable state holds after every round. */
  lemma StartIsRun(timeoutMS: int, turns: seq<Turn>, edge: bool, clock: nat -> int) returns (r: Run)
    requires timeoutMS > 0 && Forward(clock) && START.now <= clock(0)
    requires TurnsPossible(START.loop, turns, edge, timeoutMS, clock)
    requires TurnsAccept(START.loop, turns, edge, timeoutMS, clock)
    ensures Possible(r, timeoutMS) && End(r, timeoutMS).loop == TurnedAll(START.loop, turns, edge, timeoutMS, clock)
    ensures Inv(End(r, timeoutMS), timeoutMS)
  {
    var s;
    r, s := RoundsRefine(Begin, START, timeoutMS, turns, edge, clock);
    RunKeepsInv(r, timeoutMS);
  }

  // ---------- what goes wrong when two threads close one client ----------

  const CLIENT: map<int, Deadline> := map[5 := Deadline(1_000_000, 5)]

  lemma ServerWoken() returns (r: Run, s: State)
    ensures Possible(r, 1) && End(r, 1) == s
    ensures s == START.(phase := Handling)
  {
    r, s := Begin, START;
    r, s := Extend(r, s, 1, TickDone);
    r, s := Extend(r, s, 1, Wait([]));
  }

  lemma ClientAccepted() returns (r: Run, s: State)
    ensures Possible(r, 1) && End(r, 1) == s
    ensures s == State(Loop({5}, 1, {5}, {5}, CLIENT), 0, Handling, [], None, None, multiset{}, multiset{},
                       History(map[5 := 0], 0, 0, {5}))
  {
    r, s := ServerWoken();
    r, s := Extend(r, s, 1, Accept(5));
  }

  lemma ClientReady() returns (r: Run, s: State)
    ensures Possible(r, 1) && End(r, 1) == s
    ensures s == State(Loop({5}, 1, {5}, {5}, CLIENT), 0, Handling, [5], None, None, multiset{}, multiset{},
                       History(map[5 := 0], 0, 0, {5}))
  {
    r, s := ClientAccepted();
    r, s := Extend(r, s, 1, BatchDone);
    r, s := Extend(r, s, 1, TickDone);
    r, s := Extend(r, s, 1, Wait([5]));
  }

  lemma ReadQueued() returns (r: Run, s: State)
    ensures Possible(r, 1) && End(r, 1) == s
    ensures s == State(Loop({5}, 1, {5}, {5}, CLIENT), 0, Handling, [], None, None, multiset{}, multiset{5},
                       History(map[5 := 0], 0, 0, {5}))
  {
    r, s := ClientReady();
    r, s := Extend(r, s, 1, Read);
    assert s.loop.timers == CLIENT && s.history.lastActive == map[5 := 0] && s.batch == [];
    assert s.readTasks == multiset{5};
  }

  /** The client has sent something, and the worker's read of it fails. */
  lemma ReadFails() returns (r: Run, s: State)
    ensures Possible(r, 1) && End(r, 1) == s
    ensures s == State(Loop({5}, 1, {}, {5}, CLIENT), 0, Ticking, [], None, None, multiset{Seen(5)}, multiset{},
                       History(map[5 := 0], 0, 0, {}))
  {
    r, s := ReadQueued();
    r, s := Extend(r, s, 1, BatchDone);
    r, s := Extend(r, s, 1, WorkerTest(5));
    assert s.readTasks == multiset{} && s.workers == multiset{Seen(5)} && s.loop.interest == {};
    assert s.history.untouched == {};
  }

  /** That client now times out: two threads have seen its flag unset. */
  lemma TimerFires() returns (r: Run, s: State)
    ensures Possible(r, 1) && End(r, 1) == s
    ensures s == State(Loop({5}, 1, {}, {5}, CLIENT), 1_000_000, Ticking, [], Some(5), Some(Seen(5)),
                       multiset{Seen(5)}, multiset{}, History(map[5 := 0], 0, 0, {}))
  {
    r, s := ReadFails();
    r, s := Extend(r, s, 1, Clock(1_000_000));
    assert IsEarliest(s.loop.timers, 5);
    r, s := Extend(r, s, 1, Fire(5));
  }

  /** Both go on, and the count drops to -1 with no client open. */
  lemma TwoClosersMiscount() returns (r: Run)
    ensures Possible(r, 1) && End(r, 1).loop.open == {} && End(r, 1).loop.userCount == -1
  {
    var s;
    r, s := TimerFires();
    r, s := Extend(r, s, 1, WorkerFlag(5));
    r, s := Extend(r, s, 1, MainFlag);
  }

  /** The loop thread closes the descriptor and removes the timer, */
  lemma LoopCloses(r: Run, s: State) returns (r': Run, s': State)
    requires Possible(r, 1) && End(r, 1) == s && s.phase == Ticking && s.firing == Some(5) && s.batch == []
    requires s.main == Some(Marked(5)) && s.loop.timers == CLIENT && s.loop.sockets == {5} && s.loop.interest == {}
    ensures Possible(r', 1) && End(r', 1) == s'
    ensures s' == s.(loop := Loop(s.loop.open, s.loop.userCount, {}, {}, map[]), firing := None, main := None)
  {
    r', s' := Extend(r, s, 1, MainClose);
    r', s' := Extend(r', s', 1, Popped);
    assert s'.loop.timers == map[];
  }

  /** and accepts a successor on the descriptor, while the worker is still in `Close`. */
  lemma LoopGoesOn(r: Run, s: State) returns (r': Run, s': State)
    requires Possible(r, 1) && End(r, 1) == s && s.phase == Ticking && s.firing == Some(5) && s.batch == []
    requires s.main == Some(Marked(5)) && s.loop.timers == CLIENT && s.loop.sockets == {5} && s.loop.interest == {}
    requires s.loop.open == {} && s.loop.userCount < MAX_FD && UnderWay(s.(main := None), 5)
    ensures Possible(r', 1) && End(r', 1) == s' && s'.phase == Handling && s'.main == None
    ensures s'.loop.open == {5} && s'.loop.userCount == s.loop.userCount + 1
    ensures s'.loop.interest == {5} && s'.loop.sockets == {5}
    ensures s'.workers == s.workers && s'.readTasks == s.readTasks
    ensures s'.history.doubleCloses == s.history.doubleCloses && s'.history.reopens == s.history.reopens
    ensures s'.history.untouched == s.history.untouched - {5}
  {
    r', s' := LoopCloses(r, s);
    r', s' := Extend(r', s', 1, TickDone);
    r', s' := Extend(r', s', 1, Wait([]));
    r', s' := Extend(r', s', 1, Accept(5));
  }

  lemma SuccessorBehindFlag() returns (r: Run, s: State)
    ensures Possible(r, 1) && End(r, 1) == s && s.phase == Handling && s.main == None
    ensures s.loop.open == {5} && s.loop.userCount == 0 && s.loop.interest == {5} && s.loop.sockets == {5}
    ensures s.workers == multiset{Marked(5)} && s.history.untouched == {}
    ensures s.history.doubleCloses == 1 && s.history.reopens == 0
  {
    r, s := TimerFires();
    r, s := Extend(r, s, 1, WorkerFlag(5));
    r, s := Extend(r, s, 1, MainFlag);
    assert s.workers == multiset{Marked(5)} && s.loop.userCount == -1 && s.loop.open == {};
    r, s := LoopGoesOn(r, s);
  }

  /** The worker has set the flag, the loop thread has closed the descriptor and
      accepted a successor on it; now the worker closes the successor's socket. */
  lemma SuccessorLosesSocket() returns (r: Run, s: State)
    ensures Possible(r, 1) && End(r, 1) == s && s.phase == Handling && s.main == None
    ensures s.loop.open == {5} && s.loop.userCount == 0 && s.loop.sockets == {}
    ensures s.history.doubleCloses == 1 && s.history.reopens == 0
  {
    r, s := SuccessorBehindFlag();
    r, s := Extend(r, s, 1, WorkerClose(5));
    assert s.loop.sockets == {};
  }

  /** The kernel gives the descriptor out once more, and its flag is still unset. Count
      and open clients agree again, but only because two errors cancel. */
  lemma LateCloseHitsSuccessor() returns (r: Run)
    ensures Possible(r, 1)
    ensures var s := End(r, 1);
            && s.loop.userCount == |s.loop.open| == 1
            && s.history.doubleCloses == 1 && s.history.reopens == 1
  {
    var s;
    r, s := SuccessorLosesSocket();
    r, s := Extend(r, s, 1, Accept(5));
    assert s.loop.open == {5};
  }

  /** In another order the worker, late, marks the successor as closed that is open
      and registered: the successor has had no event of its own. */
  lemma LateFlagHitsSuccessor() returns (r: Run)
    ensures Possible(r, 1)
    ensures var s := End(r, 1);
            && 5 in s.loop.interest && 5 in s.loop.sockets && 5 !in s.loop.open
            && s.history.doubleCloses == 0 && s.readTasks == multiset{}
  {
    var s;
    r, s := TimerFires();
    r, s := Extend(r, s, 1, MainFlag);
    r, s := LoopGoesOn(r, s);
    r, s := Extend(r, s, 1, WorkerFlag(5));
  }
}
