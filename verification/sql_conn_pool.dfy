/**
 code/pool/sqlconnpool.cpp: the connection pool with its queue, mutex and
 semaphore, over every interleaving of `GetConn` and `FreeConn`. `GetConn` tests
 the queue without the lock, waits on the semaphore, and only then locks and pops;
 `FreeConn` posts while it still holds the lock.
 */
module SqlConnPools {

  type Tid = nat
  type Conn = nat

  datatype State = State(
    queue: seq<Conn>,
    sem: nat,
    asking: set<Tid>,      // in GetConn, before its test for an empty queue
    hopeful: set<Tid>,     // past that test, before or in sem_wait
    admitted: set<Tid>,    // past sem_wait, before the pop
    posting: bool,         // some FreeConn has pushed and not yet posted; it holds the lock
    out: multiset<Conn>,   // history: connections given out and not returned
    given: seq<Conn>)      // history: what GetConn returned, without the null pointers

  datatype Step =
    | CallGet(t: Tid)
    | Test(t: Tid)
    | SemWait(t: Tid)
    | Pop(t: Tid)
    | Free(conn: Conn)     // FreeConn up to its push
    | Post

  /** `Init` with the connections of `conns`. */
  function Start(conns: seq<Conn>): State {
    State(conns, |conns|, {}, {}, {}, false, multiset{}, [])
  }

  predicate Enabled(s: State, step: Step) {
    match step
    case CallGet(t) => t !in s.asking && t !in s.hopeful && t !in s.admitted
    case Test(t) => t in s.asking
    case SemWait(t) => t in s.hopeful && 0 < s.sem
    case Pop(t) => t in s.admitted && !s.posting
    case Free(conn) => !s.posting
    case Post => s.posting
  }

  /** `connQue_.front()` is undefined on an empty queue; this pop then does nothing. */
  function Apply(s: State, step: Step): State
    requires Enabled(s, step)
  {
    match step
    case CallGet(t) => s.(asking := s.asking + {t})
    case Test(t) =>
      s.(asking := s.asking - {t}, hopeful := if s.queue == [] then s.hopeful else s.hopeful + {t})
    case SemWait(t) => s.(sem := s.sem - 1, hopeful := s.hopeful - {t}, admitted := s.admitted + {t})
    case Pop(t) =>
      var u := s.(admitted := s.admitted - {t});
      if s.queue == [] then u
      else u.(queue := s.queue[1..], out := s.out + multiset{s.queue[0]}, given := s.given + [s.queue[0]])
    case Free(conn) => s.(queue := s.queue + [conn], out := s.out - multiset{conn}, posting := true)
    case Post => s.(sem := s.sem + 1, posting := false)
  }

  datatype Run = Begin | Then(before: Run, step: Step)

  ghost predicate Possible(r: Run, conns: seq<Conn>)
    decreases r, 0
  {
    r.Then? ==> Possible(r.before, conns) && Enabled(End(r.before, conns), r.step)
  }

  ghost function End(r: Run, conns: seq<Conn>): State
    requires Possible(r, conns)
    decreases r, 1
  {
    if r.Begin? then Start(conns) else Apply(End(r.before, conns), r.step)
  }

  /** The semaphore and the threads past it account for the queue, but for the
      connection a FreeConn has pushed and not yet posted. */
  ghost predicate Accounted(s: State) {
    && s.sem + |s.admitted| + (if s.posting then 1 else 0) == |s.queue|
    && s.asking !! s.hopeful !! s.admitted
  }

  lemma StepAccounts(s: State, step: Step)
    requires Accounted(s) && Enabled(s, step)
    ensures Accounted(Apply(s, step))
  {
  }

  lemma {:induction false} RunAccounts(r: Run, conns: seq<Conn>)
    requires Possible(r, conns)
    ensures Accounted(End(r, conns))
  {
    if r.Then? {
      RunAccounts(r.before, conns);
      StepAccounts(End(r.before, conns), r.step);
    }
  }

  /** A thread that pops never finds the queue empty, whatever is returned to the
      pool, and however the unlocked test of GetConn was overtaken. */
  lemma PopFindsConnection(r: Run, conns: seq<Conn>, t: Tid)
    requires Possible(r, conns) && Enabled(End(r, conns), Pop(t))
    ensures End(r, conns).queue != []
  {
    RunAccounts(r, conns);
    assert t in End(r, conns).admitted;
  }

  /** A `GetConn` that finds the queue empty returns at once, with nothing; one that
      does not goes on to wait. */
  lemma TestDecides(r: Run, conns: seq<Conn>, t: Tid)
    requires Possible(r, conns) && Enabled(End(r, conns), Test(t))
    ensures var s := End(r, conns);
            var s' := Apply(s, Test(t));
            && s'.given == s.given
            && (s.queue == [] ==> Enabled(s', CallGet(t)))
            && (s.queue != [] ==> t in s'.hopeful && (0 < s.sem ==> Enabled(s', SemWait(t))))
  {
    RunAccounts(r, conns);
  }

  /** The connections returned, in order. */
  function Freed(r: Run): seq<Conn> {
    match r
    case Begin => []
    case Then(before, Free(conn)) => Freed(before) + [conn]
    case Then(before, _) => Freed(before)
  }

  /** Connections are given out in the order in which they came: the initial ones,
      then those returned, oldest first. */
  lemma {:induction false} GivenInOrder(r: Run, conns: seq<Conn>)
    requires Possible(r, conns)
    ensures End(r, conns).given + End(r, conns).queue == conns + Freed(r)
  {
    if r.Then? {
      GivenInOrder(r.before, conns);
      var s := End(r.before, conns);
      match r.step
      case Free(conn) => assert s.given + (s.queue + [conn]) == s.given + s.queue + [conn];
      case Pop(t) =>
        if s.queue != [] {
          assert s.given + [s.queue[0]] + s.queue[1..] == s.given + s.queue;
        }
      case _ =>
    }
  }

  /** Queued or given out: every connection of the pool is in exactly one place. */
  ghost predicate Exact(s: State, conns: seq<Conn>) {
    multiset(s.queue) + s.out == multiset(conns)
  }

  /** Returning a connection keeps the pool exact exactly when it is one that is out. */
  lemma FreeExactness(s: State, conn: Conn, conns: seq<Conn>)
    requires Exact(s, conns) && Enabled(s, Free(conn))
    ensures Exact(Apply(s, Free(conn)), conns) <==> conn in s.out
  {
  }

  /** Callers return only connections that are out. */
  ghost predicate ReturnsOwn(r: Run, conns: seq<Conn>)
    requires Possible(r, conns)
  {
    r.Then? ==>
      && ReturnsOwn(r.before, conns)
      && (r.step.Free? ==> r.step.conn in End(r.before, conns).out)
  }

  /** Then the pool stays exact over every run: with distinct connections none is
      ever queued twice, held twice, or both. */
  lemma {:induction false} RunExact(r: Run, conns: seq<Conn>)
    requires Possible(r, conns) && ReturnsOwn(r, conns)
    ensures Exact(End(r, conns), conns)
  {
    if r.Then? {
      RunExact(r.before, conns);
      var s := End(r.before, conns);
      match r.step
      case Free(conn) => FreeExactness(s, conn, conns);
      case Pop(t) => if s.queue != [] { assert s.queue == [s.queue[0]] + s.queue[1..]; }
      case _ =>
    }
  }

  lemma NeverShared(r: Run, conns: seq<Conn>, conn: Conn)
    requires Possible(r, conns) && ReturnsOwn(r, conns)
    requires forall c :: multiset(conns)[c] <= 1
    ensures var s := End(r, conns); multiset(s.queue)[conn] + s.out[conn] <= 1
  {
    RunExact(r, conns);
    var s := End(r, conns);
    assert (multiset(s.queue) + s.out)[conn] == multiset(conns)[conn];
  }

  lemma Extend(r: Run, s: State, step: Step) returns (r': Run, s': State)
    requires Possible(r, [9]) && End(r, [9]) == s && Enabled(s, step)
    ensures Possible(r', [9]) && End(r', [9]) == s' && s' == Apply(s, step)
  {
    r', s' := Then(r, step), Apply(s, step);
  }

  /** `HttpRequest::UserVerify` returns its connection twice: its `SqlConnRAII` is a
      temporary that frees at the end of its own statement, and `FreeConn` follows
      at the end. The pool then holds the connection twice. */
  lemma VerifyFreesTwice() returns (r: Run, s: State)
    ensures Possible(r, [9]) && End(r, [9]) == s
    ensures s == State([9, 9], 2, {}, {}, {}, false, multiset{}, [9])
  {
    r, s := ConnectionOut();
    r, s := Extend(r, s, Free(9));
    r, s := Extend(r, s, Post);
    assert s == State([9], 1, {}, {}, {}, false, multiset{}, [9]);
    r, s := Extend(r, s, Free(9));
    r, s := Extend(r, s, Post);
  }

  lemma ConnectionOut() returns (r: Run, s: State)
    ensures Possible(r, [9]) && End(r, [9]) == s
    ensures s == State([], 0, {}, {}, {}, false, multiset{9}, [9])
  {
    r, s := Begin, Start([9]);
    r, s := Extend(r, s, CallGet(1));
    r, s := Extend(r, s, Test(1));
    r, s := Extend(r, s, SemWait(1));
    r, s := Extend(r, s, Pop(1));
  }

  /** Two later requests are given the same connection at the same time. */
  lemma ConnectionShared() returns (r: Run, s: State)
    ensures Possible(r, [9]) && End(r, [9]) == s && s.out[9] == 2 && s.given == [9, 9, 9]
  {
    r, s := VerifyFreesTwice();
    r, s := Extend(r, s, CallGet(2));
    r, s := Extend(r, s, Test(2));
    r, s := Extend(r, s, SemWait(2));
    r, s := Extend(r, s, Pop(2));
    assert s == State([9], 1, {}, {}, {}, false, multiset{9}, [9, 9]);
    r, s := Extend(r, s, CallGet(3));
    r, s := Extend(r, s, Test(3));
    r, s := Extend(r, s, SemWait(3));
    r, s := Extend(r, s, Pop(3));
  }
}
