/**
 code/log/blockqueue.h: the bounded blocking deque, over every interleaving of
 `push_back`, `push_front`, the untimed `pop`, `Close` and `flush`. A step is what
 one thread does while it holds the mutex, with the notification it sends before
 it lets go; `Close` notifies after it has let go, in two steps of its own.
 */
module BlockDeques {
  import opened Options

  type Tid = nat
  type Item = int

  datatype Push = Push(item: Item, front: bool)

  /** The threads in a push: about to look at the deque, or asleep on
      condProducer_; and what each thread's latest push is to push. */
  datatype Producers = Producers(args: map<Tid, Push>, pushing: set<Tid>, blocked: set<Tid>)

  /** The threads in a pop: before their first look at the deque, back from a wait,
      or asleep on condConsumer_; of the sleepers, those that dozed off before any
      Close. */
  datatype Consumers = Consumers(arriving: set<Tid>, woken: set<Tid>, sleeping: set<Tid>, early: set<Tid>)

  /** What was pushed, in order; what of it no Close has dropped; what was popped;
      what Close dropped; and whether some push_front went through. */
  datatype History = History(pushed: seq<Item>, kept: seq<Item>, popped: seq<Item>, dropped: multiset<Item>,
                             frontUsed: bool)

  /** The deque, the Close calls still to notify each side, and the threads. */
  datatype State = State(deq: seq<Item>, capacity: nat, isClosed: bool, closesP: nat, closesC: nat,
                         producers: Producers, consumers: Consumers, history: History)

  datatype Step =
    | CallPush(p: Tid, push: Push)
    | CallPop(c: Tid)
    | PushTurn(p: Tid, wakes: Tid) // until the push returns or waits; its notify_one wakes `wakes`
    | PopTurn(c: Tid, wakes: Tid)
    | Close
    | NotifyProducers
    | NotifyConsumers
    | WakeProducer(p: Tid)         // a wait may end without a notification
    | WakeConsumer(c: Tid)         // likewise, and by flush

  function Start(capacity: nat): State {
    State([], capacity, false, 0, 0, Producers(map[], {}, {}), Consumers({}, {}, {}, {}),
          History([], [], [], multiset{}, false))
  }

  predicate Idle(s: State, t: Tid) {
    && t !in s.producers.pushing && t !in s.producers.blocked
    && t !in s.consumers.arriving && t !in s.consumers.woken && t !in s.consumers.sleeping
  }

  predicate Enabled(s: State, step: Step) {
    match step
    case CallPush(p, _) => Idle(s, p)
    case CallPop(c) => Idle(s, c)
    case PushTurn(p, wakes) =>
      && p in s.producers.pushing && p in s.producers.args
      && (wakes in s.consumers.sleeping || s.consumers.sleeping == {})
    case PopTurn(c, wakes) =>
      && (c in s.consumers.arriving || c in s.consumers.woken)
      && (wakes in s.producers.blocked || s.producers.blocked == {})
    case Close => true
    case NotifyProducers => 0 < s.closesP
    case NotifyConsumers => 0 < s.closesC
    case WakeProducer(p) => p in s.producers.blocked
    case WakeConsumer(c) => c in s.consumers.sleeping
  }

  function ProducerWoken(ps: Producers, p: Tid): Producers {
    if p in ps.blocked then ps.(blocked := ps.blocked - {p}, pushing := ps.pushing + {p}) else ps
  }

  function ConsumerWoken(cs: Consumers, c: Tid): Consumers {
    if c in cs.sleeping then Consumers(cs.arriving, cs.woken + {c}, cs.sleeping - {c}, cs.early - {c}) else cs
  }

  /** A consumer without the lock and out of the call, or out of its way to sleep. */
  function ConsumerGone(cs: Consumers, c: Tid): Consumers {
    cs.(arriving := cs.arriving - {c}, woken := cs.woken - {c})
  }

  function Inserted(deq: seq<Item>, push: Push): seq<Item> {
    if push.front then [push.item] + deq else deq + [push.item]
  }

  function Recorded(h: History, push: Push): History {
    h.(pushed := h.pushed + [push.item], kept := h.kept + [push.item], frontUsed := h.frontUsed || push.front)
  }

  /** A push with the lock: it waits on a full deque, closed or not. */
  function Pushed(s: State, p: Tid, wakes: Tid): State
    requires p in s.producers.args
  {
    var ps := s.producers.(pushing := s.producers.pushing - {p});
    if |s.deq| >= s.capacity then s.(producers := ps.(blocked := ps.blocked + {p}))
    else
      var push := s.producers.args[p];
      s.(deq := Inserted(s.deq, push), producers := ps, consumers := ConsumerWoken(s.consumers, wakes),
         history := Recorded(s.history, push))
  }

  /** A pop with the lock: only after a wait does it look whether the deque is closed. */
  function Popped(s: State, c: Tid, wakes: Tid): State {
    var cs := ConsumerGone(s.consumers, c);
    if c in s.consumers.woken && s.isClosed then s.(consumers := cs)
    else if s.deq == [] then
      s.(consumers := cs.(sleeping := cs.sleeping + {c}, early := if s.isClosed then cs.early else cs.early + {c}))
    else
      s.(deq := s.deq[1..], consumers := cs, producers := ProducerWoken(s.producers, wakes),
         history := s.history.(popped := s.history.popped + [s.deq[0]]))
  }

  function Closed(s: State): State {
    s.(deq := [], isClosed := true, closesP := s.closesP + 1, closesC := s.closesC + 1,
       history := s.history.(kept := s.history.popped, dropped := s.history.dropped + multiset(s.deq)))
  }

  function Apply(s: State, step: Step): State
    requires Enabled(s, step)
  {
    var ps, cs := s.producers, s.consumers;
    match step
    case CallPush(p, push) => s.(producers := ps.(args := ps.args[p := push], pushing := ps.pushing + {p}))
    case CallPop(c) => s.(consumers := cs.(arriving := cs.arriving + {c}))
    case PushTurn(p, wakes) => Pushed(s, p, wakes)
    case PopTurn(c, wakes) => Popped(s, c, wakes)
    case Close => Closed(s)
    case NotifyProducers =>
      s.(closesP := s.closesP - 1, producers := ps.(blocked := {}, pushing := ps.pushing + ps.blocked))
    case NotifyConsumers =>
      s.(closesC := s.closesC - 1, consumers := Consumers(cs.arriving, cs.woken + cs.sleeping, {}, {}))
    case WakeProducer(p) => s.(producers := ProducerWoken(ps, p))
    case WakeConsumer(c) => s.(consumers := ConsumerWoken(cs, c))
  }

  datatype Run = Begin | Then(before: Run, step: Step)

  ghost predicate Possible(r: Run, capacity: nat)
    decreases r, 0
  {
    r.Then? ==> Possible(r.before, capacity) && Enabled(End(r.before, capacity), r.step)
  }

  ghost function End(r: Run, capacity: nat): State
    requires Possible(r, capacity)
    decreases r, 1
  {
    if r.Begin? then Start(capacity) else Apply(End(r.before, capacity), r.step)
  }

  /** Every thread is in one call at a time. */
  ghost predicate Placed(ps: Producers, cs: Consumers) {
    && ps.pushing !! ps.blocked !! cs.arriving !! cs.woken !! cs.sleeping
    && ps.pushing + ps.blocked <= ps.args.Keys && cs.early <= cs.sleeping
  }

  /** What was pushed is what was popped, what is queued and what Close dropped;
      leaving that out, and without push_front, in that order. */
  ghost predicate Conserved(deq: seq<Item>, isClosed: bool, h: History) {
    && multiset(h.pushed) == multiset(h.kept) + h.dropped
    && multiset(h.kept) == multiset(h.popped) + multiset(deq)
    && (!h.frontUsed ==> h.kept == h.popped + deq)
    && (!isClosed ==> h.kept == h.pushed)
  }

  /** While a producer sleeps and no Close is about to wake it, every free slot has
      an awake producer to fill it. */
  ghost predicate ProducersAwake(free: int, closesP: nat, ps: Producers) {
    ps.blocked != {} && closesP == 0 ==> free <= |ps.pushing|
  }

  /** While a consumer sleeps on an open deque, every queued item has an awake
      consumer to take it. Once every Close has notified the consumers, none sleeps
      that dozed off before. */
  ghost predicate ConsumersAwake(queued: nat, isClosed: bool, closesC: nat, cs: Consumers) {
    && (!isClosed && cs.sleeping != {} ==> queued <= |cs.arriving| + |cs.woken|)
    && (isClosed && closesC == 0 ==> cs.early == {})
  }

  ghost predicate Inv(s: State, capacity: nat) {
    && s.capacity == capacity && |s.deq| <= capacity
    && Placed(s.producers, s.consumers)
    && Conserved(s.deq, s.isClosed, s.history)
    && ProducersAwake(capacity - |s.deq|, s.closesP, s.producers)
    && ConsumersAwake(|s.deq|, s.isClosed, s.closesC, s.consumers)
    && (0 < s.closesP || 0 < s.closesC ==> s.isClosed)
  }

  lemma PushConserves(deq: seq<Item>, isClosed: bool, h: History, push: Push)
    requires Conserved(deq, isClosed, h)
    ensures Conserved(Inserted(deq, push), isClosed, Recorded(h, push))
  {
    PushedAll(deq, h, push);
    assert !push.front ==> h.popped + (deq + [push.item]) == h.popped + deq + [push.item];
  }

  lemma PushedAll(deq: seq<Item>, h: History, push: Push)
    requires multiset(h.pushed) == multiset(h.kept) + h.dropped && multiset(h.kept) == multiset(h.popped) + multiset(deq)
    ensures var h' := Recorded(h, push);
            && multiset(h'.pushed) == multiset(h'.kept) + h'.dropped
            && multiset(h'.kept) == multiset(h'.popped) + multiset(Inserted(deq, push))
  {
    MultisetMore(h.pushed, push.item);
    MultisetMore(h.kept, push.item);
    MultisetMore(deq, push.item);
  }

  lemma MultisetMore(items: seq<Item>, item: Item)
    ensures multiset(items + [item]) == multiset(items) + multiset{item}
    ensures multiset([item] + items) == multiset(items) + multiset{item}
  {
  }

  lemma PopConserves(deq: seq<Item>, isClosed: bool, h: History)
    requires Conserved(deq, isClosed, h) && deq != []
    ensures Conserved(deq[1..], isClosed, h.(popped := h.popped + [deq[0]]))
  {
    assert deq == [deq[0]] + deq[1..];
    assert h.popped + [deq[0]] + deq[1..] == h.popped + deq;
  }

  lemma CloseConserves(deq: seq<Item>, isClosed: bool, h: History)
    requires Conserved(deq, isClosed, h)
    ensures Conserved([], true, h.(kept := h.popped, dropped := h.dropped + multiset(deq)))
  {
  }

  lemma ProducerWakes(free: int, closesP: nat, ps: Producers, cs: Consumers, p: Tid)
    requires Placed(ps, cs) && ProducersAwake(free, closesP, ps)
    ensures Placed(ProducerWoken(ps, p), cs)
    ensures ProducersAwake(free, closesP, ProducerWoken(ps, p))
    ensures p in ps.blocked || ps.blocked == {} ==> ProducersAwake(free + 1, closesP, ProducerWoken(ps, p))
  {
  }

  lemma ConsumerWakes(queued: nat, isClosed: bool, closesC: nat, ps: Producers, cs: Consumers, c: Tid)
    requires Placed(ps, cs) && ConsumersAwake(queued, isClosed, closesC, cs)
    ensures Placed(ps, ConsumerWoken(cs, c))
    ensures ConsumersAwake(queued, isClosed, closesC, ConsumerWoken(cs, c))
    ensures c in cs.sleeping || cs.sleeping == {} ==>
              ConsumersAwake(queued + 1, isClosed, closesC, ConsumerWoken(cs, c))
  {
  }

  lemma StopsPushing(free: int, closesP: nat, ps: Producers, cs: Consumers, p: Tid)
    requires Placed(ps, cs) && ProducersAwake(free, closesP, ps) && p in ps.pushing
    ensures var gone := ps.(pushing := ps.pushing - {p});
            && Placed(gone, cs) && ProducersAwake(free - 1, closesP, gone)
            && Placed(gone.(blocked := ps.blocked + {p}), cs)
  {
  }

  lemma PushKeepsInv(s: State, p: Tid, wakes: Tid, capacity: nat)
    requires Inv(s, capacity) && Enabled(s, PushTurn(p, wakes))
    ensures Inv(Pushed(s, p, wakes), capacity)
  {
    StopsPushing(capacity - |s.deq|, s.closesP, s.producers, s.consumers, p);
    if |s.deq| < capacity {
      var push := s.producers.args[p];
      PushConserves(s.deq, s.isClosed, s.history, push);
      var ps := s.producers.(pushing := s.producers.pushing - {p});
      ConsumerWakes(|s.deq|, s.isClosed, s.closesC, ps, s.consumers, wakes);
      assert |Inserted(s.deq, push)| == |s.deq| + 1;
    }
  }

  lemma Leaves(cs: Consumers, ps: Producers, c: Tid)
    requires Placed(ps, cs) && (c in cs.arriving || c in cs.woken)
    ensures var gone := ConsumerGone(cs, c);
            && Placed(ps, gone) && |gone.arriving| + |gone.woken| == |cs.arriving| + |cs.woken| - 1
            && c !in gone.arriving && c !in gone.woken && gone.sleeping == cs.sleeping && gone.early == cs.early
  {
  }

  lemma PopKeepsInv(s: State, c: Tid, wakes: Tid, capacity: nat)
    requires Inv(s, capacity) && Enabled(s, PopTurn(c, wakes))
    ensures Inv(Popped(s, c, wakes), capacity)
  {
    Leaves(s.consumers, s.producers, c);
    if s.deq != [] {
      PopConserves(s.deq, s.isClosed, s.history);
      ProducerWakes(capacity - |s.deq|, s.closesP, s.producers, ConsumerGone(s.consumers, c), wakes);
    }
  }

  lemma CallKeepsInv(s: State, step: Step, capacity: nat)
    requires Inv(s, capacity) && Enabled(s, step) && (step.CallPush? || step.CallPop?)
    ensures Inv(Apply(s, step), capacity)
  {
  }

  lemma CloseKeepsInv(s: State, step: Step, capacity: nat)
    requires Inv(s, capacity) && Enabled(s, step)
    requires step.Close? || step.NotifyProducers? || step.NotifyConsumers?
    ensures Inv(Apply(s, step), capacity)
  {
    if step.Close? {
      CloseConserves(s.deq, s.isClosed, s.history);
    }
  }

  lemma WakeKeepsInv(s: State, step: Step, capacity: nat)
    requires Inv(s, capacity) && Enabled(s, step) && (step.WakeProducer? || step.WakeConsumer?)
    ensures Inv(Apply(s, step), capacity)
  {
    match step
    case WakeProducer(p) => ProducerWakes(capacity - |s.deq|, s.closesP, s.producers, s.consumers, p);
    case WakeConsumer(c) => ConsumerWakes(|s.deq|, s.isClosed, s.closesC, s.producers, s.consumers, c);
  }

  lemma StepKeepsInv(s: State, step: Step, capacity: nat)
    requires Inv(s, capacity) && Enabled(s, step)
    ensures Inv(Apply(s, step), capacity)
  {
    if step.PushTurn? {
      PushKeepsInv(s, step.p, step.wakes, capacity);
    } else if step.PopTurn? {
      PopKeepsInv(s, step.c, step.wakes, capacity);
    } else if step.CallPush? || step.CallPop? {
      CallKeepsInv(s, step, capacity);
    } else if step.WakeProducer? || step.WakeConsumer? {
      WakeKeepsInv(s, step, capacity);
    } else {
      CloseKeepsInv(s, step, capacity);
    }
  }

  lemma {:induction false} RunKeepsInv(r: Run, capacity: nat)
    requires Possible(r, capacity)
    ensures Inv(End(r, capacity), capacity)
  {
    if r.Then? {
      RunKeepsInv(r.before, capacity);
      StepKeepsInv(End(r.before, capacity), r.step, capacity);
    }
  }

  /** What a thread's latest call of a push has asked for. */
  function Asked(r: Run, p: Tid): Option<Push> {
    match r
    case Begin => None
    case Then(before, CallPush(q, push)) => if p == q then Some(push) else Asked(before, p)
    case Then(before, _) => Asked(before, p)
  }

  lemma {:induction false} ArgsAre(r: Run, capacity: nat, p: Tid)
    requires Possible(r, capacity) && p in End(r, capacity).producers.args
    ensures Asked(r, p) == Some(End(r, capacity).producers.args[p])
  {
    var s := End(r.before, capacity);
    if r.step != CallPush(p, End(r, capacity).producers.args[p]) {
      ArgsAre(r.before, capacity, p);
    }
  }

  /** What went in, in order: the item asked for, at each turn of a push that found
      room. */
  ghost function PushedIn(r: Run, capacity: nat): seq<Item>
    requires Possible(r, capacity)
  {
    if r.Begin? then []
    else if !r.step.PushTurn? || |End(r.before, capacity).deq| >= capacity then PushedIn(r.before, capacity)
    else
      match Asked(r.before, r.step.p)
      case Some(push) => PushedIn(r.before, capacity) + [push.item]
      case None => PushedIn(r.before, capacity)
  }

  lemma OnlyPushRecords(s: State, step: Step)
    requires Enabled(s, step)
    ensures Apply(s, step).history.pushed
            == if step.PushTurn? && |s.deq| < s.capacity then s.history.pushed + [s.producers.args[step.p].item]
               else s.history.pushed
  {
  }

  lemma {:induction false} PushedAre(r: Run, capacity: nat)
    requires Possible(r, capacity)
    ensures End(r, capacity).history.pushed == PushedIn(r, capacity)
  {
    if r.Then? {
      PushedAre(r.before, capacity);
      RunKeepsInv(r.before, capacity);
      OnlyPushRecords(End(r.before, capacity), r.step);
      if r.step.PushTurn? {
        ArgsAre(r.before, capacity, r.step.p);
      }
    }
  }

  /** No call of push_front, and none of Close. */
  predicate BackOnly(r: Run) {
    r.Then? ==> BackOnly(r.before) && !r.step.Close? && (r.step.CallPush? ==> !r.step.push.front)
  }

  lemma {:induction false} BackOnlyStays(r: Run, capacity: nat)
    requires Possible(r, capacity) && BackOnly(r)
    ensures var s := End(r, capacity);
            && !s.isClosed && !s.history.frontUsed
            && forall p :: p in s.producers.args ==> !s.producers.args[p].front
  {
    if r.Then? {
      BackOnlyStays(r.before, capacity);
    }
  }

  /** Then items come out in the order in which they went in, and none is lost. */
  lemma FifoRun(r: Run, capacity: nat)
    requires Possible(r, capacity) && BackOnly(r)
    ensures var s := End(r, capacity); PushedIn(r, capacity) == s.history.popped + s.deq
  {
    RunKeepsInv(r, capacity);
    PushedAre(r, capacity);
    BackOnlyStays(r, capacity);
  }

  lemma PushPuts(s: State, p: Tid, wakes: Tid)
    requires Enabled(s, PushTurn(p, wakes)) && |s.deq| < s.capacity
    ensures var t, push := Apply(s, PushTurn(p, wakes)), s.producers.args[p];
            && t.deq == (if push.front then [push.item] + s.deq else s.deq + [push.item])
            && t.history.popped == s.history.popped && t.isClosed == s.isClosed
  {
  }

  lemma PopTakes(s: State, c: Tid, wakes: Tid)
    requires Enabled(s, PopTurn(c, wakes)) && s.deq != [] && (c in s.consumers.woken ==> !s.isClosed)
    ensures var t := Apply(s, PopTurn(c, wakes));
            t.history.popped == s.history.popped + [s.deq[0]] && t.deq == s.deq[1..]
  {
  }

  /** What push_front puts in is popped next; what push_back puts in is popped after
      all that is queued. */
  lemma PushedEnds(s: State, p: Tid, c: Tid, wakes: Tid, wakes': Tid, t: State, u: State)
    requires Enabled(s, PushTurn(p, wakes)) && |s.deq| < s.capacity && t == Apply(s, PushTurn(p, wakes))
    requires Enabled(t, PopTurn(c, wakes')) && (c in t.consumers.woken ==> !t.isClosed)
    requires u == Apply(t, PopTurn(c, wakes'))
    ensures var push := s.producers.args[p];
            if push.front then u.history.popped == s.history.popped + [push.item] && u.deq == s.deq
            else if s.deq == [] then u.history.popped == s.history.popped + [push.item] && u.deq == []
            else u.history.popped == s.history.popped + [s.deq[0]] && u.deq == s.deq[1..] + [push.item]
  {
    PushPuts(s, p, wakes);
    PopTakes(t, c, wakes');
  }

  /** An open deque never locks up: its consumers and its producers do not all
      sleep at once. With nobody awake, sleeping consumers face an empty deque and
      sleeping producers a full one. */
  lemma NeverAllAsleep(r: Run, capacity: nat)
    requires Possible(r, capacity) && 0 < capacity
    requires var s := End(r, capacity);
             !s.isClosed && s.consumers.arriving + s.consumers.woken + s.producers.pushing == {}
    ensures var s := End(r, capacity);
            && (s.consumers.sleeping != {} ==> s.deq == [])
            && (s.producers.blocked != {} ==> |s.deq| == capacity)
            && (s.consumers.sleeping == {} || s.producers.blocked == {})
  {
    RunKeepsInv(r, capacity);
    var s := End(r, capacity);
    assert s.consumers.arriving == {} && s.consumers.woken == {} && s.producers.pushing == {};
  }

  // ---------- what Close does and what it does not ----------

  /** `Close` releases whoever slept: once every call of it has notified, a consumer
      still asleep has gone to sleep on the closed deque, and a producer still
      asleep has awake ones for every free slot. */
  lemma CloseReleasesSleepers(r: Run, capacity: nat)
    requires Possible(r, capacity)
    requires var s := End(r, capacity); s.isClosed && s.closesP == 0 && s.closesC == 0
    ensures var s := End(r, capacity);
            && s.consumers.early == {}
            && (s.producers.blocked != {} ==> capacity - |s.deq| <= |s.producers.pushing|)
  {
    RunKeepsInv(r, capacity);
  }

  /** Which pops sleep: on an open deque those that find it empty; on a closed one
      only those called after `Close`, since a pop that has waited returns. */
  lemma PopSleepsIff(r: Run, capacity: nat, c: Tid, wakes: Tid)
    requires Possible(r, capacity) && Enabled(End(r, capacity), PopTurn(c, wakes))
    ensures var s := End(r, capacity);
            c in Apply(s, PopTurn(c, wakes)).consumers.sleeping <==>
            s.deq == [] && (s.isClosed ==> c in s.consumers.arriving)
  {
    RunKeepsInv(r, capacity);
  }

  /** Every queued item has an awake consumer to take it, if any consumer sleeps. */
  predicate NoneLost(s: State) {
    s.consumers.sleeping != {} ==> |s.deq| <= |s.consumers.arriving| + |s.consumers.woken|
  }

  lemma PopLosesIff(s: State, c: Tid, wakes: Tid)
    requires Placed(s.producers, s.consumers) && Enabled(s, PopTurn(c, wakes)) && NoneLost(s)
    ensures !NoneLost(Popped(s, c, wakes)) <==>
            && s.isClosed && c in s.consumers.woken && s.consumers.sleeping != {}
            && |s.deq| == |s.consumers.arriving| + |s.consumers.woken|
  {
    Leaves(s.consumers, s.producers, c);
  }

  lemma PushLosesNone(s: State, p: Tid, wakes: Tid)
    requires Placed(s.producers, s.consumers) && Enabled(s, PushTurn(p, wakes)) && NoneLost(s)
    ensures NoneLost(Pushed(s, p, wakes))
  {
    ConsumerWakes(|s.deq|, false, 0, s.producers, s.consumers, wakes);
  }

  /** Which steps lose a wake-up: only the return of a pop that a push has woken on
      a closed deque, when no other consumer is awake for its item. */
  lemma LosesWakeUpIff(s: State, step: Step)
    requires Placed(s.producers, s.consumers) && Enabled(s, step) && NoneLost(s)
    ensures !NoneLost(Apply(s, step)) <==>
            && s.isClosed && step.PopTurn? && step.c in s.consumers.woken && s.consumers.sleeping != {}
            && |s.deq| == |s.consumers.arriving| + |s.consumers.woken|
  {
    match step
    case PushTurn(p, wakes) => PushLosesNone(s, p, wakes);
    case PopTurn(c, wakes) => PopLosesIff(s, c, wakes);
    case WakeConsumer(c) => ConsumerWakes(|s.deq|, false, 0, s.producers, s.consumers, c);
    case CallPop(c) => assert |s.consumers.arriving + {c}| == |s.consumers.arriving| + 1;
    case _ =>
  }

  /** No push takes its turn on a closed deque. */
  ghost predicate NoLatePush(r: Run, capacity: nat)
    requires Possible(r, capacity)
  {
    r.Then? ==>
      && NoLatePush(r.before, capacity)
      && (r.step.PushTurn? ==> !End(r.before, capacity).isClosed)
  }

  lemma NoneLostStep(s: State, step: Step)
    requires Placed(s.producers, s.consumers) && Enabled(s, step) && NoneLost(s) && (s.isClosed ==> s.deq == [])
    requires step.PushTurn? ==> !s.isClosed
    ensures var t := Apply(s, step); NoneLost(t) && (t.isClosed ==> t.deq == [])
  {
    LosesWakeUpIff(s, step);
    if step.PopTurn? {
      Leaves(s.consumers, s.producers, step.c);
    }
  }

  /** Without late pushes a closed deque is empty and no wake-up is ever lost. */
  lemma {:induction false} NoLatePushNoneLost(r: Run, capacity: nat)
    requires Possible(r, capacity) && NoLatePush(r, capacity)
    ensures var s := End(r, capacity); NoneLost(s) && (s.isClosed ==> s.deq == [])
  {
    if r.Then? {
      RunKeepsInv(r.before, capacity);
      NoLatePushNoneLost(r.before, capacity);
      NoneLostStep(End(r.before, capacity), r.step);
    }
  }

  lemma Extend(r: Run, s: State, step: Step) returns (r': Run, s': State)
    requires Possible(r, 1) && End(r, 1) == s && Enabled(s, step)
    ensures Possible(r', 1) && End(r', 1) == s' && s' == Apply(s, step)
  {
    r', s' := Then(r, step), Apply(s, step);
  }

  /** `pop` looks at `isClose_` only after a wait: one that is called when `Close`
      has come and gone goes to sleep, and no notification is left to wake it. */
  lemma PopAfterCloseSleeps() returns (r: Run, s: State)
    ensures Possible(r, 1) && End(r, 1) == s
    ensures s == State([], 1, true, 0, 0, Producers(map[], {}, {}), Consumers({}, {}, {1}, {}),
                       History([], [], [], multiset{}, false))
  {
    r, s := Begin, Start(1);
    r, s := Extend(r, s, Close);
    r, s := Extend(r, s, NotifyProducers);
    r, s := Extend(r, s, NotifyConsumers);
    assert s == State([], 1, true, 0, 0, Producers(map[], {}, {}), Consumers({}, {}, {}, {}),
                      History([], [], [], multiset{}, false));
    r, s := Extend(r, s, CallPop(1));
    r, s := Extend(r, s, PopTurn(1, 0));
  }

  /** On a closed deque a wake-up can be lost: two consumers sleep as above, a push,
      which Close does not stop, wakes the first, and that one returns empty-handed;
      the item stays queued and the second consumer sleeps on. */
  lemma WakeUpLostAfterClose() returns (r: Run, s: State)
    ensures Possible(r, 1) && End(r, 1) == s
    ensures s.isClosed && s.closesC == 0 && s.deq == [7] && s.consumers == Consumers({}, {}, {2}, {})
  {
    r, s := PopAfterCloseSleeps();
    r, s := Extend(r, s, CallPop(2));
    r, s := Extend(r, s, PopTurn(2, 0));
    assert s.consumers == Consumers({}, {}, {1, 2}, {});
    r, s := Extend(r, s, CallPush(3, Push(7, false)));
    r, s := Extend(r, s, PushTurn(3, 1));
    assert s.consumers == Consumers({}, {1}, {2}, {}) && s.producers.blocked == {};
    r, s := Extend(r, s, PopTurn(1, 0));
  }
}
