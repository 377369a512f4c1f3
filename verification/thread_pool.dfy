/**
 code/pool/threadpool.h: the worker loop, `AddTask` and the destructor, over every
 interleaving. A step is one stretch that a thread runs while it holds the mutex,
 or one notification; what a worker does in `cond.wait` is a state of its own.
 */
module ThreadPools {

  type Tid = nat

  /** A submitted function; the ticket is its place in the order of submission. */
  datatype Task = Task(ticket: nat, work: int)

  datatype State = State(
    tasks: seq<Task>,
    isClosed: bool,
    ready: set<Tid>,          // about to take the lock and look at the queue
    running: map<Tid, Task>,  // in task(), without the lock
    waiting: set<Tid>,        // asleep in cond.wait
    exited: set<Tid>,
    notifyOnes: nat,          // AddTask calls between their unlock and their notify_one
    notifyAll: bool,          // the destructor between its unlock and its notify_all
    submitted: seq<Task>,     // history: in order of submission
    started: seq<Task>,       // history: in order of their start
    done: set<Task>)          // history

  datatype Step =
    | AddTask(work: int)
    | NotifyOne(w: Tid)
    | Destroy
    | NotifyAll
    | Wake(w: Tid)            // a wait may end without a notification
    | Turn(w: Tid)            // one turn of the worker loop, up to unlock, wait or break
    | Finish(w: Tid)          // task() returns

  /** The constructor, with one thread for each member of `crew`. */
  function Start(crew: set<Tid>): State {
    State([], false, crew, map[], {}, {}, 0, false, [], [], {})
  }

  ghost predicate Enabled(s: State, step: Step) {
    match step
    case AddTask(_) => !s.isClosed
    case NotifyOne(w) => 0 < s.notifyOnes && (w in s.waiting || s.waiting == {})
    case Destroy => !s.isClosed
    case NotifyAll => s.notifyAll
    case Wake(w) => w in s.waiting
    case Turn(w) => w in s.ready
    case Finish(w) => w in s.running
  }

  function Apply(s: State, step: Step): State
    requires Enabled(s, step)
  {
    match step
    case AddTask(work) =>
      var task := Task(|s.submitted|, work);
      s.(tasks := s.tasks + [task], submitted := s.submitted + [task], notifyOnes := s.notifyOnes + 1)
    case NotifyOne(w) =>
      var t := s.(notifyOnes := s.notifyOnes - 1);
      if w in s.waiting then t.(waiting := s.waiting - {w}, ready := s.ready + {w}) else t
    case Destroy => s.(isClosed := true, notifyAll := true)
    case NotifyAll => s.(notifyAll := false, waiting := {}, ready := s.ready + s.waiting)
    case Wake(w) => s.(waiting := s.waiting - {w}, ready := s.ready + {w})
    case Turn(w) =>
      var t := s.(ready := s.ready - {w});
      if s.tasks != [] then
        t.(tasks := s.tasks[1..], running := s.running[w := s.tasks[0]], started := s.started + [s.tasks[0]])
      else if s.isClosed then t.(exited := s.exited + {w})
      else t.(waiting := s.waiting + {w})
    case Finish(w) =>
      s.(running := s.running - {w}, ready := s.ready + {w}, done := s.done + {s.running[w]})
  }

  datatype Run = Begin | Then(before: Run, step: Step)

  ghost predicate Possible(r: Run, crew: set<Tid>)
    decreases r, 0
  {
    r.Then? ==> Possible(r.before, crew) && Enabled(End(r.before, crew), r.step)
  }

  ghost function End(r: Run, crew: set<Tid>): State
    requires Possible(r, crew)
    decreases r, 1
  {
    if r.Begin? then Start(crew) else Apply(End(r.before, crew), r.step)
  }

  function ToSet(tasks: seq<Task>): set<Task> {
    set k | 0 <= k < |tasks| :: tasks[k]
  }

  /** Every thread is in one place. */
  ghost predicate Placed(s: State, crew: set<Tid>) {
    && s.ready + s.running.Keys + s.waiting + s.exited == crew
    && s.ready !! s.running.Keys !! s.waiting !! s.exited
  }

  ghost predicate Injective(running: map<Tid, Task>) {
    forall v, w :: v in running && w in running && v != w ==> running[v] != running[w]
  }

  /** Tasks are submitted once each, started in that order, and then either running
      on one thread or done: nothing is lost, repeated or reordered. */
  ghost predicate Conserved(s: State) {
    && s.submitted == s.started + s.tasks
    && (forall k :: 0 <= k < |s.submitted| ==> s.submitted[k].ticket == k)
    && ToSet(s.started) == s.done + s.running.Values
    && s.done !! s.running.Values
    && Injective(s.running)
  }

  /** A thread leaves only when the pool is closed and drained. While one sleeps,
      every queued task has a thread about to look for it or a notification still
      to come. Once the close notification is delivered no thread sleeps. */
  ghost predicate Awake(s: State) {
    && (s.exited != {} ==> s.isClosed && s.tasks == [])
    && (s.waiting != {} ==> |s.tasks| <= |s.ready| + s.notifyOnes)
    && (s.isClosed && !s.notifyAll ==> s.waiting == {})
    && (s.notifyAll ==> s.isClosed)
  }

  ghost predicate Inv(s: State, crew: set<Tid>) {
    Placed(s, crew) && Conserved(s) && Awake(s)
  }

  lemma ValuesWith(m: map<Tid, Task>, w: Tid, task: Task)
    requires w !in m
    ensures m[w := task].Values == m.Values + {task}
  {
    var m' := m[w := task];
    assert m'[w] == task;
    forall t | t in m.Values ensures t in m'.Values {
      var v :| v in m && m[v] == t;
      assert m'[v] == t;
    }
  }

  lemma ValuesWithout(m: map<Tid, Task>, w: Tid)
    requires w in m && Injective(m)
    ensures (m - {w}).Values == m.Values - {m[w]}
  {
    var m' := m - {w};
    forall t | t in m.Values - {m[w]} ensures t in m'.Values {
      var v :| v in m && m[v] == t;
      assert v in m' && m'[v] == t;
    }
  }

  lemma ToSetAppend(tasks: seq<Task>, task: Task)
    ensures ToSet(tasks + [task]) == ToSet(tasks) + {task}
  {
    var more := tasks + [task];
    assert more[|tasks|] == task;
    forall t | t in ToSet(tasks) ensures t in ToSet(more) {
      var k :| 0 <= k < |tasks| && tasks[k] == t;
      assert more[k] == t;
    }
  }

  lemma TurnConserves(s: State, w: Tid, crew: set<Tid>)
    requires Placed(s, crew) && Conserved(s) && w in s.ready
    ensures Conserved(Apply(s, Turn(w)))
  {
    if s.tasks != [] {
      var task, n := s.tasks[0], |s.started|;
      ToSetAppend(s.started, task);
      ValuesWith(s.running, w, task);
      assert s.submitted[n] == task;
      forall t | t in ToSet(s.started) ensures t != task {
        var k :| 0 <= k < n && s.started[k] == t;
        assert s.submitted[k] == t;
      }
      forall v | v in s.running ensures s.running[v] != task {
        assert s.running[v] in ToSet(s.started);
      }
      assert s.started + [task] + s.tasks[1..] == s.submitted;
    }
  }

  lemma StepConserves(s: State, step: Step, crew: set<Tid>)
    requires Placed(s, crew) && Conserved(s) && Enabled(s, step)
    ensures Conserved(Apply(s, step))
  {
    match step
    case Turn(w) => TurnConserves(s, w, crew);
    case Finish(w) => ValuesWithout(s.running, w);
    case AddTask(work) =>
      var task := Task(|s.submitted|, work);
      assert s.started + (s.tasks + [task]) == s.submitted + [task];
    case _ =>
  }

  lemma StepPlaces(s: State, step: Step, crew: set<Tid>)
    requires Placed(s, crew) && Enabled(s, step)
    ensures Placed(Apply(s, step), crew)
  {
  }

  lemma StepKeepsAwake(s: State, step: Step, crew: set<Tid>)
    requires Placed(s, crew) && Awake(s) && Enabled(s, step)
    ensures Awake(Apply(s, step))
  {
    match step
    case NotifyOne(w) => if w in s.waiting { Sizes(s.ready, s.waiting, w); }
    case Wake(w) => Sizes(s.ready, s.waiting, w);
    case Finish(w) => Sizes(s.ready, s.running.Keys, w);
    case Turn(w) => Sizes(s.waiting, s.ready, w);
    case _ =>
  }

  lemma {:induction false} RunKeepsInv(r: Run, crew: set<Tid>)
    requires Possible(r, crew)
    ensures Inv(End(r, crew), crew)
  {
    if r.Then? {
      RunKeepsInv(r.before, crew);
      var s := End(r.before, crew);
      StepPlaces(s, r.step, crew);
      StepConserves(s, r.step, crew);
      StepKeepsAwake(s, r.step, crew);
    }
  }

  /** What the calls of AddTask have asked for, in order. */
  function Works(r: Run): seq<int> {
    match r
    case Begin => []
    case Then(before, AddTask(work)) => Works(before) + [work]
    case Then(before, _) => Works(before)
  }

  function TasksFor(works: seq<int>): (tasks: seq<Task>)
    ensures |tasks| == |works| && forall k :: 0 <= k < |works| ==> tasks[k] == Task(k, works[k])
  {
    seq(|works|, k requires 0 <= k < |works| => Task(k, works[k]))
  }

  /** What is queued, run and done is what was asked for: the tasks submitted are the
      functions given to AddTask, in order, */
  lemma {:induction false} SubmittedAre(r: Run, crew: set<Tid>)
    requires Possible(r, crew)
    ensures End(r, crew).submitted == TasksFor(Works(r))
  {
    if r.Then? {
      SubmittedAre(r.before, crew);
      if r.step.AddTask? {
        assert TasksFor(Works(r)) == TasksFor(Works(r.before)) + [Task(|Works(r.before)|, r.step.work)];
      }
    }
  }

  /** and they are started in that order. */
  lemma StartedInOrder(r: Run, crew: set<Tid>)
    requires Possible(r, crew)
    ensures var s := End(r, crew);
            && s.started + s.tasks == TasksFor(Works(r))
            && forall k :: 0 <= k < |s.started| ==> k < |Works(r)| && s.started[k].work == Works(r)[k]
  {
    RunKeepsInv(r, crew);
    SubmittedAre(r, crew);
    var s := End(r, crew);
    assert forall k :: 0 <= k < |s.started| ==> s.started[k] == s.submitted[k];
  }

  /** When nothing but new calls can move an open pool, its queue is empty: no task
      is stranded while every thread sleeps. */
  lemma NoStrandedTask(r: Run, crew: set<Tid>)
    requires Possible(r, crew) && crew != {}
    requires var s := End(r, crew); !s.isClosed && s.ready == {} && s.running == map[] && s.notifyOnes == 0
    ensures End(r, crew).tasks == [] && End(r, crew).waiting == crew
  {
    RunKeepsInv(r, crew);
  }

  // ---------- closing ----------

  /** How far the threads are from having drained a closed pool. */
  function WorkLeft(s: State): nat {
    3 * |s.tasks| + 2 * |s.running.Keys| + |s.ready|
  }

  predicate IsWorkerStep(step: Step) {
    step.Turn? || step.Finish?
  }

  /** Closed, with the close notification delivered. */
  ghost predicate Closing(s: State) {
    s.isClosed && !s.notifyAll
  }

  ghost predicate WorkersGoOn(s: State, steps: seq<Step>)
    decreases |steps|
  {
    steps != [] ==> IsWorkerStep(steps[0]) && Enabled(s, steps[0]) && WorkersGoOn(Apply(s, steps[0]), steps[1..])
  }

  ghost function After(s: State, steps: seq<Step>): State
    requires WorkersGoOn(s, steps)
    decreases |steps|
  {
    if steps == [] then s else After(Apply(s, steps[0]), steps[1..])
  }

  lemma LessWork(s: State, step: Step, crew: set<Tid>)
    requires Placed(s, crew) && s.isClosed && IsWorkerStep(step) && Enabled(s, step)
    ensures WorkLeft(Apply(s, step)) < WorkLeft(s)
  {
  }

  lemma Sizes(to: set<Tid>, from: set<Tid>, w: Tid)
    requires w in from && w !in to
    ensures |from - {w}| == |from| - 1 && |to + {w}| == |to| + 1
  {
  }

  lemma ClosingStep(s: State, step: Step, crew: set<Tid>)
    requires Inv(s, crew) && Closing(s) && IsWorkerStep(step) && Enabled(s, step)
    ensures var t := Apply(s, step); Inv(t, crew) && Closing(t) && t.submitted == s.submitted
  {
    StepPlaces(s, step, crew);
    StepConserves(s, step, crew);
    StepKeepsAwake(s, step, crew);
  }

  /** No thread of the pool can move. */
  ghost predicate AtRest(s: State) {
    s.ready == {} && s.running == map[]
  }

  /** A closed pool drains: however its threads go on, they stop after at most
      `WorkLeft` steps, and then every submitted task is done and every thread has
      left. (A task's own work is one step.) */
  lemma {:induction false} CloseDrains(s: State, steps: seq<Step>, crew: set<Tid>)
    requires Inv(s, crew) && Closing(s) && WorkersGoOn(s, steps) && crew != {}
    ensures |steps| <= WorkLeft(s)
    ensures var t := After(s, steps);
            AtRest(t) ==> t.exited == crew && t.tasks == [] && t.done == ToSet(s.submitted)
    decreases |steps|
  {
    if steps == [] {
      if AtRest(s) {
        assert s.exited == crew && s.started == s.submitted && s.running.Values == {};
      }
    } else {
      LessWork(s, steps[0], crew);
      ClosingStep(s, steps[0], crew);
      CloseDrains(Apply(s, steps[0]), steps[1..], crew);
    }
  }

  /** Over a whole run: after the destructor every function ever given to AddTask has
      been run to its end, however the threads went on. */
  lemma AllWorkIsDone(r: Run, steps: seq<Step>, crew: set<Tid>)
    requires Possible(r, crew) && crew != {}
    requires Closing(End(r, crew)) && WorkersGoOn(End(r, crew), steps)
    ensures |steps| <= WorkLeft(End(r, crew))
    ensures var t := After(End(r, crew), steps);
            AtRest(t) ==> t.exited == crew && t.done == ToSet(TasksFor(Works(r)))
  {
    RunKeepsInv(r, crew);
    SubmittedAre(r, crew);
    CloseDrains(End(r, crew), steps, crew);
  }

  /** A thread that is not at rest can always move. */
  lemma CanGoOn(s: State)
    requires !AtRest(s)
    ensures exists step :: IsWorkerStep(step) && Enabled(s, step)
  {
    if s.ready != {} {
      var w :| w in s.ready;
      assert IsWorkerStep(Turn(w)) && Enabled(s, Turn(w));
    } else {
      var w :| w in s.running;
      assert IsWorkerStep(Finish(w)) && Enabled(s, Finish(w));
    }
  }
}
