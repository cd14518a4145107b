/**
 The thread pool of cpp/thread/ThreadPool.cpp as a state machine: any number of workers and clients and one
 destructor share a mutex, a condition variable, a task queue and a stop flag. Every mutex acquisition,
 critical section, wait, wake-up (also spurious), notification and task execution is its own step, so the
 gap between unlocking and notifying is visible.
 */
module ThreadPool {

  type Task = nat

  datatype Worker =
    | Idle            // top of the loop, about to lock
    | Checking        // holds the mutex, evaluates the wait predicate
    | Waiting         // inside condition.wait, mutex released
    | Woken           // notified or woken spuriously, must lock again
    | Running(task: Task)
    | Exited

  datatype Client =
    | Outside
    | Calling(task: Task)   // inside enqueue, about to lock
    | Holding(task: Task)   // holds the mutex
    | Notifying             // task pushed, mutex released, notify_one still to come

  datatype Destructor = NotCalled | Locking | Stopping | Broadcasting | Joining | Destroyed

  datatype Owner = Free | WorkerOwns(w: nat) | ClientOwns(c: nat) | DestructorOwns

  /** The last four fields record the run: tasks accepted, refused, taken from the queue, and completed, in order. */
  datatype State = State(workers: seq<Worker>, clients: seq<Client>, dtor: Destructor,
                         lock: Owner, queue: seq<Task>, stop: bool,
                         accepted: seq<Task>, refused: seq<Task>, dequeued: seq<Task>, executed: seq<Task>)

  datatype Step =
    | WorkerLock(w: nat)
    | WorkerCheck(w: nat)
    | WorkerRun(w: nat)
    | SpuriousWake(w: nat)
    | ClientCall(c: nat, task: Task)
    | ClientLock(c: nat)
    | ClientPush(c: nat)
    | ClientNotify(c: nat, w: nat)
    | DtorCall
    | DtorLock
    | DtorStop
    | DtorBroadcast
    | DtorJoin

  predicate NoneWaiting(s: State) {
    forall w :: 0 <= w < |s.workers| ==> !s.workers[w].Waiting?
  }

  predicate AllExited(s: State) {
    forall w :: 0 <= w < |s.workers| ==> s.workers[w].Exited?
  }

  predicate Enabled(s: State, step: Step) {
    match step
    case WorkerLock(w) => w < |s.workers| && (s.workers[w].Idle? || s.workers[w].Woken?) && s.lock.Free?
    case WorkerCheck(w) => w < |s.workers| && s.workers[w].Checking?
    case WorkerRun(w) => w < |s.workers| && s.workers[w].Running?
    case SpuriousWake(w) => w < |s.workers| && s.workers[w].Waiting?
    case ClientCall(c, _) => c < |s.clients| && s.clients[c].Outside?
    case ClientLock(c) => c < |s.clients| && s.clients[c].Calling? && s.lock.Free?
    case ClientPush(c) => c < |s.clients| && s.clients[c].Holding?
    case ClientNotify(c, w) =>
      c < |s.clients| && s.clients[c].Notifying? && (NoneWaiting(s) || (w < |s.workers| && s.workers[w].Waiting?))
    case DtorCall => s.dtor.NotCalled?
    case DtorLock => s.dtor.Locking? && s.lock.Free?
    case DtorStop => s.dtor.Stopping?
    case DtorBroadcast => s.dtor.Broadcasting?
    case DtorJoin => s.dtor.Joining? && AllExited(s)
  }

  function WakeAll(ws: seq<Worker>): (r: seq<Worker>)
    ensures |r| == |ws| && forall i :: 0 <= i < |ws| ==> r[i] == if ws[i].Waiting? then Woken else ws[i]
  {
    seq(|ws|, i requires 0 <= i < |ws| => if ws[i].Waiting? then Woken else ws[i])
  }

  /** The worker holds the mutex: exit, take the first task, or go to sleep; the mutex is released in every case. */
  function Check(s: State, w: nat): State
    requires w < |s.workers|
  {
    if s.stop || s.queue != [] then
      if s.stop && s.queue == [] then
        s.(workers := s.workers[w := Exited], lock := Free)
      else
        s.(workers := s.workers[w := Running(s.queue[0])], lock := Free,
           queue := s.queue[1..], dequeued := s.dequeued + [s.queue[0]])
    else
      s.(workers := s.workers[w := Waiting], lock := Free)
  }

  /** The client holds the mutex: enqueue throws once the pool is stopped. */
  function Push(s: State, c: nat): State
    requires c < |s.clients| && s.clients[c].Holding?
  {
    var task := s.clients[c].task;
    if s.stop then
      s.(clients := s.clients[c := Outside], lock := Free, refused := s.refused + [task])
    else
      s.(clients := s.clients[c := Notifying], lock := Free, queue := s.queue + [task], accepted := s.accepted + [task])
  }

  function Apply(s: State, step: Step): State
    requires Enabled(s, step)
  {
    match step
    case WorkerLock(w) => s.(workers := s.workers[w := Checking], lock := WorkerOwns(w))
    case WorkerCheck(w) => Check(s, w)
    case WorkerRun(w) => s.(workers := s.workers[w := Idle], executed := s.executed + [s.workers[w].task])
    case SpuriousWake(w) => s.(workers := s.workers[w := Woken])
    case ClientCall(c, task) => s.(clients := s.clients[c := Calling(task)])
    case ClientLock(c) => s.(clients := s.clients[c := Holding(s.clients[c].task)], lock := ClientOwns(c))
    case ClientPush(c) => Push(s, c)
    case ClientNotify(c, w) =>
      var s' := s.(clients := s.clients[c := Outside]);
      if NoneWaiting(s) then s' else s'.(workers := s.workers[w := Woken])
    case DtorCall => s.(dtor := Locking)
    case DtorLock => s.(dtor := Stopping, lock := DestructorOwns)
    case DtorStop => s.(dtor := Broadcasting, lock := Free, stop := true)
    case DtorBroadcast => s.(dtor := Joining, workers := WakeAll(s.workers))
    case DtorJoin => s.(dtor := Destroyed)
  }

  ghost predicate Init(s: State) {
    && |s.workers| >= 1 && (forall w :: 0 <= w < |s.workers| ==> s.workers[w].Idle?)
    && (forall c :: 0 <= c < |s.clients| ==> s.clients[c].Outside?)
    && s.dtor.NotCalled? && s.lock.Free? && s.queue == [] && !s.stop
    && s.accepted == [] && s.refused == [] && s.dequeued == [] && s.executed == []
  }

  /** A run: every step is enabled where it is taken. */
  predicate ValidRun(s: State, steps: seq<Step>)
    decreases |steps|
  {
    steps == [] || (Enabled(s, steps[0]) && ValidRun(Apply(s, steps[0]), steps[1..]))
  }

  function After(s: State, steps: seq<Step>): State
    requires ValidRun(s, steps)
    decreases |steps|
  {
    if steps == [] then s else After(Apply(s, steps[0]), steps[1..])
  }

  // ----- The invariant -----

  /** The mutex has one holder, and it knows who that is. */
  ghost predicate LockOk(s: State) {
    && (forall w :: 0 <= w < |s.workers| ==> (s.workers[w].Checking? <==> s.lock == WorkerOwns(w)))
    && (forall c :: 0 <= c < |s.clients| ==> (s.clients[c].Holding? <==> s.lock == ClientOwns(c)))
    && (s.dtor.Stopping? <==> s.lock.DestructorOwns?)
    && (s.lock.WorkerOwns? ==> s.lock.w < |s.workers|) && (s.lock.ClientOwns? ==> s.lock.c < |s.clients|)
  }

  function Holds(w: Worker, t: Task): nat {
    if w == Running(t) then 1 else 0
  }

  /** How many workers have taken task `t` and not finished it. */
  function InHand(ws: seq<Worker>, t: Task): nat {
    if ws == [] then 0 else InHand(ws[..|ws| - 1], t) + Holds(ws[|ws| - 1], t)
  }

  /** Accepted tasks leave the queue in order, and each taken task is either in a worker's hands or done, once. */
  ghost predicate TasksOk(s: State) {
    && s.accepted == s.dequeued + s.queue
    && forall t: Task :: multiset(s.dequeued)[t] == multiset(s.executed)[t] + InHand(s.workers, t)
  }

  ghost predicate StopOk(s: State) {
    && (s.stop <==> s.dtor.Broadcasting? || s.dtor.Joining? || s.dtor.Destroyed?)
    && ((exists w :: 0 <= w < |s.workers| && s.workers[w].Exited?) ==> s.stop && s.queue == [])
    && (s.dtor.Joining? || s.dtor.Destroyed? ==> NoneWaiting(s))
    && (s.dtor.Destroyed? ==> AllExited(s))
    && (!s.stop ==> s.refused == [])
  }

  predicate Awake(w: Worker) {
    !w.Waiting? && !w.Exited?
  }

  /** With work queued, some worker is awake or a notification is still to come. */
  ghost predicate WakeOk(s: State) {
    s.queue != [] ==>
      || (exists w :: 0 <= w < |s.workers| && Awake(s.workers[w]))
      || (exists c :: 0 <= c < |s.clients| && s.clients[c].Notifying?)
      || s.dtor.Broadcasting?
  }

  ghost predicate Inv(s: State) {
    |s.workers| >= 1 && LockOk(s) && TasksOk(s) && StopOk(s) && WakeOk(s)
  }

  lemma {:induction false} InHandUpdate(ws: seq<Worker>, w: nat, x: Worker, t: Task)
    requires w < |ws|
    ensures InHand(ws[w := x], t) + Holds(ws[w], t) == InHand(ws, t) + Holds(x, t)
  {
    var n, ws' := |ws| - 1, ws[w := x];
    if w == n {
      assert ws'[..n] == ws[..n];
    } else {
      assert ws'[..n] == ws[..n][w := x] && ws'[n] == ws[n];
      InHandUpdate(ws[..n], w, x, t);
    }
  }

  lemma {:induction false} InHandNone(ws: seq<Worker>, t: Task)
    requires forall i :: 0 <= i < |ws| ==> !ws[i].Running?
    ensures InHand(ws, t) == 0
  {
    if ws == [] {
    } else {
      InHandNone(ws[..|ws| - 1], t);
    }
  }

  lemma {:induction false} InHandWakeAll(ws: seq<Worker>, t: Task)
    ensures InHand(WakeAll(ws), t) == InHand(ws, t)
  {
    if ws == [] {
    } else {
      var n := |ws| - 1;
      assert WakeAll(ws)[..n] == WakeAll(ws[..n]);
      InHandWakeAll(ws[..n], t);
    }
  }

  lemma CountSnoc(s: seq<Task>, x: Task, t: Task)
    ensures multiset(s + [x])[t] == multiset(s)[t] + (if x == t then 1 else 0)
  {
  }

  /** With no task in hand, what was taken is exactly what was completed. */
  lemma DoneWhenNoneRunning(s: State)
    requires TasksOk(s) && forall i :: 0 <= i < |s.workers| ==> !s.workers[i].Running?
    ensures multiset(s.dequeued) == multiset(s.executed)
  {
    forall t: Task ensures multiset(s.dequeued)[t] == multiset(s.executed)[t] {
      InHandNone(s.workers, t);
    }
  }

  lemma InitInv(s: State)
    requires Init(s)
    ensures Inv(s)
  {
    forall t: Task ensures InHand(s.workers, t) == 0 {
      InHandNone(s.workers, t);
    }
  }

  lemma LockPreserved(s: State, step: Step)
    requires Inv(s) && Enabled(s, step)
    ensures LockOk(Apply(s, step))
  {
  }

  /** A worker's move that neither takes nor completes a task. */
  lemma TasksKept(s: State, s': State, w: nat)
    requires TasksOk(s) && w < |s.workers| && !s.workers[w].Running?
    requires |s'.workers| == |s.workers| && s'.workers == s.workers[w := s'.workers[w]] && !s'.workers[w].Running?
    requires s'.accepted == s.accepted && s'.dequeued == s.dequeued && s'.executed == s.executed && s'.queue == s.queue
    ensures TasksOk(s')
  {
    forall t: Task ensures InHand(s'.workers, t) == InHand(s.workers, t) {
      InHandUpdate(s.workers, w, s'.workers[w], t);
    }
  }

  lemma TasksCheck(s: State, w: nat)
    requires TasksOk(s) && w < |s.workers| && s.workers[w].Checking?
    ensures TasksOk(Check(s, w))
  {
    var s' := Check(s, w);
    if s.queue == [] {
      TasksKept(s, s', w);
    } else {
      assert s.dequeued + s.queue == (s.dequeued + [s.queue[0]]) + s.queue[1..];
      forall t: Task ensures multiset(s'.dequeued)[t] == multiset(s'.executed)[t] + InHand(s'.workers, t) {
        InHandUpdate(s.workers, w, Running(s.queue[0]), t);
        CountSnoc(s.dequeued, s.queue[0], t);
      }
    }
  }

  lemma TasksPush(s: State, c: nat)
    requires TasksOk(s) && c < |s.clients| && s.clients[c].Holding?
    ensures TasksOk(Push(s, c))
  {
    var t := [s.clients[c].task];
    assert (s.dequeued + s.queue) + t == s.dequeued + (s.queue + t);
  }

  lemma TasksRun(s: State, w: nat)
    requires TasksOk(s) && w < |s.workers| && s.workers[w].Running?
    ensures TasksOk(s.(workers := s.workers[w := Idle], executed := s.executed + [s.workers[w].task]))
  {
    var s' := s.(workers := s.workers[w := Idle], executed := s.executed + [s.workers[w].task]);
    forall t: Task ensures multiset(s'.dequeued)[t] == multiset(s'.executed)[t] + InHand(s'.workers, t) {
      InHandUpdate(s.workers, w, Idle, t);
      CountSnoc(s.executed, s.workers[w].task, t);
    }
  }

  lemma TasksBroadcast(s: State)
    requires TasksOk(s)
    ensures TasksOk(s.(dtor := Joining, workers := WakeAll(s.workers)))
  {
    forall t: Task ensures InHand(WakeAll(s.workers), t) == InHand(s.workers, t) {
      InHandWakeAll(s.workers, t);
    }
  }

  lemma TasksPreserved(s: State, step: Step)
    requires TasksOk(s) && Enabled(s, step)
    ensures TasksOk(Apply(s, step))
  {
    match step {
      case WorkerLock(w) => TasksKept(s, Apply(s, step), w);
      case WorkerCheck(w) => TasksCheck(s, w);
      case WorkerRun(w) => TasksRun(s, w);
      case SpuriousWake(w) => TasksKept(s, Apply(s, step), w);
      case ClientPush(c) => TasksPush(s, c);
      case ClientNotify(c, w) =>
        if !NoneWaiting(s) {
          TasksKept(s, Apply(s, step), w);
        }
      case DtorBroadcast => TasksBroadcast(s);
      case _ =>
    }
  }

  lemma StopPreserved(s: State, step: Step)
    requires Inv(s) && Enabled(s, step)
    ensures StopOk(Apply(s, step))
  {
  }

  /** While tasks are queued no worker has exited, so one that does not wait is awake. */
  lemma FirstAwake(s: State)
    requires |s.workers| >= 1 && StopOk(s) && s.queue != [] && !s.workers[0].Waiting?
    ensures Awake(s.workers[0])
  {
  }

  lemma WakePreserved(s: State, step: Step)
    requires Inv(s) && Enabled(s, step)
    ensures WakeOk(Apply(s, step))
  {
    var s' := Apply(s, step);
    if s'.queue != [] {
      match step {
        case WorkerLock(w) => assert Awake(s'.workers[w]);
        case WorkerCheck(w) => assert Awake(s'.workers[w]);
        case WorkerRun(w) => assert Awake(s'.workers[w]);
        case SpuriousWake(w) => assert Awake(s'.workers[w]);
        case ClientNotify(c, w) =>
          if NoneWaiting(s) {
            FirstAwake(s);
            assert Awake(s'.workers[0]);
          } else {
            assert Awake(s'.workers[w]);
          }
        case ClientPush(c) =>
          if !s.stop {
            assert s'.clients[c].Notifying?;
          } else {
            ClientsKept(s, s');
          }
        case ClientCall(c, _) => ClientsKept(s, s');
        case ClientLock(c) => ClientsKept(s, s');
        case DtorBroadcast =>
          StopPreserved(s, step);
          FirstAwake(s');
          assert Awake(s'.workers[0]);
        case _ => ClientsKept(s, s');
      }
    }
  }

  /** Steps of a client that is not notifying keep what WakeOk rests on. */
  lemma ClientsKept(s: State, s': State)
    requires WakeOk(s) && s'.queue == s.queue && s'.workers == s.workers && |s'.clients| == |s.clients|
    requires s.dtor.Broadcasting? ==> s'.dtor.Broadcasting?
    requires forall i :: 0 <= i < |s.clients| && s.clients[i].Notifying? ==> s'.clients[i].Notifying?
    ensures WakeOk(s')
  {
    if s.queue != [] && exists i :: 0 <= i < |s.clients| && s.clients[i].Notifying? {
      var i :| 0 <= i < |s.clients| && s.clients[i].Notifying?;
      assert s'.clients[i].Notifying?;
    }
  }

  lemma InvPreserved(s: State, step: Step)
    requires Inv(s) && Enabled(s, step)
    ensures Inv(Apply(s, step))
  {
    LockPreserved(s, step);
    TasksPreserved(s, step);
    StopPreserved(s, step);
    WakePreserved(s, step);
  }

  /** The invariant holds after every run, whatever the interleaving. */
  lemma {:induction false} InvAlways(s: State, steps: seq<Step>)
    requires Inv(s) && ValidRun(s, steps)
    ensures Inv(After(s, steps))
    decreases |steps|
  {
    if steps == [] {
    } else {
      InvPreserved(s, steps[0]);
      InvAlways(Apply(s, steps[0]), steps[1..]);
    }
  }

  // ----- Exactly once, in order -----

  /** Histories only grow; after stop nothing is accepted and stop never clears. */
  lemma HistoryGrows(s: State, step: Step)
    requires Inv(s) && Enabled(s, step)
    ensures var s' := Apply(s, step);
            && s.accepted <= s'.accepted && s.dequeued <= s'.dequeued && s.executed <= s'.executed
            && (s.stop ==> s'.stop && s'.accepted == s.accepted)
  {
  }

  /** A worker exits only when the pool is stopped and the queue is empty. */
  lemma ExitOnlyWhenDrained(s: State, step: Step, w: nat)
    requires Inv(s) && Enabled(s, step) && w < |s.workers|
    requires !s.workers[w].Exited? && Apply(s, step).workers[w].Exited?
    ensures s.stop && s.queue == [] && Apply(s, step).accepted == s.accepted
  {
  }

  lemma {:induction false} HistoryGrowsRun(s: State, steps: seq<Step>)
    requires Inv(s) && ValidRun(s, steps)
    ensures var s' := After(s, steps);
            && s.accepted <= s'.accepted && s.dequeued <= s'.dequeued && s.executed <= s'.executed
            && (s.stop ==> s'.stop && s'.accepted == s.accepted)
    decreases |steps|
  {
    if steps == [] {
    } else {
      HistoryGrows(s, steps[0]);
      InvPreserved(s, steps[0]);
      HistoryGrowsRun(Apply(s, steps[0]), steps[1..]);
    }
  }

  /**
   Exactly once: in every run from an initial state, tasks leave the queue in the order of acceptance, no
   task is completed more often than it was accepted, and once all workers have exited every accepted task
   has been completed exactly once.
   */
  lemma ExactlyOnce(s: State, steps: seq<Step>)
    requires Init(s) && ValidRun(s, steps)
    ensures var s' := After(s, steps);
            && s'.accepted == s'.dequeued + s'.queue
            && multiset(s'.executed) <= multiset(s'.dequeued) <= multiset(s'.accepted)
            && (AllExited(s') ==> multiset(s'.executed) == multiset(s'.accepted))
  {
    InitInv(s);
    InvAlways(s, steps);
    var s' := After(s, steps);
    assert multiset(s'.accepted) == multiset(s'.dequeued) + multiset(s'.queue);
    assert forall t: Task :: multiset(s'.executed)[t] <= multiset(s'.dequeued)[t];
    if AllExited(s') {
      DoneWhenNoneRunning(s');
      assert s'.workers[0].Exited?;
    }
  }

  // ----- No deadlock -----

  /** Steps that some thread is obliged to take: not a spurious wake-up and not a new call. */
  predicate Obliged(step: Step) {
    !step.SpuriousWake? && !step.ClientCall? && !step.DtorCall?
  }

  ghost predicate Stuck(s: State) {
    forall step :: Obliged(step) ==> !Enabled(s, step)
  }

  lemma LockFreeWhenStuck(s: State)
    requires Inv(s) && Stuck(s)
    ensures s.lock.Free?
  {
    assert s.lock.WorkerOwns? ==> Enabled(s, WorkerCheck(s.lock.w));
    assert s.lock.ClientOwns? ==> Enabled(s, ClientPush(s.lock.c));
    assert s.lock.DestructorOwns? ==> Enabled(s, DtorStop);
  }

  ghost function WaitingWorker(s: State): (w: nat)
    requires !NoneWaiting(s)
    ensures w < |s.workers| && s.workers[w].Waiting?
  {
    var w :| 0 <= w < |s.workers| && s.workers[w].Waiting?;
    w
  }

  lemma ThreadsWhenStuck(s: State)
    requires Inv(s) && Stuck(s)
    ensures forall w :: 0 <= w < |s.workers| ==> s.workers[w].Waiting? || s.workers[w].Exited?
    ensures forall c :: 0 <= c < |s.clients| ==> s.clients[c].Outside?
  {
    LockFreeWhenStuck(s);
    forall w | 0 <= w < |s.workers| ensures s.workers[w].Waiting? || s.workers[w].Exited? {
      assert !Enabled(s, WorkerLock(w)) && !Enabled(s, WorkerCheck(w)) && !Enabled(s, WorkerRun(w));
    }
    forall c | 0 <= c < |s.clients| ensures s.clients[c].Outside? {
      assert !Enabled(s, ClientLock(c)) && !Enabled(s, ClientPush(c));
      var w := if NoneWaiting(s) then 0 else WaitingWorker(s);
      assert !Enabled(s, ClientNotify(c, w));
    }
  }

  /**
   Deadlock freedom: in every reachable state where no thread is obliged to move, every accepted task has
   been completed, and either the pool was never stopped and all workers wait, or it has been destroyed.
   */
  lemma {:induction false} NoDeadlock(s0: State, steps: seq<Step>)
    requires Init(s0) && ValidRun(s0, steps) && Stuck(After(s0, steps))
    ensures var s := After(s0, steps);
            && s.queue == [] && multiset(s.executed) == multiset(s.accepted)
            && (forall c :: 0 <= c < |s.clients| ==> s.clients[c].Outside?)
            && if s.stop then s.dtor.Destroyed? && AllExited(s)
               else s.dtor.NotCalled? && forall w :: 0 <= w < |s.workers| ==> s.workers[w].Waiting?
  {
    InitInv(s0);
    InvAlways(s0, steps);
    var s := After(s0, steps);
    LockFreeWhenStuck(s);
    ThreadsWhenStuck(s);
    DoneWhenNoneRunning(s);
    assert !Enabled(s, DtorLock) && !Enabled(s, DtorBroadcast) && !Enabled(s, DtorJoin);
  }

  // ----- Every call accounted for -----

  /** How often a run calls enqueue with task `t`. */
  function Calls(steps: seq<Step>, t: Task): nat {
    if steps == [] then 0
    else (if steps[0].ClientCall? && steps[0].task == t then 1 else 0) + Calls(steps[1..], t)
  }

  /** Whether the client is inside enqueue with `t` and its fate is still open. */
  function Offers(c: Client, t: Task): nat {
    if c == Calling(t) || c == Holding(t) then 1 else 0
  }

  function Offered(cs: seq<Client>, t: Task): nat {
    if cs == [] then 0 else Offered(cs[..|cs| - 1], t) + Offers(cs[|cs| - 1], t)
  }

  lemma {:induction false} OfferedUpdate(cs: seq<Client>, c: nat, x: Client, t: Task)
    requires c < |cs|
    ensures Offered(cs[c := x], t) + Offers(cs[c], t) == Offered(cs, t) + Offers(x, t)
  {
    var n, cs' := |cs| - 1, cs[c := x];
    if c == n {
      assert cs'[..n] == cs[..n];
    } else {
      assert cs'[..n] == cs[..n][c := x] && cs'[n] == cs[n];
      OfferedUpdate(cs[..n], c, x, t);
    }
  }

  lemma {:induction false} NoneOffered(cs: seq<Client>, t: Task)
    requires forall c :: 0 <= c < |cs| ==> cs[c].Outside? || cs[c].Notifying?
    ensures Offered(cs, t) == 0
  {
    if cs == [] {
    } else {
      NoneOffered(cs[..|cs| - 1], t);
    }
  }

  /** The tasks called so far, by what became of them. */
  function Fates(s: State, t: Task): nat {
    multiset(s.accepted)[t] + multiset(s.refused)[t] + Offered(s.clients, t)
  }

  /** A client's move inside enqueue before its fate is decided. */
  lemma {:induction false} FatesMove(s: State, c: nat, x: Client, t: Task)
    requires c < |s.clients|
    ensures Fates(s.(clients := s.clients[c := x]), t) + Offers(s.clients[c], t) == Fates(s, t) + Offers(x, t)
  {
    OfferedUpdate(s.clients, c, x, t);
  }

  /** The critical section decides the fate of the task. */
  lemma {:induction false} FatesPush(s: State, c: nat, t: Task)
    requires c < |s.clients| && s.clients[c].Holding?
    ensures Fates(Push(s, c), t) == Fates(s, t)
  {
    var task := s.clients[c].task;
    if s.stop {
      OfferedUpdate(s.clients, c, Outside, t);
      CountSnoc(s.refused, task, t);
    } else {
      OfferedUpdate(s.clients, c, Notifying, t);
      CountSnoc(s.accepted, task, t);
    }
  }

  lemma {:induction false} FatesStep(s: State, step: Step, t: Task)
    requires Enabled(s, step)
    ensures Fates(Apply(s, step), t) == Fates(s, t) + (if step.ClientCall? && step.task == t then 1 else 0)
  {
    match step {
      case ClientCall(c, task) => FatesMove(s, c, Calling(task), t);
      case ClientLock(c) => FatesMove(s, c, Holding(s.clients[c].task), t);
      case ClientPush(c) => FatesPush(s, c, t);
      case ClientNotify(c, w) => FatesMove(s, c, Outside, t);
      case _ =>
    }
  }

  lemma {:induction false} FatesRun(s: State, steps: seq<Step>, t: Task)
    requires ValidRun(s, steps)
    ensures Fates(After(s, steps), t) == Fates(s, t) + Calls(steps, t)
    decreases |steps|
  {
    if steps == [] {
    } else {
      FatesStep(s, steps[0], t);
      FatesRun(Apply(s, steps[0]), steps[1..], t);
    }
  }

  /**
   In every run each task passed to enqueue has been accepted, or refused, or is still on its way in, as often as it
   was passed, and nothing is refused unless the pool is stopped.
   */
  lemma CallsAccounted(s0: State, steps: seq<Step>, t: Task)
    requires Init(s0) && ValidRun(s0, steps)
    ensures var s := After(s0, steps);
            && Calls(steps, t) == multiset(s.accepted)[t] + multiset(s.refused)[t] + Offered(s.clients, t)
            && (!s.stop ==> s.refused == [])
  {
    InitInv(s0);
    InvAlways(s0, steps);
    NoneOffered(s0.clients, t);
    FatesRun(s0, steps, t);
  }

  /**
   What was called is what has run, once every call has returned and the workers have exited or nobody can move:
   exactly the tasks passed to enqueue, except those refused after the stop.
   */
  lemma CallsExecuted(s0: State, steps: seq<Step>, t: Task)
    requires Init(s0) && ValidRun(s0, steps)
    requires forall c :: 0 <= c < |After(s0, steps).clients| ==> After(s0, steps).clients[c].Outside?
    requires AllExited(After(s0, steps)) || Stuck(After(s0, steps))
    ensures var s := After(s0, steps);
            && Calls(steps, t) == multiset(s.executed)[t] + multiset(s.refused)[t]
            && (!s.stop ==> Calls(steps, t) == multiset(s.executed)[t])
  {
    CallsAccounted(s0, steps, t);
    NoneOffered(After(s0, steps).clients, t);
    if AllExited(After(s0, steps)) {
      ExactlyOnce(s0, steps);
    } else {
      NoDeadlock(s0, steps);
    }
  }

  // ----- Shutdown -----

  function Rank(w: Worker): nat {
    match w
    case Exited => 0
    case Checking => 1
    case Idle => 2
    case Woken => 2
    case Waiting => 2
    case Running(_) => 3
  }

  function RankSum(ws: seq<Worker>): nat {
    if ws == [] then 0 else RankSum(ws[..|ws| - 1]) + Rank(ws[|ws| - 1])
  }

  /** The work left once the destructor waits for the workers. */
  function Remaining(s: State): nat {
    4 * |s.queue| + RankSum(s.workers)
  }

  lemma {:induction false} RankUpdate(ws: seq<Worker>, w: nat, x: Worker)
    requires w < |ws|
    ensures RankSum(ws[w := x]) + Rank(ws[w]) == RankSum(ws) + Rank(x)
  {
    var n := |ws| - 1;
    if w == n {
      assert ws[w := x][..n] == ws[..n];
    } else {
      assert ws[w := x][..n] == ws[..n][w := x] && ws[w := x][n] == ws[n];
      RankUpdate(ws[..n], w, x);
    }
  }

  lemma {:induction false} RankZero(ws: seq<Worker>)
    ensures RankSum(ws) == 0 <==> forall i :: 0 <= i < |ws| ==> ws[i].Exited?
  {
    if ws == [] {
    } else {
      var n := |ws| - 1;
      RankZero(ws[..n]);
      assert ws[n].Exited? <==> Rank(ws[n]) == 0;
      assert forall i :: 0 <= i < n ==> ws[..n][i] == ws[i];
    }
  }

  predicate WorkerStep(step: Step) {
    step.WorkerLock? || step.WorkerCheck? || step.WorkerRun?
  }

  /** While the destructor joins, every step of a worker decreases the measure and no other step changes it. */
  lemma ShutdownDecreases(s: State, step: Step)
    requires Inv(s) && (s.dtor.Joining? || s.dtor.Destroyed?) && Enabled(s, step)
    ensures Remaining(Apply(s, step)) < Remaining(s) || (!WorkerStep(step) && Remaining(Apply(s, step)) == Remaining(s))
  {
    match step {
      case WorkerLock(w) => RankUpdate(s.workers, w, Checking);
      case WorkerCheck(w) => RankUpdate(s.workers, w, Apply(s, step).workers[w]);
      case WorkerRun(w) => RankUpdate(s.workers, w, Idle);
      case _ =>
    }
  }

  /** Nothing is left exactly when join can return; until then a worker, or the mutex holder it waits for, can move. */
  lemma ShutdownProgress(s: State) returns (step: Step)
    requires Inv(s) && s.dtor.Joining?
    ensures Enabled(s, step)
    ensures if Remaining(s) == 0 then step.DtorJoin? else WorkerStep(step) || (step.ClientPush? && s.lock.ClientOwns?)
  {
    RankZero(s.workers);
    if AllExited(s) {
      assert s.workers[0].Exited?;
      step := DtorJoin;
    } else {
      var w :| 0 <= w < |s.workers| && !s.workers[w].Exited?;
      step := if s.lock.WorkerOwns? then WorkerCheck(s.lock.w)
              else if s.lock.ClientOwns? then ClientPush(s.lock.c)
              else if s.workers[w].Running? then WorkerRun(w)
              else WorkerLock(w);
    }
  }

  function WorkerSteps(steps: seq<Step>): nat {
    if steps == [] then 0 else (if WorkerStep(steps[0]) then 1 else 0) + WorkerSteps(steps[1..])
  }

  /** From the moment the destructor joins, no run contains more worker steps than the measure allows. */
  lemma {:induction false} ShutdownBounded(s: State, steps: seq<Step>)
    requires Inv(s) && (s.dtor.Joining? || s.dtor.Destroyed?) && ValidRun(s, steps)
    ensures WorkerSteps(steps) + Remaining(After(s, steps)) <= Remaining(s)
    decreases |steps|
  {
    if steps == [] {
    } else {
      ShutdownDecreases(s, steps[0]);
      InvPreserved(s, steps[0]);
      ShutdownBounded(Apply(s, steps[0]), steps[1..]);
    }
  }

  /** No wake-up is lost in any run, and once notify_all has been issued nobody waits again. */
  lemma NoLostWakeup(s: State, steps: seq<Step>)
    requires Init(s) && ValidRun(s, steps)
    ensures WakeOk(After(s, steps))
    ensures After(s, steps).dtor.Joining? || After(s, steps).dtor.Destroyed? ==> NoneWaiting(After(s, steps))
  {
    InitInv(s);
    InvAlways(s, steps);
  }

  // ----- Every run can be completed -----

  function Load(w: Worker): nat {
    match w
    case Exited => 0
    case Waiting => 1
    case Checking => 2
    case Idle => 3
    case Woken => 3
    case Running(_) => 4
  }

  function LoadSum(ws: seq<Worker>): nat {
    if ws == [] then 0 else LoadSum(ws[..|ws| - 1]) + Load(ws[|ws| - 1])
  }

  function Burden(c: Client): nat {
    match c
    case Outside => 0
    case Notifying => 3
    case Holding(_) => 7
    case Calling(_) => 8
  }

  function BurdenSum(cs: seq<Client>): nat {
    if cs == [] then 0 else BurdenSum(cs[..|cs| - 1]) + Burden(cs[|cs| - 1])
  }

  /** The broadcast may wake every worker. */
  function Ahead(d: Destructor, workers: nat): nat {
    match d
    case NotCalled => 0
    case Destroyed => 0
    case Joining => 1
    case Broadcasting => 2 * workers + 2
    case Stopping => 2 * workers + 3
    case Locking => 2 * workers + 4
  }

  /** The steps that the threads still owe. */
  function Owed(s: State): nat {
    3 * |s.queue| + LoadSum(s.workers) + BurdenSum(s.clients) + Ahead(s.dtor, |s.workers|)
  }

  lemma {:induction false} LoadUpdate(ws: seq<Worker>, w: nat, x: Worker)
    requires w < |ws|
    ensures LoadSum(ws[w := x]) + Load(ws[w]) == LoadSum(ws) + Load(x)
  {
    var n := |ws| - 1;
    if w == n {
      assert ws[w := x][..n] == ws[..n];
    } else {
      assert ws[w := x][..n] == ws[..n][w := x] && ws[w := x][n] == ws[n];
      LoadUpdate(ws[..n], w, x);
    }
  }

  lemma {:induction false} LoadWakeAll(ws: seq<Worker>)
    ensures LoadSum(WakeAll(ws)) <= LoadSum(ws) + 2 * |ws|
  {
    if ws == [] {
    } else {
      var n := |ws| - 1;
      assert WakeAll(ws)[..n] == WakeAll(ws[..n]);
      LoadWakeAll(ws[..n]);
    }
  }

  lemma {:induction false} BurdenUpdate(cs: seq<Client>, c: nat, x: Client)
    requires c < |cs|
    ensures BurdenSum(cs[c := x]) + Burden(cs[c]) == BurdenSum(cs) + Burden(x)
  {
    var n := |cs| - 1;
    if c == n {
      assert cs[c := x][..n] == cs[..n];
    } else {
      assert cs[c := x][..n] == cs[..n][c := x] && cs[c := x][n] == cs[n];
      BurdenUpdate(cs[..n], c, x);
    }
  }

  lemma {:induction false} OwedWorker(s: State, step: Step)
    requires Enabled(s, step) && WorkerStep(step)
    ensures Owed(Apply(s, step)) < Owed(s)
  {
    match step {
      case WorkerLock(w) => LoadUpdate(s.workers, w, Checking);
      case WorkerCheck(w) => LoadUpdate(s.workers, w, Apply(s, step).workers[w]);
      case WorkerRun(w) => LoadUpdate(s.workers, w, Idle);
    }
  }

  lemma {:induction false} OwedClient(s: State, step: Step)
    requires Enabled(s, step) && (step.ClientLock? || step.ClientPush? || step.ClientNotify?)
    ensures Owed(Apply(s, step)) < Owed(s)
  {
    match step {
      case ClientLock(c) => BurdenUpdate(s.clients, c, Holding(s.clients[c].task));
      case ClientPush(c) => BurdenUpdate(s.clients, c, if s.stop then Outside else Notifying);
      case ClientNotify(c, w) =>
        BurdenUpdate(s.clients, c, Outside);
        if !NoneWaiting(s) {
          LoadUpdate(s.workers, w, Woken);
        }
    }
  }

  /** Every step but a new call or a spurious wake-up lowers what is owed, before and after the stop. */
  lemma {:induction false} OwedDecreases(s: State, step: Step)
    requires Enabled(s, step) && Obliged(step)
    ensures Owed(Apply(s, step)) < Owed(s)
  {
    if WorkerStep(step) {
      OwedWorker(s, step);
    } else if step.ClientLock? || step.ClientPush? || step.ClientNotify? {
      OwedClient(s, step);
    } else {
      LoadWakeAll(s.workers);
    }
  }

  lemma RunFrom(s: State, step: Step, rest: seq<Step>)
    requires Enabled(s, step) && ValidRun(Apply(s, step), rest)
    ensures ValidRun(s, [step] + rest) && After(s, [step] + rest) == After(Apply(s, step), rest)
  {
    assert ([step] + rest)[1..] == rest;
  }

  lemma {:induction false} RunOn(s: State, first: seq<Step>, rest: seq<Step>)
    requires ValidRun(s, first) && ValidRun(After(s, first), rest)
    ensures ValidRun(s, first + rest) && After(s, first + rest) == After(After(s, first), rest)
    decreases |first|
  {
    if first == [] {
      assert first + rest == rest;
    } else {
      RunOn(Apply(s, first[0]), first[1..], rest);
      RunFrom(s, first[0], first[1..] + rest);
      assert first + rest == [first[0]] + (first[1..] + rest);
    }
  }

  /** If the threads only do what they are obliged to, they come to rest after at most as many steps as are owed. */
  lemma {:induction false} ComeToRest(s: State) returns (steps: seq<Step>)
    ensures ValidRun(s, steps) && Stuck(After(s, steps)) && |steps| <= Owed(s)
    ensures forall i :: 0 <= i < |steps| ==> Obliged(steps[i])
    decreases Owed(s)
  {
    if Stuck(s) {
      steps := [];
    } else {
      var step :| Obliged(step) && Enabled(s, step);
      OwedDecreases(s, step);
      var rest := ComeToRest(Apply(s, step));
      RunFrom(s, step, rest);
      steps := [step] + rest;
    }
  }

  lemma {:induction false} ObligedCallNothing(steps: seq<Step>, t: Task)
    requires forall i :: 0 <= i < |steps| ==> Obliged(steps[i])
    ensures Calls(steps, t) == 0
  {
    if steps == [] {
    } else {
      ObligedCallNothing(steps[1..], t);
    }
  }

  lemma {:induction false} CallsConcat(a: seq<Step>, b: seq<Step>, t: Task)
    ensures Calls(a + b, t) == Calls(a, t) + Calls(b, t)
  {
    if a == [] {
      assert a + b == b;
    } else {
      assert (a + b)[1..] == a[1..] + b;
      CallsConcat(a[1..], b, t);
    }
  }

  lemma {:induction false} StaysOpen(s: State, steps: seq<Step>)
    requires ValidRun(s, steps) && s.dtor.NotCalled? && forall i :: 0 <= i < |steps| ==> Obliged(steps[i])
    ensures After(s, steps).dtor.NotCalled?
    decreases |steps|
  {
    if steps == [] {
    } else {
      StaysOpen(Apply(s, steps[0]), steps[1..]);
    }
  }

  /**
   After any run a client that is not inside enqueue can call it with any task, and the threads can then come to rest
   with every call made so far executed or, if the destructor was called, refused.
   */
  lemma {:induction false} CanServe(s0: State, steps: seq<Step>, c: nat, task: Task) returns (more: seq<Step>)
    requires Init(s0) && ValidRun(s0, steps)
    requires c < |After(s0, steps).clients| && After(s0, steps).clients[c].Outside?
    ensures ValidRun(s0, steps + more) && Stuck(After(s0, steps + more))
    ensures forall t :: Calls(steps + more, t) == Calls(steps, t) + (if t == task then 1 else 0)
    ensures var s := After(s0, steps + more);
            forall t :: Calls(steps + more, t) == multiset(s.executed)[t] + multiset(s.refused)[t]
    ensures var s := After(s0, steps + more);
            After(s0, steps).dtor.NotCalled? ==> forall t :: Calls(steps + more, t) == multiset(s.executed)[t]
  {
    var s := After(s0, steps);
    var rest := ComeToRest(Apply(s, ClientCall(c, task)));
    RunFrom(s, ClientCall(c, task), rest);
    more := [ClientCall(c, task)] + rest;
    RunOn(s0, steps, more);
    NoDeadlock(s0, steps + more);
    if s.dtor.NotCalled? {
      StaysOpen(Apply(s, ClientCall(c, task)), rest);
    }
    forall t
      ensures Calls(steps + more, t) == Calls(steps, t) + (if t == task then 1 else 0)
      ensures var s' := After(s0, steps + more);
              && Calls(steps + more, t) == multiset(s'.executed)[t] + multiset(s'.refused)[t]
              && (!s'.stop ==> Calls(steps + more, t) == multiset(s'.executed)[t])
    {
      CallsConcat(steps, more, t);
      CallsConcat([ClientCall(c, task)], rest, t);
      ObligedCallNothing(rest, t);
      CallsExecuted(s0, steps + more, t);
    }
  }

  /** After any run the pool can be destroyed, with every accepted task executed and every worker gone. */
  lemma {:induction false} CanShutDown(s0: State, steps: seq<Step>) returns (more: seq<Step>)
    requires Init(s0) && ValidRun(s0, steps)
    ensures ValidRun(s0, steps + more)
    ensures var s := After(s0, steps + more);
            s.dtor.Destroyed? && AllExited(s) && multiset(s.executed) == multiset(s.accepted)
  {
    var s := After(s0, steps);
    var first := if s.dtor.NotCalled? then [DtorCall] else [];
    assert ValidRun(s, first) && !After(s, first).dtor.NotCalled? by {
      if s.dtor.NotCalled? {
        RunFrom(s, DtorCall, []);
        assert [DtorCall] + [] == first;
      }
    }
    var rest := ComeToRest(After(s, first));
    RunOn(s, first, rest);
    more := first + rest;
    RunOn(s0, steps, more);
    CalledStays(After(s, first), rest);
    NoDeadlock(s0, steps + more);
  }

  lemma {:induction false} CalledStays(s: State, steps: seq<Step>)
    requires ValidRun(s, steps) && !s.dtor.NotCalled?
    ensures !After(s, steps).dtor.NotCalled?
    decreases |steps|
  {
    if steps == [] {
    } else {
      CalledStays(Apply(s, steps[0]), steps[1..]);
    }
  }

  /** A wait can return at any time without a notification; the worker then competes for the mutex like any other. */
  lemma WaitMayReturn(s: State, w: nat)
    requires w < |s.workers| && s.workers[w].Waiting?
    ensures ValidRun(s, [SpuriousWake(w)] + [])
    ensures After(s, [SpuriousWake(w)] + []) == s.(workers := s.workers[w := Woken])
    ensures s.lock.Free? ==> Enabled(After(s, [SpuriousWake(w)] + []), WorkerLock(w))
  {
    RunFrom(s, SpuriousWake(w), []);
  }
}
