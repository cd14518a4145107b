/**
 The lock-free push of cpp/base/threadtest/atomic/example8.cpp: any number of threads run `append` on one
 atomic head. Loads, allocations, compare-exchanges (which may fail spuriously) and the rewriting of
 newNode->next are separate steps.
 */
module CasList {
  import opened Memory
  import opened Sequences

  datatype Cell = Cell(value: int, next: Ptr)

  /** Where a thread is; `seen` records how many pushes had succeeded when it last read the head. */
  datatype Pc =
    | Start
    | Loaded(oldHead: Ptr, seen: nat)
    | Ready(oldHead: Ptr, node: Ptr, seen: nat)   // about to compare-exchange
    | Retry(oldHead: Ptr, node: Ptr, seen: nat)   // failed, newNode->next still to be rewritten
    | Done

  datatype Entry = Entry(thread: nat, node: Ptr)

  /** `args` are the values to append, one per thread; `log` lists the successful pushes in order. */
  datatype State = State(args: seq<int>, heap: map<Ptr, Cell>, head: Ptr, threads: seq<Pc>, log: seq<Entry>)

  datatype Step = Load(t: nat) | Alloc(t: nat, node: Ptr) | CasOk(t: nat) | CasFail(t: nat) | SetNext(t: nat)

  predicate Enabled(s: State, step: Step) {
    && step.t < |s.threads| == |s.args|
    && var pc := s.threads[step.t];
       match step
       case Load(_) => pc.Start?
       case Alloc(_, node) => pc.Loaded? && node != NULL && node !in s.heap
       case CasOk(_) => pc.Ready? && s.head == pc.oldHead
       case CasFail(_) => pc.Ready?
       case SetNext(_) => pc.Retry? && pc.node in s.heap
  }

  function Apply(s: State, step: Step): State
    requires Enabled(s, step)
  {
    var pc := s.threads[step.t];
    match step
    case Load(t) => s.(threads := s.threads[t := Loaded(s.head, |s.log|)])
    case Alloc(t, node) =>
      s.(heap := s.heap[node := Cell(s.args[t], pc.oldHead)],
          threads := s.threads[t := Ready(pc.oldHead, node, pc.seen)])
    case CasOk(t) => s.(head := pc.node, threads := s.threads[t := Done], log := s.log + [Entry(t, pc.node)])
    case CasFail(t) => s.(threads := s.threads[t := Retry(s.head, pc.node, |s.log|)])
    case SetNext(t) =>
      s.(heap := s.heap[pc.node := s.heap[pc.node].(next := pc.oldHead)],
          threads := s.threads[t := Ready(pc.oldHead, pc.node, pc.seen)])
  }

  ghost predicate Init(s: State) {
    && |s.threads| == |s.args| && (forall t :: 0 <= t < |s.threads| ==> s.threads[t].Start?)
    && s.head == NULL && s.log == [] && s.heap == map[]
  }

  predicate ValidRun(s: State, steps: seq<Step>)
    decreases |steps|
  {
    steps == [] || (Enabled(s, steps[0]) && ValidRun(Apply(s, steps[0]), steps[1..]))
  }

  function After(s: State, steps: seq<Step>): State
    requires ValidRun(s, steps)
    decreases |steps|
  {
    if steps == [] then s else After(Apply(s, steps[0]), steps[1..])
  }

  /** The head after the first `k` successful pushes. */
  function HeadAt(log: seq<Entry>, k: nat): Ptr
    requires k <= |log|
  {
    if k == 0 then NULL else log[k - 1].node
  }

  predicate Owns(pc: Pc) {
    pc.Ready? || pc.Retry?
  }

  // ----- The invariant -----

  /** A published node holds its thread's value and is linked to the node published before it. */
  ghost predicate EntryOk(s: State, k: nat)
    requires |s.threads| == |s.args| && k < |s.log|
  {
    var e := s.log[k];
    && e.node != NULL && e.node in s.heap && e.thread < |s.threads| && s.threads[e.thread].Done?
    && s.heap[e.node] == Cell(s.args[e.thread], HeadAt(s.log, k))
  }

  ghost predicate Pushed(s: State, t: nat) {
    exists k :: 0 <= k < |s.log| && s.log[k].thread == t
  }

  /** Published nodes are distinct, one per finished thread. */
  ghost predicate LogOk(s: State) {
    && |s.threads| == |s.args| && s.head == HeadAt(s.log, |s.log|)
    && (forall k :: 0 <= k < |s.log| ==> EntryOk(s, k))
    && (forall i, j :: 0 <= i < j < |s.log| ==> s.log[i].node != s.log[j].node && s.log[i].thread != s.log[j].thread)
    && (forall t :: 0 <= t < |s.threads| && s.threads[t].Done? ==> Pushed(s, t))
  }

  /** What each thread knows: the head it remembers, and a private node that is linked to it before every CAS. */
  ghost predicate ThreadOk(s: State, t: nat)
    requires t < |s.threads| == |s.args|
  {
    var pc := s.threads[t];
    && (pc.Loaded? || Owns(pc) ==> pc.seen <= |s.log| && pc.oldHead == HeadAt(s.log, pc.seen))
    && (Owns(pc) ==>
          && pc.node != NULL && pc.node in s.heap && s.heap[pc.node].value == s.args[t]
          && forall k :: 0 <= k < |s.log| ==> s.log[k].node != pc.node)
    && (pc.Ready? ==> s.heap[pc.node].next == pc.oldHead)
  }

  ghost predicate Private(s: State) {
    forall t, u :: 0 <= t < u < |s.threads| && Owns(s.threads[t]) && Owns(s.threads[u]) ==>
      s.threads[t].node != s.threads[u].node
  }

  ghost predicate Inv(s: State) {
    && |s.threads| == |s.args| && LogOk(s) && Private(s)
    && forall t :: 0 <= t < |s.threads| ==> ThreadOk(s, t)
  }

  lemma EntryPreserved(s: State, step: Step, k: nat)
    requires Inv(s) && Enabled(s, step) && k < |s.log|
    ensures EntryOk(Apply(s, step), k)
  {
    assert EntryOk(s, k) && ThreadOk(s, step.t);
  }

  lemma PushedPreserved(s: State, step: Step, t: nat)
    requires Inv(s) && Enabled(s, step) && t < |s.threads| && Apply(s, step).threads[t].Done?
    ensures Pushed(Apply(s, step), t)
  {
    var s' := Apply(s, step);
    if s.threads[t].Done? {
      assert Pushed(s, t);
      var k :| 0 <= k < |s.log| && s.log[k].thread == t;
      assert s'.log[k].thread == t;
    } else {
      assert s'.log[|s.log|].thread == t;
    }
  }

  lemma LogPreserved(s: State, step: Step)
    requires Inv(s) && Enabled(s, step)
    ensures LogOk(Apply(s, step))
  {
    var s' := Apply(s, step);
    assert ThreadOk(s, step.t);
    forall k | 0 <= k < |s'.log| ensures EntryOk(s', k) {
      if k < |s.log| {
        EntryPreserved(s, step, k);
      }
    }
    forall t | 0 <= t < |s'.threads| && s'.threads[t].Done? ensures Pushed(s', t) {
      PushedPreserved(s, step, t);
    }
    forall i, j | 0 <= i < j < |s'.log|
        ensures s'.log[i].node != s'.log[j].node && s'.log[i].thread != s'.log[j].thread {
      assert EntryOk(s, i);
    }
  }

  lemma ThreadsPreserved(s: State, step: Step, t: nat)
    requires Inv(s) && Enabled(s, step) && t < |s.threads|
    ensures ThreadOk(Apply(s, step), t)
  {
    assert ThreadOk(s, t) && ThreadOk(s, step.t);
    var s' := Apply(s, step);
    if Owns(s'.threads[t]) {
      forall k | 0 <= k < |s'.log| ensures s'.log[k].node != s'.threads[t].node {
        assert k < |s.log| ==> EntryOk(s, k);
      }
    }
  }

  lemma PrivatePreserved(s: State, step: Step)
    requires Inv(s) && Enabled(s, step)
    ensures Private(Apply(s, step))
  {
    var s' := Apply(s, step);
    forall t, u | 0 <= t < |s'.threads| && 0 <= u < |s'.threads| && t != u && Owns(s'.threads[t]) && Owns(s'.threads[u])
      ensures s'.threads[t].node != s'.threads[u].node
    {
      assert ThreadOk(s, t) && ThreadOk(s, u);
    }
  }

  lemma InvPreserved(s: State, step: Step)
    requires Inv(s) && Enabled(s, step)
    ensures Inv(Apply(s, step))
  {
    LogPreserved(s, step);
    PrivatePreserved(s, step);
    forall t | 0 <= t < |s.threads| ensures ThreadOk(Apply(s, step), t) {
      ThreadsPreserved(s, step, t);
    }
  }

  lemma {:induction false} InvAlways(s: State, steps: seq<Step>)
    requires Inv(s) && ValidRun(s, steps)
    ensures Inv(After(s, steps)) && After(s, steps).args == s.args
    decreases |steps|
  {
    if steps == [] {
    } else {
      InvPreserved(s, steps[0]);
      InvAlways(Apply(s, steps[0]), steps[1..]);
    }
  }

  // ----- What a reader of the list sees -----

  /** Following next from `p` visits exactly `nodes` and then reaches null. */
  ghost predicate Walk(heap: map<Ptr, Cell>, p: Ptr, nodes: seq<Ptr>)
    decreases |nodes|
  {
    if nodes == [] then p == NULL
    else p == nodes[0] && p != NULL && p in heap && Walk(heap, heap[p].next, nodes[1..])
  }

  /** Nodes of the first `k` pushes, latest first. */
  function Newest(log: seq<Entry>, k: nat): seq<Ptr>
    requires k <= |log|
  {
    if k == 0 then [] else [log[k - 1].node] + Newest(log, k - 1)
  }

  lemma {:induction false} WalkNewest(s: State, k: nat)
    requires Inv(s) && k <= |s.log|
    ensures Walk(s.heap, HeadAt(s.log, k), Newest(s.log, k))
  {
    if k == 0 {
    } else {
      WalkNewest(s, k - 1);
      assert EntryOk(s, k - 1);
      assert s.heap[s.log[k - 1].node].next == HeadAt(s.log, k - 1);
      assert Newest(s.log, k)[1..] == Newest(s.log, k - 1);
    }
  }

  lemma {:induction false} NewestAt(log: seq<Entry>, k: nat, i: nat)
    requires i < k <= |log|
    ensures |Newest(log, k)| == k && Newest(log, k)[i] == log[k - 1 - i].node
    decreases k
  {
    if i > 0 {
      NewestAt(log, k - 1, i - 1);
    } else if k > 1 {
      NewestAt(log, k - 1, 0);
    }
  }

  lemma NewestDistinct(s: State)
    requires LogOk(s)
    ensures |Newest(s.log, |s.log|)| == |s.log| && NoRepeats(Newest(s.log, |s.log|))
  {
    var n := |s.log|;
    var nodes := Newest(s.log, n);
    if n > 0 {
      NewestAt(s.log, n, 0);
    }
    forall i, j | 0 <= i < j < n ensures nodes[i] != nodes[j] {
      NewestAt(s.log, n, i);
      NewestAt(s.log, n, j);
    }
  }

  /** Reading the values from `p` along next gives exactly `values` and then reaches null. */
  ghost predicate Reads(heap: map<Ptr, Cell>, p: Ptr, values: seq<int>)
    decreases |values|
  {
    if values == [] then p == NULL
    else p != NULL && p in heap && heap[p].value == values[0] && Reads(heap, heap[p].next, values[1..])
  }

  /** The threads that have pushed, latest first. */
  function Pushers(log: seq<Entry>, k: nat): (r: seq<nat>)
    requires k <= |log|
    ensures |r| == k && forall i :: 0 <= i < k ==> r[i] == log[k - 1 - i].thread
  {
    if k == 0 then [] else [log[k - 1].thread] + Pushers(log, k - 1)
  }

  function Pick(ts: seq<nat>, args: seq<int>): (r: seq<int>)
    requires forall i :: 0 <= i < |ts| ==> ts[i] < |args|
    ensures |r| == |ts| && forall i :: 0 <= i < |ts| ==> r[i] == args[ts[i]]
  {
    seq(|ts|, i requires 0 <= i < |ts| => args[ts[i]])
  }

  lemma PushersBelow(s: State, k: nat)
    requires Inv(s) && k <= |s.log|
    ensures forall i :: 0 <= i < k ==> Pushers(s.log, k)[i] < |s.args|
  {
    forall i | 0 <= i < k ensures Pushers(s.log, k)[i] < |s.args| {
      assert EntryOk(s, k - 1 - i);
    }
  }

  lemma {:induction false} ReadsNewest(s: State, k: nat)
    requires Inv(s) && k <= |s.log|
    ensures forall i :: 0 <= i < k ==> Pushers(s.log, k)[i] < |s.args|
    ensures Reads(s.heap, HeadAt(s.log, k), Pick(Pushers(s.log, k), s.args))
  {
    PushersBelow(s, k);
    if k == 0 {
    } else {
      ReadsNewest(s, k - 1);
      assert EntryOk(s, k - 1);
      assert s.heap[s.log[k - 1].node].next == HeadAt(s.log, k - 1);
      assert Pick(Pushers(s.log, k), s.args)[1..] == Pick(Pushers(s.log, k - 1), s.args);
    }
  }

  /**
   In every state of every run the list from head is finite and acyclic: it visits the successfully pushed nodes once
   each, and reading it gives the values of the threads whose push succeeded, once each, in reverse order of success.
   */
  lemma {:induction false} ListIsReverseOfSuccesses(s0: State, steps: seq<Step>)
    requires Init(s0) && ValidRun(s0, steps)
    ensures var s := After(s0, steps);
            var nodes := Newest(s.log, |s.log|);
            Walk(s.heap, s.head, nodes) && |nodes| == |s.log| && NoRepeats(nodes)
    ensures var s := After(s0, steps);
            var threads := Pushers(s.log, |s.log|);
            && NoRepeats(threads) && (forall i :: 0 <= i < |threads| ==> threads[i] < |s0.args|)
            && Reads(s.heap, s.head, Pick(threads, s0.args))
  {
    InvAlways(s0, steps);
    var s := After(s0, steps);
    WalkNewest(s, |s.log|);
    NewestDistinct(s);
    ReadsNewest(s, |s.log|);
  }

  /** Before every compare-exchange newNode->next equals oldHead, in every run. */
  lemma NextEqualsOldHead(s0: State, steps: seq<Step>, t: nat)
    requires Init(s0) && ValidRun(s0, steps)
    requires t < |After(s0, steps).threads| && After(s0, steps).threads[t].Ready?
    ensures var s := After(s0, steps);
            && t < |s0.args| && s.threads[t].node in s.heap
            && s.heap[s.threads[t].node] == Cell(s0.args[t], s.threads[t].oldHead)
  {
    InvAlways(s0, steps);
    assert ThreadOk(After(s0, steps), t);
  }

  /** No ABA: the comparison succeeds exactly when no push has succeeded since the thread read the head. */
  lemma CompareMeansUnchanged(s: State, t: nat)
    requires Inv(s) && t < |s.threads| && s.threads[t].Ready?
    ensures s.head == s.threads[t].oldHead <==> s.threads[t].seen == |s.log|
  {
    assert ThreadOk(s, t);
    var n := s.threads[t].seen;
    if n < |s.log| {
      assert EntryOk(s, |s.log| - 1);
      assert n > 0 ==> s.log[n - 1].node != s.log[|s.log| - 1].node;
    }
  }

  // ----- When every thread has returned -----

  ghost predicate Covers(ts: seq<nat>, n: nat) {
    && (forall i :: 0 <= i < |ts| ==> ts[i] < n)
    && (forall i, j :: 0 <= i < j < |ts| ==> ts[i] != ts[j])
    && (forall t :: 0 <= t < n ==> t in ts)
  }

  lemma CoversLess(ts: seq<nat>, n: nat) returns (k: nat)
    requires Covers(ts, n + 1)
    ensures k < |ts| && ts[k] == n && Covers(ts[..k] + ts[k + 1..], n)
  {
    assert n in ts;
    k :| 0 <= k < |ts| && ts[k] == n;
    var rest := ts[..k] + ts[k + 1..];
    forall t | 0 <= t < n ensures t in rest {
      assert t in ts;
      var i :| 0 <= i < |ts| && ts[i] == t;
      assert i < k ==> rest[i] == t;
      assert i > k ==> rest[i - 1] == t;
    }
  }

  lemma {:induction false} Covering(ts: seq<nat>, args: seq<int>)
    requires Covers(ts, |args|)
    ensures multiset(Pick(ts, args)) == multiset(args)
    decreases |args|
  {
    if ts == [] {
      assert |args| > 0 ==> 0 in ts;
    } else {
      assert ts[0] < |args|;
      var n := |args| - 1;
      var k := CoversLess(ts, n);
      var less := args[..n];
      Covering(ts[..k] + ts[k + 1..], less);
      PickSplit(ts, args, k);
      assert args == less + [args[n]];
    }
  }

  lemma PickSplit(ts: seq<nat>, args: seq<int>, k: nat)
    requires args != [] && Covers(ts, |args|) && k < |ts| && ts[k] == |args| - 1
    requires Covers(ts[..k] + ts[k + 1..], |args| - 1)
    ensures multiset(Pick(ts, args))
            == multiset(Pick(ts[..k] + ts[k + 1..], args[..|args| - 1])) + multiset{args[|args| - 1]}
  {
    var all, some := Pick(ts, args), Pick(ts[..k] + ts[k + 1..], args[..|args| - 1]);
    BagWithout(all, k);
    assert some == all[..k] + all[k + 1..];
  }

  /** What is read from a list does not depend on how it is read. */
  lemma {:induction false} ReadsOnce(heap: map<Ptr, Cell>, p: Ptr, v: seq<int>, w: seq<int>)
    requires Reads(heap, p, v) && Reads(heap, p, w)
    ensures v == w
    decreases |v|
  {
    if v == [] {
    } else {
      ReadsOnce(heap, heap[p].next, v[1..], w[1..]);
      assert v == [v[0]] + v[1..] && w == [w[0]] + w[1..];
    }
  }

  /** After all threads have returned, the values read from the list are exactly the bag of appended values. */
  lemma {:induction false} AllValuesAppended(s0: State, steps: seq<Step>) returns (values: seq<int>)
    requires Init(s0) && ValidRun(s0, steps)
    requires forall t :: 0 <= t < |After(s0, steps).threads| ==> After(s0, steps).threads[t].Done?
    ensures Reads(After(s0, steps).heap, After(s0, steps).head, values) && multiset(values) == multiset(s0.args)
  {
    InvAlways(s0, steps);
    var s := After(s0, steps);
    ReadsNewest(s, |s.log|);
    var ts := Pushers(s.log, |s.log|);
    forall t | 0 <= t < |s0.args| ensures t in ts {
      assert Pushed(s, t);
      var k :| 0 <= k < |s.log| && s.log[k].thread == t;
      assert ts[|s.log| - 1 - k] == t;
    }
    Covering(ts, s0.args);
    values := Pick(ts, s0.args);
  }

  // ----- Progress -----

  lemma RunFrom(s: State, step: Step, rest: seq<Step>)
    requires Enabled(s, step) && ValidRun(Apply(s, step), rest)
    ensures ValidRun(s, [step] + rest) && After(s, [step] + rest) == After(Apply(s, step), rest)
  {
    assert ([step] + rest)[1..] == rest;
  }

  lemma {:induction false} RunOn(s: State, first: seq<Step>, rest: seq<Step>)
    requires ValidRun(s, first) && ValidRun(After(s, first), rest)
    ensures ValidRun(s, first + rest) && After(s, first + rest) == After(After(s, first), rest)
    decreases |first|
  {
    if first == [] {
      assert first + rest == rest;
    } else {
      RunOn(Apply(s, first[0]), first[1..], rest);
      RunFrom(s, first[0], first[1..] + rest);
      assert first + rest == [first[0]] + (first[1..] + rest);
    }
  }

  /** There is always an address to allocate. */
  lemma {:induction false} FreshAddress(used: set<Ptr>) returns (p: Ptr)
    ensures p != NULL && forall q :: q in used ==> q < p
  {
    if used == {} {
      p := 1;
    } else {
      var x :| x in used;
      var y := FreshAddress(used - {x});
      p := if y <= x then x + 1 else y;
      assert forall q :: q in used ==> q == x || q in used - {x};
    }
  }

  /** The run is a run of thread `t` alone that ends with its return and touches no other thread. */
  ghost predicate Returns(s: State, steps: seq<Step>, t: nat)
    requires t < |s.threads|
  {
    && ValidRun(s, steps) && (forall i :: 0 <= i < |steps| ==> steps[i].t == t)
    && After(s, steps).threads == s.threads[t := Done]
  }

  /** One more step of the thread in front. */
  lemma StepFirst(s: State, step: Step, rest: seq<Step>)
    requires Enabled(s, step) && |Apply(s, step).threads| == |s.threads|
    requires Returns(Apply(s, step), rest, step.t)
    requires Apply(s, step).threads == s.threads[step.t := Apply(s, step).threads[step.t]]
    ensures Returns(s, [step] + rest, step.t)
  {
    RunFrom(s, step, rest);
    var steps := [step] + rest;
    assert forall i :: 0 <= i < |steps| ==> steps[i] == if i == 0 then step else rest[i - 1];
    assert After(s, steps).threads == s.threads[step.t := Done];
  }

  /** A thread that has just read the head succeeds. */
  lemma Succeeds(s: State, t: nat) returns (steps: seq<Step>)
    requires Inv(s) && t < |s.threads| && s.threads[t].Ready? && s.threads[t].seen == |s.log|
    ensures Returns(s, steps, t) && |steps| == 1
  {
    CompareMeansUnchanged(s, t);
    assert Returns(Apply(s, CasOk(t)), [], t);
    StepFirst(s, CasOk(t), []);
    steps := [CasOk(t)] + [];
  }

  /** A thread whose compare-exchange failed rewrites its link and tries again. */
  lemma RetrySucceeds(s: State, t: nat) returns (steps: seq<Step>)
    requires Inv(s) && t < |s.threads| && s.threads[t].Retry? && s.threads[t].seen == |s.log|
    ensures Returns(s, steps, t) && |steps| == 2
  {
    assert ThreadOk(s, t);
    InvPreserved(s, SetNext(t));
    var rest := Succeeds(Apply(s, SetNext(t)), t);
    StepFirst(s, SetNext(t), rest);
    steps := [SetNext(t)] + rest;
  }

  lemma ReadySucceeds(s: State, t: nat) returns (steps: seq<Step>)
    requires Inv(s) && t < |s.threads| && s.threads[t].Ready?
    ensures Returns(s, steps, t) && |steps| <= 3
  {
    if s.threads[t].seen == |s.log| {
      steps := Succeeds(s, t);
    } else {
      InvPreserved(s, CasFail(t));
      var rest := RetrySucceeds(Apply(s, CasFail(t)), t);
      StepFirst(s, CasFail(t), rest);
      steps := [CasFail(t)] + rest;
    }
  }

  lemma LoadedSucceeds(s: State, t: nat) returns (steps: seq<Step>)
    requires Inv(s) && t < |s.threads| && s.threads[t].Loaded?
    ensures Returns(s, steps, t) && |steps| <= (if s.threads[t].seen == |s.log| then 2 else 4)
  {
    var p := FreshAddress(s.heap.Keys);
    assert p !in s.heap;
    InvPreserved(s, Alloc(t, p));
    var s' := Apply(s, Alloc(t, p));
    var rest;
    if s.threads[t].seen == |s.log| {
      rest := Succeeds(s', t);
    } else {
      rest := ReadySucceeds(s', t);
    }
    StepFirst(s, Alloc(t, p), rest);
    steps := [Alloc(t, p)] + rest;
  }

  /** From every reachable state each thread that has not returned can return by at most four steps of its own. */
  lemma CanReturn(s: State, t: nat) returns (steps: seq<Step>)
    requires Inv(s) && t < |s.threads| && !s.threads[t].Done?
    ensures Returns(s, steps, t) && |steps| <= 4
  {
    match s.threads[t] {
      case Start =>
        InvPreserved(s, Load(t));
        var rest := LoadedSucceeds(Apply(s, Load(t)), t);
        StepFirst(s, Load(t), rest);
        steps := [Load(t)] + rest;
      case Loaded(_, _) => steps := LoadedSucceeds(s, t);
      case Ready(_, _, _) => steps := ReadySucceeds(s, t);
      case Retry(_, _, _) =>
        assert ThreadOk(s, t);
        InvPreserved(s, SetNext(t));
        var rest := ReadySucceeds(Apply(s, SetNext(t)), t);
        StepFirst(s, SetNext(t), rest);
        steps := [SetNext(t)] + rest;
    }
  }

  /** Finish the threads one after the other. */
  lemma {:induction false} FinishFrom(s: State, k: nat) returns (steps: seq<Step>)
    requires Inv(s) && k <= |s.threads| && forall t :: 0 <= t < k ==> s.threads[t].Done?
    ensures ValidRun(s, steps)
    ensures |After(s, steps).threads| == |s.threads|
    ensures forall t :: 0 <= t < |s.threads| ==> After(s, steps).threads[t].Done?
    decreases |s.threads| - k
  {
    if k == |s.threads| {
      steps := [];
    } else if s.threads[k].Done? {
      steps := FinishFrom(s, k + 1);
    } else {
      var first := CanReturn(s, k);
      InvAlways(s, first);
      var rest := FinishFrom(After(s, first), k + 1);
      RunOn(s, first, rest);
      steps := first + rest;
    }
  }

  /** Every run can be continued until all threads have returned and the list reads the bag of appended values. */
  lemma {:induction false} CanFinish(s0: State, steps: seq<Step>) returns (more: seq<Step>, values: seq<int>)
    requires Init(s0) && ValidRun(s0, steps)
    ensures ValidRun(s0, steps + more)
    ensures |After(s0, steps + more).threads| == |s0.args|
    ensures forall t :: 0 <= t < |s0.args| ==> After(s0, steps + more).threads[t].Done?
    ensures Reads(After(s0, steps + more).heap, After(s0, steps + more).head, values)
    ensures multiset(values) == multiset(s0.args)
  {
    InvAlways(s0, steps);
    more := FinishFrom(After(s0, steps), 0);
    RunOn(s0, steps, more);
    values := AllValuesAppended(s0, steps + more);
  }
}
