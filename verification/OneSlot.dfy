/**
 The one-slot hand-off of cpp/base/threadtest/condition_variable/example8.cpp: producers and consumers share
 `cargo` (zero means empty), one mutex and two condition variables. Locking, the test under the mutex, waiting,
 waking (also spuriously) and notify-and-unlock are separate steps. Producers may carry any id, zero included.
 */
module OneSlot {

  datatype Role = Producer(id: int) | Consumer

  datatype Pc =
    | Start
    | Locked    // holds the mutex, at the head of the while loop
    | Waiting   // inside wait, mutex released
    | Woken     // must lock again
    | Acted     // cargo changed, still holding the mutex, notify to come
    | Done

  datatype Owner = Free | Held(t: nat)

  /** `produced` and `consumed` list the values put into and taken out of the slot, in order. */
  datatype State = State(roles: seq<Role>, threads: seq<Pc>, cargo: int, lock: Owner,
                         produced: seq<int>, consumed: seq<int>)

  datatype Step = Lock(t: nat) | Test(t: nat) | Notify(t: nat, u: nat) | Spurious(t: nat)

  /** The condition of the thread's while loop. */
  predicate Blocked(r: Role, cargo: int) {
    if r.Producer? then cargo != 0 else cargo == 0
  }

  predicate SameKind(r: Role, q: Role) {
    r.Producer? <==> q.Producer?
  }

  /** Thread `u` waits on the condition variable that `t` notifies. */
  predicate Wakes(s: State, t: nat, u: nat)
    requires t < |s.roles| == |s.threads|
  {
    u < |s.threads| && s.threads[u].Waiting? && !SameKind(s.roles[t], s.roles[u])
  }

  predicate NobodyToWake(s: State, t: nat)
    requires t < |s.roles| == |s.threads|
  {
    forall u :: 0 <= u < |s.threads| ==> !Wakes(s, t, u)
  }

  predicate Enabled(s: State, step: Step) {
    && step.t < |s.roles| == |s.threads|
    && var pc := s.threads[step.t];
       match step
       case Lock(_) => (pc.Start? || pc.Woken?) && s.lock.Free?
       case Test(_) => pc.Locked?
       case Notify(t, u) => pc.Acted? && (NobodyToWake(s, t) || Wakes(s, t, u))
       case Spurious(_) => pc.Waiting?
  }

  function Apply(s: State, step: Step): State
    requires Enabled(s, step)
  {
    match step
    case Lock(t) => s.(threads := s.threads[t := Locked], lock := Held(t))
    case Test(t) =>
      if Blocked(s.roles[t], s.cargo) then s.(threads := s.threads[t := Waiting], lock := Free)
      else if s.roles[t].Producer? then
        s.(threads := s.threads[t := Acted], cargo := s.roles[t].id, produced := s.produced + [s.roles[t].id])
      else
        s.(threads := s.threads[t := Acted], cargo := 0, consumed := s.consumed + [s.cargo])
    case Notify(t, u) =>
      var s' := s.(threads := s.threads[t := Done], lock := Free);
      if NobodyToWake(s, t) then s' else s'.(threads := s'.threads[u := Woken])
    case Spurious(t) => s.(threads := s.threads[t := Woken])
  }

  /** The state in which the threads are spawned. */
  function Begin(roles: seq<Role>): State {
    State(roles, seq(|roles|, _ => Start), 0, Free, [], [])
  }

  predicate ValidRun(s: State, steps: seq<Step>)
    decreases |steps|
  {
    steps == [] || (Enabled(s, steps[0]) && ValidRun(Apply(s, steps[0]), steps[1..]))
  }

  function After(s: State, steps: seq<Step>): State
    requires ValidRun(s, steps)
    decreases |steps|
  {
    if steps == [] then s else After(Apply(s, steps[0]), steps[1..])
  }

  // ----- Counting threads -----

  /** Classes of threads; a full producer carries a value that fills the slot, a zero producer does not. */
  datatype Class = Consumers | Producers | Full | Zero | Carrying(v: int)

  predicate Belongs(c: Class, q: Role) {
    match c
    case Consumers => q.Consumer?
    case Producers => q.Producer?
    case Full => q.Producer? && q.id != 0
    case Zero => q == Producer(0)
    case Carrying(v) => q == Producer(v)
  }

  predicate HasActed(pc: Pc) {
    pc.Acted? || pc.Done?
  }

  /** How many threads belong to the class. */
  function Number(roles: seq<Role>, c: Class): nat {
    if roles == [] then 0
    else Number(roles[..|roles| - 1], c) + (if Belongs(c, roles[|roles| - 1]) then 1 else 0)
  }

  /** How many of them have put or taken their value. */
  function ActedNumber(roles: seq<Role>, threads: seq<Pc>, c: Class): nat
    requires |roles| == |threads|
    decreases |roles|
  {
    if roles == [] then 0
    else
      var n := |roles| - 1;
      ActedNumber(roles[..n], threads[..n], c) + (if Belongs(c, roles[n]) && HasActed(threads[n]) then 1 else 0)
  }

  lemma {:induction false} ActedUpdate(roles: seq<Role>, threads: seq<Pc>, c: Class, t: nat, pc: Pc)
    requires t < |roles| == |threads|
    ensures ActedNumber(roles, threads[t := pc], c) + (if Belongs(c, roles[t]) && HasActed(threads[t]) then 1 else 0)
         == ActedNumber(roles, threads, c) + (if Belongs(c, roles[t]) && HasActed(pc) then 1 else 0)
    decreases |roles|
  {
    var n := |roles| - 1;
    if t == n {
      assert threads[t := pc][..n] == threads[..n];
    } else {
      assert threads[t := pc][..n] == threads[..n][t := pc];
      ActedUpdate(roles[..n], threads[..n], c, t, pc);
    }
  }

  lemma {:induction false} NoneActed(roles: seq<Role>, threads: seq<Pc>, c: Class)
    requires |roles| == |threads| && forall t :: 0 <= t < |threads| ==> !HasActed(threads[t])
    ensures ActedNumber(roles, threads, c) == 0
    decreases |roles|
  {
    if roles == [] {
    } else {
      NoneActed(roles[..|roles| - 1], threads[..|roles| - 1], c);
    }
  }

  /** The acted threads of a class are all of that class exactly when the numbers agree. */
  lemma {:induction false} ActedVersusAll(roles: seq<Role>, threads: seq<Pc>, c: Class)
    requires |roles| == |threads|
    ensures ActedNumber(roles, threads, c) <= Number(roles, c)
    ensures ActedNumber(roles, threads, c) == Number(roles, c) <==>
            forall t :: 0 <= t < |roles| && Belongs(c, roles[t]) ==> HasActed(threads[t])
    decreases |roles|
  {
    if roles == [] {
    } else {
      var n := |roles| - 1;
      ActedVersusAll(roles[..n], threads[..n], c);
      assert forall t :: 0 <= t < n ==> roles[..n][t] == roles[t] && threads[..n][t] == threads[t];
    }
  }

  lemma {:induction false} ProducersSplit(roles: seq<Role>)
    ensures Number(roles, Producers) == Number(roles, Full) + Number(roles, Zero)
  {
    if roles == [] {
    } else {
      ProducersSplit(roles[..|roles| - 1]);
    }
  }

  lemma {:induction false} NumberZero(roles: seq<Role>, c: Class)
    ensures Number(roles, c) == 0 <==> forall t :: 0 <= t < |roles| ==> !Belongs(c, roles[t])
  {
    if roles == [] {
    } else {
      var n := |roles| - 1;
      NumberZero(roles[..n], c);
      assert forall t :: 0 <= t < n ==> roles[..n][t] == roles[t];
    }
  }

  /** No producer carries zero. */
  ghost predicate AllFull(roles: seq<Role>) {
    Number(roles, Zero) == 0
  }

  // ----- The invariant -----

  predicate HoldsLock(pc: Pc) {
    pc.Locked? || pc.Acted?
  }

  predicate Active(pc: Pc) {
    pc.Start? || pc.Locked? || pc.Woken?
  }

  ghost predicate LockOk(s: State) {
    && (forall t :: 0 <= t < |s.threads| ==> (HoldsLock(s.threads[t]) <==> s.lock == Held(t)))
    && (s.lock.Held? ==> s.lock.t < |s.threads|)
  }

  function NonZero(values: seq<int>): seq<int> {
    if values == [] then []
    else
      var n := |values| - 1;
      NonZero(values[..n]) + (if values[n] != 0 then [values[n]] else [])
  }

  function InSlot(cargo: int): seq<int> {
    if cargo != 0 then [cargo] else []
  }

  /** Values leave the slot in the order they entered, and at most one is inside; a zero does not count. */
  ghost predicate SlotOk(s: State)
    requires |s.roles| == |s.threads|
  {
    && NonZero(s.produced) == s.consumed + InSlot(s.cargo)
    && (forall t :: 0 <= t < |s.threads| && s.threads[t].Acted? ==>
          s.cargo == if s.roles[t].Producer? then s.roles[t].id else 0)
  }

  /** One value per producer that has acted and one per consumer that has acted. */
  ghost predicate CountsOk(s: State)
    requires |s.roles| == |s.threads|
  {
    && |s.produced| == ActedNumber(s.roles, s.threads, Producers)
    && |s.consumed| == ActedNumber(s.roles, s.threads, Consumers)
    && |s.consumed| + |InSlot(s.cargo)| == ActedNumber(s.roles, s.threads, Full)
    && forall v :: BagOk(s.roles, s.threads, s.produced, v)
  }

  /** The value has been put as often as producers carrying it have acted. */
  ghost predicate BagOk(roles: seq<Role>, threads: seq<Pc>, produced: seq<int>, v: int)
    requires |roles| == |threads|
  {
    multiset(produced)[v] == ActedNumber(roles, threads, Carrying(v))
  }

  /**
   A thread that could proceed does not wait alone: one of its kind is active, or its notification is to come.
   For producers this needs AllFull, since a zero producer may use up the notification meant for another one.
   */
  ghost predicate WakeOk(s: State)
    requires |s.roles| == |s.threads|
  {
    forall t :: 0 <= t < |s.threads| && s.threads[t].Waiting? && !Blocked(s.roles[t], s.cargo) ==>
      (s.roles[t].Producer? && !AllFull(s.roles)) || exists u :: 0 <= u < |s.threads| && Helps(s, t, u)
  }

  predicate Helps(s: State, t: nat, u: nat)
    requires t < |s.threads| == |s.roles| && u < |s.threads|
  {
    if SameKind(s.roles[t], s.roles[u]) then Active(s.threads[u]) else s.threads[u].Acted?
  }

  ghost predicate Inv(s: State) {
    |s.roles| == |s.threads| && LockOk(s) && SlotOk(s) && CountsOk(s) && WakeOk(s)
  }

  lemma BeginInv(roles: seq<Role>)
    ensures Inv(Begin(roles))
  {
    var s := Begin(roles);
    forall c ensures ActedNumber(s.roles, s.threads, c) == 0 {
      NoneActed(s.roles, s.threads, c);
    }
    assert forall v :: BagOk(s.roles, s.threads, s.produced, v);
  }

  lemma LockPreserved(s: State, step: Step)
    requires LockOk(s) && Enabled(s, step)
    ensures LockOk(Apply(s, step))
  {
  }

  lemma NonZeroSnoc(values: seq<int>, v: int)
    ensures NonZero(values + [v]) == NonZero(values) + InSlot(v)
  {
    assert (values + [v])[..|values|] == values;
  }

  /** Putting or taking a value keeps the order of the values. */
  lemma {:induction false} SlotAct(s: State, t: nat)
    requires Enabled(s, Test(t)) && LockOk(s) && SlotOk(s) && !Blocked(s.roles[t], s.cargo)
    ensures SlotOk(Apply(s, Test(t)))
  {
    if s.roles[t].Producer? {
      NonZeroSnoc(s.produced, s.roles[t].id);
      assert s.consumed + InSlot(0) + InSlot(s.roles[t].id) == s.consumed + InSlot(s.roles[t].id);
    } else {
      assert s.consumed + InSlot(s.cargo) == s.consumed + [s.cargo] + InSlot(0);
    }
  }

  lemma {:induction false} SlotPreserved(s: State, step: Step)
    requires |s.roles| == |s.threads| && LockOk(s) && SlotOk(s) && Enabled(s, step)
    ensures SlotOk(Apply(s, step))
  {
    if step.Test? && !Blocked(s.roles[step.t], s.cargo) {
      SlotAct(s, step.t);
    }
  }

  /** Changing one thread's position without acting changes no count. */
  lemma CountsMove(s: State, t: nat, pc: Pc)
    requires |s.roles| == |s.threads| && CountsOk(s) && t < |s.threads| && HasActed(s.threads[t]) == HasActed(pc)
    ensures CountsOk(s.(threads := s.threads[t := pc]))
  {
    var s' := s.(threads := s.threads[t := pc]);
    forall c ensures ActedNumber(s'.roles, s'.threads, c) == ActedNumber(s.roles, s.threads, c) {
      ActedUpdate(s.roles, s.threads, c, t, pc);
    }
    forall v ensures BagOk(s'.roles, s'.threads, s'.produced, v) {
      assert BagOk(s.roles, s.threads, s.produced, v);
    }
  }

  /** Acting adds the thread to its classes. */
  lemma ActedGrows(s: State, t: nat, c: Class)
    requires Enabled(s, Test(t)) && !Blocked(s.roles[t], s.cargo)
    ensures var s' := Apply(s, Test(t));
            && |s'.roles| == |s'.threads|
            && ActedNumber(s'.roles, s'.threads, c)
               == ActedNumber(s.roles, s.threads, c) + (if Belongs(c, s.roles[t]) then 1 else 0)
  {
    ActedUpdate(s.roles, s.threads, c, t, Acted);
  }

  lemma BagsAct(s: State, t: nat, v: int)
    requires Enabled(s, Test(t)) && BagOk(s.roles, s.threads, s.produced, v) && !Blocked(s.roles[t], s.cargo)
    ensures var s' := Apply(s, Test(t)); |s'.roles| == |s'.threads| && BagOk(s'.roles, s'.threads, s'.produced, v)
  {
    ActedGrows(s, t, Carrying(v));
  }

  lemma CountsAct(s: State, t: nat)
    requires Enabled(s, Test(t)) && CountsOk(s) && !Blocked(s.roles[t], s.cargo)
    ensures CountsOk(Apply(s, Test(t)))
  {
    var s' := Apply(s, Test(t));
    forall v ensures BagOk(s'.roles, s'.threads, s'.produced, v) {
      assert BagOk(s.roles, s.threads, s.produced, v);
      BagsAct(s, t, v);
    }
    ActedGrows(s, t, Producers);
    ActedGrows(s, t, Consumers);
    ActedGrows(s, t, Full);
  }

  lemma CountsPreserved(s: State, step: Step)
    requires |s.roles| == |s.threads| && CountsOk(s) && Enabled(s, step)
    ensures CountsOk(Apply(s, step))
  {
    match step {
      case Lock(t) => CountsMove(s, t, Locked);
      case Test(t) =>
        if Blocked(s.roles[t], s.cargo) {
          CountsMove(s, t, Waiting);
        } else {
          CountsAct(s, t);
        }
      case Notify(t, u) =>
        CountsMove(s, t, Done);
        if !NobodyToWake(s, t) {
          CountsMove(s.(threads := s.threads[t := Done]), u, Woken);
        }
      case Spurious(t) => CountsMove(s, t, Woken);
    }
  }

  /** The wake-up invariant at one waiting thread. */
  lemma WakeKept(s: State, step: Step, t: nat)
    requires |s.roles| == |s.threads| && LockOk(s) && WakeOk(s) && Enabled(s, step) && t < |s.threads|
    requires s.roles[t].Consumer? || AllFull(s.roles)
    requires Apply(s, step).threads[t].Waiting? && !Blocked(s.roles[t], Apply(s, step).cargo)
    ensures exists u :: 0 <= u < |s.threads| && Helps(Apply(s, step), t, u)
  {
    var s' := Apply(s, step);
    if step.Test? && s'.threads[step.t].Acted? {
      NumberZero(s.roles, Zero);
      assert AllFull(s.roles) ==> !Belongs(Zero, s.roles[step.t]);
      assert Helps(s', t, step.t);
    } else {
      assert !Blocked(s.roles[t], s.cargo) && s.threads[t].Waiting?;
      var u :| 0 <= u < |s.threads| && Helps(s, t, u);
      if step.Notify? && u == step.t {
        assert Wakes(s, step.t, t);
        assert Helps(s', t, step.u);
      } else {
        assert Helps(s', t, u);
      }
    }
  }

  lemma WakePreserved(s: State, step: Step)
    requires |s.roles| == |s.threads| && LockOk(s) && WakeOk(s) && Enabled(s, step)
    ensures WakeOk(Apply(s, step))
  {
    var s' := Apply(s, step);
    forall t | 0 <= t < |s'.threads| && s'.threads[t].Waiting? && !Blocked(s'.roles[t], s'.cargo)
      ensures (s'.roles[t].Producer? && !AllFull(s'.roles)) || exists u :: 0 <= u < |s'.threads| && Helps(s', t, u)
    {
      if s.roles[t].Consumer? || AllFull(s.roles) {
        WakeKept(s, step, t);
      }
    }
  }

  lemma InvPreserved(s: State, step: Step)
    requires Inv(s) && Enabled(s, step)
    ensures Inv(Apply(s, step))
  {
    LockPreserved(s, step);
    SlotPreserved(s, step);
    CountsPreserved(s, step);
    WakePreserved(s, step);
  }

  lemma {:induction false} InvAlways(s: State, steps: seq<Step>)
    requires Inv(s) && ValidRun(s, steps)
    ensures Inv(After(s, steps)) && After(s, steps).roles == s.roles
    decreases |steps|
  {
    if steps == [] {
    } else {
      InvPreserved(s, steps[0]);
      InvAlways(Apply(s, steps[0]), steps[1..]);
    }
  }

  /** In every run the non-zero values come out in the order they went in, and the slot holds at most one. */
  lemma HandOffInOrder(roles: seq<Role>, steps: seq<Step>)
    requires ValidRun(Begin(roles), steps)
    ensures var s := After(Begin(roles), steps); NonZero(s.produced) == s.consumed + InSlot(s.cargo)
  {
    BeginInv(roles);
    InvAlways(Begin(roles), steps);
  }

  // ----- Stuck states -----

  /** No thread can move except by a spurious wake-up. */
  ghost predicate Stuck(s: State) {
    forall step: Step :: !step.Spurious? ==> !Enabled(s, step)
  }

  ghost predicate AllDone(s: State) {
    forall t :: 0 <= t < |s.threads| ==> s.threads[t].Done?
  }

  lemma StuckThreads(s: State)
    requires Inv(s) && Stuck(s)
    ensures forall t :: 0 <= t < |s.threads| ==> s.threads[t].Waiting? || s.threads[t].Done?
  {
    forall t | 0 <= t < |s.threads| ensures !s.threads[t].Locked? && !s.threads[t].Acted? {
      assert !Enabled(s, Test(t));
      var u := if NobodyToWake(s, t) then 0 else WokenBy(s, t);
      assert !Enabled(s, Notify(t, u));
    }
    forall t | 0 <= t < |s.threads| ensures !s.threads[t].Start? && !s.threads[t].Woken? {
      assert s.lock.Held? ==> HoldsLock(s.threads[s.lock.t]);
      assert !Enabled(s, Lock(t));
    }
  }

  ghost function WokenBy(s: State, t: nat): (u: nat)
    requires t < |s.roles| == |s.threads| && !NobodyToWake(s, t)
    ensures Wakes(s, t, u)
  {
    var u :| 0 <= u < |s.threads| && Wakes(s, t, u);
    u
  }

  /** In a stuck state only threads whose condition still blocks them wait. */
  lemma StuckAreBlocked(s: State, t: nat)
    requires Inv(s) && Stuck(s) && t < |s.threads| && s.threads[t].Waiting?
    ensures s.roles[t].Consumer? || AllFull(s.roles) ==> Blocked(s.roles[t], s.cargo)
  {
    StuckThreads(s);
    forall u | 0 <= u < |s.threads| ensures !Helps(s, t, u) {
    }
  }

  /** If everybody has finished, the full producers match the consumers, or are one more. */
  lemma DoneNumbers(s: State)
    requires Inv(s) && AllDone(s)
    ensures Number(s.roles, Consumers) <= Number(s.roles, Full) <= Number(s.roles, Consumers) + 1
  {
    ActedVersusAll(s.roles, s.threads, Consumers);
    ActedVersusAll(s.roles, s.threads, Full);
  }

  lemma StuckAllFull(s: State)
    requires Inv(s) && Stuck(s) && AllFull(s.roles)
    requires Number(s.roles, Consumers) <= Number(s.roles, Full) <= Number(s.roles, Consumers) + 1
    ensures AllDone(s)
  {
    StuckThreads(s);
    forall t | 0 <= t < |s.threads| && s.threads[t].Waiting? ensures Blocked(s.roles[t], s.cargo) {
      StuckAreBlocked(s, t);
    }
    ProducersSplit(s.roles);
    NumberZero(s.roles, Zero);
    ActedVersusAll(s.roles, s.threads, Full);
    ActedVersusAll(s.roles, s.threads, Consumers);
    forall t | 0 <= t < |s.threads| ensures s.threads[t].Done? {
      assert !Belongs(Zero, s.roles[t]);
      assert Belongs(Full, s.roles[t]) || Belongs(Consumers, s.roles[t]);
    }
  }

  /**
   A run that can go no further. Whatever the ids, it can have finished every thread only if the full producers are
   as many as the consumers, or one more. Without zero ids that is also enough. With as many producers as
   consumers it has finished every thread exactly when no producer carries zero.
   */
  lemma StuckIffUnmatched(roles: seq<Role>, steps: seq<Step>)
    requires ValidRun(Begin(roles), steps) && Stuck(After(Begin(roles), steps))
    ensures AllDone(After(Begin(roles), steps)) ==>
              Number(roles, Consumers) <= Number(roles, Full) <= Number(roles, Consumers) + 1
    ensures AllFull(roles) ==>
              (AllDone(After(Begin(roles), steps)) <==>
                 Number(roles, Consumers) <= Number(roles, Producers) <= Number(roles, Consumers) + 1)
    ensures Number(roles, Producers) == Number(roles, Consumers) ==>
              (AllDone(After(Begin(roles), steps)) <==> AllFull(roles))
  {
    BeginInv(roles);
    InvAlways(Begin(roles), steps);
    var s := After(Begin(roles), steps);
    ProducersSplit(roles);
    if AllDone(s) {
      DoneNumbers(s);
    }
    if AllFull(roles) && Number(roles, Consumers) <= Number(roles, Full) <= Number(roles, Consumers) + 1 {
      StuckAllFull(s);
    }
  }

  /** Every producer's value has been consumed, as often as it is carried. */
  ghost predicate EachConsumedOnce(roles: seq<Role>, consumed: seq<int>) {
    forall v :: multiset(consumed)[v] == Number(roles, Carrying(v))
  }

  lemma {:induction false} NonZeroBag(values: seq<int>, v: int)
    ensures multiset(NonZero(values))[v] == if v == 0 then 0 else multiset(values)[v]
  {
    if values == [] {
    } else {
      var n := |values| - 1;
      NonZeroBag(values[..n], v);
      assert values == values[..n] + [values[n]];
    }
  }

  lemma {:induction false} ZeroIsCarryingZero(roles: seq<Role>)
    ensures Number(roles, Zero) == Number(roles, Carrying(0))
  {
    if roles == [] {
    } else {
      ZeroIsCarryingZero(roles[..|roles| - 1]);
    }
  }

  /** With matched numbers every value is consumed exactly once if and only if no producer carries zero. */
  lemma EveryValueConsumedOnce(roles: seq<Role>, steps: seq<Step>)
    requires ValidRun(Begin(roles), steps) && Stuck(After(Begin(roles), steps))
    requires Number(roles, Producers) == Number(roles, Consumers)
    ensures EachConsumedOnce(roles, After(Begin(roles), steps).consumed) <==> AllFull(roles)
  {
    BeginInv(roles);
    InvAlways(Begin(roles), steps);
    StuckIffUnmatched(roles, steps);
    var s := After(Begin(roles), steps);
    ZeroIsCarryingZero(roles);
    NeverZero(s);
    if AllFull(roles) {
      DoneBag(s);
    }
  }

  lemma NeverZero(s: State)
    requires Inv(s)
    ensures multiset(s.consumed)[0] == 0
  {
    NonZeroBag(s.produced, 0);
    assert multiset(s.consumed + InSlot(s.cargo)) == multiset(s.consumed) + multiset(InSlot(s.cargo));
  }

  lemma DoneBag(s: State)
    requires Inv(s) && AllDone(s) && AllFull(s.roles) && Number(s.roles, Producers) == Number(s.roles, Consumers)
    ensures EachConsumedOnce(s.roles, s.consumed)
  {
    ProducersSplit(s.roles);
    ZeroIsCarryingZero(s.roles);
    ActedVersusAll(s.roles, s.threads, Full);
    ActedVersusAll(s.roles, s.threads, Consumers);
    assert s.consumed == NonZero(s.produced);
    forall v ensures multiset(s.consumed)[v] == Number(s.roles, Carrying(v)) {
      assert BagOk(s.roles, s.threads, s.produced, v);
      NonZeroBag(s.produced, v);
      ActedVersusAll(s.roles, s.threads, Carrying(v));
    }
  }

  /** The smallest failure: in every run of one zero producer and one consumer, the consumer waits forever. */
  lemma ZeroIsLost(steps: seq<Step>)
    requires ValidRun(Begin([Producer(0), Consumer]), steps) && Stuck(After(Begin([Producer(0), Consumer]), steps))
    ensures !AllDone(After(Begin([Producer(0), Consumer]), steps))
  {
    var roles := [Producer(0), Consumer];
    assert Belongs(Consumers, roles[1]);
    NumberZero(roles, Consumers);
    NumberZero(roles, Full);
    StuckIffUnmatched(roles, steps);
  }

  // ----- Termination -----

  function Rank(pc: Pc): nat {
    match pc
    case Start => 6
    case Woken => 6
    case Locked => 5
    case Waiting => 4
    case Acted => 3
    case Done => 0
  }

  function RankSum(threads: seq<Pc>): nat {
    if threads == [] then 0 else RankSum(threads[..|threads| - 1]) + Rank(threads[|threads| - 1])
  }

  lemma {:induction false} RankUpdate(threads: seq<Pc>, t: nat, pc: Pc)
    requires t < |threads|
    ensures RankSum(threads[t := pc]) + Rank(threads[t]) == RankSum(threads) + Rank(pc)
  {
    var n := |threads| - 1;
    if t == n {
      assert threads[t := pc][..n] == threads[..n];
    } else {
      assert threads[t := pc][..n] == threads[..n][t := pc];
      RankUpdate(threads[..n], t, pc);
    }
  }

  /** Every step lowers the measure, except that a spurious wake-up raises it by two. */
  lemma StepDecreases(s: State, step: Step)
    requires Enabled(s, step)
    ensures RankSum(Apply(s, step).threads) + 1 <= RankSum(s.threads) + (if step.Spurious? then 3 else 0)
  {
    match step {
      case Lock(t) => RankUpdate(s.threads, t, Locked);
      case Test(t) => RankUpdate(s.threads, t, Apply(s, step).threads[t]);
      case Notify(t, u) =>
        RankUpdate(s.threads, t, Done);
        if !NobodyToWake(s, t) {
          RankUpdate(s.threads[t := Done], u, Woken);
        }
      case Spurious(t) => RankUpdate(s.threads, t, Woken);
    }
  }

  function SpuriousSteps(steps: seq<Step>): nat {
    if steps == [] then 0 else SpuriousSteps(steps[1..]) + (if steps[0].Spurious? then 1 else 0)
  }

  /** Only spurious wake-ups can prolong a run: the other steps number at most the measure plus two for each of them. */
  lemma {:induction false} RunsAreShort(s: State, steps: seq<Step>)
    requires ValidRun(s, steps)
    ensures |steps| + RankSum(After(s, steps).threads) <= RankSum(s.threads) + 3 * SpuriousSteps(steps)
    decreases |steps|
  {
    if steps == [] {
    } else {
      StepDecreases(s, steps[0]);
      RunsAreShort(Apply(s, steps[0]), steps[1..]);
    }
  }
}
