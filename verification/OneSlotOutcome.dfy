/**
 When the one-slot hand-off finishes whatever the scheduler does, for producers of any ids. A zero producer fills
 nothing and notifies a consumer, so it may use up the notification another producer waits for.
 */
module OneSlotOutcome {
  import opened OneSlot

  /** No run can end with a thread that waits forever. */
  ghost predicate AlwaysFinishes(roles: seq<Role>) {
    forall steps :: ValidRun(Begin(roles), steps) && Stuck(After(Begin(roles), steps)) ==>
      AllDone(After(Begin(roles), steps))
  }

  /** The numbers of consumers and of producers with and without a zero id decide. */
  predicate Sure(roles: seq<Role>) {
    var c, f, z := Number(roles, Consumers), Number(roles, Full), Number(roles, Zero);
    || (z == 0 && c <= f <= c + 1)
    || (c == 0 && f == 0)
    || (c == 1 && f == 1 && z == 1)
  }

  // ----- Only zero producers -----

  ghost predicate NobodyWaits(s: State) {
    forall t :: 0 <= t < |s.threads| ==> !s.threads[t].Waiting?
  }

  lemma SlotEmpty(s: State)
    requires Inv(s) && Number(s.roles, Full) == 0
    ensures s.cargo == 0
  {
    ActedVersusAll(s.roles, s.threads, Full);
  }

  lemma NobodyStartsToWait(s: State, step: Step)
    requires Enabled(s, step) && NobodyWaits(s) && s.cargo == 0 && s.roles[step.t].Producer?
    ensures NobodyWaits(Apply(s, step))
  {
  }

  lemma {:induction false} OnlyZeros(s: State, steps: seq<Step>)
    requires Inv(s) && ValidRun(s, steps) && NobodyWaits(s)
    requires Number(s.roles, Consumers) == 0 && Number(s.roles, Full) == 0
    ensures NobodyWaits(After(s, steps))
    decreases |steps|
  {
    if steps == [] {
    } else {
      assert s.roles[steps[0].t].Producer? by {
        NumberZero(s.roles, Consumers);
        assert !Belongs(Consumers, s.roles[steps[0].t]);
      }
      SlotEmpty(s);
      NobodyStartsToWait(s, steps[0]);
      InvPreserved(s, steps[0]);
      OnlyZeros(Apply(s, steps[0]), steps[1..]);
    }
  }

  // ----- One consumer, one full and one zero producer -----

  lemma {:induction false} Unique(roles: seq<Role>, c: Class, t: nat, u: nat)
    requires t < u < |roles| && Belongs(c, roles[t]) && Belongs(c, roles[u])
    ensures Number(roles, c) >= 2
  {
    var n := |roles| - 1;
    if u == n {
      NumberZero(roles[..n], c);
      assert roles[..n][t] == roles[t];
    } else {
      Unique(roles[..n], c, t, u);
    }
  }

  ghost predicate OneEach(roles: seq<Role>) {
    Number(roles, Consumers) == 1 && Number(roles, Full) == 1 && Number(roles, Zero) == 1
  }

  predicate Served(s: State, u: nat)
    requires u < |s.threads| == |s.roles|
  {
    s.roles[u].Consumer? && s.threads[u].Acted?
  }

  /** The full producer never waits, and the zero producer waits only for a notification that is to come. */
  ghost predicate Calm(s: State)
    requires |s.roles| == |s.threads|
  {
    && (forall t :: 0 <= t < |s.threads| && s.threads[t].Waiting? ==> !Belongs(Full, s.roles[t]))
    && (forall t :: 0 <= t < |s.threads| && s.threads[t].Waiting? && Belongs(Zero, s.roles[t]) ==>
          s.cargo != 0 || exists u :: 0 <= u < |s.threads| && Served(s, u))
  }

  /** The full producer finds the slot empty. */
  lemma FullNotBlocked(s: State, t: nat)
    requires Inv(s) && OneEach(s.roles) && t < |s.threads| && s.threads[t].Locked? && Belongs(Full, s.roles[t])
    ensures s.cargo == 0
  {
    ActedVersusAll(s.roles, s.threads, Full);
  }

  /** A notified producer is the zero producer. */
  lemma NotifyZero(s: State, t: nat, u: nat, z: nat)
    requires Inv(s) && OneEach(s.roles) && Calm(s) && Enabled(s, Notify(t, u)) && s.roles[t].Consumer?
    requires z < |s.threads| && s.threads[z].Waiting? && Belongs(Zero, s.roles[z])
    ensures !NobodyToWake(s, t) && u == z
  {
    assert Wakes(s, t, z);
    assert Belongs(Zero, s.roles[u]);
    if u != z {
      Unique(s.roles, Zero, if u < z then u else z, if u < z then z else u);
    }
  }

  /** Only the holder of the mutex can be about to notify. */
  lemma NobodyServed(s: State, t: nat)
    requires |s.roles| == |s.threads| && LockOk(s) && t < |s.threads| && HoldsLock(s.threads[t])
    requires s.threads[t].Locked? || s.roles[t].Producer?
    ensures forall u :: 0 <= u < |s.threads| ==> !Served(s, u)
  {
  }

  lemma {:induction false} CalmTest(s: State, t: nat, z: nat)
    requires |s.roles| == |s.threads| && LockOk(s) && Calm(s) && Enabled(s, Test(t)) && z < |s.threads|
    requires Apply(s, Test(t)).threads[z].Waiting? && Belongs(Zero, s.roles[z]) && Apply(s, Test(t)).cargo == 0
    ensures exists u :: 0 <= u < |s.threads| && Served(Apply(s, Test(t)), u)
  {
    NobodyServed(s, t);
    assert s.threads[z].Waiting? && s.cargo != 0;
    assert Served(Apply(s, Test(t)), t);
  }

  lemma {:induction false} CalmAt(s: State, step: Step, z: nat)
    requires Inv(s) && OneEach(s.roles) && Calm(s) && Enabled(s, step) && z < |s.threads|
    requires Apply(s, step).threads[z].Waiting? && Belongs(Zero, s.roles[z]) && Apply(s, step).cargo == 0
    ensures exists u :: 0 <= u < |s.threads| && Served(Apply(s, step), u)
  {
    var s' := Apply(s, step);
    match step {
      case Lock(_) =>
      case Test(t) => CalmTest(s, t, z);
      case Notify(t, u) =>
        if s.roles[t].Consumer? {
          NotifyZero(s, t, u, z);
        } else {
          NobodyServed(s, t);
        }
      case Spurious(_) =>
        var u :| 0 <= u < |s.threads| && Served(s, u);
        assert Served(s', u);
    }
  }

  lemma CalmStep(s: State, step: Step)
    requires Inv(s) && OneEach(s.roles) && Calm(s) && Enabled(s, step)
    ensures Calm(Apply(s, step))
  {
    var s' := Apply(s, step);
    if step.Test? && Belongs(Full, s.roles[step.t]) {
      FullNotBlocked(s, step.t);
    }
    forall z | 0 <= z < |s'.threads| && s'.threads[z].Waiting? && Belongs(Zero, s'.roles[z]) && s'.cargo == 0
      ensures exists u :: 0 <= u < |s'.threads| && Served(s', u)
    {
      CalmAt(s, step, z);
    }
  }

  lemma {:induction false} CalmAlways(s: State, steps: seq<Step>)
    requires Inv(s) && OneEach(s.roles) && Calm(s) && ValidRun(s, steps)
    ensures Inv(After(s, steps)) && After(s, steps).roles == s.roles && Calm(After(s, steps))
    decreases |steps|
  {
    if steps == [] {
    } else {
      InvPreserved(s, steps[0]);
      CalmStep(s, steps[0]);
      CalmAlways(Apply(s, steps[0]), steps[1..]);
    }
  }

  lemma CalmFinishes(s: State)
    requires Inv(s) && OneEach(s.roles) && Calm(s) && Stuck(s)
    ensures AllDone(s)
  {
    StuckThreads(s);
    ActedVersusAll(s.roles, s.threads, Full);
    ActedVersusAll(s.roles, s.threads, Consumers);
    forall t | 0 <= t < |s.threads| && s.roles[t].Consumer? ensures s.threads[t].Done? {
      assert Belongs(Consumers, s.roles[t]);
      if s.threads[t].Waiting? {
        StuckAreBlocked(s, t);
      }
    }
    assert s.cargo == 0;
    forall t | 0 <= t < |s.threads| ensures s.threads[t].Done? {
      assert Belongs(Full, s.roles[t]) || Belongs(Zero, s.roles[t]) || s.roles[t].Consumer?;
    }
  }

  /** Enough: with these numbers every run that can go no further has finished. */
  lemma SureFinishes(roles: seq<Role>, steps: seq<Step>)
    requires Sure(roles) && ValidRun(Begin(roles), steps) && Stuck(After(Begin(roles), steps))
    ensures AllDone(After(Begin(roles), steps))
  {
    BeginInv(roles);
    InvAlways(Begin(roles), steps);
    if Number(roles, Zero) == 0 {
      ProducersSplit(roles);
      StuckIffUnmatched(roles, steps);
    } else if Number(roles, Consumers) == 0 {
      OnlyZeros(Begin(roles), steps);
      StuckThreads(After(Begin(roles), steps));
    } else {
      CalmAlways(Begin(roles), steps);
      CalmFinishes(After(Begin(roles), steps));
    }
  }

  // ----- Runs that get stuck -----

  lemma RunFrom(s: State, step: Step, rest: seq<Step>)
    requires Enabled(s, step) && ValidRun(Apply(s, step), rest)
    ensures ValidRun(s, [step] + rest) && After(s, [step] + rest) == After(Apply(s, step), rest)
  {
    assert ([step] + rest)[1..] == rest;
  }

  lemma {:induction false} RunOn(s: State, first: seq<Step>, rest: seq<Step>)
    requires ValidRun(s, first) && ValidRun(After(s, first), rest)
    ensures ValidRun(s, first + rest) && After(s, first + rest) == After(After(s, first), rest)
    decreases |first|
  {
    if first == [] {
      assert first + rest == rest;
    } else {
      RunOn(Apply(s, first[0]), first[1..], rest);
      RunFrom(s, first[0], first[1..] + rest);
      assert first + rest == [first[0]] + (first[1..] + rest);
    }
  }

  /** A wait can return at any time without a notification; the thread then competes for the mutex like any other. */
  lemma WaitMayReturn(s: State, t: nat)
    requires t < |s.roles| == |s.threads| && s.threads[t].Waiting?
    ensures ValidRun(s, [Spurious(t)] + [])
    ensures After(s, [Spurious(t)] + []) == s.(threads := s.threads[t := Woken])
    ensures s.lock.Free? ==> Enabled(After(s, [Spurious(t)] + []), Lock(t))
  {
    RunFrom(s, Spurious(t), []);
  }

  /** Every state can be run until it is stuck. */
  lemma {:induction false} Exhaust(s: State) returns (steps: seq<Step>)
    ensures ValidRun(s, steps) && Stuck(After(s, steps))
    decreases RankSum(s.threads)
  {
    if Stuck(s) {
      steps := [];
    } else {
      var step: Step :| !step.Spurious? && Enabled(s, step);
      StepDecreases(s, step);
      var rest := Exhaust(Apply(s, step));
      RunFrom(s, step, rest);
      steps := [step] + rest;
    }
  }

  /** All blocked threads from position `i` on have started and gone to wait. */
  function Parked(s: State, i: nat): State
    requires |s.roles| == |s.threads|
  {
    s.(threads := seq(|s.threads|, t requires 0 <= t < |s.threads| =>
         if t >= i && s.threads[t].Start? && Blocked(s.roles[t], s.cargo) then Waiting else s.threads[t]))
  }

  /** One thread starts, finds itself blocked and waits. */
  lemma ParkOne(s: State, t: nat)
    requires |s.roles| == |s.threads| && s.lock.Free? && t < |s.threads|
    requires s.threads[t].Start? && Blocked(s.roles[t], s.cargo)
    ensures ValidRun(s, [Lock(t), Test(t)]) && After(s, [Lock(t), Test(t)]) == s.(threads := s.threads[t := Waiting])
  {
    var s1 := Apply(s, Lock(t));
    var s2 := Apply(s1, Test(t));
    assert s2.threads == s.threads[t := Waiting];
    RunFrom(s1, Test(t), []);
    RunFrom(s, Lock(t), [Test(t)] + []);
    assert [Lock(t)] + ([Test(t)] + []) == [Lock(t), Test(t)];
  }

  lemma {:induction false} ParkAll(s: State, i: nat) returns (steps: seq<Step>)
    requires |s.roles| == |s.threads| && s.lock.Free? && i <= |s.threads|
    ensures ValidRun(s, steps) && After(s, steps) == Parked(s, i)
    decreases |s.threads| - i
  {
    if i == |s.threads| {
      steps := [];
      assert Parked(s, i).threads == s.threads;
    } else if s.threads[i].Start? && Blocked(s.roles[i], s.cargo) {
      var s' := s.(threads := s.threads[i := Waiting]);
      ParkOne(s, i);
      var rest := ParkAll(s', i + 1);
      RunOn(s, [Lock(i), Test(i)], rest);
      steps := [Lock(i), Test(i)] + rest;
      assert Parked(s', i + 1).threads == Parked(s, i).threads;
    } else {
      steps := ParkAll(s, i + 1);
      assert Parked(s, i + 1).threads == Parked(s, i).threads;
    }
  }

  /** The state once thread `t` has acted and notified, waking `u` if there is somebody to wake. */
  function Turned(s: State, t: nat, u: nat): State
    requires t < |s.roles| == |s.threads| && (NobodyToWake(s, t) || Wakes(s, t, u))
  {
    var r := s.roles[t];
    State(s.roles,
          if NobodyToWake(s, t) then s.threads[t := Done] else s.threads[t := Done][u := Woken],
          if r.Producer? then r.id else 0, Free,
          if r.Producer? then s.produced + [r.id] else s.produced,
          if r.Producer? then s.consumed else s.consumed + [s.cargo])
  }

  function Turn(t: nat, u: nat): seq<Step> {
    [Lock(t)] + ([Test(t)] + ([Notify(t, u)] + []))
  }

  lemma TakeTurn(s: State, t: nat, u: nat)
    requires t < |s.roles| == |s.threads| && s.lock.Free? && (s.threads[t].Start? || s.threads[t].Woken?)
    requires !Blocked(s.roles[t], s.cargo) && (NobodyToWake(s, t) || Wakes(s, t, u))
    ensures ValidRun(s, Turn(t, u)) && After(s, Turn(t, u)) == Turned(s, t, u)
  {
    var s1 := Apply(s, Lock(t));
    var s2 := Apply(s1, Test(t));
    assert s2.threads == s.threads[t := Acted];
    assert forall w: nat :: Wakes(s2, t, w) <==> Wakes(s, t, w);
    assert NobodyToWake(s2, t) <==> NobodyToWake(s, t);
    var s3 := Apply(s2, Notify(t, u));
    assert s3.threads == Turned(s, t, u).threads;
    RunFrom(s2, Notify(t, u), []);
    RunFrom(s1, Test(t), [Notify(t, u)] + []);
    RunFrom(s, Lock(t), [Test(t)] + ([Notify(t, u)] + []));
  }

  lemma Quiet(s: State)
    requires |s.roles| == |s.threads| && forall t :: 0 <= t < |s.threads| ==>
             s.threads[t].Waiting? || s.threads[t].Done?
    ensures Stuck(s)
  {
  }

  lemma SomeMember(roles: seq<Role>, c: Class) returns (t: nat)
    requires Number(roles, c) > 0
    ensures t < |roles| && Belongs(c, roles[t])
  {
    NumberZero(roles, c);
    t :| 0 <= t < |roles| && Belongs(c, roles[t]);
  }

  lemma {:induction false} AtMostTwo(roles: seq<Role>, c: Class, a: nat, b: nat)
    requires forall t :: 0 <= t < |roles| && Belongs(c, roles[t]) ==> t == a || t == b
    ensures Number(roles, c) <= (if a < |roles| then 1 else 0) + (if b < |roles| then 1 else 0)
  {
    if roles == [] {
    } else {
      var n := |roles| - 1;
      forall t | 0 <= t < n && Belongs(c, roles[..n][t]) ensures t == a || t == b {
        assert roles[t] == roles[..n][t];
      }
      AtMostTwo(roles[..n], c, a, b);
    }
  }

  /** A full producer fills the slot and every other producer goes to wait. */
  function Crowded(roles: seq<Role>, n: nat): State
    requires n < |roles| && roles[n].Producer?
  {
    State(roles,
          seq(|roles|, t requires 0 <= t < |roles| =>
            if t == n then Done else if roles[t].Producer? then Waiting else Start),
          roles[n].id, Free, [roles[n].id], [])
  }

  lemma RunCrowded(roles: seq<Role>, n: nat) returns (steps: seq<Step>)
    requires n < |roles| && Belongs(Full, roles[n])
    ensures ValidRun(Begin(roles), steps) && After(Begin(roles), steps) == Crowded(roles, n)
  {
    var s := Begin(roles);
    TakeTurn(s, n, 0);
    var s1 := Turned(s, n, 0);
    var rest := ParkAll(s1, 0);
    RunOn(s, Turn(n, 0), rest);
    steps := Turn(n, 0) + rest;
    assert Parked(s1, 0).threads == Crowded(roles, n).threads;
  }

  /** A consumer empties the slot and wakes the zero producer `z`, which leaves everybody else waiting. */
  lemma Swallow(roles: seq<Role>, n: nat, c: nat, z: nat, x: nat) returns (steps: seq<Step>)
    requires n < |roles| && c < |roles| && z < |roles| && x < |roles| && x != n && x != z
    requires Belongs(Full, roles[n]) && roles[c].Consumer? && Belongs(Zero, roles[z]) && roles[x].Producer?
    ensures ValidRun(Crowded(roles, n), steps) && Stuck(After(Crowded(roles, n), steps))
    ensures !AllDone(After(Crowded(roles, n), steps))
  {
    var s2 := Crowded(roles, n);
    assert Wakes(s2, c, z);
    TakeTurn(s2, c, z);
    var s3 := Turned(s2, c, z);
    assert s3.threads == s2.threads[c := Done][z := Woken];
    TakeTurn(s3, z, 0);
    var s4 := Turned(s3, z, 0);
    assert s4.threads == s3.threads[z := Done];
    var rest := ParkAll(s4, 0);
    var s5 := Parked(s4, 0);
    RunOn(s3, Turn(z, 0), rest);
    RunOn(s2, Turn(c, z), Turn(z, 0) + rest);
    steps := Turn(c, z) + (Turn(z, 0) + rest);
    Quiet(s5);
    assert s5.threads[x].Waiting?;
  }

  lemma CrowdedStuck(roles: seq<Role>, n: nat, z: nat)
    requires n < |roles| && z < |roles| && z != n && roles[n].Producer? && roles[z].Producer?
    requires forall t :: 0 <= t < |roles| ==> roles[t].Producer?
    ensures Stuck(Crowded(roles, n)) && !AllDone(Crowded(roles, n))
  {
    Quiet(Crowded(roles, n));
    assert Crowded(roles, n).threads[z].Waiting?;
  }

  /** Needed: with any other numbers some run ends with a thread that waits forever. */
  lemma UnsureFails(roles: seq<Role>) returns (steps: seq<Step>)
    requires !Sure(roles)
    ensures ValidRun(Begin(roles), steps) && Stuck(After(Begin(roles), steps))
    ensures !AllDone(After(Begin(roles), steps))
  {
    var c, f, z := Number(roles, Consumers), Number(roles, Full), Number(roles, Zero);
    if !(c <= f <= c + 1) {
      steps := Exhaust(Begin(roles));
      StuckIffUnmatched(roles, steps);
    } else {
      var n := SomeMember(roles, Full);
      var zero := SomeMember(roles, Zero);
      steps := RunCrowded(roles, n);
      if c == 0 {
        NumberZero(roles, Consumers);
        assert forall t :: 0 <= t < |roles| ==> !Belongs(Consumers, roles[t]);
        CrowdedStuck(roles, n, zero);
      } else {
        var consumer := SomeMember(roles, Consumers);
        var x := ThirdProducer(roles, n, zero);
        var rest := Swallow(roles, n, consumer, zero, x);
        RunOn(Begin(roles), steps, rest);
        steps := steps + rest;
      }
    }
  }

  lemma ThirdProducer(roles: seq<Role>, n: nat, z: nat) returns (x: nat)
    requires Number(roles, Full) + Number(roles, Zero) >= 3
    ensures x < |roles| && roles[x].Producer? && x != n && x != z
  {
    ProducersSplit(roles);
    if forall t :: 0 <= t < |roles| && Belongs(Producers, roles[t]) ==> t == n || t == z {
      AtMostTwo(roles, Producers, n, z);
    }
    x :| 0 <= x < |roles| && Belongs(Producers, roles[x]) && x != n && x != z;
  }

  /** The hand-off finishes under every scheduler if and only if the numbers are right. */
  lemma FinishesIffSure(roles: seq<Role>)
    ensures AlwaysFinishes(roles) <==> Sure(roles)
  {
    if Sure(roles) {
      forall steps | ValidRun(Begin(roles), steps) && Stuck(After(Begin(roles), steps))
        ensures AllDone(After(Begin(roles), steps))
      {
        SureFinishes(roles, steps);
      }
    } else {
      var steps := UnsureFails(roles);
    }
  }

  // ----- Runs that finish -----

  ghost predicate SomeRunFinishes(roles: seq<Role>) {
    exists steps :: ValidRun(Begin(roles), steps) && AllDone(After(Begin(roles), steps))
  }

  /** Between turns: nobody waits, and the slot is only full once the zero producers are through. */
  ghost predicate BetweenTurns(s: State) {
    && Inv(s) && s.lock.Free?
    && (forall t :: 0 <= t < |s.threads| ==> s.threads[t].Start? || s.threads[t].Done?)
    && (forall t :: 0 <= t < |s.threads| && s.cargo != 0 && Belongs(Zero, s.roles[t]) ==> s.threads[t].Done?)
    && Number(s.roles, Consumers) <= Number(s.roles, Full) <= Number(s.roles, Consumers) + 1
  }

  predicate Ready(s: State, t: nat)
    requires |s.roles| == |s.threads|
  {
    t < |s.threads| && s.threads[t].Start? && !Blocked(s.roles[t], s.cargo)
  }

  /** A thread whose turn it can be, zero producers before full ones. */
  lemma NextTurn(s: State) returns (t: nat)
    requires BetweenTurns(s) && !AllDone(s)
    ensures Ready(s, t)
    ensures Belongs(Full, s.roles[t]) ==>
              forall u :: 0 <= u < |s.threads| && Belongs(Zero, s.roles[u]) ==> s.threads[u].Done?
  {
    ActedVersusAll(s.roles, s.threads, Full);
    ActedVersusAll(s.roles, s.threads, Consumers);
    t :| 0 <= t < |s.threads| && !s.threads[t].Done?;
    assert Belongs(Full, s.roles[t]) || Belongs(Zero, s.roles[t]) || Belongs(Consumers, s.roles[t]);
    if u :| 0 <= u < |s.threads| && Belongs(Zero, s.roles[u]) && s.threads[u].Start? {
      t := u;
    } else if s.cargo == 0 {
      t :| 0 <= t < |s.threads| && Belongs(Full, s.roles[t]) && s.threads[t].Start?;
    } else {
      t :| 0 <= t < |s.threads| && Belongs(Consumers, s.roles[t]) && s.threads[t].Start?;
    }
  }

  lemma {:induction false} FinishFrom(s: State) returns (steps: seq<Step>)
    requires BetweenTurns(s)
    ensures ValidRun(s, steps) && AllDone(After(s, steps))
    decreases RankSum(s.threads)
  {
    if AllDone(s) {
      steps := [];
    } else {
      var t := NextTurn(s);
      TakeTurn(s, t, 0);
      InvAlways(s, Turn(t, 0));
      RankUpdate(s.threads, t, Done);
      var rest := FinishFrom(Turned(s, t, 0));
      RunOn(s, Turn(t, 0), rest);
      steps := Turn(t, 0) + rest;
    }
  }

  /** Some run finishes if and only if the full producers are as many as the consumers, or one more. */
  lemma FinishesIffMatched(roles: seq<Role>)
    ensures SomeRunFinishes(roles) <==>
            Number(roles, Consumers) <= Number(roles, Full) <= Number(roles, Consumers) + 1
  {
    BeginInv(roles);
    if SomeRunFinishes(roles) {
      var steps :| ValidRun(Begin(roles), steps) && AllDone(After(Begin(roles), steps));
      InvAlways(Begin(roles), steps);
      DoneNumbers(After(Begin(roles), steps));
    } else if Number(roles, Consumers) <= Number(roles, Full) <= Number(roles, Consumers) + 1 {
      var steps := FinishFrom(Begin(roles));
    }
  }
}
