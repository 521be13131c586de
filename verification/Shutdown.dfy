/** The shutdown wait of the server (runServe in serve.go) ends on every fair schedule of the discovery protocol. */
module Shutdown {
  import opened Sequences
  import opened Discovery

  /** An endless schedule: the states, and the step taken in each, if any. */
  datatype Schedule = Schedule(at: nat -> State, taken: nat -> Option<Step>)

  ghost predicate Follows(run: Schedule, freq: int, n: nat) {
    match run.taken(n)
    case Some(step) => Apply(run.at(n), step, freq) == Some(run.at(n + 1))
    case None => run.at(n + 1) == run.at(n)
  }

  ghost predicate IsSchedule(run: Schedule, freq: int) {
    Inv(run.at(0), freq) && forall n: nat :: Follows(run, freq, n)
  }

  predicate Enabled(s: State, step: Step, freq: int) { Apply(s, step, freq).Some? }

  // ---- fairness ----

  ghost predicate TakenOrNot(run: Schedule, freq: int, step: Step, n: nat) {
    exists m: nat :: m >= n && (run.taken(m) == Some(step) || !Enabled(run.at(m), step, freq))
  }

  /** A step is not possible for ever without being taken. */
  ghost predicate WeaklyFair(run: Schedule, freq: int, step: Step) {
    forall n: nat :: TakenOrNot(run, freq, step, n)
  }

  ghost predicate NeverAgain(run: Schedule, freq: int, step: Step, n: nat) {
    forall m: nat :: m >= n ==> !Enabled(run.at(m), step, freq)
  }

  ghost predicate TakenOrGone(run: Schedule, freq: int, step: Step, n: nat) {
    || (exists m: nat :: m >= n && run.taken(m) == Some(step))
    || (exists m: nat :: m >= n && NeverAgain(run, freq, step, m))
  }

  /** A step is not possible again and again without being taken. */
  ghost predicate StronglyFair(run: Schedule, freq: int, step: Step) {
    forall n: nat :: TakenOrGone(run, freq, step, n)
  }

  /** Steps of parties that wait for nobody: a goroutine that can run does, and a cancelled crawl ends. */
  predicate GoesOn(step: Step) {
    || step.Check? || step.SetCancel? || step.SetDone? || step.Spawn? || step.End? || step.Clear?
    || step.ShutdownCheck? || step.ShutdownWake?
  }

  /** Besides, whoever waits for the mutex gets it in the end; only the discoveries need that here. */
  ghost predicate Fair(run: Schedule, freq: int) {
    && (forall step :: GoesOn(step) ==> WeaklyFair(run, freq, step))
    && (forall k :: StronglyFair(run, freq, LockFlight(k)))
  }

  // ---- phases of the way to the exit ----

  /** Where flight `k` is while the shutdown waits for it, and who has to take the next step. */
  datatype Phase =
    | Starting(k: nat, i: nat)    // request i is about to publish the flight's channel
    | Launching(k: nat, i: nat)   // request i is about to start its goroutine
    | Running(k: nat)
    | Held(k: nat, i: nat)        // it wants the mutex, which request i has
    | Finishing(k: nat, stage: nat)
    | Closed(k: nat)
  {
    function Next(): Step {
      match this
      case Starting(_, i) => SetDone(i)
      case Launching(_, i) => Spawn(i)
      case Running(k) => End(k)
      case Held(_, i) => Check(i)
      case Finishing(k, _) => Clear(k)
      case Closed(_) => ShutdownWake
    }
  }

  predicate Waits(s: State, k: nat) { s.shutdown == Discovery.Waiting(Some(k)) && k < |s.flights| }

  predicate In(s: State, p: Phase) {
    Waits(s, p.k) &&
    match p
    case Starting(k, i) => s.flights[k].Unspawned? && i < |s.requests| && s.requests[i].SettingDone?
    case Launching(k, i) =>
      s.flights[k].Unspawned? && i < |s.requests| && s.requests[i].Spawning? && s.requests[i].flight == k
    case Running(k) => s.flights[k].Discovering?
    case Held(k, i) => s.flights[k].Ending? && i < |s.requests| && s.requests[i].Checking?
    case Finishing(k, stage) => s.flights[k].Clearing? && s.flights[k].stage == stage && stage <= 3
    case Closed(k) => k in s.closed
  }

  predicate Ends(s: State, k: nat) { Waits(s, k) && s.flights[k].Ending? }

  // ---- single steps ----

  /** The shutdown waits on until the channel is closed; nobody else touches a request or a flight. */
  lemma Undisturbed(s: State, freq: int, step: Step, k: nat, i: nat)
    requires Inv(s, freq) && Apply(s, step, freq).Some? && Waits(s, k)
    ensures var s' := Apply(s, step, freq).value;
      && (step != ShutdownWake ==> Waits(s', k)) && s.closed <= s'.closed
      && (i < |s.requests| && RequestOf(step) != Some(i) ==> i < |s'.requests| && s'.requests[i] == s.requests[i])
  {
    WaitUndisturbed(s, freq, step, k);
  }

  lemma WaitUndisturbed(s: State, freq: int, step: Step, k: nat)
    requires Apply(s, step, freq).Some? && Waits(s, k)
    ensures var s' := Apply(s, step, freq).value;
      (step != ShutdownWake ==> Waits(s', k)) && s.closed <= s'.closed
  {
  }

  function RequestOf(step: Step): Option<nat> {
    match step
    case Lock(i) => Some(i)
    case Check(i) => Some(i)
    case Connect(i, _) => Some(i)
    case SetCancel(i) => Some(i)
    case SetDone(i) => Some(i)
    case Spawn(i) => Some(i)
    case _ => None
  }

  lemma FlightUndisturbed(s: State, freq: int, step: Step, k: nat)
    requires Inv(s, freq) && Apply(s, step, freq).Some? && k < |s.flights|
    requires step != End(k) && step != LockFlight(k) && step != Clear(k)
    requires step.Spawn? ==> !s.flights[k].Unspawned?
    ensures var s' := Apply(s, step, freq).value; k < |s'.flights| && s'.flights[k] == s.flights[k]
  {
    if step.Spawn? {
      assert RequestFieldInv(s, s.requests[step.i]);
    }
  }

  lemma NextIsEnabled(s: State, freq: int, p: Phase)
    requires Inv(s, freq) && In(s, p)
    ensures Enabled(s, p.Next(), freq)
  {
    if p.Starting? || p.Launching? || p.Held? {
      assert RequestFieldInv(s, s.requests[p.i]);
    }
  }

  /** Until the party whose turn it is takes its step, nothing that others do leaves the phase. */
  lemma OthersStay(s: State, freq: int, step: Step, p: Phase)
    requires Inv(s, freq) && In(s, p) && Apply(s, step, freq).Some? && step != p.Next()
    ensures In(Apply(s, step, freq).value, p)
  {
    match p
    case Starting(k, i) => StartingStays(s, freq, step, k, i);
    case Launching(k, i) => LaunchingStays(s, freq, step, k, i);
    case Running(k) =>
      Undisturbed(s, freq, step, k, 0);
      FlightUndisturbed(s, freq, step, k);
    case Held(k, i) => HeldStays(s, freq, step, k, i);
    case Finishing(k, _) =>
      assert k !in s.closed;
      Undisturbed(s, freq, step, k, 0);
      FlightUndisturbed(s, freq, step, k);
    case Closed(k) => Undisturbed(s, freq, step, k, 0);
  }

  lemma StartingStays(s: State, freq: int, step: Step, k: nat, i: nat)
    requires Inv(s, freq) && In(s, Starting(k, i)) && Apply(s, step, freq).Some? && step != SetDone(i)
    ensures In(Apply(s, step, freq).value, Starting(k, i))
  {
    assert k !in s.closed;
    Undisturbed(s, freq, step, k, i);
    FlightUndisturbed(s, freq, step, k);
  }

  lemma LaunchingStays(s: State, freq: int, step: Step, k: nat, i: nat)
    requires Inv(s, freq) && In(s, Launching(k, i)) && Apply(s, step, freq).Some? && step != Spawn(i)
    ensures In(Apply(s, step, freq).value, Launching(k, i))
  {
    assert k !in s.closed;
    Undisturbed(s, freq, step, k, i);
    FlightUndisturbed(s, freq, step, k);
  }

  lemma HeldStays(s: State, freq: int, step: Step, k: nat, i: nat)
    requires Inv(s, freq) && In(s, Held(k, i)) && Apply(s, step, freq).Some? && step != Check(i)
    ensures In(Apply(s, step, freq).value, Held(k, i))
  {
    assert k !in s.closed;
    assert InCriticalSection(s.requests[i]) <==> s.mu == Some(ByRequest(i));
    Undisturbed(s, freq, step, k, i);
    FlightUndisturbed(s, freq, step, k);
  }

  /** A discovery that wants the mutex goes on wanting it. */
  lemma EndingStays(s: State, freq: int, step: Step, k: nat)
    requires Inv(s, freq) && Ends(s, k) && Apply(s, step, freq).Some? && step != LockFlight(k)
    ensures Ends(Apply(s, step, freq).value, k)
  {
    assert k !in s.closed;
    Undisturbed(s, freq, step, k, 0);
    FlightUndisturbed(s, freq, step, k);
  }

  /** A request that has the mutex meanwhile is only looking at the fields, and gives it back. */
  lemma HolderLooks(s: State, freq: int, k: nat) returns (i: nat)
    requires Inv(s, freq) && Ends(s, k) && s.mu.Some?
    ensures In(s, Held(k, i))
    ensures var s' := Apply(s, Check(i), freq); s'.Some? && s'.value.mu == None && Ends(s'.value, k)
  {
    assert k == |s.flights| - 1 && (s.flights[k].Clearing? <==> s.mu == Some(ByFlight(k)));
    assert s.mu.value.ByRequest?;
    i := s.mu.value.i;
    assert RequestFieldInv(s, s.requests[i]) && (InCriticalSection(s.requests[i]) <==> s.mu == Some(ByRequest(i)));
  }

  // ---- schedules ----

  lemma {:induction false} InvAt(run: Schedule, freq: int, n: nat)
    requires IsSchedule(run, freq)
    ensures Inv(run.at(n), freq)
    decreases n
  {
    if n == 0 {
    } else {
      InvAt(run, freq, n - 1);
      assert Follows(run, freq, n - 1);
      if run.taken(n - 1).Some? {
        StepKeepsInv(run.at(n - 1), run.taken(n - 1).value, freq);
      }
    }
  }

  /** Until the turn is taken the phase lasts. */
  lemma {:induction false} PhaseLasts(run: Schedule, freq: int, p: Phase, n: nat, m: nat) returns (j: nat)
    requires IsSchedule(run, freq) && n <= m && In(run.at(n), p)
    ensures n <= j <= m && In(run.at(j), p) && (j == m || run.taken(j) == Some(p.Next()))
    decreases m - n
  {
    if n == m || run.taken(n) == Some(p.Next()) {
      j := n;
    } else {
      assert Follows(run, freq, n);
      InvAt(run, freq, n);
      if run.taken(n).Some? {
        OthersStay(run.at(n), freq, run.taken(n).value, p);
      }
      j := PhaseLasts(run, freq, p, n + 1, m);
    }
  }

  /** Whoever's turn it is takes it. */
  lemma TurnComes(run: Schedule, freq: int, p: Phase, n: nat) returns (m: nat)
    requires IsSchedule(run, freq) && Fair(run, freq) && In(run.at(n), p)
    ensures m >= n && Inv(run.at(m), freq) && In(run.at(m), p)
    ensures Apply(run.at(m), p.Next(), freq) == Some(run.at(m + 1))
  {
    assert WeaklyFair(run, freq, p.Next()) && TakenOrNot(run, freq, p.Next(), n);
    var l: nat :| l >= n && (run.taken(l) == Some(p.Next()) || !Enabled(run.at(l), p.Next(), freq));
    m := PhaseLasts(run, freq, p, n, l);
    InvAt(run, freq, m);
    NextIsEnabled(run.at(m), freq, p);
    assert Follows(run, freq, m);
  }

  lemma {:induction false} WantsUntilLocked(run: Schedule, freq: int, k: nat, n: nat, m: nat) returns (j: nat)
    requires IsSchedule(run, freq) && n <= m && Ends(run.at(n), k)
    ensures n <= j <= m && Ends(run.at(j), k) && (j == m || run.taken(j) == Some(LockFlight(k)))
    decreases m - n
  {
    if n == m || run.taken(n) == Some(LockFlight(k)) {
      j := n;
    } else {
      assert Follows(run, freq, n);
      InvAt(run, freq, n);
      if run.taken(n).Some? {
        EndingStays(run.at(n), freq, run.taken(n).value, k);
      }
      j := WantsUntilLocked(run, freq, k, n + 1, m);
    }
  }

  /** Again and again the mutex is free while the discovery wants it. */
  lemma MutexIsFreed(run: Schedule, freq: int, k: nat, n: nat) returns (m: nat)
    requires IsSchedule(run, freq) && Fair(run, freq) && Ends(run.at(n), k)
    ensures m >= n && Ends(run.at(m), k) && run.at(m).mu == None
  {
    InvAt(run, freq, n);
    if run.at(n).mu == None {
      m := n;
    } else {
      var i := HolderLooks(run.at(n), freq, k);
      var l := TurnComes(run, freq, Held(k, i), n);
      assert Ends(run.at(l), k);
      LooksAndReleases(run.at(l), freq, k, i);
      m := l + 1;
    }
  }

  lemma LooksAndReleases(s: State, freq: int, k: nat, i: nat)
    requires Inv(s, freq) && In(s, Held(k, i))
    ensures var s' := Apply(s, Check(i), freq); s'.Some? && s'.value.mu == None && Ends(s'.value, k)
  {
    assert InCriticalSection(s.requests[i]) <==> s.mu == Some(ByRequest(i));
    var j := HolderLooks(s, freq, k);
  }

  lemma MutexIsWon(run: Schedule, freq: int, k: nat, n: nat) returns (m: nat)
    requires IsSchedule(run, freq) && Fair(run, freq) && Ends(run.at(n), k)
    ensures m >= n && In(run.at(m), Finishing(k, 0))
  {
    assert StronglyFair(run, freq, LockFlight(k)) && TakenOrGone(run, freq, LockFlight(k), n);
    var l: nat;
    if x: nat :| x >= n && run.taken(x) == Some(LockFlight(k)) {
      l := x;
    } else {
      var y: nat :| y >= n && NeverAgain(run, freq, LockFlight(k), y);
      var w := WantsUntilLocked(run, freq, k, n, y);
      if w == y {
        var z := MutexIsFreed(run, freq, k, y);
        assert Enabled(run.at(z), LockFlight(k), freq);
        assert false;
      }
      l := w;
    }
    var j := WantsUntilLocked(run, freq, k, n, l);
    InvAt(run, freq, j);
    assert Follows(run, freq, j);
    m := j + 1;
  }

  lemma {:induction false} ClearingEnds(run: Schedule, freq: int, k: nat, stage: nat, n: nat) returns (m: nat)
    requires IsSchedule(run, freq) && Fair(run, freq) && In(run.at(n), Finishing(k, stage))
    ensures m >= n && In(run.at(m), Closed(k))
    decreases 4 - stage
  {
    var l := TurnComes(run, freq, Finishing(k, stage), n);
    if stage == 3 {
      m := l + 1;
    } else {
      m := ClearingEnds(run, freq, k, stage + 1, l + 1);
    }
  }

  lemma FlightEnds(run: Schedule, freq: int, k: nat, n: nat) returns (m: nat)
    requires IsSchedule(run, freq) && Fair(run, freq) && Waits(run.at(n), k)
    ensures m >= n && In(run.at(m), Closed(k))
  {
    InvAt(run, freq, n);
    var s := run.at(n);
    match s.flights[k] {
      case Unspawned =>
        var i :| 0 <= i < |s.requests| && WillSpawn(s.requests[i], k);
        m := StartedFlightEnds(run, freq, k, i, n);
      case Discovering(_) => m := RunningFlightEnds(run, freq, k, n);
      case Ending(_, _) =>
        var l := MutexIsWon(run, freq, k, n);
        m := ClearingEnds(run, freq, k, 0, l);
      case Clearing(_, _, stage) =>
        if stage == 4 {
          m := n;
        } else {
          m := ClearingEnds(run, freq, k, stage, n);
        }
      case Finished(_, _) => m := n;
    }
  }

  lemma RunningFlightEnds(run: Schedule, freq: int, k: nat, n: nat) returns (m: nat)
    requires IsSchedule(run, freq) && Fair(run, freq) && In(run.at(n), Running(k))
    ensures m >= n && In(run.at(m), Closed(k))
  {
    var ended := TurnComes(run, freq, Running(k), n);
    var locked := MutexIsWon(run, freq, k, ended + 1);
    m := ClearingEnds(run, freq, k, 0, locked);
  }

  lemma StartedFlightEnds(run: Schedule, freq: int, k: nat, i: nat, n: nat) returns (m: nat)
    requires IsSchedule(run, freq) && Fair(run, freq) && Waits(run.at(n), k) && Inv(run.at(n), freq)
    requires run.at(n).flights[k].Unspawned? && i < |run.at(n).requests| && WillSpawn(run.at(n).requests[i], k)
    ensures m >= n && In(run.at(m), Closed(k))
  {
    if run.at(n).requests[i].SettingDone? {
      var ready := TurnComes(run, freq, Starting(k, i), n);
      SetDoneLaunches(run.at(ready), freq, k, i);
      m := LaunchedFlightEnds(run, freq, k, i, ready + 1);
    } else {
      m := LaunchedFlightEnds(run, freq, k, i, n);
    }
  }

  lemma LaunchedFlightEnds(run: Schedule, freq: int, k: nat, i: nat, n: nat) returns (m: nat)
    requires IsSchedule(run, freq) && Fair(run, freq) && In(run.at(n), Launching(k, i))
    ensures m >= n && In(run.at(m), Closed(k))
  {
    var spawned := TurnComes(run, freq, Launching(k, i), n);
    m := RunningFlightEnds(run, freq, k, spawned + 1);
  }

  lemma SetDoneLaunches(s: State, freq: int, k: nat, i: nat)
    requires Inv(s, freq) && In(s, Starting(k, i)) && Apply(s, SetDone(i), freq).Some?
    ensures In(Apply(s, SetDone(i), freq).value, Launching(k, i))
  {
  }

  /** On every fair schedule of any number of requests, a shutdown that waits gets through. */
  lemma EveryFairScheduleExits(run: Schedule, freq: int, n: nat) returns (m: nat)
    requires IsSchedule(run, freq) && Fair(run, freq) && run.at(n).shutdown.Waiting?
    ensures m >= n && run.at(m).shutdown.Exited?
  {
    InvAt(run, freq, n);
    var k := run.at(n).shutdown.on.value;
    var closed := FlightEnds(run, freq, k, n);
    var l := TurnComes(run, freq, Closed(k), closed);
    m := l + 1;
  }
}
