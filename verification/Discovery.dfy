/** Single-flight, rate-limited discovery (signalDiscovery and the shutdown wait in serve.go). */
module Discovery {
  import opened Sequences

  /** A call of signalDiscovery made by an index request. `conn` says whether the call was given a
      connection and `depth` how many calls of signalDiscovery it is nested in. */
  datatype Request =
    | AtLock(conn: bool, depth: nat)
    | Checking(conn: bool, depth: nat)
    | Fetching(depth: nat)              // lock dropped, waiting for a connection
    | SettingCancel(checkedAt: int)
    | SettingDone(checkedAt: int)
    | Spawning(flight: nat, checkedAt: int)
    | Returned

  /** A discovery goroutine, from the moment its context exists. Clearing(end, stage) holds the lock:
      stage 1 has stored lastDiscoveryEnd, 2 cleared cancelDiscovery, 3 cleared discoveryDone, 4 closed
      its own channel. */
  datatype Flight =
    | Unspawned
    | Discovering(start: int)
    | Ending(start: int, end: int)
    | Clearing(start: int, end: int, stage: nat)
    | Finished(start: int, end: int)

  datatype Shutdown = Serving | Holding | Waiting(on: Option<nat>) | Exited

  datatype Holder = ByRequest(i: nat) | ByFlight(k: nat) | ByShutdown

  /** Channels and contexts are named by the flight they were made for. */
  datatype State = State(
    now: int,
    mu: Option<Holder>,
    lastEnd: Option<int>,
    cancel: Option<nat>,
    done: Option<nat>,
    closed: set<nat>,
    cancelled: set<nat>,
    requests: seq<Request>,
    flights: seq<Flight>,
    shutdown: Shutdown)

  datatype Step =
    | Tick(d: nat)
    | Arrive
    | Lock(i: nat)
    | Check(i: nat)
    | Connect(i: nat, ok: bool)
    | SetCancel(i: nat)
    | SetDone(i: nat)
    | Spawn(i: nat)
    | End(k: nat)
    | LockFlight(k: nat)
    | Clear(k: nat)
    | ShutdownLock
    | ShutdownCheck
    | ShutdownWake

  ghost predicate Init(s: State) {
    && s.mu == None && s.lastEnd == None && s.cancel == None && s.done == None
    && s.closed == {} && s.cancelled == {} && s.requests == [] && s.flights == [] && s.shutdown == Serving
  }

  function TooEarly(s: State, freq: int): bool {
    s.lastEnd.Some? && s.now < s.lastEnd.value + freq
  }

  function SetRequest(s: State, i: nat, r: Request): State
    requires i < |s.requests|
  {
    s.(requests := s.requests[i := r])
  }

  function SetFlight(s: State, k: nat, f: Flight): State
    requires k < |s.flights|
  {
    s.(flights := s.flights[k := f])
  }

  function RequestStep(s: State, i: nat, step: Step, freq: int): Option<State>
    requires i < |s.requests|
  {
    var r := s.requests[i];
    match step
    case Lock(_) =>
      if r.AtLock? && s.mu == None then Some(SetRequest(s, i, Checking(r.conn, r.depth)).(mu := Some(ByRequest(i))))
      else None
    case Check(_) =>
      if !r.Checking? then None
      else if s.cancel.Some? || TooEarly(s, freq) then Some(SetRequest(s, i, Returned).(mu := None))
      else if !r.conn then Some(SetRequest(s, i, Fetching(r.depth)).(mu := None))
      else Some(SetRequest(s, i, SettingCancel(s.now)))
    case Connect(_, ok) =>
      if !r.Fetching? then None
      else Some(SetRequest(s, i, if ok then AtLock(true, r.depth + 1) else Returned))
    case SetCancel(_) =>
      if !r.SettingCancel? then None
      else
        var next := SetRequest(s, i, SettingDone(r.checkedAt));
        Some(next.(cancel := Some(|s.flights|), flights := s.flights + [Unspawned]))
    case SetDone(_) =>
      if !r.SettingDone? || s.flights == [] then None
      else Some(SetRequest(s, i, Spawning(|s.flights| - 1, r.checkedAt)).(done := Some(|s.flights| - 1), mu := None))
    case Spawn(_) =>
      if !r.Spawning? || r.flight >= |s.flights| then None
      else Some(SetFlight(SetRequest(s, i, Returned), r.flight, Discovering(s.now)))
    case _ => None
  }

  function FlightStep(s: State, k: nat, step: Step): Option<State>
    requires k < |s.flights|
  {
    var f := s.flights[k];
    match step
    case End(_) => if f.Discovering? then Some(SetFlight(s, k, Ending(f.start, s.now))) else None
    case LockFlight(_) =>
      if f.Ending? && s.mu == None then Some(SetFlight(s, k, Clearing(f.start, f.end, 0)).(mu := Some(ByFlight(k))))
      else None
    case Clear(_) =>
      if !f.Clearing? then None
      else
        var next := SetFlight(s, k, Clearing(f.start, f.end, f.stage + 1));
        if f.stage == 0 then Some(next.(lastEnd := Some(f.end)))
        else if f.stage == 1 then Some(next.(cancel := None))
        else if f.stage == 2 then Some(next.(done := None))
        else if f.stage == 3 then Some(next.(closed := s.closed + {k}))
        else Some(SetFlight(s, k, Finished(f.start, f.end)).(mu := None))
    case _ => None
  }

  function ShutdownStep(s: State, step: Step): Option<State> {
    match step
    case ShutdownLock =>
      if s.shutdown.Serving? && s.mu == None then Some(s.(shutdown := Holding, mu := Some(ByShutdown))) else None
    case ShutdownCheck =>
      if !s.shutdown.Holding? then None
      else if s.cancel == None then Some(s.(shutdown := Exited, mu := None))
      else Some(s.(shutdown := Waiting(s.done), cancelled := s.cancelled + {s.cancel.value}, mu := None))
    case ShutdownWake =>
      if s.shutdown.Waiting? && s.shutdown.on.Some? && s.shutdown.on.value in s.closed then Some(s.(shutdown := Exited))
      else None
    case _ => None
  }

  /** The state after a step; None when the step is not possible. */
  function Apply(s: State, step: Step, freq: int): Option<State> {
    match step
    case Tick(d) => Some(s.(now := s.now + d))
    case Arrive => Some(s.(requests := s.requests + [AtLock(false, 0)]))
    case Lock(i) => if i < |s.requests| then RequestStep(s, i, step, freq) else None
    case Check(i) => if i < |s.requests| then RequestStep(s, i, step, freq) else None
    case Connect(i, _) => if i < |s.requests| then RequestStep(s, i, step, freq) else None
    case SetCancel(i) => if i < |s.requests| then RequestStep(s, i, step, freq) else None
    case SetDone(i) => if i < |s.requests| then RequestStep(s, i, step, freq) else None
    case Spawn(i) => if i < |s.requests| then RequestStep(s, i, step, freq) else None
    case End(k) => if k < |s.flights| then FlightStep(s, k, step) else None
    case LockFlight(k) => if k < |s.flights| then FlightStep(s, k, step) else None
    case Clear(k) => if k < |s.flights| then FlightStep(s, k, step) else None
    case _ => ShutdownStep(s, step)
  }

  // ---- the invariant ----

  predicate InCriticalSection(r: Request) { r.Checking? || r.SettingCancel? || r.SettingDone? }

  /** The lock is held by exactly the party that is inside a critical section. */
  ghost predicate LockInv(s: State) {
    && (forall i :: 0 <= i < |s.requests| ==> (InCriticalSection(s.requests[i]) <==> s.mu == Some(ByRequest(i))))
    && (forall k :: 0 <= k < |s.flights| ==> (s.flights[k].Clearing? <==> s.mu == Some(ByFlight(k))))
    && (s.shutdown.Holding? <==> s.mu == Some(ByShutdown))
    && (s.mu.Some? && s.mu.value.ByRequest? ==> s.mu.value.i < |s.requests|)
    && (s.mu.Some? && s.mu.value.ByFlight? ==> s.mu.value.k < |s.flights|)
  }

  /** A discovery is under way: its context exists and its goroutine has not run to the end. */
  predicate Active(s: State, k: nat) { k < |s.flights| && !s.flights[k].Finished? }

  function Latest(s: State): Option<nat> {
    if s.flights != [] && Active(s, |s.flights| - 1) then Some(|s.flights| - 1) else None
  }

  /** What the two fields should hold, given who is in the middle of changing them. */
  function ExpectedCancel(s: State): Option<nat> {
    if s.flights == [] then None
    else
      var f := s.flights[|s.flights| - 1];
      if f.Clearing? && f.stage >= 2 then None else Latest(s)
  }

  ghost predicate SettingDoneNow(s: State) {
    s.mu.Some? && s.mu.value.ByRequest? && s.mu.value.i < |s.requests| && s.requests[s.mu.value.i].SettingDone?
  }

  function ExpectedDone(s: State): Option<nat> {
    if s.flights == [] then None
    else
      var f := s.flights[|s.flights| - 1];
      if f.Clearing? && f.stage >= 3 then None else Latest(s)
  }

  predicate RequestFieldInv(s: State, r: Request) {
    match r
    case SettingCancel(_) => Latest(s) == None
    case SettingDone(_) => s.flights != [] && s.flights[|s.flights| - 1].Unspawned?
    case Spawning(k, _) => k < |s.flights| && s.flights[k].Unspawned?
    case _ => true
  }

  ghost predicate FieldInv(s: State) {
    && (forall k :: 0 <= k < |s.flights| - 1 ==> s.flights[k].Finished?)
    && (forall k :: 0 <= k < |s.flights| && s.flights[k].Clearing? ==> s.flights[k].stage <= 4)
    && s.cancel == ExpectedCancel(s)
    && s.done == (if SettingDoneNow(s) then None else ExpectedDone(s))
    && (forall i :: 0 <= i < |s.requests| ==> RequestFieldInv(s, s.requests[i]))
    && (forall i, j :: 0 <= i < |s.requests| && 0 <= j < |s.requests| && i != j && s.requests[i].Spawning? ==>
          !s.requests[j].Spawning? && !s.requests[j].SettingDone?)
  }

  predicate ChannelClosed(f: Flight) { f.Finished? || (f.Clearing? && f.stage == 4) }

  ghost predicate ChannelInv(s: State) {
    && (forall k :: k in s.closed ==> k < |s.flights|)
    && (forall k :: 0 <= k < |s.flights| ==> (k in s.closed <==> ChannelClosed(s.flights[k])))
    && (s.shutdown.Waiting? ==>
      s.shutdown.on.Some? && s.shutdown.on.value < |s.flights| && s.shutdown.on.value in s.cancelled)
  }

  predicate HasEnd(f: Flight) { f.Finished? || (f.Clearing? && f.stage >= 1) }

  /** `at` is no earlier than the rate limit allows for flight `k`. */
  predicate LateEnough(s: State, k: nat, at: int, freq: int)
    requires k <= |s.flights|
  {
    k > 0 ==> HasEnd(s.flights[k - 1]) && s.flights[k - 1].end + freq <= at
  }

  predicate FlightTimely(s: State, k: nat, freq: int)
    requires k < |s.flights|
  {
    match s.flights[k]
    case Unspawned => true
    case Discovering(t) => t <= s.now && LateEnough(s, k, t, freq)
    case _ => s.flights[k].start <= s.flights[k].end <= s.now && LateEnough(s, k, s.flights[k].start, freq)
  }

  predicate RequestTimely(s: State, r: Request, freq: int) {
    match r
    case SettingCancel(at) => at <= s.now && LateEnough(s, |s.flights|, at, freq)
    case SettingDone(at) => at <= s.now && s.flights != [] && LateEnough(s, |s.flights| - 1, at, freq)
    case Spawning(k, at) => at <= s.now && k < |s.flights| && LateEnough(s, k, at, freq)
    case _ => true
  }

  function ExpectedLastEnd(s: State): Option<int> {
    if s.flights == [] then None
    else
      var k := |s.flights| - 1;
      if HasEnd(s.flights[k]) then Some(s.flights[k].end)
      else if k > 0 && HasEnd(s.flights[k - 1]) then Some(s.flights[k - 1].end)
      else None
  }

  ghost predicate TimeInv(s: State, freq: int) {
    && (forall k :: 0 <= k < |s.flights| ==> FlightTimely(s, k, freq))
    && s.lastEnd == ExpectedLastEnd(s)
    && (forall i :: 0 <= i < |s.requests| ==> RequestTimely(s, s.requests[i], freq))
  }

  predicate RequestDepth(r: Request) {
    match r
    case AtLock(conn, depth) => depth == if conn then 1 else 0
    case Checking(conn, depth) => depth == if conn then 1 else 0
    case Fetching(depth) => depth == 0
    case _ => true
  }

  ghost predicate DepthInv(s: State) {
    forall i :: 0 <= i < |s.requests| ==> RequestDepth(s.requests[i])
  }

  /** The request will start flight `k`. */
  predicate WillSpawn(r: Request, k: nat) { r.SettingDone? || (r.Spawning? && r.flight == k) }

  /** A context that exists is not left without its goroutine: some request is about to start it. */
  ghost predicate OwnerInv(s: State) {
    s.flights != [] && s.flights[|s.flights| - 1].Unspawned? ==>
      exists i :: 0 <= i < |s.requests| && WillSpawn(s.requests[i], |s.flights| - 1)
  }

  ghost predicate Inv(s: State, freq: int) {
    LockInv(s) && FieldInv(s) && ChannelInv(s) && TimeInv(s, freq) && DepthInv(s) && OwnerInv(s)
  }

  lemma RequestKeepsLock(s: State, i: nat, step: Step, freq: int)
    requires LockInv(s) && FieldInv(s) && DepthInv(s) && i < |s.requests| && RequestStep(s, i, step, freq).Some?
    ensures var s' := RequestStep(s, i, step, freq).value; LockInv(s') && DepthInv(s')
  {
    var s' := RequestStep(s, i, step, freq).value;
    assert RequestFieldInv(s, s.requests[i]);
    assert InCriticalSection(s.requests[i]) <==> s.mu == Some(ByRequest(i));
    assert RequestDepth(s.requests[i]);
    forall j | 0 <= j < |s'.requests| ensures RequestDepth(s'.requests[j]) {
      assert RequestDepth(s.requests[j]);
    }
  }

  lemma RequestKeepsFields(s: State, i: nat, step: Step, freq: int)
    requires LockInv(s) && FieldInv(s) && i < |s.requests| && RequestStep(s, i, step, freq).Some?
    ensures FieldInv(RequestStep(s, i, step, freq).value)
  {
    if step.SetCancel? || step.SetDone? || step.Spawn? {
      StartKeepsFields(s, i, step, freq);
    } else {
      EntryKeepsFields(s, i, step, freq);
    }
  }

  lemma EntryKeepsFields(s: State, i: nat, step: Step, freq: int)
    requires LockInv(s) && FieldInv(s) && i < |s.requests| && RequestStep(s, i, step, freq).Some?
    requires step.Lock? || step.Check? || step.Connect?
    ensures FieldInv(RequestStep(s, i, step, freq).value)
  {
    var s' := RequestStep(s, i, step, freq).value;
    assert s'.flights == s.flights && Latest(s') == Latest(s);
    assert RequestFieldInv(s, s.requests[i]);
    assert InCriticalSection(s.requests[i]) <==> s.mu == Some(ByRequest(i));
    forall j | 0 <= j < |s'.requests| ensures RequestFieldInv(s', s'.requests[j]) {
      assert RequestFieldInv(s, s.requests[j]);
    }
  }

  lemma StartKeepsFields(s: State, i: nat, step: Step, freq: int)
    requires LockInv(s) && FieldInv(s) && i < |s.requests| && RequestStep(s, i, step, freq).Some?
    requires step.SetCancel? || step.SetDone? || step.Spawn?
    ensures FieldInv(RequestStep(s, i, step, freq).value)
  {
    var s' := RequestStep(s, i, step, freq).value;
    assert RequestFieldInv(s, s.requests[i]);
    assert InCriticalSection(s.requests[i]) <==> s.mu == Some(ByRequest(i));
    forall j | 0 <= j < |s'.requests| ensures RequestFieldInv(s', s'.requests[j]) {
      assert RequestFieldInv(s, s.requests[j]);
      assert InCriticalSection(s.requests[j]) <==> s.mu == Some(ByRequest(j));
    }
  }

  lemma RequestKeepsChannels(s: State, i: nat, step: Step, freq: int)
    requires FieldInv(s) && ChannelInv(s) && i < |s.requests| && RequestStep(s, i, step, freq).Some?
    ensures ChannelInv(RequestStep(s, i, step, freq).value)
  {
    assert RequestFieldInv(s, s.requests[i]);
  }

  lemma RequestKeepsFlightTimes(s: State, i: nat, step: Step, freq: int, k: nat)
    requires Inv(s, freq) && i < |s.requests| && RequestStep(s, i, step, freq).Some?
    requires k < |RequestStep(s, i, step, freq).value.flights|
    ensures FlightTimely(RequestStep(s, i, step, freq).value, k, freq)
  {
    assert RequestTimely(s, s.requests[i], freq) && RequestFieldInv(s, s.requests[i]);
    if k < |s.flights| { assert FlightTimely(s, k, freq); }
  }

  lemma RequestKeepsRequestTimes(s: State, i: nat, step: Step, freq: int, j: nat)
    requires Inv(s, freq) && i < |s.requests| && RequestStep(s, i, step, freq).Some?
    requires j < |s.requests|
    ensures var s' := RequestStep(s, i, step, freq).value; RequestTimely(s', s'.requests[j], freq)
  {
    assert RequestTimely(s, s.requests[i], freq) && RequestFieldInv(s, s.requests[i]);
    assert RequestTimely(s, s.requests[j], freq) && RequestFieldInv(s, s.requests[j]);
    assert InCriticalSection(s.requests[i]) <==> s.mu == Some(ByRequest(i));
    assert InCriticalSection(s.requests[j]) <==> s.mu == Some(ByRequest(j));
  }

  lemma RequestKeepsTime(s: State, i: nat, step: Step, freq: int)
    requires Inv(s, freq) && i < |s.requests| && RequestStep(s, i, step, freq).Some?
    ensures TimeInv(RequestStep(s, i, step, freq).value, freq)
  {
    var s' := RequestStep(s, i, step, freq).value;
    assert RequestFieldInv(s, s.requests[i]);
    forall k | 0 <= k < |s'.flights| ensures FlightTimely(s', k, freq) {
      RequestKeepsFlightTimes(s, i, step, freq, k);
    }
    forall j | 0 <= j < |s'.requests| ensures RequestTimely(s', s'.requests[j], freq) {
      RequestKeepsRequestTimes(s, i, step, freq, j);
    }
  }

  lemma FlightKeepsLock(s: State, k: nat, step: Step)
    requires LockInv(s) && k < |s.flights| && FlightStep(s, k, step).Some?
    ensures LockInv(FlightStep(s, k, step).value)
  {
  }

  lemma FlightKeepsFields(s: State, k: nat, step: Step)
    requires LockInv(s) && FieldInv(s) && k < |s.flights| && FlightStep(s, k, step).Some?
    ensures FieldInv(FlightStep(s, k, step).value)
  {
    var s' := FlightStep(s, k, step).value;
    assert k == |s.flights| - 1;
    assert s.flights[k].Clearing? <==> s.mu == Some(ByFlight(k));
    forall j | 0 <= j < |s'.requests| ensures RequestFieldInv(s', s'.requests[j]) {
      assert RequestFieldInv(s, s.requests[j]);
      assert InCriticalSection(s.requests[j]) <==> s.mu == Some(ByRequest(j));
    }
  }

  lemma FlightKeepsChannels(s: State, k: nat, step: Step)
    requires FieldInv(s) && ChannelInv(s) && k < |s.flights| && FlightStep(s, k, step).Some?
    ensures ChannelInv(FlightStep(s, k, step).value)
  {
  }

  lemma FlightKeepsTime(s: State, k: nat, step: Step, freq: int)
    requires Inv(s, freq) && k < |s.flights| && FlightStep(s, k, step).Some?
    ensures TimeInv(FlightStep(s, k, step).value, freq)
  {
    var s' := FlightStep(s, k, step).value;
    assert k == |s.flights| - 1;
    forall j | 0 <= j < |s'.flights| ensures FlightTimely(s', j, freq) {
      FlightKeepsFlightTimes(s, k, step, freq, j);
    }
    forall j | 0 <= j < |s'.requests| ensures RequestTimely(s', s'.requests[j], freq) {
      assert RequestTimely(s, s.requests[j], freq) && RequestFieldInv(s, s.requests[j]);
    }
  }

  lemma FlightKeepsFlightTimes(s: State, k: nat, step: Step, freq: int, j: nat)
    requires Inv(s, freq) && k < |s.flights| && FlightStep(s, k, step).Some? && j < |s.flights|
    ensures FlightTimely(FlightStep(s, k, step).value, j, freq)
  {
    assert k == |s.flights| - 1;
    assert FlightTimely(s, j, freq);
  }

  predicate OtherStep(step: Step) {
    step.Tick? || step.Arrive? || step.ShutdownLock? || step.ShutdownCheck? || step.ShutdownWake?
  }

  lemma OtherKeepsTime(s: State, step: Step, freq: int)
    requires TimeInv(s, freq) && Apply(s, step, freq).Some? && OtherStep(step)
    ensures TimeInv(Apply(s, step, freq).value, freq)
  {
    var s' := Apply(s, step, freq).value;
    forall k | 0 <= k < |s'.flights| ensures FlightTimely(s', k, freq) {
      assert FlightTimely(s, k, freq);
    }
    forall j | 0 <= j < |s'.requests| ensures RequestTimely(s', s'.requests[j], freq) {
      if j < |s.requests| { assert RequestTimely(s, s.requests[j], freq); }
    }
  }

  lemma OtherKeepsLock(s: State, step: Step, freq: int)
    requires LockInv(s) && DepthInv(s) && Apply(s, step, freq).Some? && OtherStep(step)
    ensures var s' := Apply(s, step, freq).value; LockInv(s') && DepthInv(s')
  {
  }

  lemma OtherKeepsFields(s: State, step: Step, freq: int)
    requires LockInv(s) && FieldInv(s) && ChannelInv(s) && Apply(s, step, freq).Some? && OtherStep(step)
    ensures var s' := Apply(s, step, freq).value; FieldInv(s') && ChannelInv(s')
  {
    var s' := Apply(s, step, freq).value;
    assert s'.flights == s.flights && Latest(s') == Latest(s);
    forall j | 0 <= j < |s'.requests| ensures RequestFieldInv(s', s'.requests[j]) {
      if j < |s.requests| { assert RequestFieldInv(s, s.requests[j]); }
    }
  }

  lemma RequestKeepsOwner(s: State, i: nat, step: Step, freq: int)
    requires FieldInv(s) && OwnerInv(s) && i < |s.requests| && RequestStep(s, i, step, freq).Some?
    ensures OwnerInv(RequestStep(s, i, step, freq).value)
  {
    var s' := RequestStep(s, i, step, freq).value;
    assert RequestFieldInv(s, s.requests[i]);
    if step.SetCancel? || step.SetDone? {
      assert WillSpawn(s'.requests[i], |s'.flights| - 1);
    } else if !step.Spawn? && s.flights != [] && s.flights[|s.flights| - 1].Unspawned? {
      var j :| 0 <= j < |s.requests| && WillSpawn(s.requests[j], |s.flights| - 1);
      assert s'.requests[j] == s.requests[j];
    }
  }

  lemma OtherKeepsOwner(s: State, step: Step, freq: int)
    requires OwnerInv(s) && Apply(s, step, freq).Some?
    requires OtherStep(step) || step.End? || step.LockFlight? || step.Clear?
    ensures OwnerInv(Apply(s, step, freq).value)
  {
    var s' := Apply(s, step, freq).value;
    if s'.flights != [] && s'.flights[|s'.flights| - 1].Unspawned? {
      var j :| 0 <= j < |s.requests| && WillSpawn(s.requests[j], |s.flights| - 1);
      assert s'.requests[j] == s.requests[j];
    }
  }

  /** Every step of every party keeps the invariant. */
  lemma StepKeepsInv(s: State, step: Step, freq: int)
    requires Inv(s, freq) && Apply(s, step, freq).Some?
    ensures Inv(Apply(s, step, freq).value, freq)
  {
    if step.Lock? || step.Check? || step.Connect? || step.SetCancel? || step.SetDone? || step.Spawn? {
      RequestKeepsLock(s, step.i, step, freq);
      RequestKeepsFields(s, step.i, step, freq);
      RequestKeepsChannels(s, step.i, step, freq);
      RequestKeepsTime(s, step.i, step, freq);
      RequestKeepsOwner(s, step.i, step, freq);
    } else if step.End? || step.LockFlight? || step.Clear? {
      FlightKeepsLock(s, step.k, step);
      FlightKeepsFields(s, step.k, step);
      FlightKeepsChannels(s, step.k, step);
      FlightKeepsTime(s, step.k, step, freq);
      OtherKeepsOwner(s, step, freq);
    } else {
      OtherKeepsTime(s, step, freq);
      OtherKeepsLock(s, step, freq);
      OtherKeepsFields(s, step, freq);
      OtherKeepsOwner(s, step, freq);
    }
  }

  // ---- what every reachable state satisfies ----

  ghost predicate CanStep(s: State, s': State, freq: int) {
    exists step :: Apply(s, step, freq) == Some(s')
  }

  /** The states of a run: each follows from the one before by some party's step. */
  ghost predicate IsRun(run: seq<State>, freq: int) {
    && run != [] && Init(run[0])
    && forall m, n :: 0 <= m < n < |run| && n == m + 1 ==> CanStep(run[m], run[n], freq)
  }

  lemma {:induction false} RunKeepsInv(run: seq<State>, freq: int, n: nat)
    requires IsRun(run, freq) && n < |run|
    ensures Inv(run[n], freq)
    decreases n
  {
    if n == 0 {
    } else {
      RunKeepsInv(run, freq, n - 1);
      assert CanStep(run[n - 1], run[n], freq);
      var step :| Apply(run[n - 1], step, freq) == Some(run[n]);
      StepKeepsInv(run[n - 1], step, freq);
    }
  }

  /** At most one discovery is active; with the lock free, both fields name exactly the active discovery;
      signalDiscovery is never nested more than once; and every discovery starts at least `freq` after the
      end of the one before. */
  ghost predicate Safe(s: State, freq: int) {
    && (forall j: nat, k: nat :: Active(s, j) && Active(s, k) ==> j == k)
    && (s.mu == None ==> s.cancel == s.done && forall k: nat :: Active(s, k) <==> s.cancel == Some(k))
    && (forall i :: 0 <= i < |s.requests| && s.requests[i].AtLock? ==> s.requests[i].depth <= 1)
    && (forall k :: 0 < k < |s.flights| && !s.flights[k].Unspawned? ==>
          s.flights[k - 1].Finished? && s.flights[k].start >= s.flights[k - 1].end + freq)
  }

  lemma InvIsSafe(s: State, freq: int)
    requires Inv(s, freq)
    ensures Safe(s, freq)
  {
    forall k | 0 < k < |s.flights| && !s.flights[k].Unspawned?
      ensures s.flights[k - 1].Finished? && s.flights[k].start >= s.flights[k - 1].end + freq
    {
      assert FlightTimely(s, k, freq);
    }
    forall i | 0 <= i < |s.requests| && s.requests[i].AtLock? ensures s.requests[i].depth <= 1 {
      assert RequestDepth(s.requests[i]);
    }
  }

  /** Discovery is single-flight and rate-limited in every interleaving of any number of requests. */
  lemma SingleFlight(run: seq<State>, freq: int, n: nat)
    requires IsRun(run, freq) && n < |run|
    ensures Safe(run[n], freq)
  {
    RunKeepsInv(run, freq, n);
    InvIsSafe(run[n], freq);
  }

  /** A channel is closed only by a step of its own goroutine, which has stored its results by then, and
      never closed twice; so the shutdown wait is released by the completion of exactly the discovery it
      cancelled. */
  ghost predicate ClosesOwnChannel(s: State, step: Step, s': State) {
    && s.closed <= s'.closed
    && (forall k :: k in s'.closed && k !in s.closed ==>
          step == Clear(k) && k < |s.flights| && s.flights[k].Clearing? &&
          s.lastEnd == Some(s.flights[k].end) && s.cancel == None && s.done == None)
    && (s.shutdown.Waiting? ==> s.shutdown.on.Some? && s.shutdown.on.value in s.cancelled)
    && (s.shutdown.Waiting? && s'.shutdown.Exited? ==>
          s.shutdown.on.value < |s.flights| && ChannelClosed(s.flights[s.shutdown.on.value]))
  }

  lemma ClearingClosesOwnChannel(s: State, k: nat, freq: int)
    requires Inv(s, freq) && k < |s.flights| && FlightStep(s, k, Clear(k)).Some?
    ensures ClosesOwnChannel(s, Clear(k), FlightStep(s, k, Clear(k)).value)
    ensures s.flights[k].stage == 3 ==> k !in s.closed
  {
    assert k == |s.flights| - 1;
    assert s.flights[k].Clearing? <==> s.mu == Some(ByFlight(k));
  }

  lemma RequestClosesNothing(s: State, i: nat, step: Step, freq: int)
    requires i < |s.requests| && RequestStep(s, i, step, freq).Some?
    ensures var s' := RequestStep(s, i, step, freq).value; s'.closed == s.closed && s'.shutdown == s.shutdown
  {
  }

  lemma ShutdownReleasedByOwnCompletion(run: seq<State>, freq: int, n: nat, step: Step)
    requires IsRun(run, freq) && n < |run| && Apply(run[n], step, freq).Some?
    ensures ClosesOwnChannel(run[n], step, Apply(run[n], step, freq).value)
  {
    RunKeepsInv(run, freq, n);
    var s := run[n];
    if step.Clear? {
      ClearingClosesOwnChannel(s, step.k, freq);
    } else if step.Lock? || step.Check? || step.Connect? || step.SetCancel? || step.SetDone? || step.Spawn? {
      RequestClosesNothing(s, step.i, step, freq);
    }
  }

  /** Nobody waits while holding the lock: its holder always has a step to take. */
  lemma HolderCanMove(s: State, freq: int) returns (step: Step)
    requires Inv(s, freq) && s.mu.Some?
    ensures Apply(s, step, freq).Some?
    ensures match s.mu.value
            case ByRequest(i) => step == Check(i) || step == SetCancel(i) || step == SetDone(i)
            case ByFlight(k) => step == Clear(k)
            case ByShutdown => step == ShutdownCheck
  {
    match s.mu.value
    case ByRequest(i) =>
      var r := s.requests[i];
      assert InCriticalSection(r) && RequestFieldInv(s, r);
      step := if r.Checking? then Check(i) else if r.SettingCancel? then SetCancel(i) else SetDone(i);
    case ByFlight(k) => step := Clear(k);
    case ByShutdown => step := ShutdownCheck;
  }

  // ---- the shutdown wait comes to an end ----

  function HolderRank(s: State): nat {
    match s.mu
    case None => 0
    case Some(ByRequest(i)) =>
      if i >= |s.requests| then 0
      else if s.requests[i].Checking? then 3 else if s.requests[i].SettingCancel? then 2 else 1
    case Some(ByFlight(k)) =>
      if k < |s.flights| && s.flights[k].Clearing? && s.flights[k].stage <= 5 then 6 - s.flights[k].stage else 0
    case Some(ByShutdown) => 1
  }

  function FlightRank(f: Flight): nat {
    match f
    case Unspawned => 4
    case Discovering(_) => 3
    case Ending(_, _) => 2
    case Clearing(_, _, _) => 1
    case Finished(_, _) => 0
  }

  /** The steps that bring flight `k` closer to its end: its own, that of the request about to start it, and those
      of whoever holds the lock. */
  predicate Helps(s: State, k: nat, step: Step) {
    || ((step.End? || step.LockFlight? || step.Clear?) && step.k == k)
    || (step.Spawn? && step.i < |s.requests| && s.requests[step.i].Spawning? && s.requests[step.i].flight == k)
    || (s.mu.Some? && match s.mu.value
        case ByRequest(i) => step == Check(i) || step == SetCancel(i) || step == SetDone(i)
        case ByFlight(j) => step == Clear(j)
        case ByShutdown => step == ShutdownCheck)
  }

  /** Until the flight has closed its channel, some such step is possible. */
  lemma FlightCanMove(s: State, freq: int, k: nat) returns (step: Step)
    requires Inv(s, freq) && k < |s.flights| && k !in s.closed
    ensures Apply(s, step, freq).Some? && Helps(s, k, step)
  {
    match s.flights[k]
    case Unspawned =>
      var i :| 0 <= i < |s.requests| && WillSpawn(s.requests[i], k);
      assert RequestFieldInv(s, s.requests[i]) && (InCriticalSection(s.requests[i]) <==> s.mu == Some(ByRequest(i)));
      step := if s.requests[i].Spawning? then Spawn(i) else SetDone(i);
    case Discovering(_) => step := End(k);
    case Ending(_, _) =>
      if s.mu.None? {
        step := LockFlight(k);
      } else {
        step := HolderCanMove(s, freq);
      }
    case Clearing(_, _, _) => step := Clear(k);
    case Finished(_, _) => assert false;
  }

  /** Such a step leaves less to do before the flight has ended, and does not disturb the shutdown wait. */
  lemma HelpIsProgress(s: State, freq: int, k: nat, step: Step)
    requires Inv(s, freq) && k < |s.flights| && k !in s.closed && Apply(s, step, freq).Some? && Helps(s, k, step)
    requires s.shutdown == Waiting(Some(k))
    ensures var s' := Apply(s, step, freq).value;
      && s'.shutdown == s.shutdown && k < |s'.flights|
      && FlightRank(s'.flights[k]) <= FlightRank(s.flights[k])
      && (FlightRank(s'.flights[k]) < FlightRank(s.flights[k]) || HolderRank(s') < HolderRank(s))
  {
    if s.mu.Some? && s.mu.value.ByRequest? {
      var r := s.requests[s.mu.value.i];
      assert InCriticalSection(r) && RequestFieldInv(s, r);
    }
    assert s.flights[k].Clearing? <==> s.mu == Some(ByFlight(k));
    if step.Spawn? {
      assert RequestFieldInv(s, s.requests[step.i]);
    }
  }

  /** While the shutdown waits, the steps that are possible lead to its end, whatever the parties are in the middle
      of: from every such state there is a way on, of those steps alone, after which the process exits. */
  lemma {:induction false} ShutdownCanEnd(s: State, freq: int, k: nat) returns (run: seq<State>)
    requires Inv(s, freq) && s.shutdown == Waiting(Some(k)) && k < |s.flights|
    ensures run != [] && run[0] == s && run[|run| - 1].shutdown.Exited?
    ensures forall m, n :: 0 <= m < n < |run| && n == m + 1 ==> CanStep(run[m], run[n], freq)
    decreases FlightRank(s.flights[k]), HolderRank(s)
  {
    if k in s.closed {
      var s' := Apply(s, ShutdownWake, freq).value;
      assert CanStep(s, s', freq);
      run := [s, s'];
    } else {
      var step := FlightCanMove(s, freq, k);
      var s' := Apply(s, step, freq).value;
      assert CanStep(s, s', freq);
      StepKeepsInv(s, step, freq);
      HelpIsProgress(s, freq, k, step);
      var rest := ShutdownCanEnd(s', freq, k);
      run := [s] + rest;
    }
  }

  // ---- when a discovery starts ----

  /** Every discovery so far has ended, the last one long enough ago. */
  predicate MayStart(s: State, freq: int) {
    s.flights == [] ||
    (s.flights[|s.flights| - 1].Finished? && s.flights[|s.flights| - 1].end + freq <= s.now)
  }

  function Steps(s: State, steps: seq<Step>, freq: int): Option<State>
    decreases |steps|
  {
    if steps == [] then Some(s)
    else
      match Apply(s, steps[0], freq)
      case None => None
      case Some(next) => Steps(next, steps[1..], freq)
  }

  /** A discovery has been started, now, and request `i` is through. */
  predicate Started(s: State, i: nat, after: Option<State>) {
    && after.Some? && after.value.flights == s.flights + [Discovering(s.now)] && after.value.mu == None
    && i < |after.value.requests| && after.value.requests[i] == Returned
  }

  /** What a check of the fields decides. With a connection in hand it starts a discovery exactly when none is active
      and the last one, if any, ended at least `freq` ago; without one it goes to fetch one, under the same
      condition. Otherwise the call returns. */
  lemma CheckDecides(s: State, freq: int, i: nat)
    requires Inv(s, freq) && i < |s.requests| && s.requests[i].Checking?
    ensures var checked := Apply(s, Check(i), freq);
      && checked.Some? && checked.value.flights == s.flights && |checked.value.requests| == |s.requests|
      && if !MayStart(s, freq) then checked.value.requests[i] == Returned && checked.value.mu == None
         else if !s.requests[i].conn then checked.value.requests[i].Fetching? && checked.value.mu == None
         else Started(s, i, Steps(s, [Check(i), SetCancel(i), SetDone(i), Spawn(i)], freq))
    ensures MayStart(s, freq) <==>
      && (forall k: nat :: !Active(s, k))
      && (s.flights == [] || s.flights[|s.flights| - 1].end + freq <= s.now)
  {
    assert RequestFieldInv(s, s.requests[i]) && (InCriticalSection(s.requests[i]) <==> s.mu == Some(ByRequest(i)));
    FieldsWhenChecking(s, freq, i);
    if MayStart(s, freq) && s.requests[i].conn {
      FourSteps(s, freq, i);
    }
  }

  /** While a request looks at the fields nobody else is changing them. */
  lemma FieldsWhenChecking(s: State, freq: int, i: nat)
    requires Inv(s, freq) && i < |s.requests| && s.requests[i].Checking?
    ensures s.cancel.Some? <==> s.flights != [] && !s.flights[|s.flights| - 1].Finished?
    ensures s.flights != [] && s.flights[|s.flights| - 1].Finished? ==>
      s.lastEnd == Some(s.flights[|s.flights| - 1].end)
    ensures s.flights == [] ==> s.lastEnd == None
  {
    assert InCriticalSection(s.requests[i]) <==> s.mu == Some(ByRequest(i));
    if s.flights != [] {
      var k := |s.flights| - 1;
      assert s.flights[k].Clearing? <==> s.mu == Some(ByFlight(k));
    }
  }

  lemma FourSteps(s: State, freq: int, i: nat)
    requires i < |s.requests| && s.requests[i].Checking? && s.requests[i].conn
    requires s.cancel == None && !TooEarly(s, freq)
    ensures Started(s, i, Steps(s, [Check(i), SetCancel(i), SetDone(i), Spawn(i)], freq))
  {
    var s1 := Apply(s, Check(i), freq).value;
    var s2 := Apply(s1, SetCancel(i), freq).value;
    var s3 := Apply(s2, SetDone(i), freq).value;
    var s4 := Apply(s3, Spawn(i), freq).value;
    var k := |s.flights|;
    assert s4.flights == (s.flights + [Unspawned])[k := Discovering(s.now)] == s.flights + [Discovering(s.now)];
    FourInARow(s, freq, Check(i), SetCancel(i), SetDone(i), Spawn(i), s1, s2, s3, s4);
  }

  lemma FourInARow(s: State, freq: int, a: Step, b: Step, c: Step, d: Step, s1: State, s2: State, s3: State, s4: State)
    requires Apply(s, a, freq) == Some(s1) && Apply(s1, b, freq) == Some(s2)
    requires Apply(s2, c, freq) == Some(s3) && Apply(s3, d, freq) == Some(s4)
    ensures Steps(s, [a, b, c, d], freq) == Some(s4)
  {
    FirstStep(s3, freq, d, [], s4);
    FirstStep(s2, freq, c, [d], s3);
    FirstStep(s1, freq, b, [c, d], s2);
    FirstStep(s, freq, a, [b, c, d], s1);
    assert [c] + [d] == [c, d] && [b] + [c, d] == [b, c, d] && [a] + [b, c, d] == [a, b, c, d];
  }

  lemma FirstStep(s: State, freq: int, step: Step, more: seq<Step>, next: State)
    requires Apply(s, step, freq) == Some(next)
    ensures Steps(s, [step] + more, freq) == Steps(next, more, freq)
  {
    assert ([step] + more)[1..] == more;
  }

  /** A request that finds the mutex free and may start a discovery does so, left to itself, once it has got a
      connection. */
  lemma ArrivalStarts(s: State, freq: int, i: nat)
    requires Inv(s, freq) && s.mu == None && i < |s.requests| && s.requests[i] == AtLock(false, 0)
    requires MayStart(s, freq)
    ensures var fetching := Steps(s, [Lock(i), Check(i), Connect(i, true), Lock(i)], freq);
      && fetching.Some?
      && Started(s, i, Steps(fetching.value, [Check(i), SetCancel(i), SetDone(i), Spawn(i)], freq))
  {
    var s1 := Apply(s, Lock(i), freq).value;
    StepKeepsInv(s, Lock(i), freq);
    CheckDecides(s1, freq, i);
    var s2 := Apply(s1, Check(i), freq).value;
    StepKeepsInv(s1, Check(i), freq);
    var s3 := Apply(s2, Connect(i, true), freq).value;
    StepKeepsInv(s2, Connect(i, true), freq);
    var s4 := Apply(s3, Lock(i), freq).value;
    StepKeepsInv(s3, Lock(i), freq);
    FourInARow(s, freq, Lock(i), Check(i), Connect(i, true), Lock(i), s1, s2, s3, s4);
    assert s4.flights == s.flights && s4.now == s.now;
    CheckDecides(s4, freq, i);
  }

  /** The shutdown goes straight to the exit if and only if no discovery is active; otherwise it cancels the active
      one and waits for it. */
  lemma ShutdownDecides(s: State, freq: int)
    requires Inv(s, freq) && s.shutdown == Holding
    ensures var decided := Apply(s, ShutdownCheck, freq);
      && decided.Some? && decided.value.mu == None
      && (decided.value.shutdown == Exited <==> forall k: nat :: !Active(s, k))
      && forall k: nat :: Active(s, k) ==> decided.value.shutdown == Waiting(Some(k)) && k in decided.value.cancelled
  {
    if s.flights != [] {
      var k := |s.flights| - 1;
      assert s.flights[k].Clearing? <==> s.mu == Some(ByFlight(k));
      assert Active(s, k) <==> !s.flights[k].Finished?;
    }
  }
}
