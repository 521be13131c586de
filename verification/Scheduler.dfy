/** The upload scheduler (runUpload and processUploads in upload.go): the scan loop feeds store paths over
    an unbuffered channel to the batching loop, which starts uploads under a counting semaphore made of a
    buffered channel, and drains that channel by filling it before it returns. */
module Scheduler {
  import opened Sequences

  const BATCH_SIZE := 100

  type Path = string
  type Info = string

  /** The scan loop. `Waiting` has closed the channel; `Cancelling` has given up on a cancelled context;
      both wait for the batching loop before they return. */
  datatype Scan = Scanning | Sending(p: Path) | Waiting | Cancelling | Returned(ok: bool)

  datatype Main =
    | Receiving
    | Batching(batch: seq<Path>)
    | Gathering(batch: seq<Path>)
    | Launching(infos: seq<Info>, next: nat)
    | Draining(tokens: nat)
    | Done

  /** An upload goroutine; it holds one unit of the semaphore until it is gone. */
  datatype Job = Uploading(info: Info) | Releasing(info: Info) | Gone(info: Info)

  /** `input` holds the scanner's remaining tokens, None for one the scan loop skips.
      `accepted`, `batches` and `gathered` record what happened. */
  datatype State = State(
    whole: seq<Option<Path>>,
    input: seq<Option<Path>>,
    scan: Scan,
    closed: bool,
    cancelled: bool,
    main: Main,
    sem: nat,
    jobs: seq<Job>,
    accepted: seq<Path>,
    batches: seq<seq<Path>>,
    gathered: seq<seq<Info>>,
    dropped: bool)

  datatype Step =
    | Cancel
    | Token
    | InputEnds
    | ScanCancelled
    | Receive
    | StopBatch
    | Gather(infos: seq<Info>)
    | Launch
    | Launched
    | MainCancelled
    | MainClosed
    | UploadEnds(j: nat)
    | Release(j: nat)
    | Drain
    | Drained
    | Return

  ghost predicate Init(s: State) {
    s == State(s.whole, s.whole, Scanning, false, false, Receiving, 0, [], [], [], [], false)
  }

  /** The state after a step; None when the step is not possible. `limit` is the channel's capacity. */
  function Apply(s: State, step: Step, limit: nat): Option<State> {
    match step
    case Cancel => if s.cancelled then None else Some(s.(cancelled := true))
    case Token =>
      if !s.scan.Scanning? || s.input == [] then None
      else
        var rest := s.(input := s.input[1..]);
        Some(match s.input[0] case Some(p) => rest.(scan := Sending(p)) case None => rest)
    case InputEnds =>
      if s.scan.Scanning? && s.input == [] then Some(s.(scan := Waiting, closed := true)) else None
    case ScanCancelled =>
      if (s.scan.Scanning? || s.scan.Sending?) && s.cancelled then Some(s.(scan := Cancelling)) else None
    case Receive =>
      if !s.scan.Sending? then None
      else
        var sent := s.(scan := Scanning, accepted := s.accepted + [s.scan.p]);
        if s.main.Receiving? then Some(sent.(main := Batching([s.scan.p])))
        else if s.main.Batching? && |s.main.batch| < BATCH_SIZE
        then Some(sent.(main := Batching(s.main.batch + [s.scan.p])))
        else None
    case StopBatch => // the batch is full, the timer fired, or the channel was closed
      if s.main.Batching? then Some(s.(main := Gathering(s.main.batch))) else None
    case Gather(infos) =>
      if !s.main.Gathering? then None
      else Some(s.(main := Launching(infos, 0), batches := s.batches + [s.main.batch],
        gathered := s.gathered + [infos]))
    case Launch =>
      if s.main.Launching? && s.main.next < |s.main.infos| && s.sem < limit
      then Some(s.(main := Launching(s.main.infos, s.main.next + 1), sem := s.sem + 1,
                   jobs := s.jobs + [Uploading(s.main.infos[s.main.next])]))
      else None
    case Launched =>
      if s.main.Launching? && s.main.next >= |s.main.infos| then Some(s.(main := Receiving)) else None
    case MainCancelled =>
      if s.cancelled && (s.main.Receiving? || s.main.Batching? || (s.main.Launching? && s.main.next < |s.main.infos|))
      then Some(s.(main := Draining(0), dropped := true)) else None
    case MainClosed =>
      if s.closed && s.main.Receiving? then Some(s.(main := Draining(0))) else None
    case UploadEnds(j) =>
      if j < |s.jobs| && s.jobs[j].Uploading? then Some(s.(jobs := s.jobs[j := Releasing(s.jobs[j].info)])) else None
    case Release(j) =>
      if j < |s.jobs| && s.jobs[j].Releasing? && s.sem > 0
      then Some(s.(jobs := s.jobs[j := Gone(s.jobs[j].info)], sem := s.sem - 1)) else None
    case Drain =>
      if s.main.Draining? && s.main.tokens < limit && s.sem < limit
      then Some(s.(main := Draining(s.main.tokens + 1), sem := s.sem + 1)) else None
    case Drained =>
      if s.main.Draining? && s.main.tokens >= limit then Some(s.(main := Done)) else None
    case Return =>
      if (s.scan.Waiting? || s.scan.Cancelling?) && s.main.Done? then Some(s.(scan := Returned(s.scan.Waiting?)))
      else None
  }

  // ---- counting ----

  function Live(jobs: seq<Job>): nat {
    if jobs == [] then 0
    else Live(jobs[..|jobs| - 1]) + if jobs[|jobs| - 1].Gone? then 0 else 1
  }

  function Infos(jobs: seq<Job>): (r: seq<Info>)
    ensures |r| == |jobs|
    ensures forall i :: 0 <= i < |r| ==> r[i] == jobs[i].info
  {
    seq(|jobs|, i requires 0 <= i < |jobs| => jobs[i].info)
  }

  lemma {:induction false} LiveUpdate(jobs: seq<Job>, j: nat, job: Job)
    requires j < |jobs|
    ensures Live(jobs[j := job]) + (if jobs[j].Gone? then 0 else 1) == Live(jobs) + (if job.Gone? then 0 else 1)
    decreases |jobs|
  {
    var n := |jobs| - 1;
    if j == n {
      assert jobs[j := job][..n] == jobs[..n];
    } else {
      assert jobs[j := job][..n] == jobs[..n][j := job];
      LiveUpdate(jobs[..n], j, job);
    }
  }

  lemma {:induction false} LiveMembers(jobs: seq<Job>)
    ensures Live(jobs) == 0 <==> forall j :: 0 <= j < |jobs| ==> jobs[j].Gone?
  {
    if jobs == [] {
    } else {
      var n := |jobs| - 1;
      LiveMembers(jobs[..n]);
      assert forall j :: 0 <= j < n ==> jobs[..n][j] == jobs[j];
      if Live(jobs) != 0 && Live(jobs[..n]) != 0 {
        var j :| 0 <= j < n && !jobs[..n][j].Gone?;
        assert !jobs[j].Gone?;
      }
    }
  }

  /** The paths the scan loop hands on. */
  function Selected(tokens: seq<Option<Path>>): seq<Path> {
    if tokens == [] then []
    else (match tokens[0] case Some(p) => [p] case None => []) + Selected(tokens[1..])
  }

  // ---- the invariant ----

  function DrainTokens(s: State): nat {
    match s.main
    case Draining(k) => k
    case _ => 0
  }

  /** The channel holds one unit for each running job and each drain token, which nothing tells apart. */
  ghost predicate SemInv(s: State, limit: nat) {
    && (!s.main.Done? ==> s.sem == Live(s.jobs) + DrainTokens(s))
    && s.sem <= limit
    && (s.main.Done? ==> Live(s.jobs) == 0)
  }

  function Pending(s: State): seq<Path> {
    match s.scan
    case Sending(p) => [p]
    case _ => []
  }

  function OpenBatch(s: State): seq<Path> {
    match s.main
    case Batching(batch) => batch
    case Gathering(batch) => batch
    case _ => []
  }

  function Unlaunched(s: State): seq<Info> {
    match s.main
    case Launching(infos, next) => if next <= |infos| then infos[next..] else []
    case _ => []
  }

  ghost predicate BatchInv(s: State) {
    && (forall b :: b in s.batches ==> 1 <= |b| <= BATCH_SIZE)
    && |OpenBatch(s)| <= BATCH_SIZE
    && (s.main.Batching? || s.main.Gathering? ==> OpenBatch(s) != [])
    && (s.main.Launching? ==> s.main.next <= |s.main.infos|)
    && |s.batches| == |s.gathered|
  }

  predicate GaveUp(s: State) { s.scan.Cancelling? || s.scan == Returned(false) }

  /** Every selected token is accepted, about to be, or still to come. */
  ghost predicate ScanInv(s: State) {
    && (GaveUp(s) || s.accepted + (Pending(s) + Selected(s.input)) == Selected(s.whole))
    && (GaveUp(s) ==> s.cancelled)
    && (s.closed <==> s.scan.Waiting? || s.scan == Returned(true))
    && (s.closed ==> s.input == [])
    && (s.dropped ==> s.cancelled)
    && ((s.main.Draining? || s.main.Done?) && !s.dropped ==> s.closed)
    && (s.scan.Returned? ==> s.main.Done?)
  }

  /** Every accepted path is in exactly one batch, in order. */
  ghost predicate PathInv(s: State) {
    !s.dropped ==> Flatten(s.batches) + OpenBatch(s) == s.accepted
  }

  /** Every gathered info has exactly one job or is still to be launched. */
  ghost predicate JobInv(s: State) {
    !s.dropped ==> Infos(s.jobs) + Unlaunched(s) == Flatten(s.gathered)
  }

  ghost predicate Inv(s: State, limit: nat) {
    SemInv(s, limit) && BatchInv(s) && ScanInv(s) && PathInv(s) && JobInv(s)
  }

  lemma LiveSnoc(jobs: seq<Job>, job: Job)
    ensures Live(jobs + [job]) == Live(jobs) + if job.Gone? then 0 else 1
  {
    assert (jobs + [job])[..|jobs|] == jobs;
  }

  lemma JobStepKeepsSem(s: State, step: Step, limit: nat)
    requires SemInv(s, limit) && Apply(s, step, limit).Some?
    requires step.Launch? || step.UploadEnds? || step.Release?
    ensures SemInv(Apply(s, step, limit).value, limit)
  {
    match step
    case Launch => LiveSnoc(s.jobs, Uploading(s.main.infos[s.main.next]));
    case UploadEnds(j) => LiveUpdate(s.jobs, j, Releasing(s.jobs[j].info));
    case Release(j) => LiveUpdate(s.jobs, j, Gone(s.jobs[j].info));
  }

  lemma StepKeepsSem(s: State, step: Step, limit: nat)
    requires SemInv(s, limit) && Apply(s, step, limit).Some?
    ensures SemInv(Apply(s, step, limit).value, limit)
  {
    if step.Launch? || step.UploadEnds? || step.Release? {
      JobStepKeepsSem(s, step, limit);
    } else {
      assert Apply(s, step, limit).value.jobs == s.jobs;
    }
  }

  lemma GatherKeepsBatches(s: State, infos: seq<Info>, limit: nat)
    requires BatchInv(s) && Apply(s, Gather(infos), limit).Some?
    ensures BatchInv(Apply(s, Gather(infos), limit).value)
  {
    assert forall b :: b in s.batches + [s.main.batch] ==> b in s.batches || b == s.main.batch;
  }

  lemma StepKeepsBatches(s: State, step: Step, limit: nat)
    requires BatchInv(s) && Apply(s, step, limit).Some?
    ensures BatchInv(Apply(s, step, limit).value)
  {
    if step.Gather? {
      GatherKeepsBatches(s, step.infos, limit);
    } else if IsMainStep(step) {
      MainKeepsBatches(s, step, limit);
    } else {
      assert Apply(s, step, limit).value.main == s.main;
    }
  }

  predicate IsMainStep(step: Step) {
    || step.Receive? || step.StopBatch? || step.Launch? || step.Launched? || step.MainCancelled? || step.MainClosed?
    || step.Drain? || step.Drained?
  }

  lemma MainKeepsBatches(s: State, step: Step, limit: nat)
    requires BatchInv(s) && Apply(s, step, limit).Some? && IsMainStep(step)
    ensures BatchInv(Apply(s, step, limit).value)
  {
    var s' := Apply(s, step, limit).value;
    assert s'.batches == s.batches && s'.gathered == s.gathered;
  }

  lemma TokenKeepsScan(s: State, limit: nat)
    requires ScanInv(s) && Apply(s, Token, limit).Some?
    ensures ScanInv(Apply(s, Token, limit).value)
  {
    var s' := Apply(s, Token, limit).value;
    var rest := Selected(s.input[1..]);
    assert Pending(s') + Selected(s'.input) == Selected(s.input);
    assert Pending(s) + Selected(s.input) == Selected(s.input);
  }

  lemma ReceiveKeepsScan(s: State, limit: nat)
    requires ScanInv(s) && Apply(s, Receive, limit).Some?
    ensures ScanInv(Apply(s, Receive, limit).value)
  {
    var s' := Apply(s, Receive, limit).value;
    ConcatAssociative(s.accepted, [s.scan.p], Selected(s.input));
    assert Pending(s') + Selected(s'.input) == Selected(s.input);
  }

  lemma StepKeepsScan(s: State, step: Step, limit: nat)
    requires ScanInv(s) && Apply(s, step, limit).Some?
    ensures ScanInv(Apply(s, step, limit).value)
  {
    if step.Token? {
      TokenKeepsScan(s, limit);
    } else if step.Receive? {
      ReceiveKeepsScan(s, limit);
    } else {
      var s' := Apply(s, step, limit).value;
      assert s'.accepted == s.accepted && s'.input == s.input && (Pending(s') == Pending(s) || GaveUp(s'));
    }
  }

  lemma StepKeepsPaths(s: State, step: Step, limit: nat)
    requires PathInv(s) && Apply(s, step, limit).Some?
    ensures PathInv(Apply(s, step, limit).value)
  {
    if step.Receive? {
      ConcatAssociative(Flatten(s.batches), OpenBatch(s), [s.scan.p]);
      assert [] + [s.scan.p] == [s.scan.p];
    } else if step.Gather? {
      FlattenSnoc(s.batches, s.main.batch);
      ConcatAssociative(Flatten(s.batches + [s.main.batch]), [], []);
    }
  }

  lemma LaunchKeepsJobs(s: State, limit: nat)
    requires BatchInv(s) && JobInv(s) && Apply(s, Launch, limit).Some?
    ensures JobInv(Apply(s, Launch, limit).value)
  {
    var s', infos, i := Apply(s, Launch, limit).value, s.main.infos, s.main.next;
    assert infos[i..] == [infos[i]] + infos[i + 1..];
    assert Infos(s'.jobs) == Infos(s.jobs) + [infos[i]];
    ConcatAssociative(Infos(s.jobs), [infos[i]], infos[i + 1..]);
  }

  lemma GatherKeepsJobs(s: State, infos: seq<Info>, limit: nat)
    requires BatchInv(s) && JobInv(s) && Apply(s, Gather(infos), limit).Some?
    ensures JobInv(Apply(s, Gather(infos), limit).value)
  {
    FlattenSnoc(s.gathered, infos);
    ConcatAssociative(Infos(s.jobs), [], []);
    assert infos[0..] == infos;
  }

  lemma StepKeepsJobs(s: State, step: Step, limit: nat)
    requires BatchInv(s) && JobInv(s) && Apply(s, step, limit).Some?
    ensures JobInv(Apply(s, step, limit).value)
  {
    if step.Launch? {
      LaunchKeepsJobs(s, limit);
    } else if step.Gather? {
      GatherKeepsJobs(s, step.infos, limit);
    } else if step.UploadEnds? || step.Release? {
      JobStepKeepsJobs(s, step, limit);
    } else {
      OtherKeepsJobs(s, step, limit);
    }
  }

  lemma OtherKeepsJobs(s: State, step: Step, limit: nat)
    requires BatchInv(s) && JobInv(s) && Apply(s, step, limit).Some?
    requires !step.Launch? && !step.Gather? && !step.UploadEnds? && !step.Release?
    ensures JobInv(Apply(s, step, limit).value)
  {
    var s' := Apply(s, step, limit).value;
    assert s'.jobs == s.jobs && s'.gathered == s.gathered;
    if IsMainStep(step) {
      MainKeepsLaunched(s, step, limit);
    } else {
      assert s'.main == s.main;
    }
  }

  lemma MainKeepsLaunched(s: State, step: Step, limit: nat)
    requires BatchInv(s) && Apply(s, step, limit).Some? && IsMainStep(step) && !step.Launch?
    ensures var s' := Apply(s, step, limit).value;
      s'.dropped || Unlaunched(s') == Unlaunched(s)
  {
  }

  lemma JobStepKeepsJobs(s: State, step: Step, limit: nat)
    requires JobInv(s) && Apply(s, step, limit).Some? && (step.UploadEnds? || step.Release?)
    ensures JobInv(Apply(s, step, limit).value)
  {
    assert Infos(Apply(s, step, limit).value.jobs) == Infos(s.jobs);
  }

  lemma StepKeepsInv(s: State, step: Step, limit: nat)
    requires Inv(s, limit) && Apply(s, step, limit).Some?
    ensures Inv(Apply(s, step, limit).value, limit)
  {
    StepKeepsSem(s, step, limit);
    StepKeepsBatches(s, step, limit);
    StepKeepsScan(s, step, limit);
    StepKeepsPaths(s, step, limit);
    StepKeepsJobs(s, step, limit);
  }

  // ---- what every run guarantees ----

  ghost predicate CanStep(s: State, s': State, limit: nat) {
    exists step :: Apply(s, step, limit) == Some(s')
  }

  ghost predicate IsRun(run: seq<State>, limit: nat) {
    && run != [] && Init(run[0])
    && forall m, n :: 0 <= m < n < |run| && n == m + 1 ==> CanStep(run[m], run[n], limit)
  }

  lemma StepKeepsWhole(s: State, step: Step, limit: nat)
    requires Apply(s, step, limit).Some?
    ensures Apply(s, step, limit).value.whole == s.whole
  {
  }

  lemma InitInv(s: State, limit: nat)
    requires Init(s)
    ensures Inv(s, limit)
  {
    assert [] + ([] + Selected(s.whole)) == Selected(s.whole);
    assert Infos([]) + [] == [];
  }

  lemma {:induction false} RunKeepsInv(run: seq<State>, limit: nat, n: nat)
    requires IsRun(run, limit) && n < |run|
    ensures Inv(run[n], limit) && run[n].whole == run[0].whole
    decreases n
  {
    if n == 0 {
      InitInv(run[0], limit);
    } else {
      RunKeepsInv(run, limit, n - 1);
      assert CanStep(run[n - 1], run[n], limit);
      var step :| Apply(run[n - 1], step, limit) == Some(run[n]);
      StepKeepsInv(run[n - 1], step, limit);
      StepKeepsWhole(run[n - 1], step, limit);
    }
  }

  /** Over all schedules: at most `limit` uploads hold the semaphore, a finished upload can always give its
      unit back, and once processUploads is done no upload is running. */
  lemma SemaphoreBoundsUploads(run: seq<State>, limit: nat, n: nat)
    requires IsRun(run, limit) && n < |run|
    ensures var s := run[n];
      && Live(s.jobs) <= limit
      && (forall j :: 0 <= j < |s.jobs| && s.jobs[j].Releasing? ==> Apply(s, Release(j), limit).Some?)
      && (s.main.Done? ==> forall j :: 0 <= j < |s.jobs| ==> s.jobs[j].Gone?)
  {
    RunKeepsInv(run, limit, n);
    LiveMembers(run[n].jobs);
  }

  /** runUpload returns, successfully or not, only after every upload has finished. On a run that was not
      cancelled, the accepted paths are exactly the selected tokens; each is in exactly one batch of 1 to
      100 paths, in order; and every gathered info got exactly one upload, in order. */
  lemma PipelineConservation(run: seq<State>, limit: nat, n: nat)
    requires IsRun(run, limit) && n < |run| && run[n].scan.Returned?
    ensures var s := run[n];
      && (forall j :: 0 <= j < |s.jobs| ==> s.jobs[j].Gone?)
      && (!s.cancelled ==>
            && s.scan.ok
            && s.accepted == Selected(run[0].whole)
            && Flatten(s.batches) == s.accepted
            && (forall b :: b in s.batches ==> 1 <= |b| <= 100)
            && |s.gathered| == |s.batches|
            && Infos(s.jobs) == Flatten(s.gathered))
  {
    RunKeepsInv(run, limit, n);
    SemaphoreBoundsUploads(run, limit, n);
    var s := run[n];
    assert s.accepted + ([] + []) == s.accepted;
    assert Flatten(s.batches) + [] == Flatten(s.batches);
    assert Infos(s.jobs) + [] == Infos(s.jobs);
  }

  // ---- every run comes to an end ----

  function ScanRank(s: State): nat {
    match s.scan
    case Scanning => 2 * |s.input| + 2
    case Sending(_) => 2 * |s.input| + 3
    case Waiting => 1
    case Cancelling => 1
    case Returned(_) => 0
  }

  function MainRank(m: Main): nat {
    match m
    case Batching(_) => 5
    case Gathering(_) => 4
    case Launching(_, _) => 3
    case Receiving => 2
    case Draining(_) => 1
    case Done => 0
  }

  function InnerRank(m: Main, limit: nat): nat {
    match m
    case Launching(infos, next) => if next <= |infos| then |infos| - next else 0
    case Draining(k) => if k <= limit then limit - k else 0
    case _ => 0
  }

  function JobRank(jobs: seq<Job>): nat {
    if jobs == [] then 0
    else JobRank(jobs[..|jobs| - 1]) +
         (match jobs[|jobs| - 1] case Uploading(_) => 2 case Releasing(_) => 1 case Gone(_) => 0)
  }

  lemma {:induction false} JobRankDrops(jobs: seq<Job>, j: nat, job: Job)
    requires j < |jobs|
    requires (jobs[j].Uploading? && job.Releasing?) || (jobs[j].Releasing? && job.Gone?)
    ensures JobRank(jobs[j := job]) < JobRank(jobs)
    decreases |jobs|
  {
    var n := |jobs| - 1;
    if j == n {
      assert jobs[j := job][..n] == jobs[..n];
    } else {
      assert jobs[j := job][..n] == jobs[..n][j := job];
      JobRankDrops(jobs[..n], j, job);
    }
  }

  /** Compares the work left in two states, most significant part first. */
  ghost predicate LessWork(a: State, b: State, limit: nat) {
    var ac, bc := if a.cancelled then 0 else 1, if b.cancelled then 0 else 1;
    ac < bc || (ac == bc &&
    (ScanRank(a) < ScanRank(b) || (ScanRank(a) == ScanRank(b) &&
    (MainRank(a.main) < MainRank(b.main) || (MainRank(a.main) == MainRank(b.main) &&
    (InnerRank(a.main, limit) < InnerRank(b.main, limit) || (InnerRank(a.main, limit) == InnerRank(b.main, limit) &&
    JobRank(a.jobs) < JobRank(b.jobs))))))))
  }

  /** Every step leaves less work, so no schedule goes on for ever. */
  lemma StepsRunOut(s: State, step: Step, limit: nat)
    requires Apply(s, step, limit).Some?
    ensures LessWork(Apply(s, step, limit).value, s, limit)
  {
    match step
    case UploadEnds(j) => JobRankDrops(s.jobs, j, Releasing(s.jobs[j].info));
    case Release(j) => JobRankDrops(s.jobs, j, Gone(s.jobs[j].info));
    case _ => OtherStepsRunOut(s, step, limit);
  }

  lemma OtherStepsRunOut(s: State, step: Step, limit: nat)
    requires Apply(s, step, limit).Some? && !step.UploadEnds? && !step.Release?
    ensures LessWork(Apply(s, step, limit).value, s, limit)
  {
  }

  /** With no upload running, the batching loop can always go on. */
  lemma BatchingLoopCanMove(s: State, limit: nat) returns (step: Step)
    requires SemInv(s, limit) && ScanInv(s) && Live(s.jobs) == 0 && limit >= 1
    requires !s.scan.Scanning? && !s.scan.Returned? && !s.main.Done?
    ensures !step.Cancel? && Apply(s, step, limit).Some?
  {
    match s.main
    case Receiving => step := if s.scan.Sending? then Receive else if s.closed then MainClosed else MainCancelled;
    case Batching(_) => step := StopBatch;
    case Gathering(_) => step := Gather([]);
    case Launching(infos, next) => step := if next < |infos| then Launch else Launched;
    case Draining(k) => step := if k < limit then Drain else Drained;
  }

  lemma LiveJobCanMove(s: State, limit: nat) returns (step: Step)
    requires SemInv(s, limit) && Live(s.jobs) > 0
    ensures !step.Cancel? && Apply(s, step, limit).Some?
  {
    LiveMembers(s.jobs);
    var j :| 0 <= j < |s.jobs| && !s.jobs[j].Gone?;
    step := if s.jobs[j].Uploading? then UploadEnds(j) else Release(j);
  }

  /** And until runUpload has returned some step is always possible, given a positive concurrency. */
  lemma NeverStuck(s: State, limit: nat) returns (step: Step)
    requires Inv(s, limit) && !s.scan.Returned? && limit >= 1
    ensures !step.Cancel? && Apply(s, step, limit).Some?
  {
    if s.scan.Scanning? {
      step := if s.input == [] then InputEnds else Token;
    } else if Live(s.jobs) > 0 {
      step := LiveJobCanMove(s, limit);
    } else if !s.main.Done? {
      step := BatchingLoopCanMove(s, limit);
    } else {
      step := if s.scan.Sending? then ScanCancelled else Return;
    }
  }

  ghost predicate CanMove(s: State, limit: nat) {
    exists step: Step :: !step.Cancel? && Apply(s, step, limit).Some?
  }

  /** A schedule goes on as long as any goroutine can take a step. */
  ghost predicate GoesOn(schedule: nat -> State, n: nat, limit: nat) {
    CanStep(schedule(n), schedule(n + 1), limit) || (schedule(n + 1) == schedule(n) && !CanMove(schedule(n), limit))
  }

  function CancelRank(s: State): nat { if s.cancelled then 0 else 1 }

  /** Every schedule, cancelled or not, comes to the state in which runUpload has returned. */
  lemma {:induction false} ScheduleEnds(schedule: nat -> State, limit: nat, n: nat) returns (m: nat)
    requires Inv(schedule(n), limit) && limit >= 1 && forall i: nat :: GoesOn(schedule, i, limit)
    ensures m >= n && Inv(schedule(m), limit) && schedule(m).scan.Returned?
    decreases CancelRank(schedule(n)), ScanRank(schedule(n)), MainRank(schedule(n).main),
      InnerRank(schedule(n).main, limit), JobRank(schedule(n).jobs)
  {
    var s, next := schedule(n), schedule(n + 1);
    if s.scan.Returned? {
      m := n;
    } else {
      var possible := NeverStuck(s, limit);
      assert CanMove(s, limit) && GoesOn(schedule, n, limit);
      var step :| Apply(s, step, limit) == Some(next);
      StepKeepsInv(s, step, limit);
      StepsRunOut(s, step, limit);
      m := ScheduleEnds(schedule, limit, n + 1);
    }
  }

  /** From the start: runUpload returns, and by then no upload is running. */
  lemma EveryScheduleEnds(schedule: nat -> State, limit: nat) returns (m: nat)
    requires Init(schedule(0)) && limit >= 1 && forall i: nat :: GoesOn(schedule, i, limit)
    ensures schedule(m).scan.Returned? && forall j :: 0 <= j < |schedule(m).jobs| ==> schedule(m).jobs[j].Gone?
  {
    InitInv(schedule(0), limit);
    m := ScheduleEnds(schedule, limit, 0);
    LiveMembers(schedule(m).jobs);
  }

  /** Nothing waits longer than it has to: an upload is held back only while as many as the limit hold the semaphore,
      and the batching loop takes a path whenever it is free or has an open batch of fewer than 100. */
  lemma WaitsOnlyWhenFull(s: State, limit: nat)
    requires SemInv(s, limit)
    ensures s.main.Launching? && s.main.next < |s.main.infos| ==>
      var launched := Apply(s, Launch, limit);
      && (launched.Some? <==> Live(s.jobs) < limit)
      && (launched.Some? ==> launched.value.jobs == s.jobs + [Uploading(s.main.infos[s.main.next])])
    ensures s.scan.Sending? ==>
      (Apply(s, Receive, limit).Some? <==> s.main.Receiving? || (s.main.Batching? && |s.main.batch| < 100))
    ensures s.main.Batching? ==> Apply(s, StopBatch, limit).Some?
  {
  }

  /** The selected tokens are the paths among them, all of them and in order. */
  lemma {:induction false} SelectedInOrder(a: seq<Option<Path>>, token: Option<Path>, b: seq<Option<Path>>)
    ensures Selected(a + [token] + b) ==
      Selected(a) + (if token.Some? then [token.value] else []) + Selected(b)
  {
    var one := if token.Some? then [token.value] else [];
    if a == [] {
      assert a + [token] + b == [token] + b && ([token] + b)[1..] == b;
      assert [] + one == one;
    } else {
      var all := a + [token] + b;
      var first := match a[0] case Some(p) => [p] case None => [];
      assert all[0] == a[0] && all[1..] == a[1..] + [token] + b;
      SelectedInOrder(a[1..], token, b);
      ConcatAssociative(first, Selected(a[1..]), one);
      ConcatAssociative(first, Selected(a[1..]) + one, Selected(b));
    }
  }
}
