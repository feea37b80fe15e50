/** What holds of the safety monitor over every run of its loop. */
module AsilRuns {
  import opened Bits
  import opened Asil

  ghost predicate Supplied(envs: seq<Surroundings>) {
    forall i | 0 <= i < |envs| :: |envs[i].checkpoints| == MAX_CHECKPOINTS
  }

  /** The loop over the surroundings of its iterations, until it stops. */
  function Run(expected: seq<uint32>, envs: seq<Surroundings>): Monitor
    requires |expected| <= MAX_CHECKPOINTS && Supplied(envs)
  {
    if envs == [] then Running(INITIAL)
    else
      var before := Run(expected, envs[..|envs| - 1]);
      if before.Stopped? then before else Iterate(expected, before.context, envs[|envs| - 1])
  }

  // ---------------------------------------------------------------- recoveries

  /** At most three attempts ever back off, by 100, 200 and 400 ms: the cap of 2000 ms is never met. */
  lemma BackOffBelowCap(attempts: nat)
    requires attempts < MAX_RECOVERY_ATTEMPTS
    ensures Delay(attempts) == (if attempts == 0 then 100 else if attempts == 1 then 200 else 400)
    ensures Delay(attempts) < RECOVERY_MAX_DELAY_MS
  {
    assert Power(2, 0) == 1 && Power(2, 1) == 2 && Power(2, 2) == 4;
  }

  /** A control-flow recovery clears the checkpoints, so it succeeds exactly when nothing but
      zeros is expected. */
  lemma ControlFlowRecovery(expected: seq<uint32>, c: Context, env: Surroundings)
    requires |expected| <= MAX_CHECKPOINTS && c.attempts < MAX_RECOVERY_ATTEMPTS
    ensures AttemptRecovery(expected, c, ControlFlow, env).result == Success
            <==> forall i | 0 <= i < |expected| :: expected[i] == 0
  {
    forall i | 0 <= i < |expected| ensures NO_CHECKPOINTS[i] == 0 {}
    if ControlFlowOk(expected, NO_CHECKPOINTS) {
      forall i | 0 <= i < |expected| ensures expected[i] == 0 { assert NO_CHECKPOINTS[i] == expected[i]; }
    }
  }

  function Violations(s: Stats): nat {
    s.controlFlow + s.memory + s.redundancy
  }

  /** No attempts are pending, none was given up, every violation so far was recovered from at
      the first attempt, `pending` of them yet to be. */
  ghost predicate Settled(c: Context, pending: nat) {
    && c.stats.failed == 0
    && Violations(c.stats) % TWO32 == (c.stats.successful + pending) % TWO32
    && forall d <- c.delays :: d == RECOVERY_INITIAL_DELAY_MS
  }

  lemma OneMore(a: nat, b: nat)
    requires a % TWO32 == b % TWO32
    ensures (a + 1) % TWO32 == (b + 1) % TWO32
  {}

  lemma IncrementCounts(n: uint32, rest: nat)
    ensures (Increment(n) + rest) % TWO32 == (n + rest + 1) % TWO32
  {
    if n == TWO32 - 1 {
      assert n + rest + 1 == TWO32 + rest;
      assert (TWO32 + rest) % TWO32 == rest % TWO32;
    }
  }

  /** A recovery from a settled context with one violation just counted: success settles it, and
      failure leaves that one violation open, after a single attempt. */
  lemma RecoverySettles(expected: seq<uint32>, c: Context, fault: Fault, env: Surroundings)
    requires |expected| <= MAX_CHECKPOINTS && c.attempts == 0 && Settled(c, 1)
    ensures var r := AttemptRecovery(expected, c, fault, env);
            && r.context.delays == c.delays + [RECOVERY_INITIAL_DELAY_MS]
            && (r.result == Success ==> Settled(r.context, 0) && r.context.attempts == 0 && r.context.state == Normal)
            && (r.result != Success ==> Settled(r.context, 1) && r.context.attempts == 1)
  {
    BackOffBelowCap(0);
    IncrementCounts(c.stats.successful, 0);
    var r := AttemptRecovery(expected, c, fault, env);
    forall d | d in r.context.delays ensures d == RECOVERY_INITIAL_DELAY_MS {}
  }

  /** One of the three violation counters goes up. */
  lemma Counted(c: Context, s: Stats)
    requires Settled(c, 0)
    requires || s == c.stats.(controlFlow := Increment(c.stats.controlFlow))
             || s == c.stats.(memory := Increment(c.stats.memory))
             || s == c.stats.(redundancy := Increment(c.stats.redundancy))
    ensures Settled(c.(stats := s), 1)
  {
    IncrementCounts(c.stats.controlFlow, c.stats.memory + c.stats.redundancy);
    IncrementCounts(c.stats.memory, c.stats.controlFlow + c.stats.redundancy);
    IncrementCounts(c.stats.redundancy, c.stats.controlFlow + c.stats.memory);
    OneMore(Violations(c.stats), c.stats.successful);
  }

  /** A running monitor is settled with no attempt pending; a stopped one is in the safe state after
      exactly one failed attempt, which no counter shows. */
  ghost predicate MonitorInv(m: Monitor) {
    match m
    case Running(c) => Settled(c, 0) && c.attempts == 0 && c.state == Normal
    case Stopped(c) => Settled(c, 1) && c.attempts == 1 && c.state == SafeStop
  }

  lemma RecoveryKeepsInv(expected: seq<uint32>, c: Context, s: Stats, fault: Fault, env: Surroundings)
    requires |expected| <= MAX_CHECKPOINTS && MonitorInv(Running(c))
    requires || s == c.stats.(controlFlow := Increment(c.stats.controlFlow))
             || s == c.stats.(memory := Increment(c.stats.memory))
             || s == c.stats.(redundancy := Increment(c.stats.redundancy))
    ensures MonitorInv(Continue(AttemptRecovery(expected, c.(stats := s), fault, env)))
  {
    Counted(c, s);
    RecoverySettles(expected, c.(stats := s), fault, env);
  }

  lemma ChecksKeepInv(expected: seq<uint32>, c: Context, env: Surroundings)
    requires |expected| <= MAX_CHECKPOINTS == |c.checkpoints| && MonitorInv(Running(c))
    ensures MonitorInv(CheckControlFlow(expected, c, env))
    ensures MonitorInv(CheckMemory(expected, c, env))
    ensures MonitorInv(CheckVariables(expected, c, env))
  {
    RecoveryKeepsInv(expected, c, c.stats.(controlFlow := Increment(c.stats.controlFlow)), ControlFlow, env);
    RecoveryKeepsInv(expected, c, c.stats.(memory := Increment(c.stats.memory)), MemoryCorruption, env);
    RecoveryKeepsInv(expected, c, c.stats.(redundancy := Increment(c.stats.redundancy)), RedundancyMismatch, env);
  }

  /** The parts of a context the invariant does not look at. */
  lemma InvIgnores(c: Context, d: Context, pending: nat)
    requires Settled(c, pending) && d.delays == c.delays && d.stats.(timing := 0) == c.stats.(timing := 0)
    ensures Settled(d, pending)
  {
    assert Violations(d.stats) == Violations(c.stats);
  }

  lemma ChecksKeepSize(expected: seq<uint32>, c: Context, env: Surroundings)
    requires |expected| <= MAX_CHECKPOINTS == |c.checkpoints|
    ensures |CheckControlFlow(expected, c, env).context.checkpoints| == MAX_CHECKPOINTS
    ensures |CheckMemory(expected, c, env).context.checkpoints| == MAX_CHECKPOINTS
  {}

  lemma IterationKeepsInv(expected: seq<uint32>, c: Context, env: Surroundings)
    requires |expected| <= MAX_CHECKPOINTS == |env.checkpoints| && MonitorInv(Running(c))
    ensures MonitorInv(Iterate(expected, c, env))
  {
    var c0 := c.(checkpoints := env.checkpoints);
    InvIgnores(c, c0, 0);
    ChecksKeepInv(expected, c0, env);
    ChecksKeepSize(expected, c0, env);
    var m1 := CheckControlFlow(expected, c0, env);
    if m1.Running? {
      var c1 := CheckTiming(m1.context, env);
      InvIgnores(m1.context, c1, 0);
      ChecksKeepInv(expected, c1, env);
      ChecksKeepSize(expected, c1, env);
      var m2 := CheckMemory(expected, c1, env);
      if m2.Running? {
        ChecksKeepInv(expected, m2.context, env);
        var m3 := CheckVariables(expected, m2.context, env);
        InvIgnores(m3.context, m3.context.(lastMonitorTime := env.now % TWO32), if m3.Running? then 0 else 1);
      }
    }
  }

  /** The monitor loop: in every run, at every loop head, no recovery attempt is pending, none has
      been counted as failed, the three kinds of violation together are the successful recoveries
      (modulo 2^32), and no recovery ever waited longer than the first delay. */
  lemma {:induction false} EveryRun(expected: seq<uint32>, envs: seq<Surroundings>)
    requires |expected| <= MAX_CHECKPOINTS && Supplied(envs)
    ensures MonitorInv(Run(expected, envs))
  {
    if envs != [] {
      EveryRun(expected, envs[..|envs| - 1]);
      var before := Run(expected, envs[..|envs| - 1]);
      if before.Running? { IterationKeepsInv(expected, before.context, envs[|envs| - 1]); }
    }
  }

  lemma DeviationStopsNow(expected: seq<uint32>, c: Context, env: Surroundings, k: nat)
    requires |expected| <= MAX_CHECKPOINTS == |env.checkpoints| && c.attempts == 0
    requires k < |expected| && expected[k] != 0 && !ControlFlowOk(expected, env.checkpoints)
    ensures Iterate(expected, c, env).Stopped?
  {
    var c0 := c.(checkpoints := env.checkpoints);
    var c1 := c0.(stats := c0.stats.(controlFlow := Increment(c0.stats.controlFlow)));
    ControlFlowRecovery(expected, c1, env);
    assert AttemptRecovery(expected, c1, ControlFlow, env).result != Success;
  }

  /** With any nonzero expected checkpoint value the monitor only runs on while every iteration finds
      the control flow as expected: the first deviation is a safe stop. */
  lemma {:induction false} DeviationStops(expected: seq<uint32>, envs: seq<Surroundings>, i: nat)
    requires |expected| <= MAX_CHECKPOINTS && Supplied(envs) && Run(expected, envs).Running? && i < |envs|
    requires exists k | 0 <= k < |expected| :: expected[k] != 0
    ensures ControlFlowOk(expected, envs[i].checkpoints)
  {
    var init, last := envs[..|envs| - 1], envs[|envs| - 1];
    EveryRun(expected, init);
    if i < |init| {
      DeviationStops(expected, init, i);
    } else {
      var k :| 0 <= k < |expected| && expected[k] != 0;
      if !ControlFlowOk(expected, last.checkpoints) {
        DeviationStopsNow(expected, Run(expected, init).context, last, k);
      }
    }
  }

  // ---------------------------------------------------------------- checkpoints nothing writes

  /** No iteration finds a checkpoint written, as in the source, where only the recovery writes them. */
  ghost predicate Untouched(envs: seq<Surroundings>) {
    forall i | 0 <= i < |envs| :: envs[i].checkpoints == NO_CHECKPOINTS
  }

  /** Once stopped, the monitor stays as it is. */
  lemma {:induction false} StoppedForGood(expected: seq<uint32>, envs: seq<Surroundings>, n: nat)
    requires |expected| <= MAX_CHECKPOINTS && Supplied(envs) && n <= |envs| && Run(expected, envs[..n]).Stopped?
    ensures Run(expected, envs) == Run(expected, envs[..n])
  {
    if n == |envs| {
      assert envs[..n] == envs;
    } else {
      assert envs[..|envs| - 1][..n] == envs[..n];
      StoppedForGood(expected, envs[..|envs| - 1], n);
    }
  }

  lemma FirstIterationStops(expected: seq<uint32>, env: Surroundings, k: nat)
    requires |expected| <= MAX_CHECKPOINTS && env.checkpoints == NO_CHECKPOINTS
    requires k < |expected| && expected[k] != 0
    ensures Iterate(expected, INITIAL, env).Stopped? && Iterate(expected, INITIAL, env).context.stats.controlFlow == 1
  {
    assert NO_CHECKPOINTS[k] == 0;
    assert !ControlFlowOk(expected, env.checkpoints);
    DeviationStopsNow(expected, INITIAL, env, k);
  }

  /** With one nonzero value expected the monitor stops in its first iteration, whatever follows. */
  lemma UntouchedStops(expected: seq<uint32>, envs: seq<Surroundings>, k: nat)
    requires |expected| <= MAX_CHECKPOINTS && Supplied(envs) && Untouched(envs) && envs != []
    requires k < |expected| && expected[k] != 0
    ensures Run(expected, envs) == Run(expected, envs[..1]) && Run(expected, envs).Stopped?
    ensures Run(expected, envs).context.stats.controlFlow == 1
  {
    FirstIterationStops(expected, envs[0], k);
    assert envs[..1][..0] == [];
    StoppedForGood(expected, envs, 1);
  }

  lemma ZeroesAreFine(expected: seq<uint32>, c: Context, env: Surroundings)
    requires |expected| <= MAX_CHECKPOINTS && env.checkpoints == NO_CHECKPOINTS
    requires forall k | 0 <= k < |expected| :: expected[k] == 0
    ensures Iterate(expected, c, env).context.stats.controlFlow == c.stats.controlFlow
  {
    forall i | 0 <= i < |expected| ensures NO_CHECKPOINTS[i] == expected[i] {}
    assert ControlFlowOk(expected, env.checkpoints);
  }

  /** With nothing but zeros expected the control-flow check never finds anything. */
  lemma {:induction false} UntouchedNeverViolates(expected: seq<uint32>, envs: seq<Surroundings>)
    requires |expected| <= MAX_CHECKPOINTS && Supplied(envs) && Untouched(envs)
    requires forall k | 0 <= k < |expected| :: expected[k] == 0
    ensures Run(expected, envs).context.stats.controlFlow == 0
  {
    if envs != [] {
      var before := Run(expected, envs[..|envs| - 1]);
      UntouchedNeverViolates(expected, envs[..|envs| - 1]);
      if before.Running? { ZeroesAreFine(expected, before.context, envs[|envs| - 1]); }
    }
  }

  // ---------------------------------------------------------------- timing

  /** When the last iteration read the clock; 0 before the first. */
  function LastTime(envs: seq<Surroundings>): uint32 {
    if envs == [] then 0 else envs[|envs| - 1].now % TWO32
  }

  /** How many iterations found the time since the one before too long. */
  function SlowIterations(envs: seq<Surroundings>): nat {
    if envs == [] then 0
    else
      var init := envs[..|envs| - 1];
      SlowIterations(init) + if Elapsed(LastTime(envs), LastTime(init)) > MAX_CRITICAL_TASK_TIME_MS then 1 else 0
  }

  lemma IterationTiming(expected: seq<uint32>, c: Context, env: Surroundings)
    requires |expected| <= MAX_CHECKPOINTS == |env.checkpoints| && Iterate(expected, c, env).Running?
    ensures var d := Iterate(expected, c, env).context;
            && d.lastMonitorTime == env.now % TWO32
            && d.stats.timing == if TooSlow(c, env.now) then Increment(c.stats.timing) else c.stats.timing
  {}

  lemma TimingStep(expected: seq<uint32>, c: Context, env: Surroundings, slow: nat)
    requires |expected| <= MAX_CHECKPOINTS == |env.checkpoints| && Iterate(expected, c, env).Running?
    requires c.stats.timing == slow % TWO32
    ensures var d := Iterate(expected, c, env).context;
            && d.stats.timing == (slow + if TooSlow(c, env.now) then 1 else 0) % TWO32
            && d.lastMonitorTime == env.now % TWO32
  {
    IterationTiming(expected, c, env);
    IncrementModulo(slow);
  }

  lemma {:induction false} TimingCounted(expected: seq<uint32>, envs: seq<Surroundings>)
    requires |expected| <= MAX_CHECKPOINTS && Supplied(envs) && Run(expected, envs).Running?
    ensures Run(expected, envs).context.stats.timing == SlowIterations(envs) % TWO32
    ensures Run(expected, envs).context.lastMonitorTime == LastTime(envs)
  {
    if envs != [] {
      var init, last := envs[..|envs| - 1], envs[|envs| - 1];
      TimingCounted(expected, init);
      TimingStep(expected, Run(expected, init).context, last, SlowIterations(init));
    }
  }

  /** Iterations follow one another after the monitor's sleep, and within one turn of the clock. */
  ghost predicate Paced(envs: seq<Surroundings>) {
    forall i | 1 <= i < |envs| :: envs[i - 1].now + SAFETY_MONITOR_PERIOD_MS <= envs[i].now < envs[i - 1].now + TWO32
  }

  lemma {:induction false} PacedIsSlow(envs: seq<Surroundings>)
    requires Paced(envs)
    ensures SlowIterations(envs) >= |envs| - 1
  {
    if |envs| > 1 {
      var init := envs[..|envs| - 1];
      PacedIsSlow(init);
      assert LastTime(init) == envs[|envs| - 2].now % TWO32;
      ElapsedSince(envs[|envs| - 2].now, envs[|envs| - 1].now);
    }
  }

  /** Since the monitor's period is longer than the limit it checks, n iterations record at least
      n - 1 timing violations, whatever else happens. */
  lemma AlwaysTooSlow(expected: seq<uint32>, envs: seq<Surroundings>)
    requires |expected| <= MAX_CHECKPOINTS && Supplied(envs) && Run(expected, envs).Running? && Paced(envs)
    ensures exists n | |envs| - 1 <= n <= |envs| :: Run(expected, envs).context.stats.timing == n % TWO32
  {
    TimingCounted(expected, envs);
    PacedIsSlow(envs);
    SlowAtMost(envs);
  }

  lemma {:induction false} SlowAtMost(envs: seq<Surroundings>)
    ensures SlowIterations(envs) <= |envs|
  {
    if envs != [] { SlowAtMost(envs[..|envs| - 1]); }
  }
}
