/** What the monitor finds, counts and does about it, from what its surroundings show alone. */
module AsilOutcomes {
  import opened Bits
  import opened Asil
  import opened AsilRuns

  // ---------------------------------------------------------------- one recovery

  /** Whether the action for a fault helps. */
  ghost predicate Helps(expected: seq<uint32>, fault: Fault, env: Surroundings) {
    match fault
    case ControlFlow => forall k | 0 <= k < |expected| :: expected[k] == 0
    case MemoryCorruption => env.memoryRestored
    case RedundancyMismatch => env.variablesRestored
  }

  /** After three attempts in a row another one only counts as failed. */
  lemma AttemptsExhausted(expected: seq<uint32>, c: Context, fault: Fault, env: Surroundings)
    requires |expected| <= MAX_CHECKPOINTS && c.attempts >= 3
    ensures AttemptRecovery(expected, c, fault, env)
         == Recovered(c.(stats := c.stats.(failed := (c.stats.failed + 1) % 0x1_0000_0000)), FailSafe)
  {}

  /** Before that an attempt waits 100, 200 or 400 ms and succeeds exactly when its action helps, after
      which none is pending and the state is normal; otherwise the attempt is counted, and a mismatch
      asks for a reset, the others for a retry. */
  lemma Attempted(expected: seq<uint32>, c: Context, fault: Fault, env: Surroundings)
    requires |expected| <= MAX_CHECKPOINTS && c.attempts < 3
    ensures var r := AttemptRecovery(expected, c, fault, env);
            && (r.result == Success <==> Helps(expected, fault, env))
            && (r.result != Success ==> r.result == if fault.RedundancyMismatch? then SystemReset else Retry)
            && r.context.delays == c.delays + [if c.attempts == 0 then 100 else if c.attempts == 1 then 200 else 400]
            && r.context.checkpoints == (if fault.ControlFlow? then NO_CHECKPOINTS else c.checkpoints)
            && r.context.lastMonitorTime == c.lastMonitorTime
            && (if r.result == Success then
                  && r.context.attempts == 0 && r.context.state == Normal
                  && r.context.stats == c.stats.(successful := (c.stats.successful + 1) % 0x1_0000_0000)
                else r.context.attempts == c.attempts + 1 && r.context.state == Recovery && r.context.stats == c.stats)
  {
    BackOffBelowCap(c.attempts);
    if fault.ControlFlow? { ControlFlowRecovery(expected, c, env); }
  }

  // ---------------------------------------------------------------- one iteration

  ghost predicate Deviates(expected: seq<uint32>, env: Surroundings)
    requires |expected| <= |env.checkpoints|
  {
    exists k | 0 <= k < |expected| :: env.checkpoints[k] != expected[k]
  }

  ghost predicate StopsAtControlFlow(expected: seq<uint32>, env: Surroundings)
    requires |expected| <= |env.checkpoints|
  {
    Deviates(expected, env) && exists k | 0 <= k < |expected| :: expected[k] != 0
  }

  ghost predicate StopsAtMemory(env: Surroundings) {
    !env.memoryIntact && !env.memoryRestored
  }

  ghost predicate StopsAtVariables(env: Surroundings) {
    !env.variablesAgree && !env.variablesRestored
  }

  /** The iteration ends in the safe state. */
  ghost predicate Stops(expected: seq<uint32>, env: Surroundings)
    requires |expected| <= |env.checkpoints|
  {
    StopsAtControlFlow(expected, env) || StopsAtMemory(env) || StopsAtVariables(env)
  }

  /** One more, when so, on a 32-bit counter. */
  function Plus(n: uint32, more: bool): uint32 {
    if more then (n + 1) % 0x1_0000_0000 else n
  }

  lemma ControlFlowPhase(expected: seq<uint32>, c: Context, env: Surroundings)
    requires |expected| <= MAX_CHECKPOINTS == |env.checkpoints| && c.attempts == 0 && c.checkpoints == env.checkpoints
    ensures var m := CheckControlFlow(expected, c, env);
            && (m.Stopped? <==> StopsAtControlFlow(expected, env))
            && (m.Running? ==> m.context.attempts == 0 && (c.state == Normal ==> m.context.state == Normal))
            && (m.Stopped? ==> m.context.state == SafeStop)
            && m.context.stats.(successful := 0)
               == c.stats.(controlFlow := Plus(c.stats.controlFlow, Deviates(expected, env)), successful := 0)
            && m.context.lastMonitorTime == c.lastMonitorTime
  {
    Attempted(expected, c.(stats := c.stats.(controlFlow := Increment(c.stats.controlFlow))), ControlFlow, env);
    if !Deviates(expected, env) { assert ControlFlowOk(expected, c.checkpoints); }
  }

  lemma MemoryPhase(expected: seq<uint32>, c: Context, env: Surroundings)
    requires |expected| <= MAX_CHECKPOINTS && c.attempts == 0
    ensures var m := CheckMemory(expected, c, env);
            && (m.Stopped? <==> StopsAtMemory(env))
            && (m.Running? ==> m.context.attempts == 0 && (c.state == Normal ==> m.context.state == Normal))
            && (m.Stopped? ==> m.context.state == SafeStop)
            && m.context.stats.(successful := 0)
               == c.stats.(memory := Plus(c.stats.memory, !env.memoryIntact), successful := 0)
            && m.context.lastMonitorTime == c.lastMonitorTime
  {
    Attempted(expected, c.(stats := c.stats.(memory := Increment(c.stats.memory))), MemoryCorruption, env);
  }

  lemma VariablesPhase(expected: seq<uint32>, c: Context, env: Surroundings)
    requires |expected| <= MAX_CHECKPOINTS && c.attempts == 0
    ensures var m := CheckVariables(expected, c, env);
            && (m.Stopped? <==> StopsAtVariables(env))
            && (m.Running? ==> m.context.attempts == 0 && (c.state == Normal ==> m.context.state == Normal))
            && (m.Stopped? ==> m.context.state == SafeStop)
            && m.context.stats.(successful := 0)
               == c.stats.(redundancy := Plus(c.stats.redundancy, !env.variablesAgree), successful := 0)
            && m.context.lastMonitorTime == c.lastMonitorTime
  {
    Attempted(expected, c.(stats := c.stats.(redundancy := Increment(c.stats.redundancy))), RedundancyMismatch, env);
  }

  /** An iteration stops exactly when one of its three checks finds something its recovery does not help.
      Each check that is reached counts what it finds: memory when the control flow did not stop the
      iteration, the variables when memory did not either. */
  lemma IterationOutcome(expected: seq<uint32>, c: Context, env: Surroundings)
    requires |expected| <= MAX_CHECKPOINTS == |env.checkpoints| && c.attempts == 0
    ensures var m, first, second := Iterate(expected, c, env), StopsAtControlFlow(expected, env), StopsAtMemory(env);
            var d := m.context;
            && (m.Stopped? <==> Stops(expected, env))
            && d.stats.controlFlow == Plus(c.stats.controlFlow, Deviates(expected, env))
            && d.stats.timing == Plus(c.stats.timing, !first && TooSlow(c, env.now))
            && d.stats.memory == Plus(c.stats.memory, !first && !env.memoryIntact)
            && d.stats.redundancy == Plus(c.stats.redundancy, !first && !second && !env.variablesAgree)
            && d.stats.failed == c.stats.failed
            && d.lastMonitorTime == if m.Stopped? then c.lastMonitorTime else env.now % 0x1_0000_0000
  {
    var c0 := c.(checkpoints := env.checkpoints);
    ControlFlowPhase(expected, c0, env);
    var m1 := CheckControlFlow(expected, c0, env);
    if m1.Running? {
      var c1 := CheckTiming(m1.context, env);
      MemoryPhase(expected, c1, env);
      var m2 := CheckMemory(expected, c1, env);
      if m2.Running? { VariablesPhase(expected, m2.context, env); }
    }
  }

  // ---------------------------------------------------------------- whole runs

  ghost predicate RunsOn(expected: seq<uint32>, envs: seq<Surroundings>)
    requires |expected| <= MAX_CHECKPOINTS && Supplied(envs)
  {
    forall i | 0 <= i < |envs| :: !Stops(expected, envs[i])
  }

  lemma PlusCounts(n: nat, more: bool)
    ensures Plus(n % TWO32, more) == (n + if more then 1 else 0) % TWO32
  {
    IncrementModulo(n);
  }

  /** How many iterations found each of the three kinds of violation. */
  datatype Tally = Tally(controlFlow: nat, memory: nat, redundancy: nat)

  ghost predicate Counts(s: Stats, t: Tally) {
    && s.controlFlow == t.controlFlow % TWO32
    && s.memory == t.memory % TWO32
    && s.redundancy == t.redundancy % TWO32
  }

  /** What an iteration that is reached adds. */
  ghost function Tallied(expected: seq<uint32>, before: Tally, env: Surroundings): Tally
    requires |expected| <= |env.checkpoints|
  {
    var first, second := StopsAtControlFlow(expected, env), StopsAtMemory(env);
    Tally(before.controlFlow + if Deviates(expected, env) then 1 else 0,
          before.memory + if !first && !env.memoryIntact then 1 else 0,
          before.redundancy + if !first && !second && !env.variablesAgree then 1 else 0)
  }

  lemma CountedIteration(expected: seq<uint32>, c: Context, env: Surroundings, before: Tally)
    requires |expected| <= MAX_CHECKPOINTS == |env.checkpoints| && c.attempts == 0 && Counts(c.stats, before)
    ensures var m := Iterate(expected, c, env);
            (m.Stopped? <==> Stops(expected, env)) && Counts(m.context.stats, Tallied(expected, before, env))
  {
    IterationOutcome(expected, c, env);
    var first, second := StopsAtControlFlow(expected, env), StopsAtMemory(env);
    PlusCounts(before.controlFlow, Deviates(expected, env));
    PlusCounts(before.memory, !first && !env.memoryIntact);
    PlusCounts(before.redundancy, !first && !second && !env.variablesAgree);
  }

  lemma IdleMonitor(expected: seq<uint32>, envs: seq<Surroundings>)
    requires |expected| <= MAX_CHECKPOINTS && Supplied(envs)
    ensures Run(expected, envs).Running? ==> Run(expected, envs).context.attempts == 0
    ensures Run(expected, envs).Stopped? ==> Run(expected, envs).context.state == SafeStop
  {
    EveryRun(expected, envs);
  }

  /** How many of the iterations deviated, found memory corrupted, and found variables to differ. */
  ghost function Found(expected: seq<uint32>, envs: seq<Surroundings>): Tally
    requires |expected| <= MAX_CHECKPOINTS && Supplied(envs)
  {
    if envs == [] then Tally(0, 0, 0)
    else
      var before, env := Found(expected, envs[..|envs| - 1]), envs[|envs| - 1];
      Tally(before.controlFlow + if Deviates(expected, env) then 1 else 0,
            before.memory + if !env.memoryIntact then 1 else 0,
            before.redundancy + if !env.variablesAgree then 1 else 0)
  }

  lemma NextRun(expected: seq<uint32>, past: seq<Surroundings>, env: Surroundings)
    requires |expected| <= MAX_CHECKPOINTS == |env.checkpoints| && Supplied(past)
    requires Run(expected, past).Running? && Counts(Run(expected, past).context.stats, Found(expected, past))
    ensures Supplied(past + [env])
    ensures var m := Run(expected, past + [env]);
            && (m.Stopped? <==> Stops(expected, env))
            && Counts(m.context.stats, Tallied(expected, Found(expected, past), env))
  {
    assert (past + [env])[..|past|] == past;
    IdleMonitor(expected, past);
    CountedIteration(expected, Run(expected, past).context, env, Found(expected, past));
  }

  lemma FoundSnoc(expected: seq<uint32>, past: seq<Surroundings>, env: Surroundings)
    requires |expected| <= MAX_CHECKPOINTS == |env.checkpoints| && Supplied(past)
    ensures Supplied(past + [env])
    ensures RunsOn(expected, past + [env]) <==> RunsOn(expected, past) && !Stops(expected, env)
    ensures !Stops(expected, env) ==> Found(expected, past + [env]) == Tallied(expected, Found(expected, past), env)
  {
    var envs := past + [env];
    assert envs[..|past|] == past && envs[|past|] == env;
    forall i | 0 <= i < |past| ensures envs[i] == past[i] {}
  }

  /** The monitor runs on exactly while nothing it finds goes unhelped: every corruption of memory was
      restored, every mismatch too, and nothing but zeros expected whenever the control flow deviated.
      Its three counters are then the iterations that found each, modulo 2^32. */
  lemma {:induction false} RunOutcome(expected: seq<uint32>, envs: seq<Surroundings>)
    requires |expected| <= MAX_CHECKPOINTS && Supplied(envs)
    ensures Run(expected, envs).Running? <==> RunsOn(expected, envs)
    ensures RunsOn(expected, envs) ==> Counts(Run(expected, envs).context.stats, Found(expected, envs))
  {
    if envs != [] {
      var init, last := envs[..|envs| - 1], envs[|envs| - 1];
      assert envs == init + [last];
      RunOutcome(expected, init);
      FoundSnoc(expected, init, last);
      if Run(expected, init).Running? {
        NextRun(expected, init, last);
      } else {
        StoppedForGood(expected, envs, |init|);
      }
    }
  }

  /** A run that stops does so in the first iteration `i` that stops, whatever follows, in the safe state
      and with what that iteration reached and found counted too. */
  lemma StopOutcome(expected: seq<uint32>, envs: seq<Surroundings>, i: nat)
    requires |expected| <= MAX_CHECKPOINTS && Supplied(envs) && i < |envs|
    requires RunsOn(expected, envs[..i]) && Stops(expected, envs[i])
    ensures var r := Run(expected, envs);
            && r.Stopped? && r.context.state == SafeStop && r == Run(expected, envs[..i + 1])
            && Counts(r.context.stats, Tallied(expected, Found(expected, envs[..i]), envs[i]))
  {
    assert envs[..i + 1] == envs[..i] + [envs[i]];
    RunOutcome(expected, envs[..i]);
    NextRun(expected, envs[..i], envs[i]);
    StoppedForGood(expected, envs, i + 1);
    IdleMonitor(expected, envs);
  }
}
