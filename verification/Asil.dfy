/** The safety monitor: its loop body, and the recovery with back-off it calls. */
module Asil {
  import opened Bits

  const SAFETY_MONITOR_PERIOD_MS: nat := 100
  const MAX_CRITICAL_TASK_TIME_MS: nat := 50
  const MAX_CHECKPOINTS: nat := 16
  const MAX_RECOVERY_ATTEMPTS: nat := 3
  const RECOVERY_INITIAL_DELAY_MS: nat := 100
  const RECOVERY_MAX_DELAY_MS: nat := 2000
  const RECOVERY_BACKOFF_FACTOR: nat := 2

  datatype SafetyState = Normal | Degraded | Recovery | SafeStop
  datatype RecoveryResult = Success | Retry | FailSafe | SystemReset
  datatype Fault = ControlFlow | MemoryCorruption | RedundancyMismatch

  datatype Stats = Stats(controlFlow: uint32, timing: uint32, memory: uint32, redundancy: uint32,
                         successful: uint32, failed: uint32)

  /** `delays` records every recovery sleep so far; nothing the monitor does depends on it. */
  datatype Context = Context(state: SafetyState, lastMonitorTime: uint32, attempts: byte, stats: Stats,
                             checkpoints: seq<uint32>, delays: seq<nat>)

  const NO_CHECKPOINTS: seq<uint32> := [0, 0, 0, 0, 0, 0, 0, 0, 0, 0, 0, 0, 0, 0, 0, 0]
  const INITIAL: Context := Context(Normal, 0, 0, Stats(0, 0, 0, 0, 0, 0), NO_CHECKPOINTS, [])

  /** What the rest of the system supplies to one iteration: the checkpoint values it has left, the
      clock when it is read, and the outcomes of the checks and restorations that are not shown. */
  datatype Surroundings = Surroundings(checkpoints: seq<uint32>, now: nat,
                                       memoryIntact: bool, memoryRestored: bool,
                                       variablesAgree: bool, variablesRestored: bool)

  /** `verify_control_flow`: the registered checkpoints hold the expected values. */
  predicate ControlFlowOk(expected: seq<uint32>, checkpoints: seq<uint32>)
    requires |expected| <= |checkpoints|
  {
    forall i | 0 <= i < |expected| :: checkpoints[i] == expected[i]
  }

  function Power(base: nat, n: nat): nat {
    if n == 0 then 1 else base * Power(base, n - 1)
  }

  /** The back-off before attempt `attempts + 1`. */
  function Delay(attempts: nat): nat {
    Min(RECOVERY_INITIAL_DELAY_MS * Power(RECOVERY_BACKOFF_FACTOR, attempts), RECOVERY_MAX_DELAY_MS)
  }

  datatype Recovered = Recovered(context: Context, result: RecoveryResult)

  /** `execute_recovery_action`. */
  function Recover(expected: seq<uint32>, c: Context, fault: Fault, env: Surroundings): Recovered
    requires |expected| <= MAX_CHECKPOINTS
  {
    match fault
    case ControlFlow =>
      Recovered(c.(checkpoints := NO_CHECKPOINTS), if ControlFlowOk(expected, NO_CHECKPOINTS) then Success else Retry)
    case MemoryCorruption => Recovered(c, if env.memoryRestored then Success else Retry)
    case RedundancyMismatch => Recovered(c, if env.variablesRestored then Success else SystemReset)
  }

  /** `attempt_recovery`. */
  function AttemptRecovery(expected: seq<uint32>, c: Context, fault: Fault, env: Surroundings): Recovered
    requires |expected| <= MAX_CHECKPOINTS
  {
    if c.attempts >= MAX_RECOVERY_ATTEMPTS then
      Recovered(c.(stats := c.stats.(failed := Increment(c.stats.failed))), FailSafe)
    else
      var action := Recover(expected, c.(state := Recovery, delays := c.delays + [Delay(c.attempts)]), fault, env);
      var d := action.context.(attempts := c.attempts + 1);
      if action.result == Success then
        var counted := d.stats.(successful := Increment(d.stats.successful));
        Recovered(d.(stats := counted, attempts := 0, state := Normal), Success)
      else Recovered(d, action.result)
  }

  /** An iteration ends with the monitor running on, or stopped for good in the safe state. */
  datatype Monitor = Running(context: Context) | Stopped(context: Context)

  /** After a recovery: on with the iteration, or into the safe state. */
  function Continue(r: Recovered): Monitor {
    if r.result == Success then Running(r.context) else Stopped(r.context.(state := SafeStop))
  }

  function CheckControlFlow(expected: seq<uint32>, c: Context, env: Surroundings): Monitor
    requires |expected| <= MAX_CHECKPOINTS == |c.checkpoints|
  {
    if ControlFlowOk(expected, c.checkpoints) then Running(c)
    else
      var counted := c.stats.(controlFlow := Increment(c.stats.controlFlow));
      Continue(AttemptRecovery(expected, c.(stats := counted), ControlFlow, env))
  }

  predicate TooSlow(c: Context, now: nat) {
    Elapsed(now % TWO32, c.lastMonitorTime) > MAX_CRITICAL_TASK_TIME_MS
  }

  function CheckTiming(c: Context, env: Surroundings): Context {
    if TooSlow(c, env.now) then c.(stats := c.stats.(timing := Increment(c.stats.timing))) else c
  }

  function CheckMemory(expected: seq<uint32>, c: Context, env: Surroundings): Monitor
    requires |expected| <= MAX_CHECKPOINTS
  {
    if env.memoryIntact then Running(c)
    else
      var counted := c.stats.(memory := Increment(c.stats.memory));
      Continue(AttemptRecovery(expected, c.(stats := counted), MemoryCorruption, env))
  }

  function CheckVariables(expected: seq<uint32>, c: Context, env: Surroundings): Monitor
    requires |expected| <= MAX_CHECKPOINTS
  {
    if env.variablesAgree then Running(c)
    else
      var counted := c.stats.(redundancy := Increment(c.stats.redundancy));
      Continue(AttemptRecovery(expected, c.(stats := counted), RedundancyMismatch, env))
  }

  /** One iteration of `safety_monitor_task`. */
  function Iterate(expected: seq<uint32>, c: Context, env: Surroundings): Monitor
    requires |expected| <= MAX_CHECKPOINTS == |env.checkpoints|
  {
    var m1 := CheckControlFlow(expected, c.(checkpoints := env.checkpoints), env);
    if m1.Stopped? then m1
    else
      var m2 := CheckMemory(expected, CheckTiming(m1.context, env), env);
      if m2.Stopped? then m2
      else
        var m3 := CheckVariables(expected, m2.context, env);
        if m3.Stopped? then m3 else Running(m3.context.(lastMonitorTime := env.now % TWO32))
  }

  // ---------------------------------------------------------------- as the firmware does it

  class SafetyMonitor {
    const expected: seq<uint32>
    var currentState: SafetyState
    var lastMonitorTime: uint32
    var recoveryAttempts: byte
    var stats: Stats
    var checkpoints: seq<uint32>
    ghost var delays: seq<nat>

    constructor (expected: seq<uint32>)
      requires |expected| <= MAX_CHECKPOINTS
      ensures this.expected == expected && Valid() && State() == INITIAL
    {
      this.expected := expected;
      currentState, lastMonitorTime, recoveryAttempts := Normal, 0, 0;
      stats, checkpoints, delays := Stats(0, 0, 0, 0, 0, 0), NO_CHECKPOINTS, [];
    }

    ghost predicate Valid()
      reads this
    {
      |expected| <= MAX_CHECKPOINTS == |checkpoints|
    }

    ghost function State(): Context
      reads this
    {
      Context(currentState, lastMonitorTime, recoveryAttempts, stats, checkpoints, delays)
    }

    /** `verify_control_flow`. */
    method VerifyControlFlow() returns (ok: bool)
      requires Valid()
      ensures ok <==> ControlFlowOk(expected, checkpoints)
    {
      for i := 0 to |expected|
        invariant forall k | 0 <= k < i :: checkpoints[k] == expected[k]
      {
        if checkpoints[i] != expected[i] {
          return false;
        }
      }
      ok := true;
    }

    /** `execute_recovery_action`. */
    method ExecuteRecoveryAction(fault: Fault, env: Surroundings) returns (result: RecoveryResult)
      requires Valid()
      modifies this`checkpoints
      ensures Valid() && Recovered(State(), result) == Recover(expected, old(State()), fault, env)
    {
      match fault {
        case ControlFlow =>
          checkpoints := NO_CHECKPOINTS;
          var ok := VerifyControlFlow();
          result := if ok then Success else Retry;
        case MemoryCorruption =>
          result := if env.memoryRestored then Success else Retry;
        case RedundancyMismatch =>
          result := if env.variablesRestored then Success else SystemReset;
      }
    }

    /** The back-off loop of `attempt_recovery`. */
    method BackOff() returns (delay: nat)
      ensures delay == Delay(recoveryAttempts)
    {
      delay := RECOVERY_INITIAL_DELAY_MS;
      for i := 0 to recoveryAttempts
        invariant delay == RECOVERY_INITIAL_DELAY_MS * Power(RECOVERY_BACKOFF_FACTOR, i)
      {
        delay := delay * RECOVERY_BACKOFF_FACTOR;
      }
      delay := Min(delay, RECOVERY_MAX_DELAY_MS);
    }

    /** `attempt_recovery`. */
    method Attempt(fault: Fault, env: Surroundings) returns (result: RecoveryResult)
      requires Valid()
      modifies this
      ensures Valid() && Recovered(State(), result) == AttemptRecovery(expected, old(State()), fault, env)
    {
      if recoveryAttempts >= MAX_RECOVERY_ATTEMPTS {
        stats := stats.(failed := Increment(stats.failed));
        return FailSafe;
      }
      var delay := BackOff();
      currentState := Recovery;
      delays := delays + [delay];
      result := ExecuteRecoveryAction(fault, env);
      recoveryAttempts := recoveryAttempts + 1;
      if result == Success {
        stats := stats.(successful := Increment(stats.successful));
        recoveryAttempts := 0;
        currentState := Normal;
      }
    }

    /** The abstract outcome of a part of the loop body. */
    ghost function Outcome(running: bool): Monitor
      reads this
    {
      if running then Running(State()) else Stopped(State())
    }

    /** A violation just counted is recovered from, or the safe state is entered. */
    method RecoverOrStop(fault: Fault, env: Surroundings) returns (running: bool)
      requires Valid()
      modifies this
      ensures Valid() && Outcome(running) == Continue(AttemptRecovery(expected, old(State()), fault, env))
    {
      var result := Attempt(fault, env);
      running := result == Success;
      if !running { currentState := SafeStop; }
    }

    method MonitorControlFlow(env: Surroundings) returns (running: bool)
      requires Valid()
      modifies this
      ensures Valid() && Outcome(running) == CheckControlFlow(expected, old(State()), env)
    {
      running := VerifyControlFlow();
      if !running {
        stats := stats.(controlFlow := Increment(stats.controlFlow));
        running := RecoverOrStop(ControlFlow, env);
      }
    }

    method MonitorTiming(env: Surroundings)
      requires Valid()
      modifies this`stats
      ensures Valid() && State() == CheckTiming(old(State()), env)
    {
      if Elapsed(env.now % TWO32, lastMonitorTime) > MAX_CRITICAL_TASK_TIME_MS {
        stats := stats.(timing := Increment(stats.timing));
      }
    }

    method MonitorMemory(env: Surroundings) returns (running: bool)
      requires Valid()
      modifies this
      ensures Valid() && Outcome(running) == CheckMemory(expected, old(State()), env)
    {
      running := env.memoryIntact;
      if !running {
        stats := stats.(memory := Increment(stats.memory));
        running := RecoverOrStop(MemoryCorruption, env);
      }
    }

    method MonitorVariables(env: Surroundings) returns (running: bool)
      requires Valid()
      modifies this
      ensures Valid() && Outcome(running) == CheckVariables(expected, old(State()), env)
    {
      running := env.variablesAgree;
      if !running {
        stats := stats.(redundancy := Increment(stats.redundancy));
        running := RecoverOrStop(RedundancyMismatch, env);
      }
    }

    /** The loop body of `safety_monitor_task`; `running` is false once the safe state is entered,
        from which the firmware never returns. */
    method MonitorOnce(env: Surroundings) returns (running: bool)
      requires Valid() && |env.checkpoints| == MAX_CHECKPOINTS
      modifies this
      ensures Valid() && Outcome(running) == Iterate(expected, old(State()), env)
    {
      checkpoints := env.checkpoints;
      running := MonitorControlFlow(env);
      if !running { return; }
      MonitorTiming(env);
      running := MonitorMemory(env);
      if !running { return; }
      running := MonitorVariables(env);
      if !running { return; }
      lastMonitorTime := env.now % TWO32;
    }
  }
}
