/** Execution-time statistics per task: a table of at most 32 entries found by name, each with
    running figures, a moving average and a ring of snapshots. */
module RuntimeStats {
  import opened Bits

  const MAX_TASKS: nat := 32
  const HISTORY_SIZE: nat := 10
  const MOVING_AVG_WINDOW: nat := 5
  const NAME_SIZE: nat := 32
  const UINT32_MAX: uint32 := 0xFFFF_FFFF

  datatype Stats = Stats(startTime: uint64, totalRuntime: uint64, executionCount: uint32,
                         maxTime: uint32, minTime: uint32, avgTime: uint32)

  datatype Task = Task(current: Stats, history: seq<Stats>, executionTimes: seq<uint32>,
                       historyIndex: nat, movingAvgIndex: nat)

  datatype Entry = Entry(name: string, task: Task)

  const NO_STATS: Stats := Stats(0, 0, 0, 0, 0, 0)
  const NEW_TASK: Task :=
    Task(NO_STATS, [NO_STATS, NO_STATS, NO_STATS, NO_STATS, NO_STATS, NO_STATS, NO_STATS, NO_STATS, NO_STATS, NO_STATS],
         [0, 0, 0, 0, 0], 0, 0)

  ghost predicate ValidTask(t: Task) {
    && |t.history| == HISTORY_SIZE && |t.executionTimes| == MOVING_AVG_WINDOW
    && t.historyIndex < HISTORY_SIZE && t.movingAvgIndex < MOVING_AVG_WINDOW
    && t.current.totalRuntime <= UINT32_MAX
  }

  function StartTask(t: Task, now: uint64): Task {
    t.(current := t.current.(startTime := now, executionCount := Increment(t.current.executionCount)))
  }

  /** The time from start to end, cut to 32 bits, with the source's handling of a clock that came round. */
  function Duration(start: uint64, end: uint64): uint32 {
    (if end >= start then end - start else (TWO64 - 1 - start) + end) % TWO32
  }

  function SumTimes(times: seq<uint32>): nat {
    if times == [] then 0 else SumTimes(times[..|times| - 1]) + times[|times| - 1]
  }

  function Saturated(total: nat): uint32 {
    if total <= UINT32_MAX then total else UINT32_MAX
  }

  lemma {:induction false} SumTimesBound(times: seq<uint32>, bound: nat)
    requires forall k | 0 <= k < |times| :: times[k] <= bound
    ensures SumTimes(times) <= |times| * bound
  {
    if times != [] {
      SumTimesBound(times[..|times| - 1], bound);
      assert |times| * bound == (|times| - 1) * bound + bound;
    }
  }

  function MovingAverage(times: seq<uint32>): uint32
    requires |times| == MOVING_AVG_WINDOW
  {
    SumTimesBound(times, UINT32_MAX);
    SumTimes(times) / MOVING_AVG_WINDOW
  }

  /** The figures after one more execution of `duration`. */
  function Measured(s: Stats, times: seq<uint32>, duration: uint32): Stats
    requires |times| == MOVING_AVG_WINDOW && s.totalRuntime <= UINT32_MAX
  {
    s.(totalRuntime := Saturated(s.totalRuntime + duration),
       maxTime := if duration > s.maxTime then duration else s.maxTime,
       minTime := if duration < s.minTime || s.minTime == 0 then duration else s.minTime,
       avgTime := MovingAverage(times))
  }

  /** The snapshot is due: the count is a positive multiple of 100. */
  predicate SnapshotDue(count: uint32) {
    count % 100 == 0 && count > 0
  }

  function EndTask(t: Task, now: uint64): (r: Task)
    requires ValidTask(t)
    ensures ValidTask(r)
  {
    var duration := Duration(t.current.startTime, now);
    var times := t.executionTimes[t.movingAvgIndex := duration];
    var current := Measured(t.current, times, duration);
    var index := (t.historyIndex + 1) % HISTORY_SIZE;
    var due := SnapshotDue(current.executionCount);
    Task(current.(executionCount := Increment(current.executionCount)),
         if due then t.history[index := current] else t.history, times,
         if due then index else t.historyIndex, (t.movingAvgIndex + 1) % MOVING_AVG_WINDOW)
  }

  // ---------------------------------------------------------------- the table

  /** What `strncpy` keeps of a name. */
  function StoredName(name: string): string {
    if |name| < NAME_SIZE then name else name[..NAME_SIZE - 1]
  }

  /** The position of the first entry with this name, or the table's length. */
  function Find(table: seq<Entry>, name: string): (i: nat)
    ensures i <= |table|
    ensures i < |table| ==> table[i].name == name
    ensures forall k | 0 <= k < i :: table[k].name != name
  {
    if table == [] then 0
    else if table[0].name == name then 0
    else 1 + Find(table[1..], name)
  }

  datatype Call = StartCall(name: string, now: uint64) | EndCall(name: string, now: uint64)

  function Applied(t: Task, c: Call): (r: Task)
    requires ValidTask(t)
    ensures ValidTask(r)
  {
    if c.StartCall? then StartTask(t, c.now) else EndTask(t, c.now)
  }

  ghost predicate ValidTable(table: seq<Entry>) {
    |table| <= MAX_TASKS && forall k | 0 <= k < |table| :: ValidTask(table[k].task)
  }

  /** `runtime_stats_start_task` and `runtime_stats_end_task` on the table. */
  function AppliedTable(table: seq<Entry>, c: Call): (r: seq<Entry>)
    requires ValidTable(table)
    ensures ValidTable(r)
  {
    var i := Find(table, c.name);
    if i < |table| then table[i := Entry(table[i].name, Applied(table[i].task, c))]
    else if |table| < MAX_TASKS then table + [Entry(StoredName(c.name), Applied(NEW_TASK, c))]
    else table
  }

  /** `runtime_stats_verify_history`. */
  predicate HistoryVerified(table: seq<Entry>, name: string)
  {
    var i := Find(table, name);
    i < |table| ==>
      var history := table[i].task.history;
      forall j | 0 <= j < |history| && history[j].executionCount > 0 :: history[j].minTime <= history[j].maxTime
  }

  /** The snapshots whose average is over a fifth higher than the one in the slot before. */
  function TrendCount(history: seq<Stats>): nat {
    if |history| < 2 then 0
    else
      var before, last := history[|history| - 2].avgTime, history[|history| - 1].avgTime;
      TrendCount(history[..|history| - 1]) + (if before > 0 && last as real > before as real * 1.2 then 1 else 0)
  }

  predicate TrendWarning(t: Task) {
    TrendCount(t.history) >= HISTORY_SIZE / 2
  }

  // ---------------------------------------------------------------- as the firmware does it

  class Statistics {
    var table: seq<Entry>

    constructor ()
      ensures table == [] && ValidTable(table)
    {
      table := [];
    }

    /** `find_or_create_task`: the entry's position, or -1 when the table is full. */
    method FindOrCreate(name: string) returns (i: int)
      requires ValidTable(table)
      modifies this
      ensures ValidTable(table)
      ensures var k := Find(old(table), name);
              if k < |old(table)| then i == k && table == old(table)
              else if |old(table)| < MAX_TASKS then
                i == |old(table)| && table == old(table) + [Entry(StoredName(name), NEW_TASK)]
              else i == -1 && table == old(table)
    {
      for k := 0 to |table|
        invariant table == old(table) && forall j | 0 <= j < k :: table[j].name != name
      {
        if table[k].name == name {
          return k;
        }
      }
      if |table| < MAX_TASKS {
        table := table + [Entry(StoredName(name), NEW_TASK)];
        return |table| - 1;
      }
      i := -1;
    }

    method StartTaskNamed(name: string, now: uint64)
      requires ValidTable(table)
      modifies this
      ensures ValidTable(table) && table == AppliedTable(old(table), StartCall(name, now))
    {
      var i := FindOrCreate(name);
      if i >= 0 {
        var t := table[i].task;
        t := t.(current := t.current.(startTime := now));
        t := t.(current := t.current.(executionCount := Increment(t.current.executionCount)));
        table := table[i := Entry(table[i].name, t)];
      }
    }

    /** `update_moving_average`: the ring takes the duration and its five slots are averaged. */
    static method UpdateMovingAverage(t: Task, duration: uint32) returns (r: Task)
      requires ValidTask(t)
      ensures var times := t.executionTimes[t.movingAvgIndex := duration];
              r == t.(executionTimes := times, movingAvgIndex := (t.movingAvgIndex + 1) % MOVING_AVG_WINDOW,
                      current := t.current.(avgTime := MovingAverage(times)))
    {
      var times := t.executionTimes[t.movingAvgIndex := duration];
      var sum := 0;
      for i := 0 to MOVING_AVG_WINDOW
        invariant sum == SumTimes(times[..i])
      {
        assert times[..i + 1][..i] == times[..i];
        sum := sum + times[i];
      }
      assert times[..MOVING_AVG_WINDOW] == times;
      SumTimesBound(times, UINT32_MAX);
      r := t.(executionTimes := times, movingAvgIndex := (t.movingAvgIndex + 1) % MOVING_AVG_WINDOW,
              current := t.current.(avgTime := sum / MOVING_AVG_WINDOW));
    }

    /** What `runtime_stats_end_task` does to the entry it finds. */
    static method MeasureTask(task: Task, now: uint64) returns (t: Task)
      requires ValidTask(task)
      ensures t == EndTask(task, now)
    {
      t := task;
      var duration := Duration(t.current.startTime, now);
      t := t.(current := t.current.(totalRuntime := Saturated(t.current.totalRuntime + duration)));
      if duration > t.current.maxTime {
        t := t.(current := t.current.(maxTime := duration));
      }
      if duration < t.current.minTime || t.current.minTime == 0 {
        t := t.(current := t.current.(minTime := duration));
      }
      t := UpdateMovingAverage(t, duration);
      if t.current.executionCount % 100 == 0 && t.current.executionCount > 0 {
        t := t.(historyIndex := (t.historyIndex + 1) % HISTORY_SIZE);
        t := t.(history := t.history[t.historyIndex := t.current]);
      }
      t := t.(current := t.current.(executionCount := Increment(t.current.executionCount)));
    }

    method EndTaskNamed(name: string, now: uint64)
      requires ValidTable(table)
      modifies this
      ensures ValidTable(table) && table == AppliedTable(old(table), EndCall(name, now))
    {
      var i := FindOrCreate(name);
      if i >= 0 {
        var t := MeasureTask(table[i].task, now);
        table := table[i := Entry(table[i].name, t)];
      }
    }

    /** `runtime_stats_verify_history`. */
    method VerifyHistory(name: string) returns (ok: bool)
      requires ValidTable(table)
      ensures ok <==> HistoryVerified(table, name)
    {
      for i := 0 to |table|
        invariant forall k | 0 <= k < i :: table[k].name != name
      {
        if table[i].name == name {
          var history := table[i].task.history;
          for j := 0 to HISTORY_SIZE
            invariant forall k | 0 <= k < j && history[k].executionCount > 0 :: history[k].minTime <= history[k].maxTime
          {
            if history[j].executionCount > 0 && history[j].minTime > history[j].maxTime {
              return false;
            }
          }
          return true;
        }
      }
      ok := true;
    }

    /** The loop of `analyze_runtime_trend` on one task: whether it logs a warning. */
    static method AnalyzeTrend(t: Task) returns (warning: bool)
      requires ValidTask(t)
      ensures warning <==> TrendWarning(t)
    {
      var previous: uint32, trend := 0, 0;
      for j := 0 to HISTORY_SIZE
        invariant trend == TrendCount(t.history[..j])
        invariant previous == if j == 0 then 0 else t.history[j - 1].avgTime
      {
        assert t.history[..j + 1][..j] == t.history[..j];
        var average := t.history[j].avgTime;
        if previous > 0 && average as real > previous as real * 1.2 {
          trend := trend + 1;
        }
        previous := average;
      }
      assert t.history[..HISTORY_SIZE] == t.history;
      warning := trend >= HISTORY_SIZE / 2;
    }
  }
}
