/** What holds of the runtime statistics over every order of calls. */
module RuntimeStatsRuns {
  import opened Bits
  import opened RuntimeStats

  function TableAfter(calls: seq<Call>): (r: seq<Entry>)
    ensures ValidTable(r)
  {
    if calls == [] then [] else AppliedTable(TableAfter(calls[..|calls| - 1]), calls[|calls| - 1])
  }

  /** A task after the calls that name it. */
  function TaskAfter(calls: seq<Call>): (r: Task)
    ensures ValidTask(r)
  {
    if calls == [] then NEW_TASK else Applied(TaskAfter(calls[..|calls| - 1]), calls[|calls| - 1])
  }

  // ---------------------------------------------------------------- figures of one task

  ghost predicate Consistent(t: Task) {
    && ValidTask(t)
    && t.current.minTime <= t.current.maxTime && t.current.avgTime <= t.current.maxTime
    && (forall k | 0 <= k < MOVING_AVG_WINDOW :: t.executionTimes[k] <= t.current.maxTime)
    && (forall k | 0 <= k < HISTORY_SIZE :: t.history[k].minTime <= t.history[k].maxTime
                                         && t.history[k].avgTime <= t.history[k].maxTime)
  }

  lemma CallKeepsConsistent(t: Task, c: Call)
    requires Consistent(t)
    ensures Consistent(Applied(t, c))
  {
    if c.EndCall? {
      var duration := Duration(t.current.startTime, c.now);
      var times := t.executionTimes[t.movingAvgIndex := duration];
      SumTimesBound(times, if duration > t.current.maxTime then duration else t.current.maxTime);
    }
  }

  /** In every order of calls, for every task, minimum and moving average stay at or below the
      maximum, and so they do in every snapshot. */
  lemma {:induction false} EveryTaskConsistent(calls: seq<Call>)
    ensures forall k | 0 <= k < |TableAfter(calls)| :: Consistent(TableAfter(calls)[k].task)
  {
    if calls != [] {
      var table, c := TableAfter(calls[..|calls| - 1]), calls[|calls| - 1];
      EveryTaskConsistent(calls[..|calls| - 1]);
      var i := Find(table, c.name);
      CallKeepsConsistent(if i < |table| then table[i].task else NEW_TASK, c);
    }
  }

  /** So `runtime_stats_verify_history` never finds fault. */
  lemma HistoryAlwaysVerified(calls: seq<Call>, name: string)
    ensures HistoryVerified(TableAfter(calls), name)
  {
    EveryTaskConsistent(calls);
  }

  /** When the last start call came; 0 before the first. */
  function LastStart(calls: seq<Call>): uint64 {
    if calls == [] then 0
    else if calls[|calls| - 1].StartCall? then calls[|calls| - 1].now
    else LastStart(calls[..|calls| - 1])
  }

  /** The time recorded is that of the last start call. */
  lemma {:induction false} StartRecorded(calls: seq<Call>)
    ensures TaskAfter(calls).current.startTime == LastStart(calls)
  {
    if calls != [] { StartRecorded(calls[..|calls| - 1]); }
  }

  /** The durations of the end calls of one task, each from the last start call before it. */
  function Durations(calls: seq<Call>): seq<uint32> {
    if calls == [] then []
    else
      var before, c := calls[..|calls| - 1], calls[|calls| - 1];
      if c.EndCall? then Durations(before) + [Duration(LastStart(before), c.now)] else Durations(before)
  }

  /** A duration is the time from start to end, modulo 2^32, when the end is not earlier, and one
      millisecond short of it when the 64-bit clock came round between them. */
  lemma DurationOf(start: uint64, end: uint64)
    ensures start <= end < start + 0x1_0000_0000 ==> Duration(start, end) == end - start
    ensures start <= end ==> Duration(start, end) == (end - start) % 0x1_0000_0000
    ensures end < start ==> Duration(start, end) == (end + 0x1_0000_0000_0000_0000 - start - 1) % 0x1_0000_0000
  {
    if start <= end < start + TWO32 { SmallModulo(end - start); }
  }

  lemma CallCounts(t: Task, c: Call)
    requires ValidTask(t)
    ensures Applied(t, c).current.executionCount == Increment(t.current.executionCount)
    ensures Applied(t, c).current.totalRuntime
         == if c.EndCall? then Saturated(t.current.totalRuntime + Duration(t.current.startTime, c.now))
            else t.current.totalRuntime
  {}

  lemma SumSnoc(times: seq<uint32>, d: uint32)
    ensures SumTimes(times + [d]) == SumTimes(times) + d
  {
    assert (times + [d])[..|times|] == times;
  }

  /** The total runtime is the sum of the durations, held at 2^32 - 1, and the count is the number
      of start and end calls together, modulo 2^32. */
  lemma {:induction false} TotalsOfTask(calls: seq<Call>)
    ensures TaskAfter(calls).current.totalRuntime == Min(SumTimes(Durations(calls)), 0xFFFF_FFFF)
    ensures TaskAfter(calls).current.executionCount == |calls| % TWO32
  {
    if calls != [] {
      var before, c := calls[..|calls| - 1], calls[|calls| - 1];
      TotalsOfTask(before);
      CallCounts(TaskAfter(before), c);
      StartRecorded(before);
      IncrementModulo(|before|);
      SumSnoc(Durations(before), Duration(LastStart(before), c.now));
    }
  }

  /** The durations since the last of 0 ms. */
  function SinceZero(ds: seq<uint32>): seq<uint32> {
    if ds == [] || ds[|ds| - 1] == 0 then [] else SinceZero(ds[..|ds| - 1]) + [ds[|ds| - 1]]
  }

  /** The last five durations, or all of them. */
  function LastFive(ds: seq<uint32>): seq<uint32> {
    if |ds| <= MOVING_AVG_WINDOW then ds else ds[|ds| - MOVING_AVG_WINDOW..]
  }

  ghost predicate IsLeast(x: uint32, ds: seq<uint32>) {
    x in ds && forall i | 0 <= i < |ds| :: x <= ds[i]
  }

  ghost predicate IsGreatest(x: uint32, ds: seq<uint32>) {
    x in ds && forall i | 0 <= i < |ds| :: ds[i] <= x
  }

  /** The minimum is the least duration since the last of 0 ms, or 0 when there is none; the maximum is
      the greatest duration. */
  ghost predicate ExtremesOf(t: Task, ds: seq<uint32>) {
    && (if SinceZero(ds) == [] then t.current.minTime == 0 else IsLeast(t.current.minTime, SinceZero(ds)))
    && (if ds == [] then t.current.maxTime == 0 else IsGreatest(t.current.maxTime, ds))
    && (forall i | 0 <= i < |SinceZero(ds)| :: SinceZero(ds)[i] > 0)
  }

  lemma ExtremesStep(t: Task, ds: seq<uint32>, now: uint64)
    requires ValidTask(t) && ExtremesOf(t, ds)
    ensures ExtremesOf(EndTask(t, now), ds + [Duration(t.current.startTime, now)])
  {
    var d := Duration(t.current.startTime, now);
    assert (ds + [d])[..|ds|] == ds && (ds + [d])[|ds|] == d;
    assert d != 0 ==> (SinceZero(ds) + [d])[|SinceZero(ds)|] == d;
  }

  lemma {:induction false} ExtremesOfTask(calls: seq<Call>)
    ensures ExtremesOf(TaskAfter(calls), Durations(calls))
  {
    if calls != [] {
      var before, c := calls[..|calls| - 1], calls[|calls| - 1];
      ExtremesOfTask(before);
      StartRecorded(before);
      if c.EndCall? { ExtremesStep(TaskAfter(before), Durations(before), c.now); }
    }
  }

  /** The moving-average ring holds the last five durations, slot `j % 5` duration `j`, and 0 where none
      has come yet. */
  ghost predicate RingOf(t: Task, ds: seq<uint32>) {
    && ValidTask(t) && t.movingAvgIndex == |ds| % MOVING_AVG_WINDOW
    && (forall j | 0 <= j < |ds| && |ds| - MOVING_AVG_WINDOW <= j :: t.executionTimes[j % MOVING_AVG_WINDOW] == ds[j])
    && (forall k | |ds| <= k < MOVING_AVG_WINDOW :: t.executionTimes[k] == 0)
  }

  /** The average is a fifth of the last five durations' sum, those not yet there counting as 0. */
  ghost predicate AverageOf(t: Task, ds: seq<uint32>) {
    RingOf(t, ds) && SumTimes(t.executionTimes) == SumTimes(LastFive(ds))
    && t.current.avgTime == SumTimes(LastFive(ds)) / MOVING_AVG_WINDOW
  }

  lemma {:induction false} SumAppend(xs: seq<uint32>, ys: seq<uint32>)
    ensures SumTimes(xs + ys) == SumTimes(xs) + SumTimes(ys)
  {
    if ys == [] {
      assert xs + ys == xs;
    } else {
      var init := ys[..|ys| - 1];
      SumAppend(xs, init);
      assert (xs + ys)[..|xs + ys| - 1] == xs + init;
    }
  }

  lemma SumUpdated(times: seq<uint32>, i: nat, d: uint32)
    requires i < |times|
    ensures SumTimes(times[i := d]) == SumTimes(times) - times[i] + d
  {
    var front, back := times[..i], times[i + 1..];
    assert times == front + [times[i]] + back && times[i := d] == front + [d] + back;
    SumAppend(front + [times[i]], back);
    SumAppend(front + [d], back);
    SumSnoc(front, times[i]);
    SumSnoc(front, d);
  }

  lemma LastFiveStep(ds: seq<uint32>, d: uint32)
    ensures SumTimes(LastFive(ds + [d]))
         == SumTimes(LastFive(ds)) + d - (if |ds| < MOVING_AVG_WINDOW then 0 else ds[|ds| - MOVING_AVG_WINDOW])
  {
    if |ds| < MOVING_AVG_WINDOW {
      SumSnoc(ds, d);
    } else {
      var from := |ds| - MOVING_AVG_WINDOW;
      assert ds[from..] == [ds[from]] + ds[from + 1..];
      assert LastFive(ds + [d]) == ds[from + 1..] + [d];
      SumAppend([ds[from]], ds[from + 1..]);
      SumSnoc([], ds[from]);
      SumSnoc(ds[from + 1..], d);
    }
  }

  lemma FifthBack(n: nat)
    ensures n >= MOVING_AVG_WINDOW ==> (n - MOVING_AVG_WINDOW) % MOVING_AVG_WINDOW == n % MOVING_AVG_WINDOW
    ensures n < MOVING_AVG_WINDOW ==> n % MOVING_AVG_WINDOW == n
    ensures (n % MOVING_AVG_WINDOW + 1) % MOVING_AVG_WINDOW == (n + 1) % MOVING_AVG_WINDOW
  {}

  lemma OtherSlot(j: nat, n: nat)
    requires j < n < j + MOVING_AVG_WINDOW
    ensures j % MOVING_AVG_WINDOW != n % MOVING_AVG_WINDOW
  {}

  lemma RingStep(t: Task, ds: seq<uint32>, now: uint64)
    requires RingOf(t, ds)
    ensures RingOf(EndTask(t, now), ds + [Duration(t.current.startTime, now)])
    ensures t.executionTimes[t.movingAvgIndex]
         == if |ds| < MOVING_AVG_WINDOW then 0 else ds[|ds| - MOVING_AVG_WINDOW]
  {
    var d, n, u := Duration(t.current.startTime, now), |ds|, EndTask(t, now);
    FifthBack(n);
    forall j | 0 <= j < n && n + 1 - MOVING_AVG_WINDOW <= j
      ensures u.executionTimes[j % MOVING_AVG_WINDOW] == (ds + [d])[j]
    {
      OtherSlot(j, n);
    }
  }

  lemma AverageStep(t: Task, ds: seq<uint32>, now: uint64)
    requires AverageOf(t, ds)
    ensures AverageOf(EndTask(t, now), ds + [Duration(t.current.startTime, now)])
  {
    var d := Duration(t.current.startTime, now);
    RingStep(t, ds, now);
    SumUpdated(t.executionTimes, t.movingAvgIndex, d);
    LastFiveStep(ds, d);
  }

  lemma {:induction false} AverageOfTask(calls: seq<Call>)
    ensures AverageOf(TaskAfter(calls), Durations(calls))
  {
    if calls == [] {
      assert NEW_TASK.executionTimes == [0] + [0] + [0] + [0] + [0];
      SumSnoc([0] + [0] + [0] + [0], 0);
      SumSnoc([0] + [0] + [0], 0);
      SumSnoc([0] + [0], 0);
      SumSnoc([0], 0);
      SumSnoc([], 0);
    } else {
      var before, c := calls[..|calls| - 1], calls[|calls| - 1];
      AverageOfTask(before);
      StartRecorded(before);
      if c.EndCall? { AverageStep(TaskAfter(before), Durations(before), c.now); }
    }
  }

  /** What an end call does to the snapshots of a task that `n` calls came before: a positive
      multiple of 100, modulo 2^32, stores the new figures with that count in the next slot, and
      nothing else stores anything. */
  ghost predicate SnapshotRule(t: Task, u: Task, n: nat)
    requires ValidTask(t)
  {
    var count, slot := n % TWO32, (t.historyIndex + 1) % HISTORY_SIZE;
    if count > 0 && count % 100 == 0 then
      u.historyIndex == slot && u.history == t.history[slot := u.current.(executionCount := count)]
    else u.historyIndex == t.historyIndex && u.history == t.history
  }

  lemma SnapshotsStored(calls: seq<Call>, now: uint64)
    ensures SnapshotRule(TaskAfter(calls), EndTask(TaskAfter(calls), now), |calls|)
  {
    TotalsOfTask(calls);
    SnapshotOf(TaskAfter(calls), now, |calls|);
  }

  lemma SnapshotOf(t: Task, now: uint64, n: nat)
    requires ValidTask(t) && t.current.executionCount == n % TWO32
    ensures SnapshotRule(t, EndTask(t, now), n)
  {}

  // ---------------------------------------------------------------- what is read off the snapshots

  /** The average of slot `j` is more than a fifth above a nonzero one in the slot before. */
  ghost predicate RisesTo(history: seq<Stats>, j: nat) {
    1 <= j < |history| && var before := history[j - 1].avgTime; 0 < before && 5 * history[j].avgTime > 6 * before
  }

  ghost function Rises(history: seq<Stats>): set<nat> {
    set j: nat | j < |history| && RisesTo(history, j)
  }

  lemma RisesAt(before: uint32, last: uint32)
    ensures last as real > before as real * 1.2 <==> 5 * last > 6 * before
  {}

  lemma {:induction false} TrendIsRises(history: seq<Stats>)
    ensures TrendCount(history) == |Rises(history)|
  {
    if |history| < 2 {
      assert Rises(history) == {};
    } else {
      var init, j := history[..|history| - 1], |history| - 1;
      TrendIsRises(init);
      RisesAt(history[j - 1].avgTime, history[j].avgTime);
      RisesSnoc(history);
    }
  }

  lemma RisesSnoc(history: seq<Stats>)
    requires |history| >= 2
    ensures var j := |history| - 1;
            |Rises(history)| == |Rises(history[..j])| + if RisesTo(history, j) then 1 else 0
  {
    var init, j := history[..|history| - 1], |history| - 1;
    forall k: nat | k < j ensures RisesTo(history, k) <==> RisesTo(init, k) {}
    assert Rises(history) == if RisesTo(history, j) then Rises(init) + {j} else Rises(init);
  }

  /** The warning fires exactly when at least five of the ten slots rise over the one before. */
  lemma TrendWarns(t: Task)
    requires ValidTask(t)
    ensures TrendWarning(t) <==> |Rises(t.history)| >= 5
  {
    TrendIsRises(t.history);
  }

  /** The history check of any table fails exactly when the first entry of that name holds a snapshot, of
      at least one execution, whose minimum is above its maximum. */
  lemma HistoryFaults(table: seq<Entry>, name: string)
    ensures !HistoryVerified(table, name)
       <==> exists k, j | 0 <= k < |table| && 0 <= j < |table[k].task.history| ::
              && table[k].name == name && (forall i | 0 <= i < k :: table[i].name != name)
              && table[k].task.history[j].executionCount > 0
              && table[k].task.history[j].minTime > table[k].task.history[j].maxTime
  {
    var k := Find(table, name);
    if !HistoryVerified(table, name) {
      var j :| 0 <= j < |table[k].task.history| && table[k].task.history[j].executionCount > 0
               && table[k].task.history[j].minTime > table[k].task.history[j].maxTime;
      assert table[k].name == name && forall i | 0 <= i < k :: table[i].name != name;
    }
  }

  // ---------------------------------------------------------------- starts and ends in turn

  ghost predicate Alternating(calls: seq<Call>) {
    forall k | 0 <= k < |calls| :: calls[k].StartCall? <==> k % 2 == 0
  }

  /** When starts and ends alternate, as intended, the count an end call reads is odd, so no
      snapshot is ever stored and the trend warning cannot fire. */
  lemma {:induction false} AlternatingStoresNothing(calls: seq<Call>)
    requires Alternating(calls)
    ensures TaskAfter(calls).history == NEW_TASK.history && !TrendWarning(TaskAfter(calls))
  {
    if calls != [] {
      var before := calls[..|calls| - 1];
      AlternatingStoresNothing(before);
      TotalsOfTask(before);
      if calls[|calls| - 1].EndCall? { OddCount(|before|); }
    }
    NoTrend(HISTORY_SIZE);
    assert NEW_TASK.history[..HISTORY_SIZE] == NEW_TASK.history;
  }

  lemma OddCount(n: nat)
    requires n % 2 == 1
    ensures !SnapshotDue(n % TWO32)
  {
    var m := n % TWO32;
    assert n == 2 * (n / TWO32 * 0x8000_0000) + m;
    assert m == 2 * (m / 100 * 50) + m % 100;
  }

  lemma {:induction false} NoTrend(j: nat)
    requires j <= HISTORY_SIZE
    ensures TrendCount(NEW_TASK.history[..j]) == 0
  {
    if j > 0 {
      NoTrend(j - 1);
      assert NEW_TASK.history[..j][..j - 1] == NEW_TASK.history[..j - 1];
      if j > 1 { assert NEW_TASK.history[..j][j - 2] == NO_STATS; }
    }
  }

  // ---------------------------------------------------------------- the table as a map

  /** The calls that name `name`. */
  function CallsOf(calls: seq<Call>, name: string): seq<Call> {
    if calls == [] then []
    else CallsOf(calls[..|calls| - 1], name) + (if calls[|calls| - 1].name == name then [calls[|calls| - 1]] else [])
  }

  /** An entry's figures are those of its own calls. */
  ghost predicate Figures(e: Entry, calls: seq<Call>) {
    e.task == TaskAfter(CallsOf(calls, e.name)) && CallsOf(calls, e.name) != []
  }

  ghost predicate Distinct(table: seq<Entry>) {
    forall i, j | 0 <= i < j < |table| :: table[i].name != table[j].name
  }

  /** Names are distinct, each entry's figures are those of its own calls alone, and a name is left
      out only when the table is full. */
  ghost predicate IsMap(table: seq<Entry>, calls: seq<Call>) {
    && Distinct(table)
    && (forall i | 0 <= i < |table| :: Figures(table[i], calls))
    && (forall c <- calls :: Find(table, c.name) < |table| || |table| == MAX_TASKS)
  }

  /** A name that is not cut. */
  predicate Fits(name: string) {
    |name| < NAME_SIZE
  }

  /** Every call whose name does not fit comes when the table is full. */
  ghost predicate LongNamesOnlyWhenFull(calls: seq<Call>) {
    forall i | 0 <= i < |calls| && !Fits(calls[i].name) :: |TableAfter(calls[..i])| == MAX_TASKS
  }

  lemma OwnCall(calls: seq<Call>, c: Call, name: string)
    ensures CallsOf(calls + [c], name) == CallsOf(calls, name) + (if c.name == name then [c] else [])
    ensures TaskAfter(CallsOf(calls + [c], name))
         == if c.name == name then Applied(TaskAfter(CallsOf(calls, name)), c) else TaskAfter(CallsOf(calls, name))
  {
    assert (calls + [c])[..|calls|] == calls;
    var own := CallsOf(calls, name);
    assert (own + [c])[..|own|] == own;
    assert own + [] == own;
  }

  lemma {:induction false} NeverCalled(calls: seq<Call>, name: string)
    requires forall c <- calls :: c.name != name
    ensures CallsOf(calls, name) == []
  {
    if calls != [] {
      assert calls[|calls| - 1] in calls;
      NeverCalled(calls[..|calls| - 1], name);
    }
  }

  lemma FindAfterUpdate(table: seq<Entry>, updated: seq<Entry>, name: string)
    requires |table| <= |updated| && forall k | 0 <= k < |table| :: updated[k].name == table[k].name
    requires Find(table, name) < |table|
    ensures Find(updated, name) < |updated|
  {
    assert updated[Find(table, name)].name == name;
  }

  /** Stored names always fit. */
  lemma {:induction false} StoredNamesFit(calls: seq<Call>)
    ensures forall k | 0 <= k < |TableAfter(calls)| :: Fits(TableAfter(calls)[k].name)
  {
    if calls != [] { StoredNamesFit(calls[..|calls| - 1]); }
  }

  /** So a name that does not fit is never found again: each call that uses it makes one more entry
      while there is room, and is dropped after that. */
  lemma LongNamesPileUp(calls: seq<Call>, c: Call)
    requires !Fits(c.name)
    ensures var table := TableAfter(calls);
            TableAfter(calls + [c])
            == if |table| < MAX_TASKS then table + [Entry(c.name[..NAME_SIZE - 1], Applied(NEW_TASK, c))] else table
  {
    StoredNamesFit(calls);
    assert (calls + [c])[..|calls|] == calls;
    assert Find(TableAfter(calls), c.name) == |TableAfter(calls)|;
  }

  // ---------------------------------------------------------------- while it is a map

  lemma UntouchedFigures(e: Entry, calls: seq<Call>, c: Call)
    requires Figures(e, calls) && c.name != e.name
    ensures Figures(e, calls + [c])
  {
    OwnCall(calls, c, e.name);
  }

  lemma UpdatedFigures(e: Entry, calls: seq<Call>, c: Call)
    requires ValidTask(e.task) && Figures(e, calls) && c.name == e.name
    ensures Figures(Entry(e.name, Applied(e.task, c)), calls + [c])
  {
    OwnCall(calls, c, e.name);
  }

  lemma CreatedFigures(calls: seq<Call>, c: Call)
    requires CallsOf(calls, c.name) == []
    ensures Figures(Entry(c.name, Applied(NEW_TASK, c)), calls + [c])
  {
    OwnCall(calls, c, c.name);
  }

  lemma CallKeepsFigures(table: seq<Entry>, calls: seq<Call>, c: Call, k: nat)
    requires ValidTable(table) && IsMap(table, calls) && (Fits(c.name) || |table| == MAX_TASKS)
    requires k < |AppliedTable(table, c)|
    ensures Figures(AppliedTable(table, c)[k], calls + [c])
  {
    var i := Find(table, c.name);
    if k == |table| {
      NewName(table, calls, c.name);
      CreatedFigures(calls, c);
    } else {
      assert Figures(table[k], calls);
      if k == i {
        UpdatedFigures(table[k], calls, c);
      } else {
        OtherName(table, c.name, k);
        UntouchedFigures(table[k], calls, c);
      }
    }
  }

  lemma OtherName(table: seq<Entry>, name: string, k: nat)
    requires Distinct(table) && k < |table| && k != Find(table, name)
    ensures table[k].name != name
  {
    var i := Find(table, name);
    if i < k { assert table[i].name != table[k].name; }
  }

  lemma NewName(table: seq<Entry>, calls: seq<Call>, name: string)
    requires IsMap(table, calls) && Find(table, name) == |table| < MAX_TASKS
    ensures CallsOf(calls, name) == []
  {
    NeverCalled(calls, name);
  }

  lemma CallKeepsNames(table: seq<Entry>, calls: seq<Call>, c: Call, d: Call)
    requires ValidTable(table) && (Fits(c.name) || |table| == MAX_TASKS) && d in calls + [c]
    requires forall c <- calls :: Find(table, c.name) < |table| || |table| == MAX_TASKS
    ensures Find(AppliedTable(table, c), d.name) < |AppliedTable(table, c)| || |AppliedTable(table, c)| == MAX_TASKS
  {
    var r := AppliedTable(table, c);
    if Find(table, d.name) < |table| {
      FindAfterUpdate(table, r, d.name);
    } else if d == c && |table| < MAX_TASKS {
      assert r[|table|].name == d.name;
    }
  }

  lemma CallKeepsDistinct(table: seq<Entry>, c: Call)
    requires ValidTable(table) && Distinct(table) && (Fits(c.name) || |table| == MAX_TASKS)
    ensures Distinct(AppliedTable(table, c))
  {}

  lemma CallKeepsMap(table: seq<Entry>, calls: seq<Call>, c: Call)
    requires ValidTable(table) && IsMap(table, calls) && (Fits(c.name) || |table| == MAX_TASKS)
    ensures IsMap(AppliedTable(table, c), calls + [c])
  {
    var r := AppliedTable(table, c);
    CallKeepsDistinct(table, c);
    forall k | 0 <= k < |r| ensures Figures(r[k], calls + [c]) {
      CallKeepsFigures(table, calls, c, k);
    }
    forall d | d in calls + [c] ensures Find(r, d.name) < |r| || |r| == MAX_TASKS {
      CallKeepsNames(table, calls, c, d);
    }
  }

  lemma LongNamesPrefix(calls: seq<Call>)
    requires calls != [] && LongNamesOnlyWhenFull(calls)
    ensures LongNamesOnlyWhenFull(calls[..|calls| - 1])
    ensures Fits(calls[|calls| - 1].name) || |TableAfter(calls[..|calls| - 1])| == MAX_TASKS
  {
    var before := calls[..|calls| - 1];
    forall i | 0 <= i < |before| && !Fits(before[i].name) ensures |TableAfter(before[..i])| == MAX_TASKS {
      assert before[..i] == calls[..i] && before[i] == calls[i];
    }
  }

  lemma {:induction false} StaysMap(calls: seq<Call>)
    requires LongNamesOnlyWhenFull(calls)
    ensures IsMap(TableAfter(calls), calls)
  {
    if calls != [] {
      var before, c := calls[..|calls| - 1], calls[|calls| - 1];
      assert before + [c] == calls;
      LongNamesPrefix(calls);
      StaysMap(before);
      CallKeepsMap(TableAfter(before), before, c);
    }
  }

  // ---------------------------------------------------------------- once it is none

  /** Two entries have one name, or an entry counts one call more than its name had. */
  ghost predicate Broken(table: seq<Entry>, calls: seq<Call>) {
    !Distinct(table) || exists k | 0 <= k < |table| :: Overcounts(table[k], calls)
  }

  ghost predicate Overcounts(e: Entry, calls: seq<Call>) {
    e.task.current.executionCount == (|CallsOf(calls, e.name)| + 1) % TWO32
  }

  lemma SuccessorDiffers(n: nat)
    ensures n % TWO32 != (n + 1) % TWO32
  {}

  lemma BrokenIsNoMap(table: seq<Entry>, calls: seq<Call>)
    requires Broken(table, calls)
    ensures !IsMap(table, calls)
  {
    if Distinct(table) && IsMap(table, calls) {
      var k :| 0 <= k < |table| && Overcounts(table[k], calls);
      assert Figures(table[k], calls);
      TotalsOfTask(CallsOf(calls, table[k].name));
      SuccessorDiffers(|CallsOf(calls, table[k].name)|);
    }
  }

  /** A name that fits and was called is in the table, unless that is full. */
  lemma {:induction false} CalledNamesFound(calls: seq<Call>, c: Call)
    requires c in calls && Fits(c.name)
    ensures Find(TableAfter(calls), c.name) < |TableAfter(calls)| || |TableAfter(calls)| == MAX_TASKS
  {
    var before, last := calls[..|calls| - 1], calls[|calls| - 1];
    if c in before {
      CalledNamesFound(before, c);
      if Find(TableAfter(before), c.name) < |TableAfter(before)| {
        FindAfterUpdate(TableAfter(before), TableAfter(calls), c.name);
      }
    } else if Find(TableAfter(before), c.name) == |TableAfter(before)| < MAX_TASKS {
      assert TableAfter(calls)[|TableAfter(before)|].name == c.name;
    } else if |TableAfter(before)| < MAX_TASKS {
      FindAfterUpdate(TableAfter(before), TableAfter(calls), c.name);
    }
  }

  lemma MissingNameUncalled(calls: seq<Call>, name: string)
    requires Fits(name) && Find(TableAfter(calls), name) == |TableAfter(calls)| < MAX_TASKS
    ensures CallsOf(calls, name) == []
  {
    forall d | d in calls ensures d.name != name {
      if d.name == name { CalledNamesFound(calls, d); }
    }
    NeverCalled(calls, name);
  }

  lemma NewEntryOvercounts(calls: seq<Call>, c: Call, name: string)
    requires CallsOf(calls, name) == [] && c.name != name
    ensures Overcounts(Entry(name, Applied(NEW_TASK, c)), calls + [c])
  {
    OwnCall(calls, c, name);
    CallCounts(NEW_TASK, c);
  }

  /** A long name that comes while there is room breaks the map. */
  lemma LongNameBreaks(calls: seq<Call>, c: Call)
    requires !Fits(c.name) && |TableAfter(calls)| < MAX_TASKS
    ensures Broken(TableAfter(calls + [c]), calls + [c])
  {
    var table, after, cut := TableAfter(calls), TableAfter(calls + [c]), c.name[..NAME_SIZE - 1];
    LongNamesPileUp(calls, c);
    assert after[|table|].name == cut;
    if Find(table, cut) < |table| {
      assert after[Find(table, cut)].name == cut;
    } else {
      MissingNameUncalled(calls, cut);
      NewEntryOvercounts(calls, c, cut);
      assert Overcounts(after[|table|], calls + [c]);
    }
  }

  lemma OvercountUntouched(e: Entry, calls: seq<Call>, c: Call)
    requires Overcounts(e, calls) && c.name != e.name
    ensures Overcounts(e, calls + [c])
  {
    OwnCall(calls, c, e.name);
    assert |CallsOf(calls + [c], e.name)| == |CallsOf(calls, e.name)|;
  }

  lemma OvercountUpdated(e: Entry, calls: seq<Call>, c: Call)
    requires ValidTask(e.task) && Overcounts(e, calls) && c.name == e.name
    ensures Overcounts(Entry(e.name, Applied(e.task, c)), calls + [c])
  {
    OwnCall(calls, c, e.name);
    CallCounts(e.task, c);
    var m := |CallsOf(calls, e.name)| + 1;
    assert |CallsOf(calls + [c], e.name)| == m;
    IncrementModulo(m);
  }

  lemma DuplicatesStay(table: seq<Entry>, c: Call)
    requires ValidTable(table) && !Distinct(table)
    ensures !Distinct(AppliedTable(table, c))
  {
    var i, j :| 0 <= i < j < |table| && table[i].name == table[j].name;
    var r := AppliedTable(table, c);
    assert r[i].name == r[j].name;
  }

  /** And it stays broken. */
  lemma BrokenStays(table: seq<Entry>, calls: seq<Call>, c: Call)
    requires ValidTable(table) && Broken(table, calls)
    ensures Broken(AppliedTable(table, c), calls + [c])
  {
    if !Distinct(table) {
      DuplicatesStay(table, c);
    } else {
      var k :| 0 <= k < |table| && Overcounts(table[k], calls);
      if k != Find(table, c.name) {
        OtherName(table, c.name, k);
        OvercountUntouched(table[k], calls, c);
      } else {
        OvercountUpdated(table[k], calls, c);
      }
      assert Overcounts(AppliedTable(table, c)[k], calls + [c]);
    }
  }

  lemma LongNamesAppend(calls: seq<Call>, c: Call)
    ensures LongNamesOnlyWhenFull(calls) && (Fits(c.name) || |TableAfter(calls)| == MAX_TASKS)
        ==> LongNamesOnlyWhenFull(calls + [c])
  {
    var all := calls + [c];
    if LongNamesOnlyWhenFull(calls) && (Fits(c.name) || |TableAfter(calls)| == MAX_TASKS) {
      forall i | 0 <= i < |all| && !Fits(all[i].name) ensures |TableAfter(all[..i])| == MAX_TASKS {
        assert all[..i] == calls[..i];
      }
    }
  }

  lemma {:induction false} BreaksForGood(calls: seq<Call>)
    requires !LongNamesOnlyWhenFull(calls)
    ensures Broken(TableAfter(calls), calls)
  {
    var before, c := calls[..|calls| - 1], calls[|calls| - 1];
    assert before + [c] == calls;
    if !LongNamesOnlyWhenFull(before) {
      BreaksForGood(before);
      BrokenStays(TableAfter(before), before, c);
    } else {
      LongNamesAppend(before, c);
      LongNameBreaks(before, c);
    }
  }

  /** The table is a map, from each name to the figures of that name's own calls, exactly when every
      call with a name of 32 or more characters comes after the table is full. */
  lemma TableIsMap(calls: seq<Call>)
    ensures IsMap(TableAfter(calls), calls) <==> LongNamesOnlyWhenFull(calls)
  {
    if LongNamesOnlyWhenFull(calls) {
      StaysMap(calls);
    } else {
      BreaksForGood(calls);
      BrokenIsNoMap(TableAfter(calls), calls);
    }
  }

  // ---------------------------------------------------------------- entries amid other calls

  /** Whatever calls of other names come between: an entry whose own starts and ends alternate never
      gets a snapshot, and no warning is logged for it. */
  lemma AlternatingEntry(calls: seq<Call>, k: nat)
    requires LongNamesOnlyWhenFull(calls) && k < |TableAfter(calls)|
    requires Alternating(CallsOf(calls, TableAfter(calls)[k].name))
    ensures var t := TableAfter(calls)[k].task; t.history == NEW_TASK.history && !TrendWarning(t)
  {
    StaysMap(calls);
    assert Figures(TableAfter(calls)[k], calls);
    AlternatingStoresNothing(CallsOf(calls, TableAfter(calls)[k].name));
  }

  /** Likewise the snapshots an end call stores depend on the calls of its own name alone. */
  lemma EntrySnapshots(calls: seq<Call>, name: string, now: uint64)
    requires LongNamesOnlyWhenFull(calls) && Find(TableAfter(calls), name) < |TableAfter(calls)|
    ensures var table, after := TableAfter(calls), TableAfter(calls + [EndCall(name, now)]);
            var k := Find(table, name);
            |after| == |table| && SnapshotRule(table[k].task, after[k].task, |CallsOf(calls, name)|)
  {
    var table, c := TableAfter(calls), EndCall(name, now);
    StaysMap(calls);
    assert Figures(table[Find(table, name)], calls);
    assert (calls + [c])[..|calls|] == calls;
    SnapshotsStored(CallsOf(calls, name), now);
  }
}
