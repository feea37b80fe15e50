/** Validation of one sensor's readings: range, rate and timeout checks against a ring of recent
    readings, a moving average and running statistics. Floats are reals. The ring's index step is
    a parameter: `Masked` is the source's bit mask with 9, `Modulo` its evident intent. */
module Sensor {
  import opened Bits

  const HISTORY_SIZE: nat := 10
  const VALIDATION_WINDOW: nat := 5

  const VALIDATION_SUCCESS: byte := 0
  const VALIDATION_RANGE_ERROR: byte := 1
  const VALIDATION_RATE_ERROR: byte := 2
  const VALIDATION_TIMEOUT_ERROR: byte := 3

  datatype Wrap = Masked | Modulo

  /** The ring slot for index `k`; a mask with 9 keeps bits 0 and 3 of the two's complement. */
  function Slot(w: Wrap, k: int): (slot: nat)
    ensures slot < HISTORY_SIZE
  {
    match w
    case Masked => k % 2 + 8 * (k / 8 % 2)
    case Modulo => k % HISTORY_SIZE
  }

  datatype Params = Params(minValue: real, maxValue: real, maxRate: real, timeoutMs: uint32)

  datatype History = History(values: seq<real>, stamps: seq<uint32>, index: nat)

  ghost predicate ValidHistory(h: History) {
    |h.values| == |h.stamps| == HISTORY_SIZE && h.index < HISTORY_SIZE
  }

  /** A figure computed with a division: an infinity or no number once the divisor was 0. */
  datatype Figure = Finite(value: real) | NotFinite

  datatype Stats = Stats(total: uint32, valid: uint32, range: uint32, rate: uint32, timeouts: uint32,
                         max: real, min: real, avg: Figure, successRate: Figure, lastError: uint32)

  datatype Result = Result(isValid: bool, error: byte, filtered: real)

  datatype Channel = Channel(history: History, stats: Stats)

  const NO_HISTORY: History :=
    History([0.0, 0.0, 0.0, 0.0, 0.0, 0.0, 0.0, 0.0, 0.0, 0.0], [0, 0, 0, 0, 0, 0, 0, 0, 0, 0], 0)
  const NO_STATS: Stats := Stats(0, 0, 0, 0, 0, 0.0, 0.0, Finite(0.0), Finite(0.0), 0)

  /** A channel after `reset_sensor_history`. */
  const FRESH: Channel := Channel(NO_HISTORY, NO_STATS)

  function Abs(x: real): real {
    if x < 0.0 then -x else x
  }

  /** The slot the checks compare with. */
  function Previous(w: Wrap, h: History): nat {
    Slot(w, h.index - 1)
  }

  /** The 64-bit difference between a timestamp and the stored stamp. */
  function Age(w: Wrap, h: History, timestamp: uint64): uint64
    requires ValidHistory(h)
  {
    (timestamp - h.stamps[Previous(w, h)]) % TWO64
  }

  predicate OutOfRange(p: Params, value: real) {
    value < p.minValue || value > p.maxValue
  }

  predicate TooFast(w: Wrap, h: History, p: Params, value: real, timestamp: uint64)
    requires ValidHistory(h)
  {
    h.stamps[Previous(w, h)] > 0 && Age(w, h, timestamp) > 0
    && Abs((value - h.values[Previous(w, h)]) / (Age(w, h, timestamp) as real / 1000.0)) > p.maxRate
  }

  predicate TimedOut(w: Wrap, h: History, p: Params, timestamp: uint64)
    requires ValidHistory(h)
  {
    h.stamps[Previous(w, h)] > 0 && Age(w, h, timestamp) > p.timeoutMs
  }

  /** The error code of a reading, the checks being made in this order. */
  function Judge(w: Wrap, h: History, p: Params, value: real, timestamp: uint64): byte
    requires ValidHistory(h)
  {
    if OutOfRange(p, value) then VALIDATION_RANGE_ERROR
    else if TooFast(w, h, p, value, timestamp) then VALIDATION_RATE_ERROR
    else if TimedOut(w, h, p, timestamp) then VALIDATION_TIMEOUT_ERROR
    else VALIDATION_SUCCESS
  }

  /** An accepted reading goes into the ring; the stamp is cut to 32 bits. */
  function Push(w: Wrap, h: History, value: real, timestamp: uint64): (r: History)
    requires ValidHistory(h)
    ensures ValidHistory(r)
  {
    History(h.values[h.index := value], h.stamps[h.index := timestamp % TWO32], Slot(w, h.index + 1))
  }

  datatype Window = Window(sum: real, count: nat)

  /** The last `n` slots behind the index, those never stamped left out. */
  function WindowOf(w: Wrap, h: History, n: nat): Window
    requires ValidHistory(h)
  {
    if n == 0 then Window(0.0, 0)
    else
      var before, slot := WindowOf(w, h, n - 1), Slot(w, h.index - n);
      if h.stamps[slot] > 0 then Window(before.sum + h.values[slot], before.count + 1) else before
  }

  function Mean(window: Window, otherwise: real): real {
    if window.count > 0 then window.sum / window.count as real else otherwise
  }

  function Filter(w: Wrap, h: History, value: real): real
    requires ValidHistory(h)
  {
    Mean(WindowOf(w, h, VALIDATION_WINDOW), value)
  }

  /** The average over `n` values, from that over the `n - 1` before and the new one. */
  function RollingAverage(avg: Figure, n: uint32, value: real): Figure {
    if avg.NotFinite? || n == 0 then NotFinite
    else Finite((avg.value * (n - 1) as real + value) / n as real)
  }

  function SuccessRate(valid: uint32, total: uint32): Figure {
    if total == 0 then NotFinite else Finite(valid as real / total as real * 100.0)
  }

  /** `update_sensor_statistics`. */
  function Record(s: Stats, value: real, error: byte, now: uint32): Stats {
    var t := s.(total := Increment(s.total));
    var u :=
      if error == VALIDATION_SUCCESS then
        t.(valid := Increment(s.valid),
           min := if value < s.min || t.total == 1 then value else s.min,
           max := if value > s.max || t.total == 1 then value else s.max,
           avg := RollingAverage(s.avg, Increment(s.valid), value))
      else if error == VALIDATION_RANGE_ERROR then t.(range := Increment(s.range), lastError := now)
      else if error == VALIDATION_RATE_ERROR then t.(rate := Increment(s.rate), lastError := now)
      else if error == VALIDATION_TIMEOUT_ERROR then t.(timeouts := Increment(s.timeouts), lastError := now)
      else t.(lastError := now);
    u.(successRate := SuccessRate(u.valid, u.total))
  }

  datatype Validated = Validated(channel: Channel, result: Result)

  /** `validate_sensor_reading` at clock reading `now`. */
  function Validate(w: Wrap, c: Channel, p: Params, value: real, timestamp: uint64, now: uint32): Validated
    requires ValidHistory(c.history)
  {
    var error := Judge(w, c.history, p, value, timestamp);
    if error != VALIDATION_SUCCESS then
      Validated(c.(stats := Record(c.stats, value, error, now)), Result(false, error, 0.0))
    else
      var h := Push(w, c.history, value, timestamp);
      var filtered := Filter(w, h, value);
      Validated(Channel(h, Record(c.stats, filtered, VALIDATION_SUCCESS, now)),
                Result(true, VALIDATION_SUCCESS, filtered))
  }

  // ---------------------------------------------------------------- as the firmware does it

  class SensorChannel {
    const wrap: Wrap
    const values: array<real>
    const timestamps: array<uint32>
    var index: nat
    var stats: Stats

    constructor (wrap: Wrap)
      ensures this.wrap == wrap && Valid() && State() == FRESH && fresh(values) && fresh(timestamps)
    {
      this.wrap, index, stats := wrap, 0, NO_STATS;
      values := new real[HISTORY_SIZE](_ => 0.0);
      timestamps := new uint32[HISTORY_SIZE](_ => 0);
      new;
      assert values[..] == NO_HISTORY.values && timestamps[..] == NO_HISTORY.stamps;
    }

    ghost predicate Valid()
      reads this, values, timestamps
    {
      values.Length == timestamps.Length == HISTORY_SIZE && index < HISTORY_SIZE
    }

    ghost function State(): Channel
      reads this, values, timestamps
    {
      Channel(History(values[..], timestamps[..], index), stats)
    }

    /** `update_sensor_statistics`. */
    method UpdateStatistics(value: real, error: byte, now: uint32)
      modifies this`stats
      ensures stats == Record(old(stats), value, error, now)
    {
      stats := stats.(total := Increment(stats.total));
      if error == VALIDATION_SUCCESS {
        stats := stats.(valid := Increment(stats.valid));
        if value < stats.min || stats.total == 1 {
          stats := stats.(min := value);
        }
        if value > stats.max || stats.total == 1 {
          stats := stats.(max := value);
        }
        stats := stats.(avg := RollingAverage(stats.avg, stats.valid, value));
      } else {
        match error {
          case 1 => stats := stats.(range := Increment(stats.range));
          case 2 => stats := stats.(rate := Increment(stats.rate));
          case 3 => stats := stats.(timeouts := Increment(stats.timeouts));
          case _ =>
        }
        stats := stats.(lastError := now);
      }
      stats := stats.(successRate := SuccessRate(stats.valid, stats.total));
    }

    /** `reset_sensor_history`. */
    method Reset()
      requires Valid()
      modifies this, values, timestamps
      ensures Valid() && State() == FRESH
    {
      forall i | 0 <= i < HISTORY_SIZE { values[i] := 0.0; }
      forall i | 0 <= i < HISTORY_SIZE { timestamps[i] := 0; }
      index := 0;
      stats := NO_STATS;
      assert values[..] == NO_HISTORY.values && timestamps[..] == NO_HISTORY.stamps;
    }

    /** `handle_sensor_timeout`: the timeout it counts is wiped by the reset that follows. */
    method HandleTimeout(now: uint32)
      requires Valid()
      modifies this, values, timestamps
      ensures Valid() && State() == FRESH
    {
      UpdateStatistics(0.0, VALIDATION_TIMEOUT_ERROR, now);
      Reset();
    }

    /** `validate_sensor_reading`. */
    method ValidateReading(p: Params, value: real, timestamp: uint64, now: uint32) returns (result: Result)
      requires Valid()
      modifies this, values, timestamps
      ensures Valid() && Validated(State(), result) == Validate(wrap, old(State()), p, value, timestamp, now)
    {
      if value < p.minValue || value > p.maxValue {
        UpdateStatistics(value, VALIDATION_RANGE_ERROR, now);
        return Result(false, VALIDATION_RANGE_ERROR, 0.0);
      }
      var previous := Slot(wrap, index - 1);
      if timestamps[previous] > 0 {
        var difference: uint64 := (timestamp - timestamps[previous]) % TWO64;
        if difference > 0 {
          if Abs((value - values[previous]) / (difference as real / 1000.0)) > p.maxRate {
            UpdateStatistics(value, VALIDATION_RATE_ERROR, now);
            return Result(false, VALIDATION_RATE_ERROR, 0.0);
          }
        }
      }
      if timestamps[previous] > 0 && (timestamp - timestamps[previous]) % TWO64 > p.timeoutMs {
        UpdateStatistics(value, VALIDATION_TIMEOUT_ERROR, now);
        return Result(false, VALIDATION_TIMEOUT_ERROR, 0.0);
      }
      var filtered := Store(value, timestamp);
      UpdateStatistics(filtered, VALIDATION_SUCCESS, now);
      result := Result(true, VALIDATION_SUCCESS, filtered);
    }

    /** The accepted reading goes into the ring and the recent ones are averaged. */
    method Store(value: real, timestamp: uint64) returns (filtered: real)
      requires Valid()
      modifies this`index, values, timestamps
      ensures Valid() && State() == old(State()).(history := Push(wrap, old(State()).history, value, timestamp))
      ensures filtered == Filter(wrap, State().history, value)
    {
      values[index] := value;
      timestamps[index] := timestamp % TWO32;
      index := Slot(wrap, index + 1);
      var window := RecentWindow();
      filtered := Mean(window, value);
    }

    /** The summing loop of the moving average. */
    method RecentWindow() returns (window: Window)
      requires Valid()
      ensures window == WindowOf(wrap, State().history, VALIDATION_WINDOW)
    {
      var sum, count := 0.0, 0;
      var i := 0;
      while i < VALIDATION_WINDOW && i < HISTORY_SIZE
        invariant 0 <= i <= VALIDATION_WINDOW
        invariant Window(sum, count) == WindowOf(wrap, State().history, i)
      {
        var slot := Slot(wrap, index - 1 - i);
        assert slot == Slot(wrap, index - (i + 1));
        if timestamps[slot] > 0 {
          sum := sum + values[slot];
          count := count + 1;
        }
        i := i + 1;
      }
      window := Window(sum, count);
    }
  }
}
