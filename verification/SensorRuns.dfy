/** What holds of a sensor channel over every run of readings and resets. */
module SensorRuns {
  import opened Bits
  import opened Sensor

  datatype Event = Reading(p: Params, value: real, timestamp: uint64, now: uint32) | Reset

  datatype Sample = Sample(value: real, timestamp: uint64)

  /** What the ring keeps of a sample's timestamp. */
  function Stamp(sample: Sample): uint32 {
    sample.timestamp % TWO32
  }

  /** The channel, the readings accepted and the results returned since the last reset, and every
      result so far. */
  datatype Log = Log(channel: Channel, accepted: seq<Sample>, since: seq<Result>, results: seq<Result>)

  const START: Log := Log(FRESH, [], [], [])

  function Step(w: Wrap, l: Log, e: Event): (r: Log)
    requires ValidHistory(l.channel.history)
    ensures ValidHistory(r.channel.history)
  {
    match e
    case Reset => Log(FRESH, [], [], l.results)
    case Reading(p, value, timestamp, now) =>
      var v := Validate(w, l.channel, p, value, timestamp, now);
      Log(v.channel, if v.result.isValid then l.accepted + [Sample(value, timestamp)] else l.accepted,
          l.since + [v.result], l.results + [v.result])
  }

  function Run(w: Wrap, es: seq<Event>): (l: Log)
    ensures ValidHistory(l.channel.history)
  {
    if es == [] then START else Step(w, Run(w, es[..|es| - 1]), es[|es| - 1])
  }

  // ---------------------------------------------------------------- statistics

  function Sum(xs: seq<real>): real {
    if xs == [] then 0.0 else Sum(xs[..|xs| - 1]) + xs[|xs| - 1]
  }

  /** The values returned as valid. */
  function Filtered(since: seq<Result>): seq<real> {
    if since == [] then []
    else
      var init, last := since[..|since| - 1], since[|since| - 1];
      if last.error == VALIDATION_SUCCESS then Filtered(init) + [last.filtered] else Filtered(init)
  }

  /** How many readings had this error code. */
  function CountOf(since: seq<Result>, error: byte): nat {
    if since == [] then 0
    else CountOf(since[..|since| - 1], error) + if since[|since| - 1].error == error then 1 else 0
  }

  /** The values the recorded extremes range over: they start from 0 and, whenever the 32-bit count
      of readings stands at 1, from the value then accepted. */
  function Seen(since: seq<Result>): seq<real> {
    if since == [] then [0.0]
    else
      var init, last := since[..|since| - 1], since[|since| - 1];
      if last.error != VALIDATION_SUCCESS then Seen(init)
      else if |since| % TWO32 == 1 then [last.filtered]
      else Seen(init) + [last.filtered]
  }

  ghost predicate IsLeast(x: real, xs: seq<real>) {
    x in xs && forall i | 0 <= i < |xs| :: x <= xs[i]
  }

  ghost predicate IsGreatest(x: real, xs: seq<real>) {
    x in xs && forall i | 0 <= i < |xs| :: xs[i] <= x
  }

  /** The average times the number of values is their sum, until that number has reached 2^32 and
      the average is lost. */
  ghost predicate AverageOf(avg: Figure, xs: seq<real>) {
    if |xs| < TWO32 then avg.Finite? && avg.value * |xs| as real == Sum(xs) else avg == NotFinite
  }

  ghost predicate CountersOf(s: Stats, since: seq<Result>) {
    && s.total == |since| % TWO32
    && s.valid == |Filtered(since)| % TWO32
    && s.range == CountOf(since, VALIDATION_RANGE_ERROR) % TWO32
    && s.rate == CountOf(since, VALIDATION_RATE_ERROR) % TWO32
    && s.timeouts == CountOf(since, VALIDATION_TIMEOUT_ERROR) % TWO32
  }

  /** The success rate is the percentage of valid readings among all, as the two counters show them. */
  ghost predicate RateOf(s: Stats) {
    if s.total == 0 then s.successRate == NotFinite
    else s.successRate.Finite? && s.successRate.value * s.total as real == 100.0 * s.valid as real
  }

  lemma RateTimes(valid: uint32, total: uint32)
    requires total > 0
    ensures SuccessRate(valid, total).Finite?
    ensures SuccessRate(valid, total).value * total as real == 100.0 * valid as real
  {}

  lemma RateStep(s: Stats, value: real, error: byte, now: uint32)
    ensures RateOf(Record(s, value, error, now))
  {
    var t := Record(s, value, error, now);
    if t.total > 0 { RateTimes(t.valid, t.total); }
  }

  /** The statistics are those of the results since the reset. */
  ghost predicate StatsInv(s: Stats, since: seq<Result>) {
    && CountersOf(s, since)
    && AverageOf(s.avg, Filtered(since))
    && IsLeast(s.min, Seen(since)) && IsGreatest(s.max, Seen(since))
    && (since != [] ==> RateOf(s))
  }

  lemma Snoc<T>(xs: seq<T>, x: T)
    ensures (xs + [x])[..|xs|] == xs && (xs + [x])[|xs|] == x
  {}

  lemma CountersStep(s: Stats, since: seq<Result>, r: Result, value: real, now: uint32)
    requires CountersOf(s, since)
    ensures CountersOf(Record(s, value, r.error, now), since + [r])
  {
    Snoc(since, r);
    IncrementModulo(|since|);
    IncrementModulo(|Filtered(since)|);
    IncrementModulo(CountOf(since, VALIDATION_RANGE_ERROR));
    IncrementModulo(CountOf(since, VALIDATION_RATE_ERROR));
    IncrementModulo(CountOf(since, VALIDATION_TIMEOUT_ERROR));
  }

  lemma RollingAverageTimes(avg: real, n: uint32, value: real)
    requires n > 0
    ensures RollingAverage(Finite(avg), n, value).value * n as real == avg * (n - 1) as real + value
  {}

  lemma AverageStep(avg: Figure, xs: seq<real>, x: real)
    requires AverageOf(avg, xs)
    ensures AverageOf(RollingAverage(avg, Increment(|xs| % TWO32), x), xs + [x])
  {
    Snoc(xs, x);
    IncrementModulo(|xs|);
    if |xs| + 1 < TWO32 {
      SmallModulo(|xs| + 1);
      RollingAverageTimes(avg.value, |xs| + 1, x);
    }
  }

  lemma ExtremesStep(s: Stats, since: seq<Result>, r: Result, now: uint32)
    requires s.total == |since| % TWO32 && r.error == VALIDATION_SUCCESS
    requires IsLeast(s.min, Seen(since)) && IsGreatest(s.max, Seen(since))
    ensures var t := Record(s, r.filtered, r.error, now);
            IsLeast(t.min, Seen(since + [r])) && IsGreatest(t.max, Seen(since + [r]))
  {
    Snoc(since, r);
    IncrementModulo(|since|);
    var seen := Seen(since);
    assert (seen + [r.filtered])[|seen|] == r.filtered;
  }

  lemma AcceptedKeepsStats(s: Stats, since: seq<Result>, r: Result, now: uint32)
    requires StatsInv(s, since) && r.error == VALIDATION_SUCCESS
    ensures StatsInv(Record(s, r.filtered, r.error, now), since + [r])
  {
    Snoc(since, r);
    CountersStep(s, since, r, r.filtered, now);
    RateStep(s, r.filtered, r.error, now);
    AverageStep(s.avg, Filtered(since), r.filtered);
    ExtremesStep(s, since, r, now);
  }

  lemma RejectedKeepsStats(s: Stats, since: seq<Result>, r: Result, value: real, now: uint32)
    requires StatsInv(s, since) && r.error != VALIDATION_SUCCESS
    ensures StatsInv(Record(s, value, r.error, now), since + [r])
  {
    Snoc(since, r);
    CountersStep(s, since, r, value, now);
    RateStep(s, value, r.error, now);
  }

  /** Every reading is of exactly one kind. */
  lemma {:induction false} KindsAddUp(since: seq<Result>)
    requires forall r <- since :: r.error <= VALIDATION_TIMEOUT_ERROR
    ensures |since| == |Filtered(since)| + CountOf(since, VALIDATION_RANGE_ERROR)
                       + CountOf(since, VALIDATION_RATE_ERROR) + CountOf(since, VALIDATION_TIMEOUT_ERROR)
  {
    if since != [] {
      assert since[|since| - 1] in since;
      KindsAddUp(since[..|since| - 1]);
    }
  }

  lemma StepKeepsStats(w: Wrap, l: Log, e: Event)
    requires ValidHistory(l.channel.history) && StatsInv(l.channel.stats, l.since)
    ensures StatsInv(Step(w, l, e).channel.stats, Step(w, l, e).since)
  {
    if e.Reading? {
      var r := Validate(w, l.channel, e.p, e.value, e.timestamp, e.now).result;
      if r.isValid {
        AcceptedKeepsStats(l.channel.stats, l.since, r, e.now);
      } else {
        RejectedKeepsStats(l.channel.stats, l.since, r, e.value, e.now);
      }
    }
  }

  /** In every run the statistics are those of the results since the last reset: each counter is the
      number of readings of its kind modulo 2^32; the average times the valid readings is the sum of
      the values returned, until 2^32 of them; and the extremes are attained among the values they
      range over. */
  lemma {:induction false} RunningStatistics(w: Wrap, es: seq<Event>)
    ensures StatsInv(Run(w, es).channel.stats, Run(w, es).since)
  {
    if es != [] {
      RunningStatistics(w, es[..|es| - 1]);
      StepKeepsStats(w, Run(w, es[..|es| - 1]), es[|es| - 1]);
    }
  }

  lemma {:induction false} KnownErrors(w: Wrap, es: seq<Event>)
    ensures forall r <- Run(w, es).since :: r.error <= VALIDATION_TIMEOUT_ERROR
  {
    if es != [] { KnownErrors(w, es[..|es| - 1]); }
  }

  /** For fewer than 2^32 readings since the reset the counters add up. */
  lemma CountersAddUp(w: Wrap, es: seq<Event>)
    requires |Run(w, es).since| < TWO32
    ensures var s := Run(w, es).channel.stats;
            s.total == s.valid + s.range + s.rate + s.timeouts == |Run(w, es).since|
  {
    RunningStatistics(w, es);
    KnownErrors(w, es);
    KindsAddUp(Run(w, es).since);
    BelowWrap(Run(w, es).channel.stats, Run(w, es).since);
  }

  lemma BelowWrap(s: Stats, since: seq<Result>)
    requires CountersOf(s, since) && |since| < TWO32
    requires |since| == |Filtered(since)| + CountOf(since, VALIDATION_RANGE_ERROR)
                        + CountOf(since, VALIDATION_RATE_ERROR) + CountOf(since, VALIDATION_TIMEOUT_ERROR)
    ensures s.total == s.valid + s.range + s.rate + s.timeouts == |since|
  {
    SmallModulo(|since|);
    SmallModulo(|Filtered(since)|);
    SmallModulo(CountOf(since, VALIDATION_RANGE_ERROR));
    SmallModulo(CountOf(since, VALIDATION_RATE_ERROR));
    SmallModulo(CountOf(since, VALIDATION_TIMEOUT_ERROR));
  }

  /** When the last rejected reading since the reset was judged; 0 when there was none. */
  function LastRejection(w: Wrap, es: seq<Event>): uint32 {
    if es == [] || es[|es| - 1].Reset? then 0
    else
      var init, e := es[..|es| - 1], es[|es| - 1];
      if Judge(w, Run(w, init).channel.history, e.p, e.value, e.timestamp) != VALIDATION_SUCCESS then e.now
      else LastRejection(w, init)
  }

  /** The statistics keep the time of the last error. */
  lemma {:induction false} LastErrorKept(w: Wrap, es: seq<Event>)
    ensures Run(w, es).channel.stats.lastError == LastRejection(w, es)
  {
    if es != [] { LastErrorKept(w, es[..|es| - 1]); }
  }

  /** A result is valid exactly when no error is reported, and a rejected one carries no value. */
  lemma ResultOf(w: Wrap, c: Channel, p: Params, value: real, timestamp: uint64, now: uint32)
    requires ValidHistory(c.history)
    ensures var v := Validate(w, c, p, value, timestamp, now);
            && v.result.error == Judge(w, c.history, p, value, timestamp)
            && (v.result.isValid <==> v.result.error == 0)
            && (!v.result.isValid ==> v.result.filtered == 0.0 && v.channel.history == c.history)
  {}

  /** For the first 2^32 readings the extremes range over the values returned, and over 0 besides
      when the first reading was rejected. */
  lemma {:induction false} SeenBeforeWrap(since: seq<Result>)
    requires 0 < |since| <= TWO32
    ensures Seen(since) == (if since[0].error == VALIDATION_SUCCESS then [] else [0.0]) + Filtered(since)
  {
    if |since| > 1 {
      SeenBeforeWrap(since[..|since| - 1]);
    } else {
      assert since[..0] == [];
    }
  }

  /** So a recorded extreme is the extreme of the values returned exactly when the first reading was
      accepted or 0 does not lie outside them. */
  lemma ExtremesAttained(w: Wrap, es: seq<Event>)
    requires 0 < |Run(w, es).since| <= TWO32 && Filtered(Run(w, es).since) != []
    ensures var s, since := Run(w, es).channel.stats, Run(w, es).since;
            var xs, first := Filtered(since), since[0].error == VALIDATION_SUCCESS;
            && (IsLeast(s.min, xs) <==> first || exists x <- xs :: x <= 0.0)
            && (IsGreatest(s.max, xs) <==> first || exists x <- xs :: x >= 0.0)
  {
    RunningStatistics(w, es);
    ExtremesOf(Run(w, es).channel.stats, Run(w, es).since);
  }

  lemma ExtremesOf(s: Stats, since: seq<Result>)
    requires 0 < |since| <= TWO32 && Filtered(since) != []
    requires IsLeast(s.min, Seen(since)) && IsGreatest(s.max, Seen(since))
    ensures var xs, first := Filtered(since), since[0].error == VALIDATION_SUCCESS;
            && (IsLeast(s.min, xs) <==> first || exists x <- xs :: x <= 0.0)
            && (IsGreatest(s.max, xs) <==> first || exists x <- xs :: x >= 0.0)
  {
    SeenBeforeWrap(since);
    if since[0].error != VALIDATION_SUCCESS {
      WithZero(s, Filtered(since));
    } else {
      assert [] + Filtered(since) == Filtered(since);
    }
  }

  lemma WithZero(s: Stats, xs: seq<real>)
    requires xs != [] && IsLeast(s.min, [0.0] + xs) && IsGreatest(s.max, [0.0] + xs)
    ensures IsLeast(s.min, xs) <==> exists x <- xs :: x <= 0.0
    ensures IsGreatest(s.max, xs) <==> exists x <- xs :: x >= 0.0
  {
    var all := [0.0] + xs;
    assert all[0] == 0.0 && forall i | 0 <= i < |xs| :: all[i + 1] == xs[i];
  }

  // ---------------------------------------------------------------- the ring, indices modulo 10

  /** The slot of accepted reading `j` holds it. */
  ghost predicate Holds(h: History, j: nat, sample: Sample)
    requires ValidHistory(h)
  {
    h.values[j % HISTORY_SIZE] == sample.value && h.stamps[j % HISTORY_SIZE] == Stamp(sample)
  }

  /** Slot `j % 10` holds accepted reading `j`, for the last ten; slots not yet reached are unstamped. */
  ghost predicate RingInv(h: History, accepted: seq<Sample>) {
    var n := |accepted|;
    && ValidHistory(h) && h.index == n % HISTORY_SIZE
    && (forall j | 0 <= j < n && n - HISTORY_SIZE <= j :: Holds(h, j, accepted[j]))
    && (forall k | n <= k < HISTORY_SIZE :: h.stamps[k] == 0)
  }

  lemma PushKeepsRing(h: History, accepted: seq<Sample>, value: real, timestamp: uint64)
    requires RingInv(h, accepted)
    ensures RingInv(Push(Modulo, h, value, timestamp), accepted + [Sample(value, timestamp)])
  {
    var r, n := Push(Modulo, h, value, timestamp), |accepted|;
    NextIndex(n);
    forall j | 0 <= j < n && n + 1 - HISTORY_SIZE <= j ensures Holds(r, j, accepted[j]) {
      assert Holds(h, j, accepted[j]);
      DistinctSlots(j, n);
    }
    assert Holds(r, n, Sample(value, timestamp));
  }

  lemma NextIndex(n: nat)
    ensures (n % HISTORY_SIZE + 1) % HISTORY_SIZE == (n + 1) % HISTORY_SIZE
  {}

  lemma DistinctSlots(j: nat, n: nat)
    requires j < n < j + HISTORY_SIZE
    ensures j % HISTORY_SIZE != n % HISTORY_SIZE
  {}

  /** With indices modulo 10 the ring holds the last ten accepted readings, in every run. */
  lemma {:induction false} RingHoldsRecent(es: seq<Event>)
    ensures RingInv(Run(Modulo, es).channel.history, Run(Modulo, es).accepted)
  {
    if es != [] {
      var l, e := Run(Modulo, es[..|es| - 1]), es[|es| - 1];
      RingHoldsRecent(es[..|es| - 1]);
      if e.Reading? { PushKeepsRing(l.channel.history, l.accepted, e.value, e.timestamp); }
    }
  }

  /** The last `k` accepted readings, those with stamp 0 left out. */
  function Recent(accepted: seq<Sample>, k: nat): Window
    requires k <= |accepted|
  {
    if k == 0 then Window(0.0, 0)
    else
      var before, sample := Recent(accepted, k - 1), accepted[|accepted| - k];
      if Stamp(sample) > 0 then Window(before.sum + sample.value, before.count + 1) else before
  }

  lemma BackSlot(n: nat, k: nat)
    requires 1 <= k <= n
    ensures Slot(Modulo, n % HISTORY_SIZE - k) == (n - k) % HISTORY_SIZE
  {}

  lemma UnreachedSlot(n: nat, k: nat)
    requires n < k <= VALIDATION_WINDOW
    ensures n <= Slot(Modulo, n % HISTORY_SIZE - k)
  {}

  lemma {:induction false} WindowIsRecent(h: History, accepted: seq<Sample>, k: nat)
    requires RingInv(h, accepted) && k <= VALIDATION_WINDOW
    ensures WindowOf(Modulo, h, k) == Recent(accepted, Min(k, |accepted|))
  {
    if k > 0 {
      var n := |accepted|;
      WindowIsRecent(h, accepted, k - 1);
      if k <= n {
        BackSlot(n, k);
        assert Holds(h, n - k, accepted[n - k]);
      } else {
        UnreachedSlot(n, k);
      }
    }
  }

  /** The values of the last `k` accepted readings, latest first. */
  function LatestValues(accepted: seq<Sample>, k: nat): (r: seq<real>)
    requires k <= |accepted|
    ensures |r| == k
  {
    if k == 0 then [] else LatestValues(accepted, k - 1) + [accepted[|accepted| - k].value]
  }

  /** When no stamp is 0 none is left out: the window is the sum and number of the last `k`. */
  lemma {:induction false} RecentAllStamped(accepted: seq<Sample>, k: nat)
    requires k <= |accepted| && forall s <- accepted :: Stamp(s) > 0
    ensures Recent(accepted, k) == Window(Sum(LatestValues(accepted, k)), k)
  {
    if k > 0 {
      RecentAllStamped(accepted, k - 1);
      var xs := LatestValues(accepted, k);
      assert xs[..k - 1] == LatestValues(accepted, k - 1);
      assert accepted[|accepted| - k] in accepted;
    }
  }

  lemma FilterIsMean(es: seq<Event>)
    requires es != [] && es[|es| - 1].Reading?
    ensures var l, e := Run(Modulo, es), es[|es| - 1];
            l.results[|l.results| - 1].isValid ==>
              && l.accepted != [] && l.accepted[|l.accepted| - 1] == Sample(e.value, e.timestamp)
              && l.results[|l.results| - 1].filtered
                 == Mean(Recent(l.accepted, Min(VALIDATION_WINDOW, |l.accepted|)), e.value)
  {
    RingHoldsRecent(es);
    WindowIsRecent(Run(Modulo, es).channel.history, Run(Modulo, es).accepted, VALIDATION_WINDOW);
  }

  /** The mean of a window times its count is its sum; an empty window gives the other value. */
  ghost predicate MeanOf(mean: real, window: Window, otherwise: real) {
    if window.count > 0 then mean * window.count as real == window.sum else mean == otherwise
  }

  lemma MeanTimes(window: Window, otherwise: real)
    ensures MeanOf(Mean(window, otherwise), window, otherwise)
  {}

  /** The filtered value of an accepted reading is the mean of the last five accepted, itself
      included, or of all of them while there are fewer; readings whose stamp is 0 are passed over. */
  lemma FilterIsMovingMean(es: seq<Event>)
    requires es != [] && es[|es| - 1].Reading?
    ensures var l, e := Run(Modulo, es), es[|es| - 1];
            l.results[|l.results| - 1].isValid ==>
              && l.accepted != [] && l.accepted[|l.accepted| - 1] == Sample(e.value, e.timestamp)
              && MeanOf(l.results[|l.results| - 1].filtered, Recent(l.accepted, Min(5, |l.accepted|)), e.value)
  {
    var accepted := Run(Modulo, es).accepted;
    FilterIsMean(es);
    MeanTimes(Recent(accepted, Min(VALIDATION_WINDOW, |accepted|)), es[|es| - 1].value);
  }

  // ---------------------------------------------------------------- the filter stays in range

  ghost predicate WindowWithin(window: Window, lo: real, hi: real) {
    lo * window.count as real <= window.sum <= hi * window.count as real
  }

  lemma MeanWithin(window: Window, otherwise: real, lo: real, hi: real)
    requires WindowWithin(window, lo, hi) && lo <= otherwise <= hi
    ensures lo <= Mean(window, otherwise) <= hi
  {
    if window.count > 0 {
      QuotientBounds(window.sum, window.count as real, lo, hi);
    }
  }

  lemma QuotientBounds(sum: real, count: real, lo: real, hi: real)
    requires count > 0.0 && lo * count <= sum <= hi * count
    ensures lo <= sum / count <= hi
  {
    assert sum / count * count == sum;
  }

  /** Stamped slots hold values in range. */
  ghost predicate RingWithin(h: History, lo: real, hi: real) {
    ValidHistory(h) && forall k | 0 <= k < HISTORY_SIZE && h.stamps[k] > 0 :: lo <= h.values[k] <= hi
  }

  lemma WithinOneMore(window: Window, x: real, lo: real, hi: real)
    requires WindowWithin(window, lo, hi) && lo <= x <= hi
    ensures WindowWithin(Window(window.sum + x, window.count + 1), lo, hi)
  {
    var n := window.count as real;
    assert (window.count + 1) as real == n + 1.0;
    assert lo * (n + 1.0) == lo * n + lo && hi * (n + 1.0) == hi * n + hi;
  }

  lemma {:induction false} WindowOfWithin(w: Wrap, h: History, k: nat, lo: real, hi: real)
    requires RingWithin(h, lo, hi)
    ensures WindowWithin(WindowOf(w, h, k), lo, hi)
  {
    if k > 0 {
      WindowOfWithin(w, h, k - 1, lo, hi);
      var slot := Slot(w, h.index - k);
      if h.stamps[slot] > 0 { WithinOneMore(WindowOf(w, h, k - 1), h.values[slot], lo, hi); }
    }
  }

  ghost predicate SameRange(es: seq<Event>, lo: real, hi: real) {
    forall e <- es :: e.Reading? ==> e.p.minValue == lo && e.p.maxValue == hi
  }

  /** Under one range, every value returned as valid lies in it, however the ring is indexed. */
  lemma {:induction false} FilteredWithinRange(w: Wrap, es: seq<Event>, lo: real, hi: real)
    requires SameRange(es, lo, hi)
    ensures RingWithin(Run(w, es).channel.history, lo, hi)
    ensures forall r <- Run(w, es).results :: r.isValid ==> lo <= r.filtered <= hi
  {
    if es != [] {
      var init, e := es[..|es| - 1], es[|es| - 1];
      FilteredWithinRange(w, init, lo, hi);
      assert e in es;
      var c := Run(w, init).channel;
      if e.Reading? && Judge(w, c.history, e.p, e.value, e.timestamp) == VALIDATION_SUCCESS {
        var h := Push(w, c.history, e.value, e.timestamp);
        assert RingWithin(h, lo, hi);
        WindowOfWithin(w, h, VALIDATION_WINDOW, lo, hi);
        MeanWithin(WindowOf(w, h, VALIDATION_WINDOW), e.value, lo, hi);
      }
    }
  }

  // ---------------------------------------------------------------- the ring with the mask as written

  /** Only slots 0 and 1 are ever reached, in turn; after slot 0 it holds the last accepted reading. */
  ghost predicate MaskedInv(h: History, accepted: seq<Sample>) {
    && ValidHistory(h) && h.index == |accepted| % 2
    && (forall k | 2 <= k < HISTORY_SIZE :: h.stamps[k] == 0)
    && (|accepted| % 2 == 1 ==> Holds(h, 0, accepted[|accepted| - 1]))
  }

  lemma MaskedSlots()
    ensures Slot(Masked, -5) == Slot(Masked, -3) == Slot(Masked, -1) == 9
    ensures Slot(Masked, -4) == Slot(Masked, -2) == 8
    ensures Slot(Masked, 0) == 0 && Slot(Masked, 1) == 1 && Slot(Masked, 2) == 0
  {}

  lemma PushKeepsMasked(h: History, accepted: seq<Sample>, value: real, timestamp: uint64)
    requires MaskedInv(h, accepted)
    ensures MaskedInv(Push(Masked, h, value, timestamp), accepted + [Sample(value, timestamp)])
  {
    MaskedSlots();
  }

  lemma {:induction false} MaskedRing(es: seq<Event>)
    ensures MaskedInv(Run(Masked, es).channel.history, Run(Masked, es).accepted)
  {
    if es != [] {
      var l, e := Run(Masked, es[..|es| - 1]), es[|es| - 1];
      MaskedRing(es[..|es| - 1]);
      if e.Reading? { PushKeepsMasked(l.channel.history, l.accepted, e.value, e.timestamp); }
    }
  }

  lemma MaskedWindow(h: History, value: real)
    requires ValidHistory(h) && h.index < 2 && forall k | 2 <= k < HISTORY_SIZE :: h.stamps[k] == 0
    ensures h.index == 0 ==> Filter(Masked, h, value) == value
    ensures h.index == 1 && h.values[0] == value ==> Filter(Masked, h, value) == value
  {
    MaskedSlots();
    if h.index == 0 {
      assert WindowOf(Masked, h, 1).count == 0;
      assert WindowOf(Masked, h, 3).count == 0;
    } else {
      assert WindowOf(Masked, h, 1) == if h.stamps[0] > 0 then Window(0.0 + h.values[0], 1) else Window(0.0, 0);
      assert WindowOf(Masked, h, 3) == WindowOf(Masked, h, 1);
    }
    assert WindowOf(Masked, h, 5) == WindowOf(Masked, h, 3);
  }

  // ---------------------------------------------------------------- what a reading is judged against

  datatype Reference = Nothing | Against(sample: Sample)

  function LastOf(accepted: seq<Sample>): Reference {
    if accepted == [] then Nothing else Against(accepted[|accepted| - 1])
  }

  /** The reading a new one is compared with: the last accepted one, which the mask loses after
      every second. */
  function ReferenceOf(w: Wrap, accepted: seq<Sample>): Reference {
    if w == Masked && |accepted| % 2 == 0 then Nothing else LastOf(accepted)
  }

  predicate Stamped(reference: Reference) {
    reference.Against? && Stamp(reference.sample) > 0
  }

  /** The verdict on a reading, from its range and the reading it is compared with, if that one has
      a stamp: too fast a change, else too long a silence. */
  function Verdict(reference: Reference, p: Params, value: real, timestamp: uint64): byte {
    if value < p.minValue || value > p.maxValue then VALIDATION_RANGE_ERROR
    else if !Stamped(reference) then VALIDATION_SUCCESS
    else
      var age := (timestamp - Stamp(reference.sample)) % TWO64;
      if age > 0 && Abs((value - reference.sample.value) / (age as real / 1000.0)) > p.maxRate then
        VALIDATION_RATE_ERROR
      else if age > p.timeoutMs then VALIDATION_TIMEOUT_ERROR
      else VALIDATION_SUCCESS
  }

  /** The slot a reading is compared with holds the reference, or no stamp when there is none. */
  ghost predicate Shows(h: History, slot: nat, reference: Reference)
    requires ValidHistory(h) && slot < HISTORY_SIZE
  {
    match reference
    case Nothing => h.stamps[slot] == 0
    case Against(sample) => h.stamps[slot] == Stamp(sample) && h.values[slot] == sample.value
  }

  lemma MaskedPrevious(h: History, accepted: seq<Sample>)
    requires MaskedInv(h, accepted)
    ensures Shows(h, Previous(Masked, h), ReferenceOf(Masked, accepted))
  {
    MaskedSlots();
  }

  lemma ModuloPrevious(h: History, accepted: seq<Sample>)
    requires RingInv(h, accepted)
    ensures Shows(h, Previous(Modulo, h), ReferenceOf(Modulo, accepted))
  {
    if accepted != [] {
      BackSlot(|accepted|, 1);
      assert Holds(h, |accepted| - 1, accepted[|accepted| - 1]);
    }
  }

  lemma PreviousIsReference(w: Wrap, es: seq<Event>)
    ensures var h := Run(w, es).channel.history; Shows(h, Previous(w, h), ReferenceOf(w, Run(w, es).accepted))
  {
    var h, accepted := Run(w, es).channel.history, Run(w, es).accepted;
    if w == Masked {
      MaskedRing(es);
      MaskedPrevious(h, accepted);
    } else {
      RingHoldsRecent(es);
      ModuloPrevious(h, accepted);
    }
  }

  /** In every run, with either indexing, the verdict is exactly that against the reference. */
  lemma JudgedAgainst(w: Wrap, es: seq<Event>, p: Params, value: real, timestamp: uint64)
    ensures Judge(w, Run(w, es).channel.history, p, value, timestamp)
         == Verdict(ReferenceOf(w, Run(w, es).accepted), p, value, timestamp)
  {
    PreviousIsReference(w, es);
    JudgeShown(w, Run(w, es).channel.history, ReferenceOf(w, Run(w, es).accepted), p, value, timestamp);
  }

  lemma JudgeShown(w: Wrap, h: History, reference: Reference, p: Params, value: real, timestamp: uint64)
    requires ValidHistory(h) && Shows(h, Previous(w, h), reference)
    ensures Judge(w, h, p, value, timestamp) == Verdict(reference, p, value, timestamp)
  {
    if reference.Against? { assert Age(w, h, timestamp) == (timestamp - Stamp(reference.sample)) % TWO64; }
  }

  /** Every reading is judged against the last accepted one: always with indices modulo 10, and
      with the mask exactly while an odd number has been accepted, or none, or the last has stamp 0. */
  lemma JudgedAgainstLast(w: Wrap, es: seq<Event>)
    ensures var h, accepted := Run(w, es).channel.history, Run(w, es).accepted;
            (forall p, value, timestamp ::
               Judge(w, h, p, value, timestamp) == Verdict(LastOf(accepted), p, value, timestamp))
            <==> (w == Modulo || |accepted| % 2 == 1 || !Stamped(LastOf(accepted)))
  {
    var h, accepted := Run(w, es).channel.history, Run(w, es).accepted;
    forall p, value, timestamp
      ensures Judge(w, h, p, value, timestamp) == Verdict(ReferenceOf(w, accepted), p, value, timestamp)
    {
      JudgedAgainst(w, es, p, value, timestamp);
    }
    if w == Masked && |accepted| % 2 == 0 && Stamped(LastOf(accepted)) {
      var late: uint64 := Stamp(accepted[|accepted| - 1]) + 1;
      var strict := Params(0.0, 0.0, 0.0, 0);
      assert Judge(w, h, strict, 0.0, late) == VALIDATION_SUCCESS != Verdict(LastOf(accepted), strict, 0.0, late);
    }
  }

  /** With the mask as written, in every run: the index is the parity of the accepted readings, the
      filter returns each accepted reading as it is, and a reading is accepted exactly when it is in
      range and, after an odd number of accepted ones, also passes the rate and timeout checks
      against the last of them. */
  lemma MaskedBehaviour(es: seq<Event>, p: Params, value: real, timestamp: uint64, now: uint32)
    ensures var l := Run(Masked, es);
            var r := Validate(Masked, l.channel, p, value, timestamp, now).result;
            && l.channel.history.index == |l.accepted| % 2
            && r.error == Verdict(if |l.accepted| % 2 == 0 then Nothing else LastOf(l.accepted), p, value, timestamp)
            && (r.isValid <==> r.error == VALIDATION_SUCCESS)
            && (r.isValid ==> r.filtered == value)
  {
    MaskedRing(es);
    MaskedSlots();
    JudgedAgainst(Masked, es, p, value, timestamp);
    MaskedWindow(Push(Masked, Run(Masked, es).channel.history, value, timestamp), value);
  }

  // ---------------------------------------------------------------- rejections that stick

  ghost predicate StampsUpTo(h: History, t: nat) {
    ValidHistory(h) && forall k | 0 <= k < HISTORY_SIZE :: h.stamps[k] <= t
  }

  /** No reading of the run is later than `t`. */
  ghost predicate UpTo(es: seq<Event>, t: nat) {
    forall i | 0 <= i < |es| && es[i].Reading? :: es[i].timestamp <= t
  }

  lemma StepStamps(w: Wrap, l: Log, e: Event, t: uint64)
    requires StampsUpTo(l.channel.history, t) && (e.Reading? ==> e.timestamp <= t)
    ensures StampsUpTo(Step(w, l, e).channel.history, t)
  {
    if e.Reading? { assert e.timestamp % TWO32 <= e.timestamp; }
  }

  lemma {:induction false} StampsInThePast(w: Wrap, es: seq<Event>, t: uint64)
    requires UpTo(es, t)
    ensures StampsUpTo(Run(w, es).channel.history, t)
  {
    if es != [] {
      StampsInThePast(w, es[..|es| - 1], t);
      StepStamps(w, Run(w, es[..|es| - 1]), es[|es| - 1], t);
    }
  }

  /** Reading `k` of the run gets this error code. */
  ghost predicate JudgedAt(w: Wrap, es: seq<Event>, k: nat, error: byte)
    requires k < |es|
  {
    var e := es[k];
    e.Reading? && Judge(w, Run(w, es[..k]).channel.history, e.p, e.value, e.timestamp) == error
  }

  /** Reading `k` of the run is rejected. */
  ghost predicate RejectedAt(w: Wrap, es: seq<Event>, k: nat)
    requires k < |es|
  {
    es[k].Reading? && !JudgedAt(w, es, k, VALIDATION_SUCCESS)
  }

  lemma RunNext(w: Wrap, es: seq<Event>, k: nat)
    requires k < |es|
    ensures Run(w, es[..k + 1]) == Step(w, Run(w, es[..k]), es[k])
  {
    assert es[..k + 1][..k] == es[..k];
  }

  /** The reading is not earlier than `t`, and its timeout is no longer than `p`'s. */
  ghost predicate Later(e: Event, t: nat, p: Params) {
    e.Reading? && t <= e.timestamp && e.p.timeoutMs <= p.timeoutMs
  }

  /** A ring that times out at `t` rejects every later reading. */
  lemma LaterIsRejected(w: Wrap, h: History, p: Params, t: uint64, e: Event)
    requires StampsUpTo(h, t) && TimedOut(w, h, p, t) && Later(e, t, p)
    ensures Judge(w, h, e.p, e.value, e.timestamp) != VALIDATION_SUCCESS
  {
    assert Age(w, h, t) == t - h.stamps[Previous(w, h)];
    assert Age(w, h, e.timestamp) == e.timestamp - h.stamps[Previous(w, h)];
  }

  lemma StuckStep(w: Wrap, l: Log, p: Params, t: uint64, e: Event)
    requires StampsUpTo(l.channel.history, t) && TimedOut(w, l.channel.history, p, t) && Later(e, t, p)
    ensures Step(w, l, e).channel.history == l.channel.history
  {
    LaterIsRejected(w, l.channel.history, p, t, e);
  }

  lemma {:induction false} StuckRing(w: Wrap, es: seq<Event>, h: History, p: Params, t: uint64, k: nat, m: nat)
    requires k <= m <= |es| && Run(w, es[..k]).channel.history == h
    requires StampsUpTo(h, t) && TimedOut(w, h, p, t) && forall i | k <= i < m :: Later(es[i], t, p)
    ensures Run(w, es[..m]).channel.history == h
    decreases m
  {
    if m > k {
      StuckRing(w, es, h, p, t, k, m - 1);
      RunNext(w, es, m - 1);
      StuckStep(w, Run(w, es[..m - 1]), p, t, es[m - 1]);
    }
  }

  /** A timeout is never recovered from without a reset: whatever the run before, once a reading is
      rejected for timeout every later one, under limits no longer, is rejected. */
  lemma TimeoutSticks(w: Wrap, es: seq<Event>, k: nat, m: nat)
    requires k < m < |es| && JudgedAt(w, es, k, VALIDATION_TIMEOUT_ERROR) && UpTo(es[..k], es[k].timestamp)
    requires forall i | k <= i <= m :: Later(es[i], es[k].timestamp, es[k].p)
    ensures RejectedAt(w, es, m)
  {
    var h := Run(w, es[..k]).channel.history;
    assert Later(es[k], es[k].timestamp, es[k].p) && Later(es[m], es[k].timestamp, es[k].p);
    StampsInThePast(w, es[..k], es[k].timestamp);
    StuckRing(w, es, h, es[k].p, es[k].timestamp, k, m);
    LaterIsRejected(w, h, es[k].p, es[k].timestamp, es[m]);
  }

  // ---------------------------------------------------------------- stamps of 32 bits

  /** The verdict by the true time since a sample. */
  function TrueVerdict(sample: Sample, p: Params, value: real, timestamp: uint64): byte {
    if value < p.minValue || value > p.maxValue then VALIDATION_RANGE_ERROR
    else
      var age := (timestamp - sample.timestamp) % TWO64;
      if age > 0 && Abs((value - sample.value) / (age as real / 1000.0)) > p.maxRate then VALIDATION_RATE_ERROR
      else if age > p.timeoutMs then VALIDATION_TIMEOUT_ERROR
      else VALIDATION_SUCCESS
  }

  lemma JudgedAlways(w: Wrap, es: seq<Event>)
    ensures forall p, value, timestamp ::
              Judge(w, Run(w, es).channel.history, p, value, timestamp)
              == Verdict(ReferenceOf(w, Run(w, es).accepted), p, value, timestamp)
  {
    forall p, value, timestamp
      ensures Judge(w, Run(w, es).channel.history, p, value, timestamp)
           == Verdict(ReferenceOf(w, Run(w, es).accepted), p, value, timestamp)
    {
      JudgedAgainst(w, es, p, value, timestamp);
    }
  }

  /** Readings are judged by the true time since their reference exactly when that was taken after 0
      and before 2^32 ms. */
  lemma JudgedByTrueTime(w: Wrap, es: seq<Event>)
    requires ReferenceOf(w, Run(w, es).accepted).Against?
    ensures var h, sample := Run(w, es).channel.history, ReferenceOf(w, Run(w, es).accepted).sample;
            (forall p, value, timestamp ::
               Judge(w, h, p, value, timestamp) == TrueVerdict(sample, p, value, timestamp))
            <==> 0 < sample.timestamp < TWO32
  {
    var h, sample := Run(w, es).channel.history, ReferenceOf(w, Run(w, es).accepted).sample;
    JudgedAlways(w, es);
    if 0 < sample.timestamp < TWO32 {
      FullStamp(sample);
    } else {
      var p, value, timestamp := Telltale(sample);
      assert Judge(w, h, p, value, timestamp) != TrueVerdict(sample, p, value, timestamp);
    }
  }

  lemma FullStamp(sample: Sample)
    requires 0 < sample.timestamp < TWO32
    ensures forall p, value, timestamp ::
              Verdict(Against(sample), p, value, timestamp) == TrueVerdict(sample, p, value, timestamp)
  {
    SmallModulo(sample.timestamp);
  }

  /** A reading on which a stamp of 0, or one that lost its high bits, tells. */
  lemma Telltale(sample: Sample) returns (p: Params, value: real, timestamp: uint64)
    requires sample.timestamp == 0 || sample.timestamp >= TWO32
    ensures Verdict(Against(sample), p, value, timestamp) != TrueVerdict(sample, p, value, timestamp)
  {
    p, value := Params(sample.value, sample.value, 0.0, 0), sample.value;
    if Stamp(sample) == 0 {
      UnstampedBelowTop(sample);
      timestamp := sample.timestamp + 1;
    } else {
      timestamp := sample.timestamp;
      LostTurns(sample, timestamp);
    }
  }

  lemma UnstampedBelowTop(sample: Sample)
    requires Stamp(sample) == 0
    ensures sample.timestamp + 1 < TWO64
  {
    assert (TWO64 - 1) % TWO32 == TWO32 - 1;
  }

  lemma LostTurns(sample: Sample, timestamp: uint64)
    requires TWO32 <= sample.timestamp <= timestamp
    ensures Stamp(sample) + TWO32 <= timestamp
  {}

  /** A reading is rejected whatever its value and parameters exactly when it has a stamped reference
      and comes 2^32 ms or more after that stamp. */
  lemma LateReading(w: Wrap, es: seq<Event>, timestamp: uint64)
    ensures var h, reference := Run(w, es).channel.history, ReferenceOf(w, Run(w, es).accepted);
            (forall p, value :: Judge(w, h, p, value, timestamp) != VALIDATION_SUCCESS)
            <==> Stamped(reference) && (timestamp - Stamp(reference.sample)) % TWO64 >= TWO32
  {
    var h, reference := Run(w, es).channel.history, ReferenceOf(w, Run(w, es).accepted);
    JudgedAlways(w, es);
    TooLate(reference, timestamp);
    assert forall p, value :: Judge(w, h, p, value, timestamp) == Verdict(reference, p, value, timestamp);
  }

  lemma TooLate(reference: Reference, timestamp: uint64)
    ensures (forall p, value :: Verdict(reference, p, value, timestamp) != VALIDATION_SUCCESS)
       <==> Stamped(reference) && (timestamp - Stamp(reference.sample)) % TWO64 >= TWO32
  {
    if !(Stamped(reference) && (timestamp - Stamp(reference.sample)) % TWO64 >= TWO32) {
      var p, value := Lenient(reference, timestamp);
    }
  }

  /** A reading that passes when any does. */
  lemma Lenient(reference: Reference, timestamp: uint64) returns (p: Params, value: real)
    requires !(Stamped(reference) && (timestamp - Stamp(reference.sample)) % TWO64 >= TWO32)
    ensures Verdict(reference, p, value, timestamp) == VALIDATION_SUCCESS
  {
    value := if reference.Against? then reference.sample.value else 0.0;
    p := Params(value, value, 0.0, TWO32 - 1);
  }

  /** The reading comes 2^32 ms or more after the stamp of the reference. */
  ghost predicate Late(reference: Reference, e: Event) {
    Stamped(reference) && e.Reading? && e.timestamp >= Stamp(reference.sample) + TWO32
  }

  lemma LateVerdict(reference: Reference, e: Event)
    requires Late(reference, e)
    ensures Verdict(reference, e.p, e.value, e.timestamp) != VALIDATION_SUCCESS
  {
    assert (e.timestamp - Stamp(reference.sample)) % TWO64 == e.timestamp - Stamp(reference.sample);
  }

  lemma LateReadingDropped(w: Wrap, es: seq<Event>, m: nat)
    requires m < |es| && Late(ReferenceOf(w, Run(w, es[..m]).accepted), es[m])
    ensures RejectedAt(w, es, m)
    ensures Run(w, es[..m + 1]).accepted == Run(w, es[..m]).accepted
  {
    LateVerdict(ReferenceOf(w, Run(w, es[..m]).accepted), es[m]);
    JudgedAgainst(w, es[..m], es[m].p, es[m].value, es[m].timestamp);
    RunNext(w, es, m);
  }

  lemma ReferenceStays(w: Wrap, es: seq<Event>, reference: Reference, m: nat)
    requires m < |es| && ReferenceOf(w, Run(w, es[..m]).accepted) == reference && Late(reference, es[m])
    ensures ReferenceOf(w, Run(w, es[..m + 1]).accepted) == reference
  {
    LateReadingDropped(w, es, m);
  }

  lemma {:induction false} LateReadingsDropped(w: Wrap, es: seq<Event>, reference: Reference, k: nat, m: nat)
    requires k <= m <= |es| && ReferenceOf(w, Run(w, es[..k]).accepted) == reference
    requires forall i | k <= i < m :: Late(reference, es[i])
    ensures ReferenceOf(w, Run(w, es[..m]).accepted) == reference
    decreases m
  {
    if m > k {
      LateReadingsDropped(w, es, reference, k, m - 1);
      ReferenceStays(w, es, reference, m - 1);
    }
  }

  /** While only such readings come every one is rejected, whatever its parameters, until a reset. */
  lemma LateReadingsStop(w: Wrap, es: seq<Event>, k: nat, m: nat)
    requires k <= m < |es|
    requires forall i | k <= i <= m :: Late(ReferenceOf(w, Run(w, es[..k]).accepted), es[i])
    ensures RejectedAt(w, es, m)
  {
    LateReadingsDropped(w, es, ReferenceOf(w, Run(w, es[..k]).accepted), k, m);
    LateReadingDropped(w, es, m);
  }

  lemma AcceptedIsReference(w: Wrap, es: seq<Event>, k: nat)
    requires k < |es| && JudgedAt(w, es, k, VALIDATION_SUCCESS)
    requires w == Modulo || |Run(w, es[..k]).accepted| % 2 == 0
    ensures ReferenceOf(w, Run(w, es[..k + 1]).accepted) == Against(Sample(es[k].value, es[k].timestamp))
  {
    RunNext(w, es, k);
    StepAccepts(w, Run(w, es[..k]), es[k]);
    NewReference(w, Run(w, es[..k]).accepted, Sample(es[k].value, es[k].timestamp));
  }

  lemma StepAccepts(w: Wrap, l: Log, e: Event)
    requires ValidHistory(l.channel.history) && e.Reading?
    requires Judge(w, l.channel.history, e.p, e.value, e.timestamp) == VALIDATION_SUCCESS
    ensures Step(w, l, e).accepted == l.accepted + [Sample(e.value, e.timestamp)]
  {}

  lemma NewReference(w: Wrap, accepted: seq<Sample>, sample: Sample)
    requires w == Modulo || |accepted| % 2 == 0
    ensures ReferenceOf(w, accepted + [sample]) == Against(sample)
  {}

  /** A channel stops with the first reading it accepts as a stamped reference at or after 2^32 ms: with
      indices modulo 10 any whose stamp is not 0, with the mask every second. No reading that is not
      earlier is accepted after it, whatever its parameters, until a reset. */
  lemma StopsAfterTurn(w: Wrap, es: seq<Event>, k: nat, m: nat)
    requires k < m < |es| && JudgedAt(w, es, k, VALIDATION_SUCCESS)
    requires es[k].timestamp >= TWO32 && es[k].timestamp % TWO32 > 0
    requires w == Modulo || |Run(w, es[..k]).accepted| % 2 == 0
    requires forall i | k < i <= m :: es[i].Reading? && es[i].timestamp >= es[k].timestamp
    ensures RejectedAt(w, es, m)
  {
    var sample := Sample(es[k].value, es[k].timestamp);
    AcceptedIsReference(w, es, k);
    forall i | k + 1 <= i <= m ensures Late(Against(sample), es[i]) {
      LostTurns(sample, es[i].timestamp);
    }
    LateReadingsStop(w, es, k + 1, m);
  }
}
