/** The two-out-of-three vote on redundant readings. Floats are reals. */
module SensorVote {
  import opened Bits
  import Sensor

  const TOLERANCE: real := 0.2
  const SENSOR_TIMEOUT_MS: nat := 1000

  datatype Readings = Readings(primary: real, secondary: real, reference: real, timestamp: uint32, valid: bool)

  datatype Vote = Vote(readings: Readings, ok: bool)

  datatype Voted = Voted(readings: Readings, value: real)

  predicate Agree(a: real, b: real) {
    Sensor.Abs(a - b) <= TOLERANCE
  }

  predicate AllAgree(r: Readings) {
    Agree(r.primary, r.secondary) && Agree(r.secondary, r.reference) && Agree(r.primary, r.reference)
  }

  predicate Fresh(r: Readings, now: uint32) {
    Elapsed(now, r.timestamp) <= SENSOR_TIMEOUT_MS
  }

  /** `validate_sensor_readings`: the reading outvoted by an agreeing pair becomes the pair's mean. */
  function VoteOn(r: Readings, now: uint32): Vote {
    if !r.valid then Vote(r, false)
    else if !Fresh(r, now) then Vote(r.(valid := false), false)
    else if AllAgree(r) then Vote(r, true)
    else if Agree(r.primary, r.secondary) then Vote(r.(reference := (r.primary + r.secondary) / 2.0), true)
    else if Agree(r.secondary, r.reference) then Vote(r.(primary := (r.secondary + r.reference) / 2.0), true)
    else if Agree(r.primary, r.reference) then Vote(r.(secondary := (r.primary + r.reference) / 2.0), true)
    else Vote(r.(valid := false), false)
  }

  /** `get_validated_sensor_value`: the mean of the first agreeing pair. */
  function ValueOf(r: Readings): Voted {
    if !r.valid then Voted(r, 0.0)
    else if Agree(r.primary, r.secondary) then Voted(r, (r.primary + r.secondary) / 2.0)
    else if Agree(r.secondary, r.reference) then Voted(r, (r.secondary + r.reference) / 2.0)
    else if Agree(r.primary, r.reference) then Voted(r, (r.primary + r.reference) / 2.0)
    else Voted(r.(valid := false), 0.0)
  }

  class Triple {
    var primaryValue: real
    var secondaryValue: real
    var referenceValue: real
    var timestamp: uint32
    var valuesValid: bool

    constructor (r: Readings)
      ensures State() == r
    {
      primaryValue, secondaryValue, referenceValue := r.primary, r.secondary, r.reference;
      timestamp, valuesValid := r.timestamp, r.valid;
    }

    ghost function State(): Readings
      reads this
    {
      Readings(primaryValue, secondaryValue, referenceValue, timestamp, valuesValid)
    }

    method ValidateReadings(now: uint32) returns (ok: bool)
      modifies this
      ensures Vote(State(), ok) == VoteOn(old(State()), now)
    {
      if !valuesValid {
        return false;
      }
      if Elapsed(now, timestamp) > SENSOR_TIMEOUT_MS {
        valuesValid := false;
        return false;
      }
      var diff12 := Sensor.Abs(primaryValue - secondaryValue);
      var diff23 := Sensor.Abs(secondaryValue - referenceValue);
      var diff13 := Sensor.Abs(primaryValue - referenceValue);
      if diff12 <= TOLERANCE && diff23 <= TOLERANCE && diff13 <= TOLERANCE {
        return true;
      }
      if diff12 <= TOLERANCE {
        referenceValue := (primaryValue + secondaryValue) / 2.0;
        return true;
      }
      if diff23 <= TOLERANCE {
        primaryValue := (secondaryValue + referenceValue) / 2.0;
        return true;
      }
      if diff13 <= TOLERANCE {
        secondaryValue := (primaryValue + referenceValue) / 2.0;
        return true;
      }
      valuesValid := false;
      ok := false;
    }

    method GetValue() returns (value: real)
      modifies this
      ensures Voted(State(), value) == ValueOf(old(State()))
    {
      if !valuesValid {
        return 0.0;
      }
      if Sensor.Abs(primaryValue - secondaryValue) <= TOLERANCE {
        return (primaryValue + secondaryValue) / 2.0;
      }
      if Sensor.Abs(secondaryValue - referenceValue) <= TOLERANCE {
        return (secondaryValue + referenceValue) / 2.0;
      }
      if Sensor.Abs(primaryValue - referenceValue) <= TOLERANCE {
        return (primaryValue + referenceValue) / 2.0;
      }
      valuesValid := false;
      value := 0.0;
    }
  }

  // ---------------------------------------------------------------- what the vote promises

  predicate Near(x: real, v: real, d: real) {
    Sensor.Abs(x - v) <= d
  }

  /** At least two of the three readings are within half the tolerance of `v`. */
  predicate TwoNear(r: Readings, v: real) {
    var d := TOLERANCE / 2.0;
    || (Near(r.primary, v, d) && Near(r.secondary, v, d))
    || (Near(r.secondary, v, d) && Near(r.reference, v, d))
    || (Near(r.primary, v, d) && Near(r.reference, v, d))
  }

  /** A vote succeeds exactly on fresh, valid readings of which two agree, and leaves all three in
      pairwise agreement; a failed vote only marks the readings invalid. */
  lemma VoteSucceeds(r: Readings, now: uint32)
    ensures var vote := VoteOn(r, now);
            && (vote.ok <==> r.valid && Fresh(r, now)
                             && (|| Agree(r.primary, r.secondary)
                                 || Agree(r.secondary, r.reference)
                                 || Agree(r.primary, r.reference)))
            && (vote.ok ==> AllAgree(vote.readings) && vote.readings.valid && vote.readings.timestamp == r.timestamp)
            && (!vote.ok ==> vote.readings == r.(valid := false))
  {
    var t := VoteOn(r, now).readings;
    if VoteOn(r, now).ok && !AllAgree(r) {
      assert Agree(t.primary, t.secondary);
    }
  }

  /** What a vote corrects, taking the first pair that agrees when not all three do: the reading outside
      it becomes its mean, and the pair, the time and validity stay. */
  lemma VoteCorrects(r: Readings, now: uint32)
    requires VoteOn(r, now).ok
    ensures var t := VoteOn(r, now).readings;
            && t.timestamp == r.timestamp && t.valid
            && (AllAgree(r) ==> t == r)
            && (!AllAgree(r) && Agree(r.primary, r.secondary) ==>
                  t.primary == r.primary && t.secondary == r.secondary && 2.0 * t.reference == r.primary + r.secondary)
            && (!Agree(r.primary, r.secondary) && Agree(r.secondary, r.reference) ==>
                  && t.secondary == r.secondary && t.reference == r.reference
                  && 2.0 * t.primary == r.secondary + r.reference)
            && (!Agree(r.primary, r.secondary) && !Agree(r.secondary, r.reference) ==>
                  t.primary == r.primary && t.reference == r.reference && 2.0 * t.secondary == r.primary + r.reference)
  {}

  /** The value read is the mean of the first pair that agrees; without one, or without valid readings, it
      is 0, and they are not valid afterwards. Nothing else changes. */
  lemma ValueRead(r: Readings)
    ensures var v := ValueOf(r);
            var some := || Agree(r.primary, r.secondary)
                        || Agree(r.secondary, r.reference)
                        || Agree(r.primary, r.reference);
            && v.readings == r.(valid := r.valid && some)
            && 2.0 * v.value == if !r.valid || !some then 0.0
                                else if Agree(r.primary, r.secondary) then r.primary + r.secondary
                                else if Agree(r.secondary, r.reference) then r.secondary + r.reference
                                else r.primary + r.reference
  {}

  /** Two readings agree when they differ by at most 0.2, and readings are fresh for a second. */
  lemma Limits(r: Readings, now: uint32, a: real, b: real)
    ensures Agree(a, b) <==> -0.2 <= a - b <= 0.2
    ensures Fresh(r, now) <==> (now - r.timestamp) % 0x1_0000_0000 <= 1000
  {}

  /** Vote accuracy: if two of three fresh, valid readings are within half the tolerance of `v`, the
      vote succeeds and the value then read is within one and a quarter tolerances of `v`. */
  lemma VoteAccuracy(r: Readings, now: uint32, v: real)
    requires r.valid && Fresh(r, now) && TwoNear(r, v)
    ensures VoteOn(r, now).ok
    ensures var value := ValueOf(VoteOn(r, now).readings);
            value.readings == VoteOn(r, now).readings && Near(value.value, v, 1.25 * TOLERANCE)
  {
    TwoNearAgree(r, v);
    var t := VoteOn(r, now).readings;
    if !Agree(r.primary, r.secondary) && Agree(r.secondary, r.reference) {
      assert Sensor.Abs(t.primary - t.secondary) == Sensor.Abs(r.reference - r.secondary) / 2.0;
    }
  }

  lemma TwoNearAgree(r: Readings, v: real)
    requires TwoNear(r, v)
    ensures Agree(r.primary, r.secondary) || Agree(r.secondary, r.reference) || Agree(r.primary, r.reference)
  {}

  /** The bound is attained: two readings half a tolerance either side of 0, the third a tolerance
      above the reference, and the vote goes with the wrong pair. */
  lemma VoteBoundAttained(now: uint32)
    ensures var r := Readings(-0.1, 0.3, 0.1, now, true);
            && TwoNear(r, 0.0) && Fresh(r, now)
            && ValueOf(VoteOn(r, now).readings).value == 1.25 * TOLERANCE
  {}

  /** A second vote on the outcome of a successful one, while still fresh, changes nothing. */
  lemma VoteIsStable(r: Readings, now: uint32, later: uint32)
    requires VoteOn(r, now).ok && Fresh(r, later)
    ensures VoteOn(VoteOn(r, now).readings, later) == VoteOn(r, now)
  {
    var t := VoteOn(r, now).readings;
    assert t.timestamp == r.timestamp;
  }
}
