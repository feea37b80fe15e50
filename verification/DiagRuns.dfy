/** What holds of the UDS server over every run of requests. */
module DiagRuns {
  import opened Bits
  import opened Diag

  /** A request arriving `at` so many milliseconds since boot; the server reads 32 bits of that. */
  datatype Request = Request(service: byte, data: Payload, at: nat)

  function Serve(w: World, c: Context, r: Request): Answer
  {
    Process(w, c, r.service, r.data, r.at % TWO32)
  }

  function Run(w: World, c: Context, rs: seq<Request>): Context
  {
    if rs == [] then c else Serve(w, Run(w, c, rs[..|rs| - 1]), rs[|rs| - 1]).context
  }

  ghost predicate Reachable(c: Context) {
    c.attempts <= MAX_SECURITY_ATTEMPTS && SESSION_DEFAULT <= c.session <= SESSION_SAFETY
  }

  lemma {:induction false} RunKeepsReachable(w: World, c: Context, rs: seq<Request>)
    requires Reachable(c)
    ensures Reachable(Run(w, c, rs))
  {
    if rs != [] { RunKeepsReachable(w, c, rs[..|rs| - 1]); }
  }

  /** The request reaches the handler of `service` in context `c`. */
  predicate Reaches(w: World, c: Context, r: Request, service: byte, length: nat) {
    r.service == service && w.admits(service, c.session) && |r.data| >= length
  }

  // ---------------------------------------------------------------- security access

  /** The request carries a key and the server compares it: it is not refused for the lockout. */
  predicate Evaluates(w: World, c: Context, r: Request) {
    Reaches(w, c, r, UDS_SECURITY_ACCESS, 5) && !LockedOut(c, r.at % TWO32)
  }

  predicate RightKey(w: World, c: Context, r: Request)
    requires Evaluates(w, c, r)
  {
    LittleEndian32(r.data[1..]) == w.expectedKey(c.lastAttempt, r.data[0])
  }

  predicate Fails(w: World, c: Context, r: Request) {
    Evaluates(w, c, r) && !RightKey(w, c, r)
  }

  predicate Unlocks(w: World, c: Context, r: Request) {
    Evaluates(w, c, r) && RightKey(w, c, r)
  }

  /** The times of the wrong keys evaluated in a run. */
  function WrongKeys(w: World, c: Context, rs: seq<Request>): seq<nat>
  {
    if rs == [] then []
    else
      var before, last := WrongKeys(w, c, rs[..|rs| - 1]), rs[|rs| - 1];
      if Fails(w, Run(w, c, rs[..|rs| - 1]), last) then before + [last.at] else before
  }

  ghost predicate Ordered(rs: seq<Request>) {
    forall i | 1 <= i < |rs| :: rs[i - 1].at <= rs[i].at
  }

  ghost predicate NoSuccess(w: World, c: Context, rs: seq<Request>)
  {
    forall i | 0 <= i < |rs| :: !Unlocks(w, Run(w, c, rs[..i]), rs[i])
  }

  lemma ElapsedAtMost(earlier: nat, later: nat)
    requires earlier <= later
    ensures Elapsed(later % TWO32, earlier % TWO32) <= later - earlier
  {
    ElapsedModulo(earlier, later);
  }

  lemma {:induction false} LastWrongKey(w: World, c: Context, rs: seq<Request>)
    requires Ordered(rs) && WrongKeys(w, c, rs) != []
    ensures rs != [] && WrongKeys(w, c, rs)[|WrongKeys(w, c, rs)| - 1] <= rs[|rs| - 1].at
  {
    var init := rs[..|rs| - 1];
    if !Fails(w, Run(w, c, init), rs[|rs| - 1]) {
      LastWrongKey(w, c, init);
      assert rs[|rs| - 2].at <= rs[|rs| - 1].at;
    }
  }

  lemma FailStep(w: World, c: Context, r: Request)
    requires Reachable(c) && Fails(w, c, r)
    ensures var d := Serve(w, c, r).context;
            && d.lastAttempt == r.at % TWO32
            && d.attempts == (if c.attempts == MAX_SECURITY_ATTEMPTS then 1 else c.attempts + 1)
            && (c.attempts == MAX_SECURITY_ATTEMPTS
                ==> Elapsed(r.at % TWO32, c.lastAttempt) >= SECURITY_LOCKOUT_TIME_MS)
  {}

  lemma OtherStep(w: World, c: Context, r: Request)
    requires !Fails(w, c, r) && !Unlocks(w, c, r)
    ensures var d := Serve(w, c, r).context; d.attempts == c.attempts && d.lastAttempt == c.lastAttempt
  {}

  /** What is known of a run with wrong keys `ts` ending in `c`, `k` lockouts having been waited for. */
  ghost predicate Paced(c: Context, ts: seq<nat>, k: nat) {
    ts != [] ==>
      && 1 <= c.attempts <= MAX_SECURITY_ATTEMPTS
      && c.lastAttempt == ts[|ts| - 1] % TWO32
      && ts[|ts| - 1] >= ts[0] + SECURITY_LOCKOUT_TIME_MS * k
      && 3 * k >= |ts| - c.attempts
  }

  lemma PacedStep(w: World, c: Context, r: Request, ts: seq<nat>, k: nat) returns (k': nat)
    requires Reachable(c) && Fails(w, c, r) && Paced(c, ts, k)
    requires ts != [] ==> ts[|ts| - 1] <= r.at
    ensures Paced(Serve(w, c, r).context, ts + [r.at], k')
  {
    FailStep(w, c, r);
    k' := if ts == [] then 0 else if c.attempts == MAX_SECURITY_ATTEMPTS then k + 1 else k;
    if ts != [] { ElapsedAtMost(ts[|ts| - 1], r.at); }
  }

  lemma LockoutsStep(w: World, c: Context, rs: seq<Request>, k: nat) returns (k': nat)
    requires rs != [] && Ordered(rs)
    requires var before := Run(w, c, rs[..|rs| - 1]);
             && Reachable(before) && Paced(before, WrongKeys(w, c, rs[..|rs| - 1]), k)
             && !Unlocks(w, before, rs[|rs| - 1])
    ensures Paced(Run(w, c, rs), WrongKeys(w, c, rs), k')
  {
    var init, last := rs[..|rs| - 1], rs[|rs| - 1];
    if Fails(w, Run(w, c, init), last) {
      if WrongKeys(w, c, init) != [] {
        LastWrongKey(w, c, init);
        assert rs[|rs| - 2].at <= last.at;
      }
      k' := PacedStep(w, Run(w, c, init), last, WrongKeys(w, c, init), k);
    } else {
      k' := k;
      OtherStep(w, Run(w, c, init), last);
    }
  }

  /** The lockouts waited for between the wrong keys of a run: each took ten seconds, and at most
      three wrong keys come between two of them. */
  lemma {:induction false} Lockouts(w: World, c: Context, rs: seq<Request>) returns (k: nat)
    requires Ordered(rs) && Reachable(c) && NoSuccess(w, c, rs)
    ensures Paced(Run(w, c, rs), WrongKeys(w, c, rs), k)
  {
    k := 0;
    if rs != [] {
      NoSuccessPrefix(w, c, rs);
      k := Lockouts(w, c, rs[..|rs| - 1]);
      RunKeepsReachable(w, c, rs[..|rs| - 1]);
      k := LockoutsStep(w, c, rs, k);
    }
  }

  lemma NoSuccessPrefix(w: World, c: Context, rs: seq<Request>)
    requires rs != [] && Ordered(rs) && NoSuccess(w, c, rs)
    ensures Ordered(rs[..|rs| - 1]) && NoSuccess(w, c, rs[..|rs| - 1])
  {
    var init := rs[..|rs| - 1];
    forall i | 0 <= i < |init| ensures !Unlocks(w, Run(w, c, init[..i]), init[i]) {
      assert init[..i] == rs[..i];
    }
  }

  /** Lockout pacing: over any run without a success, whatever other requests are interleaved and
      however often the 32-bit clock comes round, n wrong-key evaluations span at least ten
      seconds for every three of them after the first. */
  lemma LockoutPacing(w: World, c: Context, rs: seq<Request>)
    requires Ordered(rs) && Reachable(c) && NoSuccess(w, c, rs)
    requires WrongKeys(w, c, rs) != []
    ensures var ts := WrongKeys(w, c, rs);
            ts[|ts| - 1] - ts[0] >= SECURITY_LOCKOUT_TIME_MS * ((|ts| - 1) / 3)
  {
    var k := Lockouts(w, c, rs);
    PacedSpan(Run(w, c, rs), WrongKeys(w, c, rs), k);
  }

  lemma PacedSpan(c: Context, ts: seq<nat>, k: nat)
    requires Paced(c, ts, k) && ts != []
    ensures ts[|ts| - 1] - ts[0] >= SECURITY_LOCKOUT_TIME_MS * ((|ts| - 1) / 3)
  {
    assert k >= (|ts| - 1) / 3;
  }

  lemma LockedStep(w: World, c: Context, r: Request)
    requires LockedOut(c, r.at % TWO32)
    ensures var d := Serve(w, c, r).context;
            d.attempts == c.attempts && d.lastAttempt == c.lastAttempt && (d.level == c.level || d.level == 0)
  {}

  /** While the lockout lasts no request of any kind changes or extends it. */
  lemma {:induction false} LockoutHolds(w: World, c: Context, rs: seq<Request>, since: nat)
    requires c.attempts == MAX_SECURITY_ATTEMPTS && c.lastAttempt == since % TWO32
    requires forall i | 0 <= i < |rs| :: since <= rs[i].at < since + SECURITY_LOCKOUT_TIME_MS
    ensures var d := Run(w, c, rs);
            && d.attempts == MAX_SECURITY_ATTEMPTS && d.lastAttempt == c.lastAttempt
            && (d.level == c.level || d.level == 0)
    ensures forall i | 0 <= i < |rs| :: LockedOut(Run(w, c, rs[..i]), rs[i].at % TWO32)
  {
    if rs != [] {
      var init, last := rs[..|rs| - 1], rs[|rs| - 1];
      LockoutHolds(w, c, init, since);
      ElapsedAtMost(since, last.at);
      LockedStep(w, Run(w, c, init), last);
      forall i | 0 <= i < |rs| ensures LockedOut(Run(w, c, rs[..i]), rs[i].at % TWO32) {
        if i < |init| { assert init[..i] == rs[..i]; }
      }
    }
  }

  /** The times of the wrong keys evaluated since the last accepted one. */
  function Failures(w: World, rs: seq<Request>): seq<nat> {
    if rs == [] then []
    else
      var init, last := rs[..|rs| - 1], rs[|rs| - 1];
      if Fails(w, Run(w, INITIAL, init), last) then Failures(w, init) + [last.at]
      else if Unlocks(w, Run(w, INITIAL, init), last) then []
      else Failures(w, init)
  }

  /** When the last wrong key of the run was evaluated; 0 when none was. */
  function LastFailure(w: World, rs: seq<Request>): nat {
    if rs == [] then 0
    else if Fails(w, Run(w, INITIAL, rs[..|rs| - 1]), rs[|rs| - 1]) then rs[|rs| - 1].at
    else LastFailure(w, rs[..|rs| - 1])
  }

  /** Attempts are counted up to three and from one again. */
  function AttemptsOf(failures: nat): nat {
    if failures == 0 then 0 else (failures - 1) % MAX_SECURITY_ATTEMPTS + 1
  }

  lemma OneMoreAttempt(n: nat)
    ensures AttemptsOf(n + 1) == if AttemptsOf(n) == MAX_SECURITY_ATTEMPTS then 1 else AttemptsOf(n) + 1
    ensures AttemptsOf(n) == MAX_SECURITY_ATTEMPTS <==> n > 0 && n % MAX_SECURITY_ATTEMPTS == 0
  {}

  lemma UnlockStep(w: World, c: Context, r: Request)
    requires Unlocks(w, c, r)
    ensures Serve(w, c, r).context.attempts == 0 && Serve(w, c, r).context.lastAttempt == c.lastAttempt
  {}

  /** The attempt counter and the time the server keeps are those of the run's wrong keys. */
  lemma {:induction false} SecurityState(w: World, rs: seq<Request>)
    ensures Run(w, INITIAL, rs).attempts == AttemptsOf(|Failures(w, rs)|)
    ensures Run(w, INITIAL, rs).lastAttempt == LastFailure(w, rs) % TWO32
  {
    if rs != [] {
      var init, last := rs[..|rs| - 1], rs[|rs| - 1];
      var c := Run(w, INITIAL, init);
      SecurityState(w, init);
      RunKeepsReachable(w, INITIAL, init);
      if Fails(w, c, last) {
        FailStep(w, c, last);
        OneMoreAttempt(|Failures(w, init)|);
      } else if Unlocks(w, c, last) {
        UnlockStep(w, c, last);
      } else {
        OtherStep(w, c, last);
      }
    }
  }

  /** The run so far locks key requests out at `at`: since the last accepted key there have been
      wrong ones, a multiple of three of them, the last less than ten seconds ago. */
  predicate LocksOut(w: World, rs: seq<Request>, at: nat) {
    var n := |Failures(w, rs)|;
    n > 0 && n % MAX_SECURITY_ATTEMPTS == 0
    && Elapsed(at % TWO32, LastFailure(w, rs) % TWO32) < SECURITY_LOCKOUT_TIME_MS
  }

  /** How a key request is answered, from the wrong keys of the run alone: refused exactly while it
      is locked out, and otherwise accepted exactly when the key is the one expected after the last
      wrong one. A refusal changes nothing. */
  lemma KeyAnswers(w: World, rs: seq<Request>, r: Request)
    requires Reaches(w, Run(w, INITIAL, rs), r, UDS_SECURITY_ACCESS, 5)
    ensures var a, locked := Serve(w, Run(w, INITIAL, rs), r), LocksOut(w, rs, r.at);
            var right := LittleEndian32(r.data[1..]) == w.expectedKey(LastFailure(w, rs) % TWO32, r.data[0]);
            && a.code == (if locked then RESP_REQUIRED_TIME_NA else if right then RESP_OK else RESP_INVALID_KEY)
            && (locked ==> a.context == Run(w, INITIAL, rs))
            && (!locked && right ==> a.context.level == r.data[0])
            && (!locked && !right ==> a.context.level == Run(w, INITIAL, rs).level)
  {
    SecurityState(w, rs);
    RunKeepsReachable(w, INITIAL, rs);
    OneMoreAttempt(|Failures(w, rs)|);
  }

  /** The request changes the session. */
  predicate ChangesSession(w: World, c: Context, r: Request) {
    Reaches(w, c, r, UDS_SESSION_CONTROL, 1)
    && SESSION_DEFAULT <= r.data[0] <= SESSION_SAFETY && MayEnter(c.session, r.data[0])
  }

  lemma LevelStep(w: World, c: Context, r: Request)
    requires Serve(w, c, r).context.level != 0
    ensures var level := Serve(w, c, r).context.level;
            if Unlocks(w, c, r) then level == r.data[0] else level == c.level && !ChangesSession(w, c, r)
    ensures Unlocks(w, c, r) ==> !ChangesSession(w, c, r)
  {}

  /** No request of the run from `from` on changes the session. */
  ghost predicate SessionKept(w: World, rs: seq<Request>, from: nat)
  {
    forall k | from <= k < |rs| :: !ChangesSession(w, Run(w, INITIAL, rs[..k]), rs[k])
  }

  lemma KeptOneMore(w: World, rs: seq<Request>, from: nat)
    requires rs != [] && SessionKept(w, rs[..|rs| - 1], from)
    requires !ChangesSession(w, Run(w, INITIAL, rs[..|rs| - 1]), rs[|rs| - 1])
    ensures SessionKept(w, rs, from)
  {
    var init := rs[..|rs| - 1];
    forall k | from <= k < |rs| ensures !ChangesSession(w, Run(w, INITIAL, rs[..k]), rs[k]) {
      if k < |init| { assert init[..k] == rs[..k] && init[k] == rs[k]; }
    }
  }

  /** A security level is only ever held from an accepted key for it, with no session change since. */
  lemma {:induction false} LevelComesFromKey(w: World, rs: seq<Request>) returns (j: nat)
    requires Run(w, INITIAL, rs).level != 0
    ensures j < |rs| && Unlocks(w, Run(w, INITIAL, rs[..j]), rs[j]) && rs[j].data[0] == Run(w, INITIAL, rs).level
    ensures SessionKept(w, rs, j + 1)
  {
    var init, last := rs[..|rs| - 1], rs[|rs| - 1];
    var before := Run(w, INITIAL, init);
    LevelStep(w, before, last);
    if Unlocks(w, before, last) {
      j := |rs| - 1;
    } else {
      j := LevelComesFromKey(w, init);
      assert init[..j] == rs[..j];
      KeptOneMore(w, rs, j + 1);
    }
  }

  lemma SessionStep(w: World, c: Context, r: Request)
    ensures var d := Serve(w, c, r).context; d.session == c.session || MayEnter(c.session, d.session)
  {}

  /** From the programming session the extended and safety sessions are reached only through the
      default session. */
  lemma {:induction false} ProgrammingLeavesByDefault(w: World, c: Context, rs: seq<Request>) returns (k: nat)
    requires c.session == SESSION_PROGRAMMING
    requires Run(w, c, rs).session == SESSION_EXTENDED || Run(w, c, rs).session == SESSION_SAFETY
    ensures 0 < k < |rs| && Run(w, c, rs[..k]).session == SESSION_DEFAULT
  {
    var init := rs[..|rs| - 1];
    var before := Run(w, c, init);
    SessionStep(w, before, rs[|rs| - 1]);
    if before.session == SESSION_DEFAULT {
      k := |rs| - 1;
    } else {
      k := ProgrammingLeavesByDefault(w, c, init);
      assert init[..k] == rs[..k];
    }
  }

  // ---------------------------------------------------------------- routines

  /** A routine start that takes the slot; it may still be answered with an error. */
  predicate Starts(w: World, c: Context, r: Request, id: uint16) {
    TakesSlot(w, c, r.service, r.data) && LittleEndian16(r.data) == id
  }

  /** An accepted stop naming the routine in the slot. */
  predicate Stops(w: World, c: Context, r: Request, id: uint16) {
    && Reaches(w, c, r, UDS_ROUTINE_CONTROL, 3) && r.data[2] == ROUTINE_STOP
    && LittleEndian16(r.data) == id && c.routine.id == id
  }

  lemma SlotStep(w: World, c: Context, r: Request)
    requires c.routine.status != 0 && !Stops(w, c, r, c.routine.id)
    ensures Serve(w, c, r).context.routine == c.routine
  {}

  lemma StartStep(w: World, c: Context, r: Request, id: uint16)
    requires Starts(w, c, r, id)
    ensures Serve(w, c, r).context.routine == Routine(id, 1, Stored(r.data[3..]))
  {}

  /** Between positions `i` and `j` of a run no accepted stop names the routine. */
  ghost predicate NoStopBetween(w: World, c: Context, rs: seq<Request>, i: nat, j: nat, id: uint16)
    requires j <= |rs|
  {
    forall k | i < k < j :: !Stops(w, Run(w, c, rs[..k]), rs[k], id)
  }

  lemma RunStep(w: World, c: Context, rs: seq<Request>, j: nat)
    requires 0 < j <= |rs|
    ensures Run(w, c, rs[..j]) == Serve(w, Run(w, c, rs[..j - 1]), rs[j - 1]).context
  {
    assert rs[..j][..j - 1] == rs[..j - 1];
  }

  /** A routine started at `i` still holds the slot at `j` unless it was stopped between. */
  lemma {:induction false} StartedHolds(w: World, c: Context, rs: seq<Request>, i: nat, j: nat, id: uint16)
    requires i < j <= |rs| && Starts(w, Run(w, c, rs[..i]), rs[i], id)
    requires NoStopBetween(w, c, rs, i, j, id)
    ensures Run(w, c, rs[..j]).routine == Routine(id, 1, Stored(rs[i].data[3..]))
    decreases j
  {
    RunStep(w, c, rs, j);
    if j == i + 1 {
      StartStep(w, Run(w, c, rs[..i]), rs[i], id);
    } else {
      StartedHolds(w, c, rs, i, j - 1, id);
      SlotStep(w, Run(w, c, rs[..j - 1]), rs[j - 1]);
    }
  }

  /** Routine exclusion: between two accepted starts there is an accepted stop naming the first
      one's routine, even when that start was answered with an error for an unknown id. */
  lemma RoutineExclusion(w: World, c: Context, rs: seq<Request>, i: nat, j: nat, first: uint16, second: uint16)
    requires i < j < |rs|
    requires Starts(w, Run(w, c, rs[..i]), rs[i], first) && Starts(w, Run(w, c, rs[..j]), rs[j], second)
    ensures exists k | i < k < j :: Stops(w, Run(w, c, rs[..k]), rs[k], first)
  {
    if NoStopBetween(w, c, rs, i, j, first) {
      StartedHolds(w, c, rs, i, j, first);
    }
  }

  /** The data survives its own length: it fits, or its bytes there happen to be the length's. */
  predicate Survives(data: Payload) {
    && (|data| > ROUTINE_DATA_SIZE ==> data[ROUTINE_DATA_SIZE] == |data| % 0x100)
    && (|data| > ROUTINE_DATA_SIZE + 1 ==> data[ROUTINE_DATA_SIZE + 1] == |data| / 0x100)
  }

  lemma StoredWhole(data: Payload)
    ensures |Stored(data)| == |data| && (Stored(data) == data <==> Survives(data))
  {
    StoredAt(data, ROUTINE_DATA_SIZE);
    StoredAt(data, ROUTINE_DATA_SIZE + 1);
    if Survives(data) {
      forall k | 0 <= k < |data| ensures Stored(data)[k] == data[k] { StoredAt(data, k); }
    }
  }

  /** Until then a result request for the routine gets what was stored at its start, and that is the
      data of the start exactly when it survives its length; one for another routine is refused. */
  lemma ResultEchoesStart(w: World, c: Context, rs: seq<Request>, i: nat, j: nat, id: uint16)
    requires i < j < |rs| && Starts(w, Run(w, c, rs[..i]), rs[i], id)
    requires NoStopBetween(w, c, rs, i, j, id)
    requires Reaches(w, Run(w, c, rs[..j]), rs[j], UDS_ROUTINE_CONTROL, 3) && rs[j].data[2] == ROUTINE_RESULT
    ensures var a, data := Serve(w, Run(w, c, rs[..j]), rs[j]), rs[i].data[3..];
            if LittleEndian16(rs[j].data) == id then
              && a.code == RESP_OK && a.output == Stored(data) && |a.output| == |data|
              && (a.output == data <==> Survives(data))
            else a.code == RESP_CONDITIONS_NA && a.output == []
  {
    StartedHolds(w, c, rs, i, j, id);
    StoredWhole(rs[i].data[3..]);
  }

  /** A start with 300 zero bytes, and a request for its result: byte 256 of the answer is not 0. */
  lemma OversizedStart(w: World, at: nat)
    requires w.admits(UDS_ROUTINE_CONTROL, SESSION_DEFAULT)
    ensures var zeros: seq<byte> := seq(300, _ => 0);
            var start := Request(UDS_ROUTINE_CONTROL, [0, 1, ROUTINE_START] + zeros, at);
            var result := Request(UDS_ROUTINE_CONTROL, [0, 1, ROUTINE_RESULT], at);
            var a := Serve(w, Run(w, INITIAL, [start]), result);
            a.code == RESP_OK && |a.output| == 300 && a.output[ROUTINE_DATA_SIZE] == 0x2C
  {
    var zeros: seq<byte> := seq(300, _ => 0);
    var start := Request(UDS_ROUTINE_CONTROL, [0, 1, ROUTINE_START] + zeros, at);
    assert start.data[3..] == zeros;
    assert [start][..0] == [];
    assert Run(w, INITIAL, [start]) == Serve(w, INITIAL, start).context;
    StartStep(w, INITIAL, start, ROUTINE_SELF_TEST);
  }

  lemma RoutineDataStep(w: World, c: Context, r: Request)
    ensures var data := Serve(w, c, r).context.routine.data;
            if TakesSlot(w, c, r.service, r.data) then |data| == |r.data| - 3 else data == c.routine.data
  {
    if TakesSlot(w, c, r.service, r.data) {
      StartStep(w, c, r, LittleEndian16(r.data));
      StoredWhole(r.data[3..]);
    }
  }

  /** The starts of the run that take the slot all fit it. */
  ghost predicate StartsFit(w: World, rs: seq<Request>) {
    forall i | 0 <= i < |rs| && TakesSlot(w, Run(w, INITIAL, rs[..i]), rs[i].service, rs[i].data) ::
      |rs[i].data| <= 3 + ROUTINE_DATA_SIZE
  }

  /** The slot's data stays within its 256 bytes throughout a run exactly when every start that takes
      the slot carries no more. */
  lemma SlotFits(w: World, rs: seq<Request>)
    ensures (forall i | 0 <= i <= |rs| :: |Run(w, INITIAL, rs[..i]).routine.data| <= ROUTINE_DATA_SIZE)
       <==> StartsFit(w, rs)
  {
    if StartsFit(w, rs) {
      forall i | 0 <= i <= |rs| ensures |Run(w, INITIAL, rs[..i]).routine.data| <= ROUTINE_DATA_SIZE {
        FitsUpTo(w, rs, i);
      }
    } else {
      var i :| 0 <= i < |rs| && TakesSlot(w, Run(w, INITIAL, rs[..i]), rs[i].service, rs[i].data)
               && |rs[i].data| > 3 + ROUTINE_DATA_SIZE;
      RunStep(w, INITIAL, rs, i + 1);
      RoutineDataStep(w, Run(w, INITIAL, rs[..i]), rs[i]);
    }
  }

  lemma {:induction false} FitsUpTo(w: World, rs: seq<Request>, i: nat)
    requires StartsFit(w, rs) && i <= |rs|
    ensures |Run(w, INITIAL, rs[..i]).routine.data| <= ROUTINE_DATA_SIZE
  {
    if i > 0 {
      FitsUpTo(w, rs, i - 1);
      RunStep(w, INITIAL, rs, i);
      RoutineDataStep(w, Run(w, INITIAL, rs[..i - 1]), rs[i - 1]);
    }
  }
}
