/** How every request is answered and what it may change. */
module DiagAnswers {
  import opened Bits
  import opened Diag
  import opened DiagRuns

  // ---------------------------------------------------------------- refusals

  /** The fewest data bytes a service takes. */
  function MinLength(service: byte): nat {
    if service == 0x27 then 5
    else if service == 0x2E || service == 0x31 then 3
    else if service == 0x22 || service == 0x28 then 2
    else if service == 0x10 || service == 0x85 then 1
    else 0
  }

  const SERVICES: set<byte> := {0x10, 0x22, 0x27, 0x28, 0x2E, 0x31, 0x34, 0x36, 0x37, 0x3E, 0x85}

  /** A service that the session does not admit, or that is none of the eleven, is answered with 0x11, and
      one with too little data with 0x13. Neither changes anything. */
  lemma Refused(w: World, c: Context, r: Request)
    ensures var a := Serve(w, c, r);
            && (!w.admits(r.service, c.session) || r.service !in SERVICES ==> a == Answer(c, 0x11, []))
            && (w.admits(r.service, c.session) && r.service in SERVICES && |r.data| < MinLength(r.service) ==>
                  a == Answer(c, 0x13, []))
  {}

  /** Only the handlers of sessions, keys, routines and trouble-code settings change anything, each only
      what is its own; and only a routine's result has data in its answer. */
  lemma Effects(w: World, c: Context, r: Request)
    ensures var a := Serve(w, c, r);
            && (a.context.session != c.session ==> r.service == 0x10)
            && (a.context.level != c.level ==> r.service in {0x10, 0x27})
            && (a.context.attempts != c.attempts || a.context.lastAttempt != c.lastAttempt ==> r.service == 0x27)
            && (a.context.dtcEnabled != c.dtcEnabled ==> r.service == 0x85)
            && (a.context.routine != c.routine ==> r.service == 0x31)
            && (a.output != [] ==> r.service == 0x31 && |r.data| >= 3 && r.data[2] == 3)
  {}

  /** What is left to handlers that are not shown: they answer, and change nothing here. */
  lemma OtherServices(w: World, c: Context, r: Request)
    requires w.admits(r.service, c.session) && |r.data| >= MinLength(r.service)
    ensures var a := Serve(w, c, r);
            && (r.service == 0x3E ==> a == Answer(c, 0, []))
            && (r.service in {0x22, 0x2E, 0x34, 0x36, 0x37} ==> a == Answer(c, w.otherAnswer(r.service, r.data), []))
            && (r.service == 0x28 ==> a == Answer(c, if r.data[0] <= 3 && r.data[1] <= 3 then 0 else 0x12, []))
  {}

  // ---------------------------------------------------------------- sessions

  /** Default 1, programming 2, extended 3, safety 4: the changes that are allowed. */
  const MOVES: set<(byte, byte)> :=
    {(1, 1), (1, 2), (1, 3), (1, 4), (2, 1), (3, 1), (3, 2), (4, 1), (4, 2)}

  /** A session request for none of the four is answered with 0x12, one for a change that is not allowed
      with 0x22, both changing nothing; any other enters the session and drops the security level. */
  lemma SessionAnswers(w: World, c: Context, r: Request)
    requires Reachable(c) && Reaches(w, c, r, 0x10, 1)
    ensures Serve(w, c, r)
         == if r.data[0] < 1 || r.data[0] > 4 then Answer(c, 0x12, [])
            else if (c.session, r.data[0]) !in MOVES then Answer(c, 0x22, [])
            else Answer(c.(session := r.data[0], level := 0), 0, [])
  {}

  // ---------------------------------------------------------------- trouble codes

  /** Whether the request sets the recording of trouble codes. */
  predicate SetsDtc(w: World, c: Context, r: Request) {
    Reaches(w, c, r, 0x85, 1)
  }

  lemma DtcStep(w: World, c: Context, r: Request)
    ensures var a := Serve(w, c, r);
            if SetsDtc(w, c, r) then a.code == 0 && a.context.dtcEnabled == (r.data[0] != 0)
            else a.context.dtcEnabled == c.dtcEnabled
  {}

  /** The setting in force: that of the last request that sets it, on at first. */
  ghost function LastDtc(w: World, rs: seq<Request>): bool {
    if rs == [] then true
    else
      var init, r := rs[..|rs| - 1], rs[|rs| - 1];
      if SetsDtc(w, Run(w, INITIAL, init), r) then r.data[0] != 0 else LastDtc(w, init)
  }

  lemma {:induction false} DtcSetting(w: World, rs: seq<Request>)
    ensures Run(w, INITIAL, rs).dtcEnabled == LastDtc(w, rs)
  {
    if rs != [] {
      DtcSetting(w, rs[..|rs| - 1]);
      DtcStep(w, Run(w, INITIAL, rs[..|rs| - 1]), rs[|rs| - 1]);
    }
  }

  // ---------------------------------------------------------------- keys and numbers

  /** Numbers in a request have their low byte first. */
  lemma LittleEndian(data: seq<byte>)
    requires |data| >= 4
    ensures LittleEndian16(data) % 0x100 == data[0] && LittleEndian16(data) / 0x100 == data[1]
    ensures LittleEndian32(data) % 0x1_0000 == LittleEndian16(data)
    ensures LittleEndian32(data) / 0x1_0000 == LittleEndian16(data[2..])
  {}

  // ---------------------------------------------------------------- the routine slot

  ghost predicate RoutineRequest(w: World, c: Context, r: Request, control: byte) {
    Reaches(w, c, r, 0x31, 3) && r.data[2] == control
  }

  /** A start that reaches its handler is accepted exactly when the slot is free: it then takes it for its
      routine and is answered by it, or with 0x12 when the id is none of the four. Otherwise it is refused
      with 0x22 and changes nothing. */
  lemma StartAnswered(w: World, c: Context, r: Request)
    requires RoutineRequest(w, c, r, 1)
    ensures var a, id := Serve(w, c, r), LittleEndian16(r.data);
            if c.routine.status != 0 then a == Answer(c, 0x22, [])
            else
              && a.context == c.(routine := a.context.routine) && a.output == []
              && a.context.routine.id == id && a.context.routine.status != 0
              && a.code == if id in {0x0100, 0x0200, 0x0300, 0x0400} then w.routineAnswer(id) else 0x12
  {}

  /** A stop that names the routine in the slot is answered with OK and frees it; any other is refused with
      0x22 and changes nothing. */
  lemma StopAnswered(w: World, c: Context, r: Request)
    requires RoutineRequest(w, c, r, 2)
    ensures var a := Serve(w, c, r);
            if Stops(w, c, r, c.routine.id)
            then a.code == 0 && a.output == [] && a.context == c.(routine := c.routine.(status := 0))
            else a == Answer(c, 0x22, [])
  {}

  /** Nothing but start, stop and result is known, and a result changes nothing. */
  lemma OtherControls(w: World, c: Context, r: Request)
    requires Reaches(w, c, r, 0x31, 3) && r.data[2] !in {1, 2}
    ensures var a := Serve(w, c, r);
            a.context == c && (r.data[2] != 3 ==> a == Answer(c, 0x12, []))
  {}

  /** The slot over a run: taken by the last accepted start, and free again from an accepted stop on. */
  ghost function SlotTaken(w: World, rs: seq<Request>): bool {
    if rs == [] then false
    else
      var init, r := rs[..|rs| - 1], rs[|rs| - 1];
      var c := Run(w, INITIAL, init);
      if TakesSlot(w, c, r.service, r.data) then true
      else if Stops(w, c, r, c.routine.id) then false
      else SlotTaken(w, init)
  }

  lemma SlotChanges(w: World, c: Context, r: Request)
    ensures var status := Serve(w, c, r).context.routine.status;
            && (TakesSlot(w, c, r.service, r.data) ==> status != 0)
            && (!TakesSlot(w, c, r.service, r.data) && Stops(w, c, r, c.routine.id) ==> status == 0)
            && (!TakesSlot(w, c, r.service, r.data) && !Stops(w, c, r, c.routine.id) ==> status == c.routine.status)
  {}

  /** The slot is taken exactly when an accepted start has had no accepted stop since. */
  lemma {:induction false} SlotState(w: World, rs: seq<Request>)
    ensures Run(w, INITIAL, rs).routine.status != 0 <==> SlotTaken(w, rs)
  {
    if rs != [] {
      SlotState(w, rs[..|rs| - 1]);
      SlotChanges(w, Run(w, INITIAL, rs[..|rs| - 1]), rs[|rs| - 1]);
    }
  }

  /** Request `i` of the run starts a routine and is accepted. */
  ghost predicate StartsAt(w: World, rs: seq<Request>, i: nat)
    requires i < |rs|
  {
    TakesSlot(w, Run(w, INITIAL, rs[..i]), rs[i].service, rs[i].data)
  }

  ghost predicate StopsAt(w: World, rs: seq<Request>, i: nat)
    requires i < |rs|
  {
    var c := Run(w, INITIAL, rs[..i]); Stops(w, c, rs[i], c.routine.id)
  }

  /** Request `i` starts a routine that no later one stops. */
  ghost predicate HoldsSlot(w: World, rs: seq<Request>, i: nat)
    requires i < |rs|
  {
    StartsAt(w, rs, i) && forall j | i < j < |rs| :: !StopsAt(w, rs, j)
  }

  lemma SameBefore(w: World, rs: seq<Request>, i: nat)
    requires i + 1 < |rs|
    ensures var init := rs[..|rs| - 1];
            StartsAt(w, init, i) == StartsAt(w, rs, i) && StopsAt(w, init, i) == StopsAt(w, rs, i)
  {
    assert rs[..|rs| - 1][..i] == rs[..i];
  }

  lemma HeldBefore(w: World, rs: seq<Request>, i: nat)
    requires i + 1 < |rs|
    ensures HoldsSlot(w, rs, i) <==> HoldsSlot(w, rs[..|rs| - 1], i) && !StopsAt(w, rs, |rs| - 1)
  {
    var init := rs[..|rs| - 1];
    forall j | i <= j < |init|
      ensures StartsAt(w, init, j) == StartsAt(w, rs, j) && StopsAt(w, init, j) == StopsAt(w, rs, j)
    {
      SameBefore(w, rs, j);
    }
  }

  /** In terms of the run: taken exactly when some accepted start has no accepted stop after it. */
  lemma {:induction false} TakenByStart(w: World, rs: seq<Request>)
    ensures SlotTaken(w, rs) <==> exists i | 0 <= i < |rs| :: HoldsSlot(w, rs, i)
  {
    if rs != [] {
      var init, n := rs[..|rs| - 1], |rs| - 1;
      TakenByStart(w, init);
      forall i | 0 <= i < n ensures HoldsSlot(w, rs, i) <==> HoldsSlot(w, init, i) && !StopsAt(w, rs, n) {
        HeldBefore(w, rs, i);
      }
      TakenLast(w, rs);
    }
  }

  lemma TakenLast(w: World, rs: seq<Request>)
    requires rs != []
    ensures var n := |rs| - 1;
            && (HoldsSlot(w, rs, n) <==> StartsAt(w, rs, n))
            && (SlotTaken(w, rs) <==> StartsAt(w, rs, n) || (SlotTaken(w, rs[..n]) && !StopsAt(w, rs, n)))
  {}

  /** So over a run from the start, the slot is taken exactly then, and a start is accepted exactly when
      it is not. */
  lemma SlotOfRun(w: World, rs: seq<Request>, r: Request)
    requires RoutineRequest(w, Run(w, INITIAL, rs), r, 1)
    ensures var c := Run(w, INITIAL, rs);
            var taken := exists i | 0 <= i < |rs| :: HoldsSlot(w, rs, i);
            && (c.routine.status != 0 <==> taken)
            && (TakesSlot(w, c, r.service, r.data) <==> !taken)
            && (taken ==> Serve(w, c, r) == Answer(c, 0x22, []))
  {
    SlotState(w, rs);
    TakenByStart(w, rs);
    StartAnswered(w, Run(w, INITIAL, rs), r);
  }
}
