/** The UDS server's state: sessions, the security lockout and the one active routine. */
module Diag {
  import opened Bits

  const SESSION_DEFAULT: byte := 1
  const SESSION_PROGRAMMING: byte := 2
  const SESSION_EXTENDED: byte := 3
  const SESSION_SAFETY: byte := 4

  const UDS_SESSION_CONTROL: byte := 0x10
  const UDS_READ_DATA_BY_ID: byte := 0x22
  const UDS_SECURITY_ACCESS: byte := 0x27
  const UDS_COMM_CONTROL: byte := 0x28
  const UDS_WRITE_DATA_BY_ID: byte := 0x2E
  const UDS_ROUTINE_CONTROL: byte := 0x31
  const UDS_REQUEST_DOWNLOAD: byte := 0x34
  const UDS_TRANSFER_DATA: byte := 0x36
  const UDS_TRANSFER_EXIT: byte := 0x37
  const UDS_TESTER_PRESENT: byte := 0x3E
  const UDS_CONTROL_DTC_SETTING: byte := 0x85

  const ROUTINE_START: byte := 1
  const ROUTINE_STOP: byte := 2
  const ROUTINE_RESULT: byte := 3
  const ROUTINE_SELF_TEST: uint16 := 0x0100
  const ROUTINE_SENSOR_CALIBRATION: uint16 := 0x0200
  const ROUTINE_MEMORY_CHECK: uint16 := 0x0300
  const ROUTINE_SECURITY_CHECK: uint16 := 0x0400

  const RESP_OK: int := 0x00
  const RESP_SERVICE_NA: int := 0x11
  const RESP_SUBFUNC_NA: int := 0x12
  const RESP_INCORRECT_LENGTH: int := 0x13
  const RESP_CONDITIONS_NA: int := 0x22
  const RESP_INVALID_KEY: int := 0x35
  const RESP_REQUIRED_TIME_NA: int := 0x37

  const MAX_SECURITY_ATTEMPTS: nat := 3
  const SECURITY_LOCKOUT_TIME_MS: nat := 10000
  const ROUTINE_DATA_SIZE: nat := 256
  const COMM_DISABLE_RX_TX: byte := 3
  const COMM_NORMAL_AND_NM: byte := 3

  /** What the model is told about code that is not shown: which services a session admits, the
      key expected for the stored time and a level, and what the other handlers answer. */
  datatype World = World(admits: (byte, byte) -> bool, expectedKey: (uint32, byte) -> uint32,
                         routineAnswer: uint16 -> int, otherAnswer: (byte, seq<byte>) -> int)

  /** Request data: its length is a 16-bit number. */
  type Payload = d: seq<byte> | |d| < 0x1_0000

  /** The active routine; `data` is what a result request copies out. */
  datatype Routine = Routine(id: uint16, status: byte, data: seq<byte>)

  datatype Context = Context(session: byte, level: byte, attempts: byte, lastAttempt: uint32,
                             dtcEnabled: bool, routine: Routine)

  datatype Answer = Answer(context: Context, code: int, output: seq<byte>)

  const INITIAL: Context := Context(SESSION_DEFAULT, 0, 0, 0, true, Routine(0, 0, []))

  predicate MayEnter(current: byte, new_: byte) {
    if current == SESSION_DEFAULT then true
    else if current == SESSION_PROGRAMMING then new_ == SESSION_DEFAULT
    else if current == SESSION_EXTENDED || current == SESSION_SAFETY then
      new_ == SESSION_DEFAULT || new_ == SESSION_PROGRAMMING
    else false
  }

  function StartSession(c: Context, session: byte): Answer {
    if session < SESSION_DEFAULT || session > SESSION_SAFETY then Answer(c, RESP_SUBFUNC_NA, [])
    else if !MayEnter(c.session, session) then Answer(c, RESP_CONDITIONS_NA, [])
    else Answer(c.(session := session, level := 0), RESP_OK, [])
  }

  /** The lockout is in force: three wrong keys, the last less than ten seconds ago by the 32-bit clock. */
  predicate LockedOut(c: Context, now: uint32) {
    c.attempts >= MAX_SECURITY_ATTEMPTS && Elapsed(now, c.lastAttempt) < SECURITY_LOCKOUT_TIME_MS
  }

  function VerifySecurity(w: World, c: Context, level: byte, key: uint32, now: uint32): Answer {
    if LockedOut(c, now) then Answer(c, RESP_REQUIRED_TIME_NA, [])
    else
      var attempts := if c.attempts >= MAX_SECURITY_ATTEMPTS then 0 else c.attempts;
      if key != w.expectedKey(c.lastAttempt, level) then
        Answer(c.(attempts := attempts + 1, lastAttempt := now), RESP_INVALID_KEY, [])
      else Answer(c.(level := level, attempts := 0), RESP_OK, [])
  }

  predicate KnownRoutine(id: uint16) {
    || id == ROUTINE_SELF_TEST || id == ROUTINE_SENSOR_CALIBRATION
    || id == ROUTINE_MEMORY_CHECK || id == ROUTINE_SECURITY_CHECK
  }

  /** What the slot holds of a routine's data. The length follows the 256 bytes in memory, low byte
      first, and is written after the data: longer data has its bytes 256 and 257 replaced by it,
      and runs on into the memory behind. */
  function Stored(data: Payload): Payload {
    if |data| <= ROUTINE_DATA_SIZE then data
    else
      var n := Min(2, |data| - ROUTINE_DATA_SIZE);
      data[..ROUTINE_DATA_SIZE] + [|data| % 0x100, |data| / 0x100][..n] + data[ROUTINE_DATA_SIZE + n..]
  }

  lemma StoredAt(data: Payload, k: nat)
    ensures |Stored(data)| == |data|
    ensures k < |data| ==> Stored(data)[k] == if k == ROUTINE_DATA_SIZE then |data| % 0x100
                                              else if k == ROUTINE_DATA_SIZE + 1 then |data| / 0x100
                                              else data[k]
  {}

  /** `handle_routine_start`. */
  function StartRoutine(w: World, c: Context, id: uint16, data: Payload): Answer {
    if c.routine.status != 0 then Answer(c, RESP_CONDITIONS_NA, [])
    else
      Answer(c.(routine := Routine(id, 1, Stored(data))),
             if KnownRoutine(id) then w.routineAnswer(id) else RESP_SUBFUNC_NA, [])
  }

  function ExecuteRoutine(w: World, c: Context, id: uint16, control: byte, data: Payload): Answer {
    if control == ROUTINE_START then StartRoutine(w, c, id, data)
    else if control == ROUTINE_STOP then
      if c.routine.id != id then Answer(c, RESP_CONDITIONS_NA, [])
      else Answer(c.(routine := c.routine.(status := 0)), RESP_OK, [])
    else if control == ROUTINE_RESULT then
      if c.routine.id != id then Answer(c, RESP_CONDITIONS_NA, [])
      else Answer(c, RESP_OK, c.routine.data)
    else Answer(c, RESP_SUBFUNC_NA, [])
  }

  function LittleEndian16(data: seq<byte>): uint16
    requires |data| >= 2
  {
    (data[0] as int) + 0x100 * (data[1] as int)
  }

  function LittleEndian32(data: seq<byte>): uint32
    requires |data| >= 4
  {
    (data[0] as int) + 0x100 * (data[1] as int) + 0x1_0000 * (data[2] as int) + 0x100_0000 * (data[3] as int)
  }

  /** `process_diagnostic_request` at clock reading `now`. */
  function Process(w: World, c: Context, service: byte, data: Payload, now: uint32): Answer
  {
    if !w.admits(service, c.session) then Answer(c, RESP_SERVICE_NA, [])
    else if service == UDS_SESSION_CONTROL then
      if |data| < 1 then Answer(c, RESP_INCORRECT_LENGTH, []) else StartSession(c, data[0])
    else if service == UDS_SECURITY_ACCESS then
      if |data| < 5 then Answer(c, RESP_INCORRECT_LENGTH, [])
      else VerifySecurity(w, c, data[0], LittleEndian32(data[1..]), now)
    else if service == UDS_ROUTINE_CONTROL then
      if |data| < 3 then Answer(c, RESP_INCORRECT_LENGTH, [])
      else ExecuteRoutine(w, c, LittleEndian16(data), data[2], data[3..])
    else if service == UDS_CONTROL_DTC_SETTING then
      if |data| < 1 then Answer(c, RESP_INCORRECT_LENGTH, []) else Answer(c.(dtcEnabled := data[0] != 0), RESP_OK, [])
    else if service == UDS_COMM_CONTROL then
      if |data| < 2 then Answer(c, RESP_INCORRECT_LENGTH, [])
      else if data[0] > COMM_DISABLE_RX_TX || data[1] > COMM_NORMAL_AND_NM then Answer(c, RESP_SUBFUNC_NA, [])
      else Answer(c, RESP_OK, [])
    else if service == UDS_TESTER_PRESENT then Answer(c, RESP_OK, [])
    else if service == UDS_READ_DATA_BY_ID then
      Answer(c, if |data| < 2 then RESP_INCORRECT_LENGTH else w.otherAnswer(service, data), [])
    else if service == UDS_WRITE_DATA_BY_ID then
      Answer(c, if |data| < 3 then RESP_INCORRECT_LENGTH else w.otherAnswer(service, data), [])
    else if service == UDS_REQUEST_DOWNLOAD || service == UDS_TRANSFER_DATA || service == UDS_TRANSFER_EXIT then
      Answer(c, w.otherAnswer(service, data), [])
    else Answer(c, RESP_SERVICE_NA, [])
  }

  /** The request starts a routine in the free slot, copying its data there. */
  predicate TakesSlot(w: World, c: Context, service: byte, data: Payload) {
    service == UDS_ROUTINE_CONTROL && w.admits(service, c.session)
    && |data| >= 3 && data[2] == ROUTINE_START && c.routine.status == 0
  }

  // ---------------------------------------------------------------- as the firmware does it

  class Server {
    const world: World
    var currentSession: byte
    var securityLevel: byte
    var securityAttempts: byte
    var lastSecurityAttempt: uint32
    var dtcSettingsEnabled: bool
    var routineId: uint16
    var routineStatus: byte
    // Memory from the routine's data on: its 256 bytes, its length in two, and what lies behind.
    const routineData: array<byte>

    constructor (w: World)
      ensures world == w && Valid() && State() == INITIAL && fresh(routineData)
    {
      world := w;
      currentSession, securityLevel, securityAttempts, lastSecurityAttempt := SESSION_DEFAULT, 0, 0, 0;
      dtcSettingsEnabled, routineId, routineStatus := true, 0, 0;
      routineData := new byte[0x1_0000](_ => 0);
    }

    ghost predicate Valid()
      reads this
    {
      routineData.Length == 0x1_0000 && securityAttempts <= MAX_SECURITY_ATTEMPTS
    }

    /** `active_routine.data_len`. */
    function RoutineDataLen(): uint16
      reads this, routineData
      requires Valid()
    {
      LittleEndian16(routineData[ROUTINE_DATA_SIZE..ROUTINE_DATA_SIZE + 2])
    }

    ghost function State(): Context
      reads this, routineData
      requires Valid()
    {
      Context(currentSession, securityLevel, securityAttempts, lastSecurityAttempt, dtcSettingsEnabled,
              Routine(routineId, routineStatus, routineData[..RoutineDataLen()]))
    }

    /** `start_diagnostic_session`. */
    method StartDiagnosticSession(session: byte) returns (code: int)
      requires Valid()
      modifies this`currentSession, this`securityLevel
      ensures Valid() && Answer(State(), code, []) == StartSession(old(State()), session)
    {
      if session < SESSION_DEFAULT || session > SESSION_SAFETY {
        return RESP_SUBFUNC_NA;
      }
      if !MayEnter(currentSession, session) {
        return RESP_CONDITIONS_NA;
      }
      currentSession := session;
      securityLevel := 0;
      code := RESP_OK;
    }

    /** `verify_security_access`. */
    method VerifySecurityAccess(level: byte, key: uint32, now: uint32) returns (code: int)
      requires Valid()
      modifies this`securityLevel, this`securityAttempts, this`lastSecurityAttempt
      ensures Valid() && Answer(State(), code, []) == VerifySecurity(world, old(State()), level, key, now)
    {
      if securityAttempts >= MAX_SECURITY_ATTEMPTS {
        if Elapsed(now, lastSecurityAttempt) < SECURITY_LOCKOUT_TIME_MS {
          return RESP_REQUIRED_TIME_NA;
        }
        securityAttempts := 0;
      }
      var expected := world.expectedKey(lastSecurityAttempt, level);
      if key != expected {
        securityAttempts := securityAttempts + 1;
        lastSecurityAttempt := now;
        return RESP_INVALID_KEY;
      }
      securityLevel := level;
      securityAttempts := 0;
      code := RESP_OK;
    }

    /** `handle_routine_start`. */
    method HandleRoutineStart(id: uint16, data: Payload) returns (code: int)
      requires Valid()
      modifies this`routineId, this`routineStatus, routineData
      ensures Valid() && Answer(State(), code, []) == StartRoutine(world, old(State()), id, data)
    {
      if routineStatus != 0 {
        return RESP_CONDITIONS_NA;
      }
      routineId := id;
      routineStatus := 1;
      StoreRoutineData(data);
      code := if KnownRoutine(id) then world.routineAnswer(id) else RESP_SUBFUNC_NA;
    }

    /** The copy of the data, with no check of its length, and then the length. */
    method StoreRoutineData(data: Payload)
      requires Valid()
      modifies routineData
      ensures Valid() && routineData[..RoutineDataLen()] == Stored(data)
    {
      forall i | 0 <= i < |data| { routineData[i] := data[i]; }
      assert routineData[..|data|] == data;
      var low: byte, high: byte := |data| % 0x100, |data| / 0x100;
      routineData[ROUTINE_DATA_SIZE], routineData[ROUTINE_DATA_SIZE + 1] := low, high;
      assert RoutineDataLen() == |data|;
      forall k | 0 <= k < |data| ensures routineData[k] == Stored(data)[k] { StoredAt(data, k); }
      StoredAt(data, 0);
    }

    /** `execute_routine`; the results it copies out are returned as `output`. */
    method ExecuteRoutineControl(id: uint16, control: byte, data: Payload) returns (code: int, output: seq<byte>)
      requires Valid()
      modifies this`routineId, this`routineStatus, routineData
      ensures Valid() && Answer(State(), code, output) == ExecuteRoutine(world, old(State()), id, control, data)
    {
      output := [];
      match control {
        case 1 =>
          code := HandleRoutineStart(id, data);
        case 2 =>
          if routineId != id {
            return RESP_CONDITIONS_NA, [];
          }
          routineStatus := 0;
          code := RESP_OK;
        case 3 =>
          if routineId != id {
            return RESP_CONDITIONS_NA, [];
          }
          code, output := RESP_OK, routineData[..RoutineDataLen()];
        case _ =>
          code := RESP_SUBFUNC_NA;
      }
    }

    /** `process_diagnostic_request`. */
    method ProcessRequest(service: byte, data: Payload, now: uint32) returns (code: int, output: seq<byte>)
      requires Valid()
      modifies this, routineData
      ensures Valid() && Answer(State(), code, output) == Process(world, old(State()), service, data, now)
    {
      output := [];
      if !world.admits(service, currentSession) {
        return RESP_SERVICE_NA, [];
      }
      if service == UDS_SESSION_CONTROL {
        if |data| < 1 { return RESP_INCORRECT_LENGTH, []; }
        code := StartDiagnosticSession(data[0]);
      } else if service == UDS_SECURITY_ACCESS {
        if |data| < 5 { return RESP_INCORRECT_LENGTH, []; }
        code := VerifySecurityAccess(data[0], LittleEndian32(data[1..]), now);
      } else if service == UDS_ROUTINE_CONTROL {
        if |data| < 3 { return RESP_INCORRECT_LENGTH, []; }
        code, output := ExecuteRoutineControl(LittleEndian16(data), data[2], data[3..]);
      } else if service == UDS_CONTROL_DTC_SETTING {
        if |data| < 1 { return RESP_INCORRECT_LENGTH, []; }
        dtcSettingsEnabled := data[0] != 0;
        code := RESP_OK;
      } else if service == UDS_COMM_CONTROL {
        if |data| < 2 { return RESP_INCORRECT_LENGTH, []; }
        if data[0] > COMM_DISABLE_RX_TX || data[1] > COMM_NORMAL_AND_NM { return RESP_SUBFUNC_NA, []; }
        code := RESP_OK;
      } else if service == UDS_TESTER_PRESENT {
        code := RESP_OK;
      } else if service == UDS_READ_DATA_BY_ID {
        code := if |data| < 2 then RESP_INCORRECT_LENGTH else world.otherAnswer(service, data);
      } else if service == UDS_WRITE_DATA_BY_ID {
        code := if |data| < 3 then RESP_INCORRECT_LENGTH else world.otherAnswer(service, data);
      } else if service == UDS_REQUEST_DOWNLOAD || service == UDS_TRANSFER_DATA || service == UDS_TRANSFER_EXIT {
        code := world.otherAnswer(service, data);
      } else {
        code := RESP_SERVICE_NA;
      }
    }
  }
}
