/**
 The three C++ messages as values, the bytes each of them becomes, and what reading such bytes
 into an existing message does to it.
 */
module Messages {
  import opened Wire

  const MAGIC_NUMBER: uint16 := 0xABCD
  const PROTOCOL_VERSION: byte := 1
  const HEADER_SIZE := 8
  const STATE_SIZE := 132
  const COMMAND_SIZE := 55
  const DIAGNOSTIC_SIZE := 74

  const TYPE_INVALID: byte := 0
  const TYPE_ROBOT_STATE: byte := 1
  const TYPE_ROBOT_COMMAND: byte := 2
  const TYPE_DIAGNOSTIC_DATA: byte := 3

  // Command types; any byte can be cast to the enumeration, these are the named ones.
  const CMD_INVALID: byte := 0
  const CMD_STOP: byte := 1
  const CMD_JOINT_POSITION: byte := 2
  const CMD_JOINT_VELOCITY: byte := 3
  const CMD_JOINT_TORQUE: byte := 4

  // ----- frame header -----

  datatype FrameHeader = FrameHeader(magic: uint16, version: byte, msgType: byte, sequence: uint16, payloadSize: uint16)

  function HeaderBytes(h: FrameHeader): (s: seq<byte>)
    ensures |s| == HEADER_SIZE
  {
    LE16(h.magic) + [h.version] + [h.msgType] + LE16(h.sequence) + LE16(h.payloadSize)
  }

  function HeaderAt(s: seq<byte>): FrameHeader
    requires |s| >= HEADER_SIZE
  {
    FrameHeader(U16At(s, 0), s[2], s[3], U16At(s, 4), U16At(s, 6))
  }

  lemma HeaderRoundTrip(h: FrameHeader, s: seq<byte>)
    requires |s| >= HEADER_SIZE && s[..HEADER_SIZE] == HeaderBytes(h)
    ensures HeaderAt(s) == h
  {
    var b := HeaderBytes(h);
    assert forall i :: 0 <= i < 8 ==> s[i] == s[..8][i] == b[i];
  }

  // ----- robot state -----

  datatype StatusBits = StatusBits(powerOn: bool, brakesReleased: bool, motionPossible: bool,
                                   inMotion: bool, errorState: bool, estopPressed: bool)

  datatype ValidBits = ValidBits(positions: bool, velocities: bool, torques: bool,
                                 ftSensor: bool, digitalInputs: bool, analogInputs: bool)

  datatype RobotState = RobotState(
    header: FrameHeader, sequenceDelay: uint16, controlState: byte, safetyStatus: byte,
    operationMode: byte, operationModeStatus: byte, status: StatusBits, has: ValidBits,
    jointPositions: Vec6, jointVelocities: Vec6, jointTorques: Vec6, ftSensor: Vec6,
    digitalInputs: Bits16, analogInputs: Vec4, timestamp: nat)

  /** The value of a newly constructed RobotStateMessage. */
  const FRESH_STATE := RobotState(
    FrameHeader(MAGIC_NUMBER, PROTOCOL_VERSION, TYPE_ROBOT_STATE, 0, 124), 1000, CMD_INVALID, 0, 0, 100,
    StatusBits(false, false, false, false, false, false), ValidBits(false, false, false, false, false, false),
    ZERO6, ZERO6, ZERO6, ZERO6, ALL_OFF, ZERO4, 0)

  function StatusList(b: StatusBits): seq<bool> {
    [b.powerOn, b.brakesReleased, b.motionPossible, b.inMotion, b.errorState, b.estopPressed]
  }

  function ValidList(b: ValidBits): seq<bool> {
    [b.positions, b.velocities, b.torques, b.ftSensor, b.digitalInputs, b.analogInputs]
  }

  function StatusAt(v: uint16): StatusBits {
    StatusBits(Bit(v, 0), Bit(v, 1), Bit(v, 2), Bit(v, 3), Bit(v, 4), Bit(v, 5))
  }

  function ValidAt(v: uint16): ValidBits {
    ValidBits(Bit(v, 0), Bit(v, 1), Bit(v, 2), Bit(v, 3), Bit(v, 4), Bit(v, 5))
  }

  lemma StatusRoundTrip(b: StatusBits)
    ensures StatusAt(PackWord(StatusList(b))) == b
  {
    forall i | 0 <= i < 6
      ensures Bit(Pack(StatusList(b)), i) == StatusList(b)[i]
    {
      BitOfPack(StatusList(b), i);
    }
  }

  lemma ValidRoundTrip(b: ValidBits)
    ensures ValidAt(PackWord(ValidList(b))) == b
  {
    forall i | 0 <= i < 6
      ensures Bit(Pack(ValidList(b)), i) == ValidList(b)[i]
    {
      BitOfPack(ValidList(b), i);
    }
  }

  /** Header and the eight scalar fields, bytes 0 to 17. */
  function StateHead(m: RobotState): (s: seq<byte>)
    ensures |s| == 18
  {
    HeaderBytes(m.header) + LE16(m.sequenceDelay) + [m.controlState] + [m.safetyStatus] + [m.operationMode] +
    [m.operationModeStatus] + LE16(PackWord(StatusList(m.status))) + LE16(PackWord(ValidList(m.has)))
  }

  function StateBytes(fp: Fp, m: RobotState): (s: seq<byte>)
    ensures |s| == STATE_SIZE
  {
    StateHead(m) + EncodeFloats(fp, m.jointPositions) + EncodeFloats(fp, m.jointVelocities) +
    EncodeFloats(fp, m.jointTorques) + EncodeFloats(fp, m.ftSensor) + LE16(PackWord(m.digitalInputs)) +
    EncodeFloats(fp, m.analogInputs)
  }

  /** Reading `s` into message `m`: the message afterwards and the value returned. */
  function ReadState(fp: Fp, m: RobotState, s: seq<byte>): (RobotState, bool) {
    if |s| < STATE_SIZE then (m, false)
    else if HeaderAt(s).magic != MAGIC_NUMBER then (m.(header := HeaderAt(s)), false)
    else (StateAt(fp, s, m.timestamp), true)
  }

  function StateAt(fp: Fp, s: seq<byte>, timestamp: nat): RobotState
    requires |s| >= STATE_SIZE
  {
    RobotState(HeaderAt(s), U16At(s, 8), s[10], s[11], s[12], s[13], StatusAt(U16At(s, 14)), ValidAt(U16At(s, 16)),
               FloatsAt(fp, s, 18, 6), FloatsAt(fp, s, 42, 6), FloatsAt(fp, s, 66, 6), FloatsAt(fp, s, 90, 6),
               Unpack16(U16At(s, 114)), FloatsAt(fp, s, 116, 4), timestamp)
  }

  /** The message with every double passed through float32, as it arrives on the other side. */
  function NarrowState(fp: Fp, m: RobotState): RobotState {
    m.(jointPositions := Narrowed(fp, m.jointPositions), jointVelocities := Narrowed(fp, m.jointVelocities),
       jointTorques := Narrowed(fp, m.jointTorques), ftSensor := Narrowed(fp, m.ftSensor),
       analogInputs := Narrowed(fp, m.analogInputs))
  }

  lemma HeadRoundTrip(m: RobotState, s: seq<byte>)
    requires |s| >= 18 && s[..18] == StateHead(m)
    ensures HeaderAt(s) == m.header
    ensures U16At(s, 8) == m.sequenceDelay && s[10] == m.controlState && s[11] == m.safetyStatus
    ensures s[12] == m.operationMode && s[13] == m.operationModeStatus
    ensures StatusAt(U16At(s, 14)) == m.status && ValidAt(U16At(s, 16)) == m.has
  {
    var b := StateHead(m);
    assert forall i :: 0 <= i < 18 ==> s[i] == s[..18][i] == b[i];
    assert s[..8] == HeaderBytes(m.header);
    HeaderRoundTrip(m.header, s);
    StatusRoundTrip(m.status);
    ValidRoundTrip(m.has);
    assert s[8..10] == LE16(m.sequenceDelay);
    U16RoundTrip(m.sequenceDelay, s, 8);
    assert s[14..16] == LE16(PackWord(StatusList(m.status)));
    U16RoundTrip(PackWord(StatusList(m.status)), s, 14);
    assert s[16..18] == LE16(PackWord(ValidList(m.has)));
    U16RoundTrip(PackWord(ValidList(m.has)), s, 16);
  }

  /** A frame followed by anything reads back as the message, doubles narrowed. */
  lemma StateAtFrame(fp: Fp, m: RobotState, s: seq<byte>, timestamp: nat)
    requires |s| >= STATE_SIZE && s[..STATE_SIZE] == StateBytes(fp, m)
    ensures StateAt(fp, s, timestamp) == NarrowState(fp, m).(timestamp := timestamp)
  {
    var p0 := StateHead(m);
    var p1 := p0 + EncodeFloats(fp, m.jointPositions);
    var p2 := p1 + EncodeFloats(fp, m.jointVelocities);
    var p3 := p2 + EncodeFloats(fp, m.jointTorques);
    var p4 := p3 + EncodeFloats(fp, m.ftSensor);
    var p5 := p4 + LE16(PackWord(m.digitalInputs));
    Peel(p5, EncodeFloats(fp, m.analogInputs), s);
    Peel(p4, LE16(PackWord(m.digitalInputs)), s);
    Peel(p3, EncodeFloats(fp, m.ftSensor), s);
    Peel(p2, EncodeFloats(fp, m.jointTorques), s);
    Peel(p1, EncodeFloats(fp, m.jointVelocities), s);
    Peel(p0, EncodeFloats(fp, m.jointPositions), s);
    HeadRoundTrip(m, s);
    FloatsRoundTrip(fp, m.jointPositions, s, 18);
    FloatsRoundTrip(fp, m.jointVelocities, s, 42);
    FloatsRoundTrip(fp, m.jointTorques, s, 66);
    FloatsRoundTrip(fp, m.ftSensor, s, 90);
    U16RoundTrip(PackWord(m.digitalInputs), s, 114);
    UnpackPack(m.digitalInputs);
    FloatsRoundTrip(fp, m.analogInputs, s, 116);
  }

  /** Serialize, read into any message object, serialize again. */
  lemma StateRoundTrip(fp: Fp, m: RobotState, target: RobotState)
    requires Lawful(fp)
    ensures var (r, ok) := ReadState(fp, target, StateBytes(fp, m));
            if m.header.magic == MAGIC_NUMBER then
              && ok
              && r == NarrowState(fp, m).(timestamp := target.timestamp)
              && StateBytes(fp, r) == StateBytes(fp, m)
            else
              !ok && r == target.(header := m.header)
  {
    var s := StateBytes(fp, m);
    assert s[..STATE_SIZE] == s;
    StateAtFrame(fp, m, s, target.timestamp);
    EncodeNarrowed(fp, m.jointPositions);
    EncodeNarrowed(fp, m.jointVelocities);
    EncodeNarrowed(fp, m.jointTorques);
    EncodeNarrowed(fp, m.ftSensor);
    EncodeNarrowed(fp, m.analogInputs);
  }

  /** A new state message says nothing yet: type and size set, delay 1000, mode 0, no flag, no field valid. */
  lemma FreshStateSaysNothing()
    ensures FRESH_STATE.header == FrameHeader(0xABCD, 1, 1, 0, 124)
    ensures FRESH_STATE.sequenceDelay == 1000 && FRESH_STATE.controlState == 0 && FRESH_STATE.timestamp == 0
    ensures FRESH_STATE.safetyStatus == 0 && FRESH_STATE.operationMode == 0 && FRESH_STATE.operationModeStatus == 100
    ensures StatusList(FRESH_STATE.status) == [false, false, false, false, false, false] == ValidList(FRESH_STATE.has)
  {
  }

  // ----- robot command -----

  datatype RobotCommand = RobotCommand(
    header: FrameHeader, commandType: byte, controllerPeriod: Double, reference: Vec6,
    digitalOutputs: Bits16, analogOutputs: Vec4, timestamp: nat)

  const FRESH_COMMAND := RobotCommand(
    FrameHeader(MAGIC_NUMBER, PROTOCOL_VERSION, TYPE_ROBOT_COMMAND, 0, 47), CMD_STOP, Finite(-1.0),
    ZERO6, ALL_OFF, ZERO4, 0)

  predicate CommandHeaderOk(h: FrameHeader) {
    h.payloadSize == COMMAND_SIZE - HEADER_SIZE && h.msgType == TYPE_ROBOT_COMMAND
  }

  function CommandBytes(fp: Fp, m: RobotCommand): (s: seq<byte>)
    ensures |s| == COMMAND_SIZE
  {
    HeaderBytes(m.header) + LE32(fp.narrow(m.controllerPeriod)) + [m.commandType] + EncodeFloats(fp, m.reference) +
    LE16(PackWord(m.digitalOutputs)) + EncodeFloats(fp, m.analogOutputs)
  }

  function ReadCommand(fp: Fp, m: RobotCommand, s: seq<byte>): (RobotCommand, bool) {
    if |s| < COMMAND_SIZE then (m, false)
    else if HeaderAt(s).magic != MAGIC_NUMBER || !CommandHeaderOk(HeaderAt(s)) then (m.(header := HeaderAt(s)), false)
    else (CommandAt(fp, s, m.timestamp), true)
  }

  function CommandAt(fp: Fp, s: seq<byte>, timestamp: nat): RobotCommand
    requires |s| >= COMMAND_SIZE
  {
    RobotCommand(HeaderAt(s), s[12], FloatAt(fp, s, 8), FloatsAt(fp, s, 13, 6),
                 Unpack16(U16At(s, 37)), FloatsAt(fp, s, 39, 4), timestamp)
  }

  function NarrowCommand(fp: Fp, m: RobotCommand): RobotCommand {
    m.(controllerPeriod := fp.widen(fp.narrow(m.controllerPeriod)), reference := Narrowed(fp, m.reference),
       analogOutputs := Narrowed(fp, m.analogOutputs))
  }

  lemma CommandAtFrame(fp: Fp, m: RobotCommand, s: seq<byte>, timestamp: nat)
    requires |s| >= COMMAND_SIZE && s[..COMMAND_SIZE] == CommandBytes(fp, m)
    ensures CommandAt(fp, s, timestamp) == NarrowCommand(fp, m).(timestamp := timestamp)
  {
    var p0 := HeaderBytes(m.header);
    var p1 := p0 + LE32(fp.narrow(m.controllerPeriod));
    var p2 := p1 + [m.commandType];
    var p3 := p2 + EncodeFloats(fp, m.reference);
    var p4 := p3 + LE16(PackWord(m.digitalOutputs));
    Peel(p4, EncodeFloats(fp, m.analogOutputs), s);
    Peel(p3, LE16(PackWord(m.digitalOutputs)), s);
    Peel(p2, EncodeFloats(fp, m.reference), s);
    Peel(p1, [m.commandType], s);
    Peel(p0, LE32(fp.narrow(m.controllerPeriod)), s);
    HeaderRoundTrip(m.header, s);
    U32RoundTrip(fp.narrow(m.controllerPeriod), s, 8);
    assert s[12] == s[12..13][0];
    FloatsRoundTrip(fp, m.reference, s, 13);
    U16RoundTrip(PackWord(m.digitalOutputs), s, 37);
    UnpackPack(m.digitalOutputs);
    FloatsRoundTrip(fp, m.analogOutputs, s, 39);
  }

  lemma CommandRoundTrip(fp: Fp, m: RobotCommand, target: RobotCommand)
    requires Lawful(fp)
    ensures var (r, ok) := ReadCommand(fp, target, CommandBytes(fp, m));
            if m.header.magic == MAGIC_NUMBER && CommandHeaderOk(m.header) then
              && ok
              && r == NarrowCommand(fp, m).(timestamp := target.timestamp)
              && CommandBytes(fp, r) == CommandBytes(fp, m)
            else
              !ok && r == target.(header := m.header)
  {
    var s := CommandBytes(fp, m);
    assert s[..COMMAND_SIZE] == s;
    CommandAtFrame(fp, m, s, target.timestamp);
    EncodeNarrowed(fp, m.reference);
    EncodeNarrowed(fp, m.analogOutputs);
  }

  // ----- diagnostic data -----

  type Log16 = s: seq<uint16> | |s| == 10 witness [0, 0, 0, 0, 0, 0, 0, 0, 0, 0]
  type Log32 = s: seq<uint32> | |s| == 10 witness [0, 0, 0, 0, 0, 0, 0, 0, 0, 0]

  datatype Diagnostic = Diagnostic(
    header: FrameHeader, controllerType: byte, major: byte, minor: byte, patch: byte,
    errorCodes: Log16, errorTimes: Log32, taskStatus: uint16, timestamp: nat)

  const FRESH_DIAGNOSTIC := Diagnostic(
    FrameHeader(MAGIC_NUMBER, PROTOCOL_VERSION, TYPE_DIAGNOSTIC_DATA, 0, 66), 0, 0, 0, 0,
    [0, 0, 0, 0, 0, 0, 0, 0, 0, 0], [0, 0, 0, 0, 0, 0, 0, 0, 0, 0], 0, 0)

  predicate DiagnosticHeaderOk(h: FrameHeader) {
    h.payloadSize == DIAGNOSTIC_SIZE - HEADER_SIZE && h.msgType == TYPE_DIAGNOSTIC_DATA
  }

  function Words16(xs: seq<uint16>): (s: seq<byte>)
    ensures |s| == 2 * |xs|
  {
    if xs == [] then [] else Words16(xs[..|xs| - 1]) + LE16(xs[|xs| - 1])
  }

  function Words32(xs: seq<uint32>): (s: seq<byte>)
    ensures |s| == 4 * |xs|
  {
    if xs == [] then [] else Words32(xs[..|xs| - 1]) + LE32(xs[|xs| - 1])
  }

  function Words16At(s: seq<byte>, offset: nat, n: nat): (xs: seq<uint16>)
    requires offset + 2 * n <= |s|
    ensures |xs| == n
  {
    seq(n, i requires 0 <= i < n => U16At(s, offset + 2 * i))
  }

  function Words32At(s: seq<byte>, offset: nat, n: nat): (xs: seq<uint32>)
    requires offset + 4 * n <= |s|
    ensures |xs| == n
  {
    seq(n, i requires 0 <= i < n => U32At(s, offset + 4 * i))
  }

  lemma {:induction false} Words16RoundTrip(xs: seq<uint16>, s: seq<byte>, offset: nat)
    requires offset + 2 * |xs| <= |s| && s[offset..offset + 2 * |xs|] == Words16(xs)
    ensures Words16At(s, offset, |xs|) == xs
  {
    if xs != [] {
      var n := |xs| - 1;
      BlockSnoc(s, offset, Words16(xs[..n]), LE16(xs[n]));
      Words16RoundTrip(xs[..n], s, offset);
      U16RoundTrip(xs[n], s, offset + 2 * n);
      assert Words16At(s, offset, n + 1) == Words16At(s, offset, n) + [xs[n]];
      assert xs == xs[..n] + [xs[n]];
    }
  }

  lemma {:induction false} Words32RoundTrip(xs: seq<uint32>, s: seq<byte>, offset: nat)
    requires offset + 4 * |xs| <= |s| && s[offset..offset + 4 * |xs|] == Words32(xs)
    ensures Words32At(s, offset, |xs|) == xs
  {
    if xs != [] {
      var n := |xs| - 1;
      BlockSnoc(s, offset, Words32(xs[..n]), LE32(xs[n]));
      Words32RoundTrip(xs[..n], s, offset);
      U32RoundTrip(xs[n], s, offset + 4 * n);
      assert Words32At(s, offset, n + 1) == Words32At(s, offset, n) + [xs[n]];
      assert xs == xs[..n] + [xs[n]];
    }
  }

  function DiagnosticBytes(m: Diagnostic): (s: seq<byte>)
    ensures |s| == DIAGNOSTIC_SIZE
  {
    HeaderBytes(m.header) + [m.controllerType] + [m.major] + [m.minor] + [m.patch] +
    Words16(m.errorCodes) + Words32(m.errorTimes) + LE16(m.taskStatus)
  }

  /** The payload size and type tested are those the object held before the frame is read. */
  function ReadDiagnostic(m: Diagnostic, s: seq<byte>): (Diagnostic, bool) {
    if |s| < DIAGNOSTIC_SIZE || !DiagnosticHeaderOk(m.header) then (m, false)
    else if HeaderAt(s).magic != MAGIC_NUMBER then (m.(header := HeaderAt(s)), false)
    else (DiagnosticAt(s, m.timestamp), true)
  }

  function DiagnosticAt(s: seq<byte>, timestamp: nat): Diagnostic
    requires |s| >= DIAGNOSTIC_SIZE
  {
    Diagnostic(HeaderAt(s), s[8], s[9], s[10], s[11], Words16At(s, 12, 10), Words32At(s, 32, 10), U16At(s, 72), timestamp)
  }

  lemma DiagnosticAtFrame(m: Diagnostic, s: seq<byte>, timestamp: nat)
    requires |s| >= DIAGNOSTIC_SIZE && s[..DIAGNOSTIC_SIZE] == DiagnosticBytes(m)
    ensures DiagnosticAt(s, timestamp) == m.(timestamp := timestamp)
  {
    var p0 := HeaderBytes(m.header);
    var p1 := p0 + [m.controllerType] + [m.major] + [m.minor] + [m.patch];
    var p2 := p1 + Words16(m.errorCodes);
    var p3 := p2 + Words32(m.errorTimes);
    Peel(p3, LE16(m.taskStatus), s);
    Peel(p2, Words32(m.errorTimes), s);
    Peel(p1, Words16(m.errorCodes), s);
    assert s[8] == s[..12][8] && s[9] == s[..12][9] && s[10] == s[..12][10] && s[11] == s[..12][11];
    assert s[..8] == s[..12][..8] == p0;
    HeaderRoundTrip(m.header, s);
    Words16RoundTrip(m.errorCodes, s, 12);
    Words32RoundTrip(m.errorTimes, s, 32);
    U16RoundTrip(m.taskStatus, s, 72);
  }

  lemma DiagnosticRoundTrip(m: Diagnostic, target: Diagnostic)
    requires DiagnosticHeaderOk(target.header)
    ensures var (r, ok) := ReadDiagnostic(target, DiagnosticBytes(m));
            if m.header.magic == MAGIC_NUMBER then
              && ok
              && r == m.(timestamp := target.timestamp)
              && DiagnosticBytes(r) == DiagnosticBytes(m)
            else
              !ok && r == target.(header := m.header)
  {
    var s := DiagnosticBytes(m);
    assert s[..DIAGNOSTIC_SIZE] == s;
    DiagnosticAtFrame(m, s, target.timestamp);
  }

  /**
   The type test of DiagnosticData never looks at the frame: a message object accepts a long
   enough frame with the right magic exactly when the header it already holds is a diagnostic one,
   and once a frame of another type or payload size has been read into it, it refuses every frame.
   */
  lemma DiagnosticTestIsStale(m: Diagnostic, s: seq<byte>, later: seq<byte>)
    requires |s| >= DIAGNOSTIC_SIZE && HeaderAt(s).magic == MAGIC_NUMBER
    ensures ReadDiagnostic(m, s).1 <==> DiagnosticHeaderOk(m.header)
    ensures ReadDiagnostic(m, s).1 && !DiagnosticHeaderOk(HeaderAt(s))
            ==> ReadDiagnostic(ReadDiagnostic(m, s).0, later) == (ReadDiagnostic(m, s).0, false)
  {
    if |later| >= DIAGNOSTIC_SIZE {
      assert DiagnosticAt(s, m.timestamp).header == HeaderAt(s);
    }
  }
}
