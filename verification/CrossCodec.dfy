/**
 The two implementations of the wire format agree: what one side encodes, the other accepts and
 reads with the same meaning.
 */
module CrossCodec {
  import opened Wire
  import opened Messages
  import opened Val3Codec
  import opened StateUpdate

  /** The state message of a cycle: what updateState reports plus the fields the task fills in. */
  function PublishedState(prev: Val3State, r: Reading, delay: int, mode: int, inError: bool): Val3State {
    UpdateState(prev, r).(sequenceDelay := delay, controlMode := mode, inError := inError)
  }

  /** The controller's head bytes, read at the offsets the C++ decoder uses. */
  lemma HeadAgrees(h: MessageHeader, st: Val3State, s: seq<byte>)
    requires |s| >= 18 && s[..18] == Val3Head(h, st)
    ensures HeaderAt(s) ==
            FrameHeader(ToWord(h.magic), ToByte(h.version), ToByte(h.msgType), ToWord(h.sequence), ToWord(h.sequence))
    ensures U16At(s, 8) == ToWord(st.sequenceDelay) && s[10] == ToByte(st.controlMode) && s[11] == ToByte(st.arm.safetyStatus)
    ensures s[12] == ToByte(st.arm.robotMode) && s[13] == ToByte(st.arm.robotStatus)
    ensures U16At(s, 14) == StatusWord(st) && U16At(s, 16) == ValidWord(st)
  {
    var b := Val3Head(h, st);
    assert forall i :: 0 <= i < 18 ==> s[i] == s[..18][i] == b[i];
    assert s[..8] == Val3HeaderBytes(h);
    HeaderRoundTrip(
      FrameHeader(ToWord(h.magic), ToByte(h.version), ToByte(h.msgType), ToWord(h.sequence), ToWord(h.sequence)), s);
    assert s[8..10] == LE16(ToWord(st.sequenceDelay));
    U16RoundTrip(ToWord(st.sequenceDelay), s, 8);
    assert s[14..16] == LE16(StatusWord(st));
    U16RoundTrip(StatusWord(st), s, 14);
    assert s[16..18] == LE16(ValidWord(st));
    U16RoundTrip(ValidWord(st), s, 16);
  }

  lemma FlagsAgree(st: Val3State)
    ensures StatusAt(StatusWord(st)) ==
            StatusBits(st.arm.drivePowered, st.arm.brakeReleased, st.arm.motionPossible,
                       st.arm.inMotion, st.inError, st.arm.eStopped)
    ensures ValidAt(ValidWord(st)) ==
            ValidBits(st.joints.validPosition, st.joints.validVelocity, st.joints.validTorque, st.joints.validFtSensor,
                      st.joints.validDigitalInputs, st.joints.validAnalogInputs)
  {
    StatusRoundTrip(StatusBits(st.arm.drivePowered, st.arm.brakeReleased, st.arm.motionPossible,
                               st.arm.inMotion, st.inError, st.arm.eStopped));
    ValidRoundTrip(ValidBits(st.joints.validPosition, st.joints.validVelocity, st.joints.validTorque, st.joints.validFtSensor,
                             st.joints.validDigitalInputs, st.joints.validAnalogInputs));
  }

  lemma ArraysAgree(fp: Fp, h: MessageHeader, st: Val3State, s: seq<byte>)
    requires |s| >= 102 && s[..102] == Val3StateBytes(fp, h, st)
    ensures s[..18] == Val3Head(h, st)
    ensures FloatsAt(fp, s, 18, 6) == Narrowed(fp, st.joints.positions)
    ensures FloatsAt(fp, s, 42, 6) == Narrowed(fp, st.joints.velocities)
    ensures FloatsAt(fp, s, 66, 6) == Narrowed(fp, st.joints.torques)
  {
    var p0 := Val3Head(h, st);
    var p1 := p0 + EncodeFloats(fp, st.joints.positions);
    var p2 := p1 + EncodeFloats(fp, st.joints.velocities);
    var p3 := p2 + EncodeFloats(fp, st.joints.torques);
    Peel(p3, EncodeFloats(fp, st.joints.ftSensor[..3]), s);
    Peel(p2, EncodeFloats(fp, st.joints.torques), s);
    Peel(p1, EncodeFloats(fp, st.joints.velocities), s);
    Peel(p0, EncodeFloats(fp, st.joints.positions), s);
    FloatsRoundTrip(fp, st.joints.positions, s, 18);
    FloatsRoundTrip(fp, st.joints.velocities, s, 42);
    FloatsRoundTrip(fp, st.joints.torques, s, 66);
  }

  /** What the C++ decoder makes of any frame the encoder produced. */
  lemma EncodedStateReads(fp: Fp, h: MessageHeader, st: Val3State, s: seq<byte>, target: RobotState)
    requires |s| == STATE_SIZE && s[..102] == Val3StateBytes(fp, h, st) && h.magic == 43981
    ensures var (m, ok) := ReadState(fp, target, s);
            && ok
            && m.header == FrameHeader(MAGIC_NUMBER, ToByte(h.version), ToByte(h.msgType), ToWord(h.sequence), ToWord(h.sequence))
            && m.sequenceDelay == ToWord(st.sequenceDelay) && m.controlState == ToByte(st.controlMode)
            && m.safetyStatus == ToByte(st.arm.safetyStatus) && m.operationMode == ToByte(st.arm.robotMode)
            && m.operationModeStatus == ToByte(st.arm.robotStatus)
            && m.status == StatusAt(StatusWord(st)) && m.has == ValidAt(ValidWord(st))
            && m.jointPositions == Narrowed(fp, st.joints.positions)
            && m.jointVelocities == Narrowed(fp, st.joints.velocities)
            && m.jointTorques == Narrowed(fp, st.joints.torques)
            && m.timestamp == target.timestamp
  {
    ArraysAgree(fp, h, st, s);
    HeadAgrees(h, st, s);
  }

  /** With the header as initialised, encoding never fails for a sequence number that is not negative. */
  lemma EncodingSucceeds(fp: Fp, st: Val3State, sequence: uint16, data: TxBuffer)
    ensures var (frame, error) := EncodeRobotStateMsg(fp, StateMsg(true, STATE_HEADER.(sequence := sequence), st), data);
            !error && frame[..102] == Val3StateBytes(fp, STATE_HEADER.(sequence := sequence), st)
            && frame[102..] == data[102..]
  {
  }

  /** What a cycle's frame must mean to the driver. */
  ghost predicate Conveys(fp: Fp, m: RobotState, reading: Reading, sequence: uint16, delay: uint16, mode: byte, inError: bool) {
    && m.header == FrameHeader(MAGIC_NUMBER, PROTOCOL_VERSION, TYPE_ROBOT_STATE, sequence, sequence)
    && m.sequenceDelay == delay && m.controlState == mode && m.safetyStatus == reading.esStatus
    && m.operationMode == reading.workingMode && m.operationModeStatus == reading.robotStatus
    && m.status == StatusBits(reading.powered, reading.powered, reading.powered && reading.esStatus == 0,
                              !reading.settled, inError, reading.esStatus != 0)
    && m.has == ValidBits(true, true, true, false, false, false)
    && m.jointPositions == Narrowed(fp, reading.positions)
    && m.jointVelocities == Narrowed(fp, reading.speeds)
    && m.jointTorques == Narrowed(fp, reading.torques)
  }

  lemma PublishedReads(fp: Fp, prev: Val3State, reading: Reading, sequence: uint16, delay: uint16, mode: byte,
                       inError: bool, frame: seq<byte>, target: RobotState)
    requires |frame| == STATE_SIZE
    requires frame[..102] ==
             Val3StateBytes(fp, STATE_HEADER.(sequence := sequence), PublishedState(prev, reading, delay, mode, inError))
    ensures ReadState(fp, target, frame).1
    ensures Conveys(fp, ReadState(fp, target, frame).0, reading, sequence, delay, mode, inError)
    ensures ReadState(fp, target, frame).0.timestamp == target.timestamp
  {
    var st := PublishedState(prev, reading, delay, mode, inError);
    hide ReadState, Bit, Pack;
    FlagsAgree(st);
    EncodedStateReads(fp, STATE_HEADER.(sequence := sequence), st, frame, target);
  }

  /**
   Every state frame the controller can build is accepted by the C++ decoder, which reads back each
   scalar, each status and valid bit, and every array whose valid bit is set. The payload size it
   reads is the sequence number.
   */
  lemma StateFramesAgree(fp: Fp, prev: Val3State, reading: Reading, sequence: uint16, delay: uint16, mode: byte,
                         inError: bool, data: TxBuffer, target: RobotState)
    ensures var st := PublishedState(prev, reading, delay, mode, inError);
            var (frame, error) := EncodeRobotStateMsg(fp, StateMsg(true, STATE_HEADER.(sequence := sequence), st), data);
            && !error
            && ReadState(fp, target, frame).1
            && Conveys(fp, ReadState(fp, target, frame).0, reading, sequence, delay, mode, inError)
            && ReadState(fp, target, frame).0.timestamp == target.timestamp
  {
    var st := PublishedState(prev, reading, delay, mode, inError);
    EncodingSucceeds(fp, st, sequence, data);
    var frame := EncodeRobotStateMsg(fp, StateMsg(true, STATE_HEADER.(sequence := sequence), st), data).0;
    PublishedReads(fp, prev, reading, sequence, delay, mode, inError, frame, target);
  }

  /**
   For every command the C++ serializer accepts, the controller accepts the frame exactly when the
   magic number and version are the protocol's, and then reads the same sequence number, type,
   references and analog outputs.
   */
  lemma CommandFramesAgree(fp: Fp, m: RobotCommand, h: MessageHeader, c: Val3Command)
    requires CommandHeaderOk(m.header) && h.headerSize == 8
    ensures var (r, d, error) := DecodeRobotCommandMsg(fp, h, c, CommandBytes(fp, m));
            && (error <==> m.header.magic != MAGIC_NUMBER || m.header.version != PROTOCOL_VERSION)
            && r == MessageHeader(8, m.header.magic, m.header.version, 2, m.header.sequence, 47)
            && (!error ==> d == Val3Command(true, m.commandType, Narrowed(fp, m.reference), Narrowed(fp, m.analogOutputs)))
            && (error ==> d == c.(motionType := 1))
  {
    var s := CommandBytes(fp, m);
    assert s[..COMMAND_SIZE] == s;
    CommandAtFrame(fp, m, s, 0);
    assert HeaderAt(s) == m.header;
  }
}
