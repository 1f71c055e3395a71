/**
 The controller's side of the wire: encoding of the state message into a byte array that is
 allocated once, and decoding of command messages received into another.
 */
module Val3Codec {
  import opened Wire
  import opened Messages
  import opened Serialization

  datatype MessageHeader = MessageHeader(headerSize: int, magic: int, version: int, msgType: int,
                                         sequence: int, payloadSize: int)

  /** The header as initHeader leaves it, with the type and payload size of each message. */
  function StateHeader(sequence: int): MessageHeader {
    MessageHeader(8, 43981, 1, 1, sequence, 124)
  }

  const STATE_HEADER := StateHeader(0)
  const COMMAND_HEADER := MessageHeader(8, 43981, 1, 2, 0, 47)

  type TxBuffer = s: seq<byte> | |s| == STATE_SIZE witness seq(132, _ => 0)
  type RxBuffer = s: seq<byte> | |s| == COMMAND_SIZE witness seq(55, _ => 0)

  const EMPTY_TX: TxBuffer := Zeros(132)
  const EMPTY_RX: RxBuffer := Zeros(55)

  function Zeros(n: nat): (s: seq<byte>)
    ensures |s| == n
  {
    seq(n, _ => 0)
  }

  datatype Arm = Arm(safetyStatus: int, robotMode: int, robotStatus: int, drivePowered: bool, brakeReleased: bool,
                     motionPossible: bool, inMotion: bool, waitAck: bool, eStopped: bool)

  datatype Joints = Joints(validPosition: bool, validVelocity: bool, validTorque: bool, validFtSensor: bool,
                           validDigitalInputs: bool, validAnalogInputs: bool,
                           positions: Vec6, velocities: Vec6, torques: Vec6, ftSensor: Vec6)

  datatype Val3State = Val3State(isValid: bool, sequenceDelay: int, controlMode: int, inError: bool, arm: Arm, joints: Joints)

  datatype StateMsg = StateMsg(initialized: bool, header: MessageHeader, state: Val3State)

  datatype Val3Command = Val3Command(isValid: bool, motionType: int, motionData: Vec6, analogOutputs: Vec4)

  /** The value toBinary puts in one or two bytes; the callers only pass values that fit. */
  function ToByte(v: int): byte {
    v % 256
  }

  function ToWord(v: int): uint16 {
    v % 65536
  }

  // ----- encoding -----

  /** The sequence number fills the payload-size slot as well. */
  function Val3HeaderBytes(h: MessageHeader): (s: seq<byte>)
    ensures |s| == 8
  {
    LE16(ToWord(h.magic)) + [ToByte(h.version)] + [ToByte(h.msgType)] + LE16(ToWord(h.sequence)) + LE16(ToWord(h.sequence))
  }

  /** The header in the array afterwards, and the error flag. */
  function EncodeHeader(h: MessageHeader, data: seq<byte>): (seq<byte>, bool)
    requires h.headerSize == 8
  {
    if h.sequence < 0 || |data| == 1 || |data| < h.headerSize then (data, true)
    else (Val3HeaderBytes(h) + data[8..], false)
  }

  function StatusWord(st: Val3State): uint16 {
    PackWord([st.arm.drivePowered, st.arm.brakeReleased, st.arm.motionPossible, st.arm.inMotion, st.inError, st.arm.eStopped])
  }

  function ValidWord(st: Val3State): uint16 {
    PackWord([st.joints.validPosition, st.joints.validVelocity, st.joints.validTorque, st.joints.validFtSensor,
              st.joints.validDigitalInputs, st.joints.validAnalogInputs])
  }

  /** Header, scalars and flag words: bytes 0 to 17. */
  function Val3Head(h: MessageHeader, st: Val3State): (s: seq<byte>)
    ensures |s| == 18
  {
    Val3HeaderBytes(h) + LE16(ToWord(st.sequenceDelay)) + [ToByte(st.controlMode)] + [ToByte(st.arm.safetyStatus)] +
    [ToByte(st.arm.robotMode)] + [ToByte(st.arm.robotStatus)] + LE16(StatusWord(st)) + LE16(ValidWord(st))
  }

  /** Bytes 0 to 101; the encoder steps over the last 30. */
  function Val3StateBytes(fp: Fp, h: MessageHeader, st: Val3State): (s: seq<byte>)
    ensures |s| == 102
  {
    Val3Head(h, st) + EncodeFloats(fp, st.joints.positions) + EncodeFloats(fp, st.joints.velocities) +
    EncodeFloats(fp, st.joints.torques) + EncodeFloats(fp, st.joints.ftSensor[..3])
  }

  /** The array afterwards, and the error flag. */
  function EncodeRobotStateMsg(fp: Fp, msg: StateMsg, data: TxBuffer): (TxBuffer, bool)
    requires msg.header.headerSize == 8
  {
    if !msg.initialized || msg.header.msgType != 1 || |data| != msg.header.payloadSize + msg.header.headerSize
    then (data, true)
    else if EncodeHeader(msg.header, data).1 then (data, true)
    else (Val3StateBytes(fp, msg.header, msg.state) + data[102..], false)
  }

  method EncodeHeaderInto(h: MessageHeader, data: array<byte>) returns (error: bool)
    requires h.headerSize == 8
    modifies data
    ensures (data[..], error) == EncodeHeader(h, old(data[..]))
  {
    if h.sequence < 0 {
      return true;
    }
    if data.Length == 1 {
      return true;
    }
    if data.Length < h.headerSize {
      return true;
    }
    var offset := 0;
    var n := PutU16(ToWord(h.magic), data, offset);
    assert data[..2] == LE16(ToWord(h.magic));
    offset := offset + n;
    n := PutU8(ToByte(h.version), data, offset);
    offset := offset + n;
    n := PutU8(ToByte(h.msgType), data, offset);
    offset := offset + n;
    n := PutU16(ToWord(h.sequence), data, offset);
    offset := offset + n;
    n := PutU16(ToWord(h.sequence), data, offset);
    offset := offset + n;
    error := offset != h.headerSize;
    assert data[..] == data[..8] + data[8..];
    assert data[8..] == old(data[..])[8..];
  }

  method EncodeScalars(st: Val3State, data: array<byte>, start: nat) returns (offset: nat)
    requires start == 8 && data.Length == STATE_SIZE
    modifies data
    ensures offset == 14
    ensures data[..14] == old(data[..8]) + LE16(ToWord(st.sequenceDelay)) + [ToByte(st.controlMode)] +
                          [ToByte(st.arm.safetyStatus)] + [ToByte(st.arm.robotMode)] + [ToByte(st.arm.robotStatus)]
    ensures forall i :: 14 <= i < data.Length ==> data[i] == old(data[i])
  {
    offset := start;
    var n := PutU16(ToWord(st.sequenceDelay), data, offset);
    offset := offset + n;
    n := PutU8(ToByte(st.controlMode), data, offset);
    offset := offset + n;
    n := PutU8(ToByte(st.arm.safetyStatus), data, offset);
    offset := offset + n;
    n := PutU8(ToByte(st.arm.robotMode), data, offset);
    offset := offset + n;
    n := PutU8(ToByte(st.arm.robotStatus), data, offset);
    offset := offset + n;
  }

  method EncodeFlags(st: Val3State, data: array<byte>, start: nat) returns (offset: nat)
    requires start == 14 && data.Length == STATE_SIZE
    modifies data
    ensures offset == 18
    ensures data[..18] == old(data[..14]) + LE16(StatusWord(st)) + LE16(ValidWord(st))
    ensures forall i :: 18 <= i < data.Length ==> data[i] == old(data[i])
  {
    var statusFlags := SixFlags([st.arm.drivePowered, st.arm.brakeReleased, st.arm.motionPossible,
                                 st.arm.inMotion, st.inError, st.arm.eStopped]);
    var validFlags := SixFlags([st.joints.validPosition, st.joints.validVelocity, st.joints.validTorque,
                                st.joints.validFtSensor, st.joints.validDigitalInputs, st.joints.validAnalogInputs]);
    offset := start;
    var n := PutU16(statusFlags, data, offset);
    offset := offset + n;
    n := PutU16(validFlags, data, offset);
    offset := offset + n;
  }

  method EncodeArrays(fp: Fp, st: Val3State, data: array<byte>, start: nat) returns (offset: nat)
    requires start == 18 && data.Length == STATE_SIZE
    modifies data
    ensures offset == 102
    ensures data[..102] == old(data[..18]) + EncodeFloats(fp, st.joints.positions) + EncodeFloats(fp, st.joints.velocities) +
                           EncodeFloats(fp, st.joints.torques) + EncodeFloats(fp, st.joints.ftSensor[..3])
    ensures forall i :: 102 <= i < data.Length ==> data[i] == old(data[i])
  {
    offset := start;
    var n := PutArray(fp, st.joints.positions, data, offset);
    offset := offset + n;
    n := PutArray(fp, st.joints.velocities, data, offset);
    offset := offset + n;
    n := PutArray(fp, st.joints.torques, data, offset);
    offset := offset + n;
    n := PutArray(fp, st.joints.ftSensor[..3], data, offset);
    offset := offset + n;
  }

  method EncodeRobotStateMsgInto(fp: Fp, msg: StateMsg, data: array<byte>) returns (error: bool)
    requires msg.header.headerSize == 8 && data.Length == STATE_SIZE
    modifies data
    ensures (data[..], error) == EncodeRobotStateMsg(fp, msg, old(data[..]))
  {
    if !msg.initialized {
      return true;
    }
    if msg.header.msgType != 1 {
      return true;
    }
    if msg.header.headerSize == 1 {
      return true;
    }
    if data.Length != msg.header.payloadSize + msg.header.headerSize {
      return true;
    }
    ghost var before := data[..];
    error := EncodeHeaderInto(msg.header, data);
    if error {
      return true;
    }
    assert data[..8] == Val3HeaderBytes(msg.header);
    var offset := EncodeScalars(msg.state, data, msg.header.headerSize);
    offset := EncodeFlags(msg.state, data, offset);
    offset := EncodeArrays(fp, msg.state, data, offset);
    // three force values, the digital word and four analog values are stepped over
    offset := offset + 12 + 2 + 16;
    error := offset != data.Length;
    assert data[102..] == before[102..];
    assert data[..] == data[..102] + data[102..];
  }

  // ----- decoding -----

  function DecodeHeader(h: MessageHeader, data: seq<byte>): (MessageHeader, bool)
    requires h.headerSize == 8
  {
    if |data| < h.headerSize then (h, true)
    else
      var r := MessageHeader(8, U16At(data, 0), data[2], data[3], U16At(data, 4), U16At(data, 6));
      (r, r.magic != 43981 || r.version != 1)
  }

  /** The header and command afterwards, and the error flag. */
  function DecodeRobotCommandMsg(fp: Fp, h: MessageHeader, c: Val3Command, data: RxBuffer): (MessageHeader, Val3Command, bool)
    requires h.headerSize == 8
  {
    var (r, error) := DecodeHeader(h, data);
    if error || r.msgType != 2 then (r, c.(motionType := 1), true)
    else (r, Val3Command(true, data[12], FloatsAt(fp, data, 13, 6), FloatsAt(fp, data, 39, 4)), false)
  }

  method DecodeHeaderFrom(h: MessageHeader, data: array<byte>) returns (r: MessageHeader, error: bool)
    requires h.headerSize == 8
    ensures (r, error) == DecodeHeader(h, data[..])
  {
    if data.Length < h.headerSize {
      return h, true;
    }
    ghost var window := data[..];
    var offset := 0;
    var magic, n := GetU16(data, offset, window);
    offset := offset + n;
    var version, msgType, sequence, payloadSize;
    version, n := GetU8(data, offset, window);
    offset := offset + n;
    msgType, n := GetU8(data, offset, window);
    offset := offset + n;
    sequence, n := GetU16(data, offset, window);
    offset := offset + n;
    payloadSize, n := GetU16(data, offset, window);
    offset := offset + n;
    r := MessageHeader(h.headerSize, magic, version, msgType, sequence, payloadSize);
    error := offset != h.headerSize;
    if r.magic != 43981 {
      error := true;
    }
    if r.version != 1 {
      error := true;
    }
  }

  /** The outcome of the first size test is overwritten by the header decoder. */
  method DecodeRobotCommandMsgFrom(fp: Fp, h: MessageHeader, c: Val3Command, data: array<byte>)
    returns (r: MessageHeader, d: Val3Command, error: bool)
    requires h.headerSize == 8 && data.Length == COMMAND_SIZE
    ensures (r, d, error) == DecodeRobotCommandMsg(fp, h, c, data[..])
  {
    error := data.Length != h.headerSize + h.payloadSize;
    r, error := DecodeHeaderFrom(h, data);
    if r.msgType != 2 {
      error := true;
    }
    if error {
      return r, c.(motionType := 1), true;
    }
    ghost var window := data[..];
    var offset := r.headerSize;
    // the remote control period is stepped over
    offset := offset + 4;
    var motionType, n := GetU8(data, offset, window);
    offset := offset + n;
    var motionData, analogOutputs;
    motionData, n := GetArray(fp, data, offset, 6, window);
    offset := offset + n;
    // the digital output mask is read but not used
    offset := offset + 2;
    analogOutputs, n := GetArray(fp, data, offset, 4, window);
    offset := offset + n;
    if offset != data.Length {
      assert false;  // the fields always use up the 55 bytes
    }
    d := Val3Command(true, motionType, motionData, analogOutputs);
  }
}
