/**
 The C++ message classes: their fields, and `serialize` / `deserialize` walking a byte buffer with
 a running offset.
 */
module MessageObjects {
  import opened Wire
  import opened Messages
  import opened Serialization

  method SerializeHeader(header: FrameHeader, buffer: array<byte>, size: nat) returns (ok: bool)
    requires size <= buffer.Length
    modifies buffer
    ensures ok == (size >= HEADER_SIZE)
    ensures ok ==> Filled(buffer, HeaderBytes(header))
    ensures !ok ==> buffer[..] == old(buffer[..])
  {
    if size < HEADER_SIZE {
      return false;
    }
    var offset := 0;
    var n := PutU16(header.magic, buffer, offset);
    assert buffer[..2] == LE16(header.magic);
    offset := offset + n;
    n := PutU8(header.version, buffer, offset);
    offset := offset + n;
    n := PutU8(header.msgType, buffer, offset);
    offset := offset + n;
    n := PutU16(header.sequence, buffer, offset);
    offset := offset + n;
    n := PutU16(header.payloadSize, buffer, offset);
    return true;
  }

  /** The header is overwritten even when its magic number turns out to be wrong. */
  method DeserializeHeader(old_: FrameHeader, buffer: array<byte>, size: nat) returns (header: FrameHeader, ok: bool)
    requires size <= buffer.Length
    ensures size < HEADER_SIZE ==> header == old_ && !ok
    ensures size >= HEADER_SIZE ==> header == HeaderAt(buffer[..size]) && ok == (header.magic == MAGIC_NUMBER)
  {
    if size < HEADER_SIZE {
      return old_, false;
    }
    ghost var window := buffer[..size];
    var offset := 0;
    var magic, n := GetU16(buffer, offset, window);
    offset := offset + n;
    var version, msgType, sequence, payloadSize;
    version, n := GetU8(buffer, offset, window);
    offset := offset + n;
    msgType, n := GetU8(buffer, offset, window);
    offset := offset + n;
    sequence, n := GetU16(buffer, offset, window);
    offset := offset + n;
    payloadSize, n := GetU16(buffer, offset, window);
    header := FrameHeader(magic, version, msgType, sequence, payloadSize);
    ok := magic == MAGIC_NUMBER;
  }

  class RobotStateMessage {
    var header: FrameHeader
    var sequenceDelay: uint16
    var controlState: byte
    var safetyStatus: byte
    var operationMode: byte
    var operationModeStatus: byte
    var status: StatusBits
    var has: ValidBits
    var jointPositions: Vec6
    var jointVelocities: Vec6
    var jointTorques: Vec6
    var ftSensor: Vec6
    var digitalInputs: Bits16
    var analogInputs: Vec4
    var timestamp: nat

    function Value(): RobotState
      reads this
    {
      RobotState(header, sequenceDelay, controlState, safetyStatus, operationMode, operationModeStatus, status, has,
                 jointPositions, jointVelocities, jointTorques, ftSensor, digitalInputs, analogInputs, timestamp)
    }

    constructor ()
      ensures Value() == FRESH_STATE
    {
      header := FrameHeader(MAGIC_NUMBER, PROTOCOL_VERSION, TYPE_ROBOT_STATE, 0, STATE_SIZE - HEADER_SIZE);
      sequenceDelay := 1000;
      controlState, safetyStatus, operationMode, operationModeStatus := CMD_INVALID, 0, 0, 100;
      status := StatusBits(false, false, false, false, false, false);
      has := ValidBits(false, false, false, false, false, false);
      jointPositions, jointVelocities, jointTorques, ftSensor := ZERO6, ZERO6, ZERO6, ZERO6;
      digitalInputs, analogInputs := ALL_OFF, ZERO4;
      timestamp := 0;
    }

    method StatusWord() returns (word: uint16)
      ensures word == PackWord(StatusList(status)) && StatusAt(word) == status
    {
      word := SixFlags(StatusList(status));
      StatusRoundTrip(status);
    }

    method ValidWord() returns (word: uint16)
      ensures word == PackWord(ValidList(has)) && ValidAt(word) == has
    {
      word := SixFlags(ValidList(has));
      ValidRoundTrip(has);
    }

    method SerializeScalars(buffer: array<byte>, start: nat) returns (offset: nat)
      requires start == HEADER_SIZE && STATE_SIZE <= buffer.Length
      modifies buffer
      ensures offset == 14
      ensures buffer[..14] == old(buffer[..8]) + LE16(sequenceDelay) + [controlState] + [safetyStatus] +
                              [operationMode] + [operationModeStatus]
      ensures forall i :: 14 <= i < buffer.Length ==> buffer[i] == old(buffer[i])
    {
      offset := start;
      var n := PutU16(sequenceDelay, buffer, offset);
      offset := offset + n;
      n := PutU8(controlState, buffer, offset);
      offset := offset + n;
      n := PutU8(safetyStatus, buffer, offset);
      offset := offset + n;
      n := PutU8(operationMode, buffer, offset);
      offset := offset + n;
      n := PutU8(operationModeStatus, buffer, offset);
      offset := offset + n;
    }

    /** Header, scalars and flag words. */
    method SerializeHead(buffer: array<byte>, size: nat) returns (offset: nat)
      requires STATE_SIZE <= size <= buffer.Length
      modifies buffer
      ensures offset == 18 && Filled(buffer, StateHead(Value()))
    {
      var statusFlags := StatusWord();
      var validFlags := ValidWord();
      var ok := SerializeHeader(header, buffer, size);
      offset := SerializeScalars(buffer, HEADER_SIZE);
      var n := PutU16(statusFlags, buffer, offset);
      offset := offset + n;
      n := PutU16(validFlags, buffer, offset);
      offset := offset + n;
    }

    method SerializeJoints(fp: Fp, buffer: array<byte>, start: nat) returns (offset: nat)
      requires start == 18 && STATE_SIZE <= buffer.Length
      modifies buffer
      ensures offset == 90
      ensures buffer[..90] == old(buffer[..18]) + EncodeFloats(fp, jointPositions) +
                              EncodeFloats(fp, jointVelocities) + EncodeFloats(fp, jointTorques)
      ensures forall i :: 90 <= i < buffer.Length ==> buffer[i] == old(buffer[i])
    {
      offset := start;
      var n := PutArray(fp, jointPositions, buffer, offset);
      offset := offset + n;
      n := PutArray(fp, jointVelocities, buffer, offset);
      offset := offset + n;
      n := PutArray(fp, jointTorques, buffer, offset);
      offset := offset + n;
    }

    method SerializeSensors(fp: Fp, buffer: array<byte>, start: nat, inputFlags: uint16) returns (offset: nat)
      requires start == 90 && STATE_SIZE <= buffer.Length
      modifies buffer
      ensures offset == STATE_SIZE
      ensures buffer[..STATE_SIZE] == old(buffer[..90]) + EncodeFloats(fp, ftSensor) + LE16(inputFlags) +
                                      EncodeFloats(fp, analogInputs)
      ensures forall i :: STATE_SIZE <= i < buffer.Length ==> buffer[i] == old(buffer[i])
    {
      offset := start;
      var n := PutArray(fp, ftSensor, buffer, offset);
      offset := offset + n;
      n := PutU16(inputFlags, buffer, offset);
      offset := offset + n;
      n := PutArray(fp, analogInputs, buffer, offset);
      offset := offset + n;
    }

    method Serialize(fp: Fp, buffer: array<byte>, size: nat) returns (ok: bool)
      requires size <= buffer.Length
      modifies buffer
      ensures ok == (size >= STATE_SIZE)
      ensures ok ==> Filled(buffer, StateBytes(fp, Value()))
      ensures !ok ==> buffer[..] == old(buffer[..])
    {
      if size < STATE_SIZE {
        return false;
      }
      var inputFlags := PackFlags(digitalInputs);
      var offset := SerializeHead(buffer, size);
      offset := SerializeJoints(fp, buffer, offset);
      offset := SerializeSensors(fp, buffer, offset, inputFlags);
      ok := offset == STATE_SIZE;
    }

    method DeserializeScalars(buffer: array<byte>, start: nat, ghost window: seq<byte>) returns (offset: nat)
      requires start == HEADER_SIZE && Shows(buffer, window) && |window| >= STATE_SIZE
      modifies this`sequenceDelay, this`controlState, this`safetyStatus, this`operationMode,
               this`operationModeStatus, this`status, this`has
      ensures offset == 18
      ensures sequenceDelay == U16At(window, 8) && controlState == window[10] && safetyStatus == window[11]
      ensures operationMode == window[12] && operationModeStatus == window[13]
      ensures status == StatusAt(U16At(window, 14)) && has == ValidAt(U16At(window, 16))
    {
      offset := start;
      var n, word;
      sequenceDelay, n := GetU16(buffer, offset, window);
      offset := offset + n;
      controlState, n := GetU8(buffer, offset, window);
      offset := offset + n;
      safetyStatus, n := GetU8(buffer, offset, window);
      offset := offset + n;
      operationMode, n := GetU8(buffer, offset, window);
      offset := offset + n;
      operationModeStatus, n := GetU8(buffer, offset, window);
      offset := offset + n;
      word, n := GetU16(buffer, offset, window);
      offset := offset + n;
      status := StatusAt(word);
      word, n := GetU16(buffer, offset, window);
      offset := offset + n;
      has := ValidAt(word);
    }

    method DeserializeJoints(fp: Fp, buffer: array<byte>, start: nat, ghost window: seq<byte>) returns (offset: nat)
      requires start == 18 && Shows(buffer, window) && |window| >= STATE_SIZE
      modifies this`jointPositions, this`jointVelocities, this`jointTorques
      ensures offset == 90
      ensures jointPositions == FloatsAt(fp, window, 18, 6) && jointVelocities == FloatsAt(fp, window, 42, 6)
      ensures jointTorques == FloatsAt(fp, window, 66, 6)
    {
      offset := start;
      var n;
      jointPositions, n := GetArray(fp, buffer, offset, 6, window);
      offset := offset + n;
      jointVelocities, n := GetArray(fp, buffer, offset, 6, window);
      offset := offset + n;
      jointTorques, n := GetArray(fp, buffer, offset, 6, window);
      offset := offset + n;
    }

    method DeserializeBody(fp: Fp, buffer: array<byte>, start: nat, ghost window: seq<byte>) returns (offset: nat)
      requires start == HEADER_SIZE && Shows(buffer, window) && |window| >= STATE_SIZE
      modifies this`sequenceDelay, this`controlState, this`safetyStatus, this`operationMode, this`operationModeStatus,
               this`status, this`has, this`jointPositions, this`jointVelocities, this`jointTorques, this`ftSensor,
               this`digitalInputs, this`analogInputs
      ensures offset == STATE_SIZE
      ensures sequenceDelay == U16At(window, 8) && controlState == window[10] && safetyStatus == window[11]
      ensures operationMode == window[12] && operationModeStatus == window[13]
      ensures status == StatusAt(U16At(window, 14)) && has == ValidAt(U16At(window, 16))
      ensures jointPositions == FloatsAt(fp, window, 18, 6) && jointVelocities == FloatsAt(fp, window, 42, 6)
      ensures jointTorques == FloatsAt(fp, window, 66, 6) && ftSensor == FloatsAt(fp, window, 90, 6)
      ensures digitalInputs == Unpack16(U16At(window, 114)) && analogInputs == FloatsAt(fp, window, 116, 4)
    {
      offset := DeserializeScalars(buffer, start, window);
      var n, word;
      offset := DeserializeJoints(fp, buffer, offset, window);
      ftSensor, n := GetArray(fp, buffer, offset, 6, window);
      offset := offset + n;
      word, n := GetU16(buffer, offset, window);
      offset := offset + n;
      digitalInputs := UnpackFlags(word);
      analogInputs, n := GetArray(fp, buffer, offset, 4, window);
      offset := offset + n;
    }

    method Deserialize(fp: Fp, buffer: array<byte>, size: nat) returns (ok: bool)
      requires size <= buffer.Length
      modifies this
      ensures (Value(), ok) == ReadState(fp, old(Value()), buffer[..size])
    {
      ghost var window := buffer[..size];
      if size < STATE_SIZE {
        return false;
      }
      header, ok := DeserializeHeader(header, buffer, size);
      if !ok {
        return false;
      }
      var offset := DeserializeBody(fp, buffer, HEADER_SIZE, window);
      ok := offset == STATE_SIZE;
    }
  }

  class RobotCommandMessage {
    var header: FrameHeader
    var commandType: byte
    var controllerPeriod: Double
    var reference: Vec6
    var digitalOutputs: Bits16
    var analogOutputs: Vec4
    var timestamp: nat

    function Value(): RobotCommand
      reads this
    {
      RobotCommand(header, commandType, controllerPeriod, reference, digitalOutputs, analogOutputs, timestamp)
    }

    constructor ()
      ensures Value() == FRESH_COMMAND
    {
      header := FrameHeader(MAGIC_NUMBER, PROTOCOL_VERSION, TYPE_ROBOT_COMMAND, 0, COMMAND_SIZE - HEADER_SIZE);
      commandType, controllerPeriod, reference := CMD_STOP, Finite(-1.0), ZERO6;
      digitalOutputs, analogOutputs := ALL_OFF, ZERO4;
      timestamp := 0;
    }

    method Fill(m: RobotCommand)
      modifies this
      ensures Value() == m
    {
      header, commandType, controllerPeriod, reference := m.header, m.commandType, m.controllerPeriod, m.reference;
      digitalOutputs, analogOutputs, timestamp := m.digitalOutputs, m.analogOutputs, m.timestamp;
    }

    method Serialize(fp: Fp, buffer: array<byte>, size: nat) returns (ok: bool)
      requires size <= buffer.Length
      modifies buffer
      ensures ok == (size >= COMMAND_SIZE && CommandHeaderOk(header))
      ensures ok ==> Filled(buffer, CommandBytes(fp, Value()))
      ensures !ok ==> buffer[..] == old(buffer[..])
    {
      if size < COMMAND_SIZE {
        return false;
      }
      if header.payloadSize != COMMAND_SIZE - HEADER_SIZE {
        return false;
      }
      if header.msgType != TYPE_ROBOT_COMMAND {
        return false;
      }
      ok := SerializeHeader(header, buffer, size);
      var offset := HEADER_SIZE;
      var n := PutDouble(fp, controllerPeriod, buffer, offset);
      offset := offset + n;
      n := PutU8(commandType, buffer, offset);
      offset := offset + n;
      n := PutArray(fp, reference, buffer, offset);
      offset := offset + n;
      var outputFlags := PackFlags(digitalOutputs);
      n := PutU16(outputFlags, buffer, offset);
      offset := offset + n;
      n := PutArray(fp, analogOutputs, buffer, offset);
      offset := offset + n;
      ok := offset == COMMAND_SIZE;
    }

    method Deserialize(fp: Fp, buffer: array<byte>, size: nat) returns (ok: bool)
      requires size <= buffer.Length
      modifies this
      ensures (Value(), ok) == ReadCommand(fp, old(Value()), buffer[..size])
    {
      ghost var window := buffer[..size];
      if size < COMMAND_SIZE {
        return false;
      }
      header, ok := DeserializeHeader(header, buffer, size);
      if !ok {
        return false;
      }
      var offset := HEADER_SIZE;
      if header.payloadSize != COMMAND_SIZE - HEADER_SIZE {
        return false;
      }
      if header.msgType != TYPE_ROBOT_COMMAND {
        return false;
      }
      var n, word;
      controllerPeriod, n := GetDouble(fp, buffer, offset, window);
      offset := offset + n;
      commandType, n := GetU8(buffer, offset, window);
      offset := offset + n;
      reference, n := GetArray(fp, buffer, offset, 6, window);
      offset := offset + n;
      word, n := GetU16(buffer, offset, window);
      offset := offset + n;
      digitalOutputs := UnpackFlags(word);
      analogOutputs, n := GetArray(fp, buffer, offset, 4, window);
      offset := offset + n;
      ok := offset == COMMAND_SIZE;
    }
  }

  class DiagnosticDataMessage {
    var header: FrameHeader
    var controllerType: byte
    var major: byte
    var minor: byte
    var patch: byte
    var errorCodes: Log16
    var errorTimes: Log32
    var taskStatus: uint16
    var timestamp: nat

    function Value(): Diagnostic
      reads this
    {
      Diagnostic(header, controllerType, major, minor, patch, errorCodes, errorTimes, taskStatus, timestamp)
    }

    constructor ()
      ensures Value() == FRESH_DIAGNOSTIC
    {
      header := FrameHeader(MAGIC_NUMBER, PROTOCOL_VERSION, TYPE_DIAGNOSTIC_DATA, 0, DIAGNOSTIC_SIZE - HEADER_SIZE);
      controllerType, major, minor, patch := 0, 0, 0, 0;
      errorCodes := [0, 0, 0, 0, 0, 0, 0, 0, 0, 0];
      errorTimes := [0, 0, 0, 0, 0, 0, 0, 0, 0, 0];
      taskStatus := 0;
      timestamp := 0;
    }

    /** The header reaches the buffer before its type and payload size are tested. */
    method Serialize(buffer: array<byte>, size: nat) returns (ok: bool)
      requires size <= buffer.Length
      modifies buffer
      ensures ok == (size >= DIAGNOSTIC_SIZE && DiagnosticHeaderOk(header))
      ensures ok ==> Filled(buffer, DiagnosticBytes(Value()))
      ensures size >= DIAGNOSTIC_SIZE && !ok ==> Filled(buffer, HeaderBytes(header))
      ensures size < DIAGNOSTIC_SIZE ==> buffer[..] == old(buffer[..])
    {
      if size < DIAGNOSTIC_SIZE {
        return false;
      }
      ok := SerializeHeader(header, buffer, size);
      var offset := HEADER_SIZE;
      if header.payloadSize != DIAGNOSTIC_SIZE - HEADER_SIZE {
        return false;
      }
      if header.msgType != TYPE_DIAGNOSTIC_DATA {
        return false;
      }
      var n := PutU8(controllerType, buffer, offset);
      offset := offset + n;
      n := PutU8(major, buffer, offset);
      offset := offset + n;
      n := PutU8(minor, buffer, offset);
      offset := offset + n;
      n := PutU8(patch, buffer, offset);
      offset := offset + n;
      n := PutWords16(errorCodes, buffer, offset);
      offset := offset + n;
      n := PutWords32(errorTimes, buffer, offset);
      offset := offset + n;
      n := PutU16(taskStatus, buffer, offset);
      offset := offset + n;
      ok := offset == DIAGNOSTIC_SIZE;
    }

    method Deserialize(buffer: array<byte>, size: nat) returns (ok: bool)
      requires size <= buffer.Length
      modifies this
      ensures (Value(), ok) == ReadDiagnostic(old(Value()), buffer[..size])
    {
      ghost var window := buffer[..size];
      if size < DIAGNOSTIC_SIZE {
        return false;
      }
      if header.payloadSize != DIAGNOSTIC_SIZE - HEADER_SIZE {
        return false;
      }
      if header.msgType != TYPE_DIAGNOSTIC_DATA {
        return false;
      }
      header, ok := DeserializeHeader(header, buffer, size);
      if !ok {
        return false;
      }
      var offset := HEADER_SIZE;
      var n;
      controllerType, n := GetU8(buffer, offset, window);
      offset := offset + n;
      major, n := GetU8(buffer, offset, window);
      offset := offset + n;
      minor, n := GetU8(buffer, offset, window);
      offset := offset + n;
      patch, n := GetU8(buffer, offset, window);
      offset := offset + n;
      errorCodes, n := GetWords16(buffer, offset, 10, window);
      offset := offset + n;
      errorTimes, n := GetWords32(buffer, offset, 10, window);
      offset := offset + n;
      taskStatus, n := GetU16(buffer, offset, window);
      offset := offset + n;
      ok := offset == DIAGNOSTIC_SIZE;
    }
  }

  method PutWords16(items: seq<uint16>, buffer: array<byte>, offset: nat) returns (n: nat)
    requires offset + 2 * |items| <= buffer.Length
    modifies buffer
    ensures n == 2 * |items| && Wrote(buffer, offset, Words16(items))
  {
    n := 0;
    for i := 0 to |items|
      invariant n == 2 * i
      invariant buffer[..offset + n] == old(buffer[..offset]) + Words16(items[..i])
      invariant forall k :: offset + n <= k < buffer.Length ==> buffer[k] == old(buffer[k])
    {
      assert items[..i + 1][..i] == items[..i];
      var used := PutU16(items[i], buffer, offset + n);
      n := n + used;
    }
    assert items[..|items|] == items;
  }

  method PutWords32(items: seq<uint32>, buffer: array<byte>, offset: nat) returns (n: nat)
    requires offset + 4 * |items| <= buffer.Length
    modifies buffer
    ensures n == 4 * |items| && Wrote(buffer, offset, Words32(items))
  {
    n := 0;
    for i := 0 to |items|
      invariant n == 4 * i
      invariant buffer[..offset + n] == old(buffer[..offset]) + Words32(items[..i])
      invariant forall k :: offset + n <= k < buffer.Length ==> buffer[k] == old(buffer[k])
    {
      assert items[..i + 1][..i] == items[..i];
      var used := PutU32(items[i], buffer, offset + n);
      n := n + used;
    }
    assert items[..|items|] == items;
  }

  method GetWords16(buffer: array<byte>, offset: nat, count: nat, ghost window: seq<byte>)
    returns (items: seq<uint16>, n: nat)
    requires Shows(buffer, window) && offset + 2 * count <= |window|
    ensures n == 2 * count && items == Words16At(window, offset, count)
  {
    items, n := [], 0;
    for i := 0 to count
      invariant n == 2 * i && items == Words16At(window, offset, i)
    {
      var value, used := GetU16(buffer, offset + n, window);
      items := items + [value];
      n := n + used;
    }
  }

  method GetWords32(buffer: array<byte>, offset: nat, count: nat, ghost window: seq<byte>)
    returns (items: seq<uint32>, n: nat)
    requires Shows(buffer, window) && offset + 4 * count <= |window|
    ensures n == 4 * count && items == Words32At(window, offset, count)
  {
    items, n := [], 0;
    for i := 0 to count
      invariant n == 4 * i && items == Words32At(window, offset, i)
    {
      var value, used := GetU32(buffer, offset + n, window);
      items := items + [value];
      n := n + used;
    }
  }
}
