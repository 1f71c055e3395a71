/**
 The wire format written out once more, byte by byte and bit by bit, independently of the codecs:
 which bytes they accept, what each offset means, and what each flag weighs.
 */
module WireFormat {
  import opened Wire
  import opened Messages
  import opened Val3Codec

  // ----- words and flags -----

  function Word(s: seq<byte>, offset: nat): int
    requires offset + 2 <= |s|
  {
    s[offset] as int + 256 * s[offset + 1] as int
  }

  function DoubleWord(s: seq<byte>, offset: nat): int
    requires offset + 4 <= |s|
  {
    Word(s, offset) + 65536 * Word(s, offset + 2)
  }

  /** Words travel with the low byte first. */
  lemma LowByteFirst(v: uint16, w: uint32)
    ensures Word(LE16(v), 0) == v
    ensures DoubleWord(LE32(w), 0) == w
  {
    Base256(w);
  }

  function Weight(set_: bool, value: nat): nat {
    if set_ then value else 0
  }

  lemma FirstBit(bits: seq<bool>)
    ensures Pack(bits) == if bits == [] then 0 else Weight(bits[0], 1) + 2 * Pack(bits[1..])
  {
  }

  lemma SixBits(bits: seq<bool>)
    requires |bits| == 6
    ensures Pack(bits) == Weight(bits[0], 1) + Weight(bits[1], 2) + Weight(bits[2], 4) + Weight(bits[3], 8)
                          + Weight(bits[4], 16) + Weight(bits[5], 32)
  {
    hide Pack;
    FirstBit(bits);
    FirstBit(bits[1..]);
    FirstBit(bits[1..][1..]);
    FirstBit(bits[1..][1..][1..]);
    FirstBit(bits[1..][1..][1..][1..]);
    FirstBit(bits[1..][1..][1..][1..][1..]);
    FirstBit(bits[1..][1..][1..][1..][1..][1..]);
  }

  /** The flag words of the C++ messages, by the masks of their enumerations. */
  lemma FlagMasks(s: StatusBits, v: ValidBits)
    ensures PackWord(StatusList(s)) ==
            Weight(s.powerOn, 0x01) + Weight(s.brakesReleased, 0x02) + Weight(s.motionPossible, 0x04)
            + Weight(s.inMotion, 0x08) + Weight(s.errorState, 0x10) + Weight(s.estopPressed, 0x20)
    ensures PackWord(ValidList(v)) ==
            Weight(v.positions, 0x01) + Weight(v.velocities, 0x02) + Weight(v.torques, 0x04)
            + Weight(v.ftSensor, 0x08) + Weight(v.digitalInputs, 0x10) + Weight(v.analogInputs, 0x20)
  {
    SixBits(StatusList(s));
    SixBits(ValidList(v));
  }

  /** The flag words of the controller, by the masks it ORs together. */
  lemma Val3FlagMasks(st: Val3State)
    ensures StatusWord(st) ==
            Weight(st.arm.drivePowered, 1) + Weight(st.arm.brakeReleased, 2) + Weight(st.arm.motionPossible, 4)
            + Weight(st.arm.inMotion, 8) + Weight(st.inError, 16) + Weight(st.arm.eStopped, 32)
    ensures ValidWord(st) ==
            Weight(st.joints.validPosition, 1) + Weight(st.joints.validVelocity, 2) + Weight(st.joints.validTorque, 4)
            + Weight(st.joints.validFtSensor, 8) + Weight(st.joints.validDigitalInputs, 16)
            + Weight(st.joints.validAnalogInputs, 32)
  {
    SixBits([st.arm.drivePowered, st.arm.brakeReleased, st.arm.motionPossible, st.arm.inMotion, st.inError, st.arm.eStopped]);
    SixBits([st.joints.validPosition, st.joints.validVelocity, st.joints.validTorque,
             st.joints.validFtSensor, st.joints.validDigitalInputs, st.joints.validAnalogInputs]);
  }

  predicate Shifted(v: nat, i: nat) {
    v / Pow2(i) % 2 == 1
  }

  /** Bit i of a word has the weight 2 to the i. */
  lemma {:induction false} BitWeighs(v: nat, i: nat)
    ensures Bit(v, i) <==> Shifted(v, i)
  {
    if i > 0 {
      BitWeighs(v / 2, i - 1);
      Halves(v, Pow2(i - 1));
    }
  }

  lemma Halves(v: nat, p: nat)
    requires p > 0
    ensures v / 2 / p == v / (2 * p)
  {
    var q := v / (2 * p);
    var r := v % (2 * p);
    assert v == q * (2 * p) + r;
    assert v / 2 == q * p + r / 2;
    assert 0 <= r / 2 < p;
    Quotient(v / 2, p, q, r / 2);
  }

  lemma Quotient(x: int, p: int, q: int, r: int)
    requires p > 0 && x == q * p + r && 0 <= r < p
    ensures x / p == q
  {
    var d := x / p - q;
    var m := x % p;
    assert x == (x / p) * p + m;
    assert d * p == r - m;
    MultipleBound(d, p);
  }

  lemma MultipleBound(d: int, p: int)
    requires p > 0
    ensures d >= 1 ==> d * p >= p
    ensures d <= -1 ==> d * p <= -p
  {
  }

  lemma Weights()
    ensures Pow2(0) == 1 && Pow2(1) == 2 && Pow2(2) == 4 && Pow2(3) == 8 && Pow2(4) == 16 && Pow2(5) == 32
  {
    assert Pow2(3) == 8;
  }

  /** What the flags of a received word mean. */
  lemma FlagsRead(v: uint16)
    ensures StatusAt(v) == StatusBits(v % 2 == 1, v / 2 % 2 == 1, v / 4 % 2 == 1, v / 8 % 2 == 1, v / 16 % 2 == 1, v / 32 % 2 == 1)
    ensures ValidAt(v) == ValidBits(v % 2 == 1, v / 2 % 2 == 1, v / 4 % 2 == 1, v / 8 % 2 == 1, v / 16 % 2 == 1, v / 32 % 2 == 1)
  {
    Weights();
    BitWeighs(v, 0);
    BitWeighs(v, 1);
    BitWeighs(v, 2);
    BitWeighs(v, 3);
    BitWeighs(v, 4);
    BitWeighs(v, 5);
  }

  // ----- what is accepted, and what each offset means -----

  /** The eight bytes in front of every frame. */
  predicate HeaderReads(h: FrameHeader, s: seq<byte>)
    requires |s| >= 8
  {
    && h.magic == Word(s, 0) && h.version == s[2] && h.msgType == s[3]
    && h.sequence == Word(s, 4) && h.payloadSize == Word(s, 6)
  }

  /** A float32 at an offset, as a double. */
  function Single(fp: Fp, s: seq<byte>, offset: nat): Double
    requires offset + 4 <= |s|
  {
    fp.widen(U32At(s, offset))
  }

  lemma SingleBytes(s: seq<byte>, offset: nat)
    requires offset + 4 <= |s|
    ensures U32At(s, offset) == DoubleWord(s, offset)
  {
  }

  ghost predicate SinglesRead(fp: Fp, xs: seq<Double>, s: seq<byte>, offset: nat)
    requires offset + 4 * |xs| <= |s|
  {
    forall i :: 0 <= i < |xs| ==> xs[i] == Single(fp, s, offset + 4 * i)
  }

  ghost predicate BitsRead(bits: Bits16, word: nat) {
    forall i :: 0 <= i < 16 ==> (bits[i] <==> Shifted(word, i))
  }

  /**
   State frames: accepted exactly when at least 132 bytes long and opened by CD AB. Every field then
   comes from its place in the first 132 bytes; a refused one changes the header at most.
   */
  lemma StateFormat(fp: Fp, m: RobotState, s: seq<byte>)
    ensures var (r, ok) := ReadState(fp, m, s);
            && (ok <==> |s| >= 132 && s[0] == 0xCD && s[1] == 0xAB)
            && r.timestamp == m.timestamp
            && (!ok ==> r == if |s| < 132 then m else m.(header := r.header))
            && (|s| >= 132 ==> HeaderReads(r.header, s))
            && (ok ==>
                  && r.sequenceDelay == Word(s, 8) && r.controlState == s[10] && r.safetyStatus == s[11]
                  && r.operationMode == s[12] && r.operationModeStatus == s[13]
                  && r.status == StatusAt(Word(s, 14)) && r.has == ValidAt(Word(s, 16))
                  && SinglesRead(fp, r.jointPositions, s, 18) && SinglesRead(fp, r.jointVelocities, s, 42)
                  && SinglesRead(fp, r.jointTorques, s, 66) && SinglesRead(fp, r.ftSensor, s, 90)
                  && BitsRead(r.digitalInputs, Word(s, 114)) && SinglesRead(fp, r.analogInputs, s, 116))
  {
    if |s| >= 132 {
      MagicBytes(s);
      forall i | 0 <= i < 16
        ensures Bit(Word(s, 114), i) <==> Shifted(Word(s, 114), i)
      {
        BitWeighs(Word(s, 114), i);
      }
    }
    hide Bit, Shifted, StatusAt, ValidAt;
  }

  lemma MagicBytes(s: seq<byte>)
    requires |s| >= 8
    ensures HeaderAt(s).magic == 0xABCD <==> s[0] == 0xCD && s[1] == 0xAB
    ensures HeaderReads(HeaderAt(s), s)
  {
  }

  /** Command frames: at least 55 bytes, opened by CD AB, of type 2 and with payload size 47. */
  lemma CommandFormat(fp: Fp, m: RobotCommand, s: seq<byte>)
    ensures var (r, ok) := ReadCommand(fp, m, s);
            && (ok <==> |s| >= 55 && s[0] == 0xCD && s[1] == 0xAB && s[3] == 2 && Word(s, 6) == 47)
            && r.timestamp == m.timestamp
            && (!ok ==> r == if |s| < 55 then m else m.(header := r.header))
            && (|s| >= 55 ==> HeaderReads(r.header, s))
            && (ok ==>
                  && r.controllerPeriod == Single(fp, s, 8) && r.commandType == s[12]
                  && SinglesRead(fp, r.reference, s, 13)
                  && BitsRead(r.digitalOutputs, Word(s, 37)) && SinglesRead(fp, r.analogOutputs, s, 39))
  {
    if |s| >= 55 {
      MagicBytes(s);
      forall i | 0 <= i < 16
        ensures Bit(Word(s, 37), i) <==> Shifted(Word(s, 37), i)
      {
        BitWeighs(Word(s, 37), i);
      }
    }
    hide Bit, Shifted;
  }

  /** Diagnostic frames: at least 74 bytes, opened by CD AB, into an object whose old header passes. */
  lemma DiagnosticFormat(m: Diagnostic, s: seq<byte>)
    ensures var (r, ok) := ReadDiagnostic(m, s);
            && (ok <==> |s| >= 74 && m.header.msgType == 3 && m.header.payloadSize == 66 && s[0] == 0xCD && s[1] == 0xAB)
            && r.timestamp == m.timestamp
            && (!ok ==> r == m || r == m.(header := r.header))
            && (ok ==>
                  && HeaderReads(r.header, s)
                  && r.controllerType == s[8] && r.major == s[9] && r.minor == s[10] && r.patch == s[11]
                  && (forall i :: 0 <= i < 10 ==> r.errorCodes[i] == Word(s, 12 + 2 * i))
                  && (forall i :: 0 <= i < 10 ==> r.errorTimes[i] == DoubleWord(s, 32 + 4 * i))
                  && r.taskStatus == Word(s, 72))
  {
    if |s| >= 74 {
      MagicBytes(s);
    }
  }

  /**
   The controller accepts a command frame exactly when it opens with CD AB, version 1 and type 2,
   whatever its size field says, and reads each field from its place. The header is taken over even
   when the frame is refused; of the command only the type then changes, to 1.
   */
  lemma Val3CommandFormat(fp: Fp, h: MessageHeader, c: Val3Command, data: RxBuffer)
    requires h.headerSize == 8
    ensures var (r, d, error) := DecodeRobotCommandMsg(fp, h, c, data);
            && (!error <==> data[0] == 0xCD && data[1] == 0xAB && data[2] == 1 && data[3] == 2)
            && r == MessageHeader(8, Word(data, 0), data[2], data[3], Word(data, 4), Word(data, 6))
            && (error ==> d == c.(motionType := 1))
            && (!error ==>
                  && d.isValid && d.motionType == data[12]
                  && SinglesRead(fp, d.motionData, data, 13) && SinglesRead(fp, d.analogOutputs, data, 39))
  {
    MagicBytes(data);
  }

  /**
   Exactly when the controller's encoder fails, and then it leaves the array alone; otherwise the force
   values go where the C++ side reads them, and the last 30 bytes stay as they were.
   */
  lemma Val3StateFormat(fp: Fp, msg: StateMsg, data: TxBuffer)
    requires msg.header.headerSize == 8
    ensures var (frame, error) := EncodeRobotStateMsg(fp, msg, data);
            && (error <==>
                  !msg.initialized || msg.header.msgType != 1 || msg.header.payloadSize != 124 || msg.header.sequence < 0)
            && (error ==> frame == data)
            && (!error ==>
                  && FloatsAt(fp, frame, 90, 3) == Narrowed(fp, msg.state.joints.ftSensor[..3])
                  && frame[102..] == data[102..])
  {
    var (frame, error) := EncodeRobotStateMsg(fp, msg, data);
    if !error {
      assert frame[..102] == Val3StateBytes(fp, msg.header, msg.state);
      var front := Val3Head(msg.header, msg.state) + EncodeFloats(fp, msg.state.joints.positions) +
                   EncodeFloats(fp, msg.state.joints.velocities) + EncodeFloats(fp, msg.state.joints.torques);
      Peel(front, EncodeFloats(fp, msg.state.joints.ftSensor[..3]), frame);
      FloatsRoundTrip(fp, msg.state.joints.ftSensor[..3], frame, 90);
    }
  }
}
