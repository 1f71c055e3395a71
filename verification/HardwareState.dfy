/**
 The hardware interface as a value: the driver it owns, the control mode and its two-step switch,
 and the joint vectors the controllers read and write.
 */
module HardwareState {
  import opened Wire
  import opened Messages
  import opened DriverState

  // ----- units -----

  const PI := 3.141592653589793

  /** Multiplication by a positive factor, exact on finite values. */
  function Scale(d: Double, factor: real): Double {
    match d
    case Finite(v) => Finite(v * factor)
    case NaN(_) => d
    case Inf(_) => d
    case NegZero => d
  }

  function RadToDeg(d: Double): Double {
    Scale(d, 180.0 / PI)
  }

  function DegToRad(d: Double): Double {
    Scale(d, PI / 180.0)
  }

  lemma DegreesRoundTrip(d: Double)
    ensures RadToDeg(DegToRad(d)) == d
  {
  }

  /** Half a turn is 180 degrees; infinities and NaN stay what they are. */
  lemma HalfTurn()
    ensures RadToDeg(Finite(PI)) == Finite(180.0) && DegToRad(Finite(180.0)) == Finite(PI)
    ensures 3.14159265 < PI < 3.14159266
  {
  }

  lemma SpecialValuesStay(d: Double)
    requires !d.Finite?
    ensures RadToDeg(d) == d && DegToRad(d) == d
  {
  }

  // ----- state -----

  datatype Hardware = Hardware(
    driver: Driver, mode: byte, pending: byte, prepared: bool, state: RobotState,
    positions: seq<Double>, velocities: seq<Double>, efforts: seq<Double>,
    positionCmds: seq<Double>, velocityCmds: seq<Double>, accelerationCmds: seq<Double>,
    digitalInputs: seq<Double>, analogInputs: seq<Double>, digitalCmds: seq<Double>, analogCmds: seq<Double>)

  /** All joint vectors have one entry per joint. */
  predicate Sized(h: Hardware) {
    var n := |h.positions|;
    && |h.velocities| == |h.efforts| == |h.positionCmds| == |h.velocityCmds| == |h.accelerationCmds| == n
    && Consistent(h.driver)
  }

  function Repeat(d: Double, n: nat): (s: seq<Double>)
    ensures |s| == n && forall i :: 0 <= i < n ==> s[i] == d
  {
    seq(n, _ => d)
  }

  /** The interface as initialised for a number of joints and of inputs and outputs. */
  function Initial(joints: nat, digitalIn: nat, analogIn: nat, digitalOut: nat, analogOut: nat): (h: Hardware)
    ensures Sized(h)
  {
    Hardware(NEW_DRIVER, CMD_STOP, CMD_STOP, false, FRESH_STATE,
             Repeat(ZERO, joints), Repeat(ZERO, joints), Repeat(ZERO, joints),
             Repeat(NaN(0), joints), Repeat(NaN(0), joints), Repeat(NaN(0), joints),
             Repeat(ZERO, digitalIn), Repeat(ZERO, analogIn), Repeat(ZERO, digitalOut), Repeat(ZERO, analogOut))
  }

  /** Before anything is read the interface commands nothing: it is in STOP, nothing is prepared, and every command is a NaN. */
  lemma StartsWithoutCommands(joints: nat, digitalIn: nat, analogIn: nat, digitalOut: nat, analogOut: nat)
    ensures var h := Initial(joints, digitalIn, analogIn, digitalOut, analogOut);
            && h.mode == 1 && !h.prepared && !IsConnected(h.driver) && |h.positions| == joints
            && (forall i :: 0 <= i < joints ==> h.positionCmds[i].NaN? && h.velocityCmds[i].NaN? && h.accelerationCmds[i].NaN?)
            && (forall i :: 0 <= i < joints ==> h.positions[i] == h.velocities[i] == h.efforts[i] == ZERO)
  {
  }

  // ----- reading -----

  /** The first entries replaced by `f` of the message's array, as far as both reach. */
  function Overlay(old_: seq<Double>, values: seq<Double>, f: Double -> Double): (s: seq<Double>)
    ensures |s| == |old_|
    ensures forall i :: 0 <= i < |old_| ==> s[i] == if i < |values| then f(values[i]) else old_[i]
  {
    seq(|old_|, i requires 0 <= i < |old_| => if i < |values| then f(values[i]) else old_[i])
  }

  function BitValues(bits: seq<bool>): (s: seq<Double>)
    ensures |s| == |bits|
    ensures forall i :: 0 <= i < |bits| ==> s[i] == if bits[i] then Finite(1.0) else ZERO
  {
    seq(|bits|, i requires 0 <= i < |bits| => if bits[i] then Finite(1.0) else ZERO)
  }

  function Same(d: Double): Double {
    d
  }

  /** Missing positions or velocities stop the update where they are noticed. */
  function UpdateFrom(h: Hardware, m: RobotState): (r: (Hardware, bool))
    requires Sized(h)
    ensures Sized(r.0)
  {
    if !m.has.positions then (h, false)
    else
      var h1 := h.(positions := Overlay(h.positions, m.jointPositions, DegToRad));
      if !m.has.velocities then (h1, false)
      else
        (h1.(velocities := Overlay(h.velocities, m.jointVelocities, DegToRad),
             efforts := if m.has.torques then Overlay(h.efforts, m.jointTorques, Same) else Repeat(ZERO, |h.efforts|),
             digitalInputs := if m.has.digitalInputs then Overlay(h.digitalInputs, BitValues(m.digitalInputs), Same)
                              else h.digitalInputs,
             analogInputs := if m.has.analogInputs then Overlay(h.analogInputs, m.analogInputs, Same) else h.analogInputs),
         true)
  }

  function Read(h: Hardware, contended: bool, now: nat): (r: (Hardware, bool))
    requires Sized(h)
    ensures Sized(r.0)
  {
    if !IsConnected(h.driver) then (h, false)
    else
      var (driver, state) := ReadRobotState(h.driver, contended, now);
      if state.None? then (h.(driver := driver), false)
      else UpdateFrom(h.(driver := driver, state := state.value), state.value)
  }

  // ----- writing -----

  function CommandOf(h: Hardware, period: Double): RobotCommand
  {
    FRESH_COMMAND.(
      header := FRESH_COMMAND.header.(sequence := h.driver.lastValid),
      controllerPeriod := period,
      commandType := h.mode,
      reference := if h.mode == CMD_JOINT_POSITION then Overlay(ZERO6, h.positionCmds, RadToDeg)
                   else if h.mode == CMD_JOINT_VELOCITY then Overlay(ZERO6, h.velocityCmds, RadToDeg)
                   else ZERO6,
      digitalOutputs := OutputBits(h.digitalCmds),
      analogOutputs := Overlay(ZERO4, h.analogCmds, Same))
  }

  predicate Above(d: Double, limit: real) {
    (d.Finite? && d.value > limit) || (d.Inf? && !d.negative)
  }

  function OutputBits(commands: seq<Double>): (bits: Bits16)
    ensures forall i :: 0 <= i < 16 ==> (bits[i] <==> i < |commands| && Above(commands[i], 0.5))
  {
    seq(16, i requires 0 <= i < 16 => i < |commands| && Above(commands[i], 0.5))
  }

  predicate HasNaN(reference: Vec6, joints: nat)
    requires joints <= 6
  {
    exists i :: 0 <= i < joints && reference[i].NaN?
  }

  /** The command handed to the socket, what became of it, and the value returned. */
  datatype Written = Written(command: Option<RobotCommand>, sent: Sent, ok: bool)

  /** The command of the mode, unless there is none for it or its references hold a NaN. */
  function WriteCommand(fp: Fp, h: Hardware, period: Double, result: SendResult): (w: Written)
    requires Sized(h) && |h.positions| <= 6
    ensures w.sent.frame.Some? ==> w.command.Some?
  {
    if h.mode != CMD_STOP && h.mode != CMD_JOINT_POSITION && h.mode != CMD_JOINT_VELOCITY
    then Written(None, Sent(None, false), false)
    else
      var command := CommandOf(h, period);
      if HasNaN(command.reference, |h.positions|)
      then Written(Some(StopCommand(h.driver)), SendStopAll(fp, h.driver, result), false)
      else
        var sent := SendRobotCommand(fp, h.driver, command, result);
        Written(Some(command), sent, sent.ok)
  }

  predicate ShowsFault(h: Hardware) {
    h.mode != CMD_STOP && (h.state.status.errorState || h.state.controlState == CMD_INVALID)
  }

  /** More than six joints would make the NaN test read past the six references. */
  function Write(fp: Fp, h: Hardware, period: Double, result: SendResult): (w: Written)
    requires Sized(h) && |h.positions| <= 6
    ensures w.sent.frame.Some? ==> w.command.Some?
  {
    if !IsConnected(h.driver) then Written(None, Sent(None, false), false)
    else if ShowsFault(h) then Written(Some(StopCommand(h.driver)), SendStopAll(fp, h.driver, result), false)
    else WriteCommand(fp, h, period, result)
  }

  // ----- mode switching -----

  predicate FoundAt(s: string, word: string, k: nat) {
    k + |word| <= |s| && s[k..k + |word|] == word
  }

  predicate Mentions(s: string, word: string) {
    exists k: nat :: k <= |s| && FoundAt(s, word, k)
  }

  /** The mode an interface name stands for, if any. */
  function KindOf(name: string): Option<byte> {
    if Mentions(name, "position") then Some(CMD_JOINT_POSITION)
    else if Mentions(name, "velocity") then Some(CMD_JOINT_VELOCITY)
    else if Mentions(name, "effort") then Some(CMD_JOINT_TORQUE)
    else if Mentions(name, "acceleration") then Some(CMD_INVALID)
    else None
  }

  /** The first interface that stands for a mode decides; none at all means STOP. */
  function ResolveMode(start: seq<string>): byte {
    if start == [] then CMD_STOP
    else if KindOf(start[0]).Some? then KindOf(start[0]).value
    else ResolveMode(start[1..])
  }

  predicate Accepted(start: seq<string>) {
    ResolveMode(start) in {CMD_STOP, CMD_JOINT_POSITION, CMD_INVALID}
  }

  function Prepare(h: Hardware, start: seq<string>): (r: (Hardware, bool))
    requires Sized(h)
    ensures Sized(r.0)
  {
    if !Accepted(start) then (h.(prepared := false), false)
    else
      var mode := ResolveMode(start);
      (h.(pending := if mode == CMD_INVALID then CMD_STOP else mode, prepared := true), true)
  }

  predicate MotionAllowed(m: RobotState) {
    !m.status.errorState && m.status.motionPossible
  }

  function Perform(h: Hardware): (r: (Hardware, bool))
    requires Sized(h)
    ensures Sized(r.0)
  {
    var mode := if h.prepared then h.pending else CMD_STOP;
    var h1 := h.(prepared := false);
    if mode == CMD_JOINT_POSITION && !MotionAllowed(h.state) then (h1.(mode := CMD_STOP), false)
    else (h1.(positionCmds := h.positions, velocityCmds := Repeat(ZERO, |h.velocityCmds|),
              accelerationCmds := Repeat(ZERO, |h.accelerationCmds|), mode := mode), true)
  }

  // ----- calls -----

  datatype Call =
    | Configure(env: Attachment)
    | Datagram(bytes: seq<byte>, now: nat)
    | ReadCall(contended: bool, now: nat)
    | WriteCall(period: Double, result: SendResult)
    | PrepareCall(start: seq<string>)
    | PerformCall
    | SetCommands(positionCmds: seq<Double>, velocityCmds: seq<Double>, accelerationCmds: seq<Double>,
                  digitalCmds: seq<Double>, analogCmds: seq<Double>)
    | Activate
    | Cleanup
    | OnError(result: SendResult)

  /** Controllers can write every entry of the command vectors but not change their number. */
  predicate Fits(h: Hardware, c: Call) {
    c.SetCommands? ==>
      && |c.positionCmds| == |h.positionCmds| && |c.velocityCmds| == |h.velocityCmds|
      && |c.accelerationCmds| == |h.accelerationCmds|
      && |c.digitalCmds| == |h.digitalCmds| && |c.analogCmds| == |h.analogCmds|
  }

  /** A call that does not fit cannot be made; it is read here as changing nothing. */
  function After(fp: Fp, h: Hardware, c: Call): (r: Hardware)
    requires Sized(h)
    ensures Sized(r)
  {
    match c
    case Configure(env) => h.(driver := Connect(fp, h.driver, env).0)
    case Datagram(bytes, now) => h.(driver := OnDatagram(fp, h.driver, bytes, now))
    case ReadCall(contended, now) => Read(h, contended, now).0
    case WriteCall(_, _) => h
    case PrepareCall(start) => Prepare(h, start).0
    case PerformCall => Perform(h).0
    case SetCommands(p, v, a, d, n) =>
      if Fits(h, c) then h.(positionCmds := p, velocityCmds := v, accelerationCmds := a, digitalCmds := d, analogCmds := n)
      else h
    case Activate => h.(mode := CMD_STOP)
    case Cleanup => h.(driver := Disconnect(h.driver))
    case OnError(_) => h
  }

  function HardwareAt(fp: Fp, h: Hardware, calls: seq<Call>, i: nat): (r: Hardware)
    requires Sized(h) && i <= |calls|
    ensures Sized(r)
  {
    if i == 0 then h else After(fp, HardwareAt(fp, h, calls, i - 1), calls[i - 1])
  }

  // ----- which mode the names resolve to -----

  lemma {:induction false} FirstMentionDecides(start: seq<string>, i: nat)
    requires i < |start| && KindOf(start[i]).Some? && forall j :: 0 <= j < i ==> KindOf(start[j]).None?
    ensures ResolveMode(start) == KindOf(start[i]).value
  {
    hide KindOf;
    if i > 0 {
      FirstMentionDecides(start[1..], i - 1);
    }
  }

  lemma {:induction false} NoMentionStops(start: seq<string>)
    requires forall j :: 0 <= j < |start| ==> KindOf(start[j]).None?
    ensures ResolveMode(start) == CMD_STOP
  {
    hide KindOf;
    if start != [] {
      NoMentionStops(start[1..]);
    }
  }

  predicate OnlyAcceleration(name: string) {
    && !Mentions(name, "position") && !Mentions(name, "velocity") && !Mentions(name, "effort")
    && Mentions(name, "acceleration")
  }

  /**
   INVALID is resolved exactly when the first name that means anything is an acceleration one; the
   names after it do not matter, so the remark that INVALID means acceleration only is not what the
   code does.
   */
  lemma {:induction false} InvalidExactly(start: seq<string>)
    ensures ResolveMode(start) == CMD_INVALID <==>
            exists i :: 0 <= i < |start| && OnlyAcceleration(start[i]) && forall j :: 0 <= j < i ==> KindOf(start[j]).None?
  {
    if start != [] {
      InvalidExactly(start[1..]);
      var rest := start[1..];
      if KindOf(start[0]).Some? {
        if ResolveMode(start) == CMD_INVALID {
          assert OnlyAcceleration(start[0]);
        }
      } else {
        if ResolveMode(rest) == CMD_INVALID {
          var i :| 0 <= i < |rest| && OnlyAcceleration(rest[i]) && forall j :: 0 <= j < i ==> KindOf(rest[j]).None?;
          assert OnlyAcceleration(start[i + 1]);
          assert forall j :: 0 <= j < i + 1 ==> KindOf(start[j]).None? by {
            forall j | 0 <= j < i + 1
              ensures KindOf(start[j]).None?
            {
              if j > 0 {
                assert KindOf(rest[j - 1]).None?;
              }
            }
          }
        }
        if i :| 0 <= i < |start| && OnlyAcceleration(start[i]) && forall j :: 0 <= j < i ==> KindOf(start[j]).None? {
          assert i > 0;
          assert OnlyAcceleration(rest[i - 1]);
          assert forall j :: 0 <= j < i - 1 ==> KindOf(rest[j]).None?;
        }
      }
    }
  }

  /** Finding a word in a text means that the text is the word with something before and something after it. */
  lemma MentionsIsInfix(s: string, word: string)
    ensures Mentions(s, word) <==> exists before: string, after: string :: s == before + word + after
  {
    if Mentions(s, word) {
      var k: nat :| k <= |s| && FoundAt(s, word, k);
      assert s == s[..k] + word + s[k + |word|..];
    }
    if before: string, after: string :| s == before + word + after {
      assert s[|before|..|before| + |word|] == word;
      assert FoundAt(s, word, |before|);
    }
  }

  predicate Meaningful(name: string) {
    Mentions(name, "position") || Mentions(name, "velocity") || Mentions(name, "effort") || Mentions(name, "acceleration")
  }

  /** The first name that mentions any of the four words. */
  predicate FirstMeaningful(start: seq<string>, i: nat) {
    i < |start| && Meaningful(start[i]) && forall j :: 0 <= j < i ==> !Meaningful(start[j])
  }

  predicate NamesPosition(name: string) {
    Mentions(name, "position")
  }

  predicate NamesVelocity(name: string) {
    Mentions(name, "velocity") && !Mentions(name, "position")
  }

  predicate NamesEffort(name: string) {
    Mentions(name, "effort") && !Mentions(name, "position") && !Mentions(name, "velocity")
  }

  /** What the mode of a name is, by its text. */
  lemma KindExactly(name: string)
    ensures KindOf(name) ==
            if NamesPosition(name) then Some(2) else if NamesVelocity(name) then Some(3) else if NamesEffort(name) then Some(4)
            else if OnlyAcceleration(name) then Some(0) else None
    ensures KindOf(name).Some? <==> Meaningful(name)
  {
    hide Mentions;
  }

  /** There is at most one first meaningful name; without it there is none at all. */
  lemma {:induction false} FirstExists(start: seq<string>)
    ensures (exists i: nat :: FirstMeaningful(start, i)) || forall j :: 0 <= j < |start| ==> !Meaningful(start[j])
  {
    hide Meaningful;
    if start != [] {
      var n := |start| - 1;
      FirstExists(start[..n]);
      if i: nat :| FirstMeaningful(start[..n], i) {
        assert FirstMeaningful(start, i);
      } else if Meaningful(start[n]) {
        assert forall j :: 0 <= j < n ==> !Meaningful(start[j]) by {
          assert forall j :: 0 <= j < n ==> start[j] == start[..n][j];
        }
        assert FirstMeaningful(start, n);
      }
    }
  }

  lemma FirstUnique(start: seq<string>, i: nat, j: nat)
    requires FirstMeaningful(start, i) && FirstMeaningful(start, j)
    ensures i == j
  {
    hide Meaningful;
  }

  /** The mode a first meaningful name decides. */
  lemma FirstResolves(start: seq<string>, i: nat)
    requires FirstMeaningful(start, i)
    ensures ResolveMode(start) ==
            if NamesPosition(start[i]) then 2 else if NamesVelocity(start[i]) then 3 else if NamesEffort(start[i]) then 4 else 0
  {
    forall j | 0 <= j <= i
      ensures KindOf(start[j]).Some? <==> Meaningful(start[j])
    {
      KindExactly(start[j]);
    }
    KindExactly(start[i]);
    hide KindOf, Meaningful, NamesPosition, NamesVelocity, NamesEffort, OnlyAcceleration;
    FirstMentionDecides(start, i);
  }

  lemma NoneResolves(start: seq<string>)
    requires forall j :: 0 <= j < |start| ==> !Meaningful(start[j])
    ensures ResolveMode(start) == 1
  {
    forall j | 0 <= j < |start|
      ensures KindOf(start[j]).None?
    {
      KindExactly(start[j]);
    }
    hide KindOf, Meaningful;
    NoMentionStops(start);
  }

  /**
   Which mode a list of interface names resolves to, by the text of the first name that mentions any of
   the four words: position if it mentions that; velocity or effort if it mentions that and none of the
   words before; no name with any of them means STOP.
   */
  lemma ResolvesExactly(start: seq<string>)
    ensures ResolveMode(start) == 2 <==> exists i: nat :: FirstMeaningful(start, i) && NamesPosition(start[i])
    ensures ResolveMode(start) == 3 <==> exists i: nat :: FirstMeaningful(start, i) && NamesVelocity(start[i])
    ensures ResolveMode(start) == 4 <==> exists i: nat :: FirstMeaningful(start, i) && NamesEffort(start[i])
    ensures ResolveMode(start) == 1 <==> forall j :: 0 <= j < |start| ==> !Meaningful(start[j])
  {
    FirstExists(start);
    if i: nat :| FirstMeaningful(start, i) {
      FirstResolves(start, i);
      forall j: nat | FirstMeaningful(start, j)
        ensures j == i
      {
        FirstUnique(start, i, j);
      }
      hide Mentions, ResolveMode;
    } else {
      NoneResolves(start);
      hide Mentions, ResolveMode;
    }
  }

  /**
   Exactly when a prepare is accepted: the first name that mentions any of the four words, if there is
   one, is not of velocity and not of effort. An accepted one caches position mode if that name is of
   position and STOP otherwise; a rejected one only drops what was cached.
   */
  lemma PreparesExactly(h: Hardware, start: seq<string>)
    requires Sized(h)
    ensures var (r, ok) := Prepare(h, start);
            var position := exists i: nat :: FirstMeaningful(start, i) && NamesPosition(start[i]);
            && (!ok <==> exists i: nat :: FirstMeaningful(start, i) && (NamesVelocity(start[i]) || NamesEffort(start[i])))
            && r == (if ok then h.(prepared := true, pending := if position then 2 else 1) else h.(prepared := false))
  {
    ResolvesExactly(start);
    ResolvesKnown(start);
    hide ResolveMode, FirstMeaningful, NamesPosition, NamesVelocity, NamesEffort;
    if i: nat :| i < |start| && FirstMeaningful(start, i) && (NamesVelocity(start[i]) || NamesEffort(start[i])) {
      assert ResolveMode(start) == 3 || ResolveMode(start) == 4;
    }
  }

  lemma {:induction false} ResolvesKnown(start: seq<string>)
    ensures 0 <= ResolveMode(start) <= 4
  {
    if start != [] {
      ResolvesKnown(start[1..]);
    }
    hide Mentions;
  }

  /** A velocity interface is rejected, and nothing is switched by the perform that follows. */
  lemma VelocityIsRejected(h: Hardware)
    requires Sized(h)
    ensures var (r, ok) := Prepare(h, ["j1/velocity"]);
            !ok && Perform(r).0.mode == CMD_STOP
  {
    var name := "j1/velocity";
    assert FoundAt(name, "velocity", 3);
    NotIn(name, "position", 'p', 0);
    assert NamesVelocity(name);
    assert FirstMeaningful(["j1/velocity"], 0);
    assert NamesVelocity(["j1/velocity"][0]);
    hide Mentions;
    PreparesExactly(h, ["j1/velocity"]);
  }

  /** An acceleration interface ahead of a position interface makes an accepted switch to STOP. */
  lemma AccelerationFirst(h: Hardware)
    requires Sized(h)
    ensures var start := ["j1/acceleration", "j1/position"];
            var (p, ok) := Prepare(h, start);
            ok && Perform(p).0.mode == CMD_STOP
  {
    var name := "j1/acceleration";
    var start := [name, "j1/position"];
    assert FoundAt(name, "acceleration", 3);
    NotIn(name, "position", 'p', 0);
    NotIn(name, "velocity", 'v', 0);
    NotIn(name, "effort", 'f', 1);
    assert KindOf(start[0]) == Some(CMD_INVALID);
  }

  /** A word with a letter the text does not have is not in the text. */
  lemma NotIn(s: string, word: string, letter: char, at: nat)
    requires at < |word| && word[at] == letter && letter !in s
    ensures !Mentions(s, word)
  {
    forall k: nat | k + |word| <= |s|
      ensures !FoundAt(s, word, k)
    {
      assert s[k..k + |word|][at] == s[k + at];
    }
  }

  // ----- mode-switch safety -----

  lemma {:induction false} ModeStaysKnown(fp: Fp, h: Hardware, calls: seq<Call>, i: nat)
    requires Sized(h) && i <= |calls| && h.mode == CMD_STOP && !h.prepared
    ensures HardwareAt(fp, h, calls, i).mode in {CMD_STOP, CMD_JOINT_POSITION}
    ensures HardwareAt(fp, h, calls, i).prepared ==> HardwareAt(fp, h, calls, i).pending in {CMD_STOP, CMD_JOINT_POSITION}
  {
    if i > 0 {
      ModeStaysKnown(fp, h, calls, i - 1);
      CallEffects(fp, HardwareAt(fp, h, calls, i - 1), calls[i - 1]);
      hide After, Accepted, ResolveMode;
    }
  }

  /** What each call can do to the mode and to a prepared switch. */
  lemma CallEffects(fp: Fp, h: Hardware, c: Call)
    requires Sized(h)
    ensures var r := After(fp, h, c);
            && (c.PrepareCall? ==>
                  && r.mode == h.mode && r.prepared == Accepted(c.start)
                  && (r.prepared ==>
                        r.pending == if ResolveMode(c.start) == CMD_JOINT_POSITION then CMD_JOINT_POSITION else CMD_STOP))
            && (c.PerformCall? ==>
                  && !r.prepared
                  && r.mode == (if h.prepared && (h.pending != CMD_JOINT_POSITION || MotionAllowed(h.state))
                                then h.pending else CMD_STOP)
                  && r.state == h.state)
            && (c.Activate? ==> r.mode == CMD_STOP && r.prepared == h.prepared && r.pending == h.pending)
            && (!c.PrepareCall? && !c.PerformCall? && !c.Activate? ==>
                  r.mode == h.mode && r.prepared == h.prepared && r.pending == h.pending)
  {
    hide ResolveMode, Connect, OnDatagram, ReadRobotState;
  }

  /** Commands change in two ways only: a controller writes them, each to its own vector, or a perform sets them. */
  lemma CommandsChangeBy(fp: Fp, h: Hardware, c: Call)
    requires Sized(h) && !c.PerformCall?
    ensures var r := After(fp, h, c);
            if c.SetCommands? && Fits(h, c) then
              && r.positionCmds == c.positionCmds && r.velocityCmds == c.velocityCmds
              && r.accelerationCmds == c.accelerationCmds
              && r.digitalCmds == c.digitalCmds && r.analogCmds == c.analogCmds
            else
              && r.positionCmds == h.positionCmds && r.velocityCmds == h.velocityCmds
              && r.accelerationCmds == h.accelerationCmds
              && r.digitalCmds == h.digitalCmds && r.analogCmds == h.analogCmds
  {
    hide Connect, OnDatagram, ReadRobotState, ResolveMode, Overlay;
  }

  predicate SwitchCall(c: Call) {
    c.PrepareCall? || c.PerformCall?
  }

  /** A prepared switch goes back to one accepted prepare with no prepare or perform since. */
  lemma {:induction false} PreparedBy(fp: Fp, h: Hardware, calls: seq<Call>, i: nat) returns (p: nat)
    requires Sized(h) && i <= |calls| && !h.prepared && HardwareAt(fp, h, calls, i).prepared
    ensures p < i && calls[p].PrepareCall? && Accepted(calls[p].start)
    ensures HardwareAt(fp, h, calls, i).pending ==
            if ResolveMode(calls[p].start) == CMD_JOINT_POSITION then CMD_JOINT_POSITION else CMD_STOP
    ensures forall k :: p < k < i ==> !SwitchCall(calls[k])
    decreases i
  {
    hide After, Accepted, ResolveMode;
    if i == 0 {
      assert false;
    }
    CallEffects(fp, HardwareAt(fp, h, calls, i - 1), calls[i - 1]);
    if calls[i - 1].PrepareCall? {
      p := i - 1;
    } else {
      p := PreparedBy(fp, h, calls, i - 1);
    }
  }

  /** Position mode goes back to one perform with nothing since that could change the mode. */
  lemma {:induction false} PerformedBy(fp: Fp, h: Hardware, calls: seq<Call>, i: nat) returns (q: nat)
    requires Sized(h) && i <= |calls| && h.mode == CMD_STOP && HardwareAt(fp, h, calls, i).mode == CMD_JOINT_POSITION
    ensures q < i && calls[q].PerformCall?
    ensures HardwareAt(fp, h, calls, q).prepared && HardwareAt(fp, h, calls, q).pending == CMD_JOINT_POSITION
    ensures MotionAllowed(HardwareAt(fp, h, calls, q).state)
    ensures forall k :: q < k < i ==> !calls[k].PerformCall? && !calls[k].Activate?
    decreases i
  {
    hide After, Accepted, ResolveMode;
    if i == 0 {
      assert false;
    }
    CallEffects(fp, HardwareAt(fp, h, calls, i - 1), calls[i - 1]);
    if calls[i - 1].PerformCall? {
      q := i - 1;
    } else {
      q := PerformedBy(fp, h, calls, i - 1);
    }
  }

  /**
   Over any sequence of calls, position mode is only ever the result of a perform that consumed one
   accepted, not yet consumed prepare of a position interface, while the last state read allowed
   motion and showed no error; and no perform or activation has come since.
   */
  lemma PositionModeIsEarned(fp: Fp, h: Hardware, calls: seq<Call>, i: nat)
    requires Sized(h) && i <= |calls| && h.mode == CMD_STOP && !h.prepared
    requires HardwareAt(fp, h, calls, i).mode == CMD_JOINT_POSITION
    ensures exists p, q :: 0 <= p < q < i
              && calls[p].PrepareCall? && ResolveMode(calls[p].start) == CMD_JOINT_POSITION
              && calls[q].PerformCall?
              && HardwareAt(fp, h, calls, q).state.status.motionPossible && !HardwareAt(fp, h, calls, q).state.status.errorState
              && (forall k :: p < k < q ==> !SwitchCall(calls[k]))
              && (forall k :: q < k < i ==> !calls[k].PerformCall? && !calls[k].Activate?)
  {
    hide HardwareAt, ResolveMode;
    var q := PerformedBy(fp, h, calls, i);
    var p := PreparedBy(fp, h, calls, q);
  }

  /** Without an accepted prepare since the last perform, a perform ends in STOP. */
  lemma UnpreparedStops(h: Hardware, start: seq<string>)
    requires Sized(h)
    ensures !h.prepared ==> Perform(h).0.mode == CMD_STOP && Perform(h).1
    ensures !Prepare(h, start).1 ==> !Prepare(h, start).0.prepared
    ensures !Perform(h).0.prepared
  {
    hide ResolveMode;
  }

  /**
   Exactly when a perform fails: a prepared position mode meets a stored state that forbids motion.
   It then leaves every command alone; otherwise positions are commanded as measured, velocities and
   accelerations as zero.
   */
  lemma PerformExactly(h: Hardware)
    requires Sized(h)
    ensures var (r, ok) := Perform(h);
            && (!ok <==> h.prepared && h.pending == 2 && (h.state.status.errorState || !h.state.status.motionPossible))
            && (!ok ==> r == h.(prepared := false, mode := CMD_STOP))
            && (ok ==>
                  && r.mode == (if h.prepared then h.pending else 1) && !r.prepared
                  && r.positionCmds == h.positions
                  && |r.velocityCmds| == |r.accelerationCmds| == |h.positions|
                  && forall i :: 0 <= i < |h.positions| ==> r.velocityCmds[i] == ZERO && r.accelerationCmds[i] == ZERO)
  {
  }

  // ----- what a write can send -----

  /** What was handed to the socket is what reaches the network, if anything does. */
  lemma SentAsGiven(fp: Fp, h: Hardware, period: Double, result: SendResult)
    requires Sized(h) && |h.positions| <= 6
    ensures var w := Write(fp, h, period, result);
            && (w.sent.frame.Some? ==> w.command.Some? && w.sent.frame.value == CommandBytes(fp, w.command.value)
                                       && CommandHeaderOk(w.command.value.header)
                                       && w.command.value.header.magic == MAGIC_NUMBER
                                       && w.command.value.header.version == PROTOCOL_VERSION
                                       && IsConnected(h.driver))
            && (w.command.Some? ==> w.command.value.header.sequence == h.driver.lastValid)
  {
    hide CommandBytes, HasNaN, OutputBits, Overlay;
  }

  /**
   Fault handshake, driver side: in position mode a state that shows error or INVALID makes the write
   send a stop command carrying the last valid number, and fail.
   */
  lemma FaultStopsWrite(fp: Fp, h: Hardware, period: Double, result: SendResult)
    requires Sized(h) && |h.positions| <= 6 && IsConnected(h.driver) && h.mode == CMD_JOINT_POSITION
    requires h.state.status.errorState || h.state.controlState == CMD_INVALID
    ensures var w := Write(fp, h, period, result);
            && !w.ok && w.command == Some(StopCommand(h.driver)) && w.command.value.commandType == CMD_STOP
            && w.command.value.reference == ZERO6
            && (result == Delivered ==> w.sent.frame == Some(CommandBytes(fp, StopCommand(h.driver))))
  {
    hide CommandBytes;
  }

  /**
   A position command leaves only in position mode with no fault stored. It holds the commanded
   joints in degrees, zeros for the others and no NaN, and the output commands as they are.
   */
  lemma PositionCommandsAreSound(fp: Fp, h: Hardware, period: Double, result: SendResult)
    requires Sized(h) && |h.positions| <= 6
    ensures var w := Write(fp, h, period, result);
            w.command.Some? && w.command.value.commandType == CMD_JOINT_POSITION ==>
              && h.mode == CMD_JOINT_POSITION
              && !h.state.status.errorState && h.state.controlState != CMD_INVALID
              && w.command.value.controllerPeriod == period
              && (forall i :: 0 <= i < 6 ==>
                   w.command.value.reference[i] == (if i < |h.positions| then RadToDeg(h.positionCmds[i]) else ZERO)
                   && !w.command.value.reference[i].NaN?)
              && (forall i :: 0 <= i < 16 ==>
                   (w.command.value.digitalOutputs[i] <==> i < |h.digitalCmds| && Above(h.digitalCmds[i], 0.5)))
              && (forall i :: 0 <= i < 4 ==>
                   w.command.value.analogOutputs[i] == if i < |h.analogCmds| then h.analogCmds[i] else ZERO)
  {
    hide CommandBytes, Above;
  }

  /** A number above one half, or plus infinity; never a NaN. */
  predicate SwitchesOn(d: Double) {
    match d
    case Finite(v) => v > 0.5
    case Inf(negative) => !negative
    case NaN(_) => false
    case NegZero => false
  }

  /** The command of a mode, field by field. */
  lemma CommandExactly(h: Hardware, period: Double)
    requires Sized(h) && |h.positions| <= 6 && h.mode in {CMD_STOP, CMD_JOINT_POSITION}
    ensures var c := CommandOf(h, period);
            && c.header == FrameHeader(0xABCD, 1, 2, h.driver.lastValid, 47)
            && c.commandType == h.mode && c.controllerPeriod == period
            && (forall i :: 0 <= i < 6 ==>
                 c.reference[i] == if h.mode == 2 && i < |h.positions| then RadToDeg(h.positionCmds[i]) else ZERO)
            && (forall i :: 0 <= i < 16 ==> (c.digitalOutputs[i] <==> i < |h.digitalCmds| && SwitchesOn(h.digitalCmds[i])))
            && (forall i :: 0 <= i < 4 ==> c.analogOutputs[i] == if i < |h.analogCmds| then h.analogCmds[i] else ZERO)
  {
  }

  /** What makes a write in position mode send a stop: a fault in the state stored, or a NaN commanded. */
  ghost predicate Blocked(h: Hardware) {
    h.mode == 2 &&
    (h.state.status.errorState || h.state.controlState == 0 || exists i :: 0 <= i < |h.positionCmds| && h.positionCmds[i].NaN?)
  }

  /**
   What a write of a connected driver does, exactly, in either mode: it is OK when nothing blocks it and
   the socket does not refuse; it hands over the command of the mode, or a stop when blocked; and that
   is what goes out, if the socket delivers it. Without a connection nothing goes out and it fails.
   */
  lemma WriteExactly(fp: Fp, h: Hardware, period: Double, result: SendResult)
    requires Sized(h) && |h.positions| <= 6 && h.mode in {CMD_STOP, CMD_JOINT_POSITION}
    ensures var w := Write(fp, h, period, result);
            var command := if Blocked(h) then StopCommand(h.driver) else CommandOf(h, period);
            if IsConnected(h.driver) then
              && (w.ok <==> !Blocked(h) && result != Refused)
              && w.command == Some(command)
              && w.sent.frame == if result == Delivered then Some(CommandBytes(fp, command)) else None
            else
              !w.ok && w.sent.frame.None?
  {
    hide CommandBytes, CommandOf, StopCommand, SendStopAll, WriteCommand, Consistent;
    if IsConnected(h.driver) {
      NaNsExactly(h, period);
      SendsExactly(fp, h.driver, CommandOf(h, period), result);
      if !ShowsFault(h) {
        SecondHalfExactly(fp, h, period, result);
      }
    }
  }

  lemma SecondHalfExactly(fp: Fp, h: Hardware, period: Double, result: SendResult)
    requires Sized(h) && |h.positions| <= 6 && h.mode in {CMD_STOP, CMD_JOINT_POSITION} && IsConnected(h.driver) && !ShowsFault(h)
    ensures var w := WriteCommand(fp, h, period, result);
            var command := if Blocked(h) then StopCommand(h.driver) else CommandOf(h, period);
            && (w.ok <==> !Blocked(h) && result != Refused)
            && w.command == Some(command)
            && w.sent.frame == if result == Delivered then Some(CommandBytes(fp, command)) else None
  {
    hide CommandBytes, CommandOf, HasNaN, StopCommand, SendStopAll, SendRobotCommand, Consistent;
    NaNsExactly(h, period);
    SendsExactly(fp, h.driver, CommandOf(h, period), result);
  }

  lemma NaNsExactly(h: Hardware, period: Double)
    requires Sized(h) && |h.positions| <= 6 && h.mode in {CMD_STOP, CMD_JOINT_POSITION}
    ensures HasNaN(CommandOf(h, period).reference, |h.positions|) <==>
            h.mode == 2 && exists i :: 0 <= i < |h.positionCmds| && h.positionCmds[i].NaN?
    ensures CommandHeaderOk(CommandOf(h, period).header)
  {
    var reference := CommandOf(h, period).reference;
    hide OutputBits, Above;
    if h.mode == 2 {
      forall i | 0 <= i < |h.positions|
        ensures reference[i].NaN? <==> h.positionCmds[i].NaN?
      {
      }
    }
  }

  /** In the two modes there are, a command that is not a position command is a stop with zero references. */
  lemma StopCommandsAreZero(fp: Fp, h: Hardware, period: Double, result: SendResult)
    requires Sized(h) && |h.positions| <= 6 && h.mode in {CMD_STOP, CMD_JOINT_POSITION}
    ensures var w := Write(fp, h, period, result);
            w.command.Some? && w.command.value.commandType != CMD_JOINT_POSITION ==>
              w.command.value.commandType == CMD_STOP && w.command.value.reference == ZERO6
  {
    hide CommandBytes, HasNaN, OutputBits, Overlay;
  }

  // ----- bumpless start -----

  /** Calls that leave the position commands and the mode alone. */
  predicate Quiet(c: Call) {
    !c.PerformCall? && !c.SetCommands? && !c.Activate?
  }

  lemma QuietKeeps(fp: Fp, h: Hardware, c: Call)
    requires Sized(h) && Quiet(c)
    ensures var r := After(fp, h, c);
            r.positionCmds == h.positionCmds && r.mode == h.mode && |r.positions| == |h.positions|
  {
    hide Connect, OnDatagram, ReadRobotState, ResolveMode, Overlay;
  }

  lemma {:induction false} QuietRun(fp: Fp, h: Hardware, calls: seq<Call>, i: nat)
    requires Sized(h) && i <= |calls| && forall k :: 0 <= k < |calls| ==> Quiet(calls[k])
    ensures var r := HardwareAt(fp, h, calls, i);
            r.positionCmds == h.positionCmds && r.mode == h.mode && |r.positions| == |h.positions|
  {
    hide After, Quiet;
    if i > 0 {
      QuietRun(fp, h, calls, i - 1);
      QuietKeeps(fp, HardwareAt(fp, h, calls, i - 1), calls[i - 1]);
    }
  }

  /** The vectors after a successful read of `m`, entry by entry. */
  ghost predicate Measured(before: Hardware, after: Hardware, m: RobotState)
    requires Sized(before) && Sized(after) && |before.positions| == |after.positions| <= 6
    requires |after.digitalInputs| == |before.digitalInputs| && |after.analogInputs| == |before.analogInputs|
  {
    && (forall i :: 0 <= i < |after.positions| ==>
          && after.positions[i] == DegToRad(m.jointPositions[i])
          && after.velocities[i] == DegToRad(m.jointVelocities[i])
          && after.efforts[i] == if m.has.torques then m.jointTorques[i] else ZERO)
    && (forall i :: 0 <= i < |after.digitalInputs| ==>
          after.digitalInputs[i] ==
            if m.has.digitalInputs && i < 16 then (if m.digitalInputs[i] then Finite(1.0) else ZERO) else before.digitalInputs[i])
    && (forall i :: 0 <= i < |after.analogInputs| ==>
          after.analogInputs[i] == if m.has.analogInputs && i < 4 then m.analogInputs[i] else before.analogInputs[i])
  }

  /**
   A read that succeeds stores the state it returned, its number for echoing, its positions and
   velocities in radians, its torques or zeros, and the inputs it has.
   */
  lemma GoodReadMeasures(h: Hardware, contended: bool, now: nat)
    requires Sized(h) && |h.positions| <= 6 && Read(h, contended, now).1
    ensures var r := Read(h, contended, now).0;
            && |r.positions| == |h.positions|
            && |r.digitalInputs| == |h.digitalInputs| && |r.analogInputs| == |h.analogInputs|
            && r.state.has.positions && r.state.has.velocities
            && r.driver.lastValid == r.state.header.sequence
            && Measured(h, r, r.state)
  {
    ReadStores(h, contended, now);
    hide ReadRobotState, DegToRad;
  }

  /**
   Exactly when a read is OK: the driver is connected and returns a state that has positions and
   velocities; torques and inputs may be missing. A state returned is stored even if it has not.
   */
  lemma ReadExactly(h: Hardware, contended: bool, now: nat)
    requires Sized(h)
    ensures var (r, ok) := Read(h, contended, now);
            var (driver, state) := ReadRobotState(h.driver, contended, now);
            && (ok <==> IsConnected(h.driver) && state.Some? && state.value.has.positions && state.value.has.velocities)
            && r.driver == (if IsConnected(h.driver) then driver else h.driver)
            && r.state == (if IsConnected(h.driver) && state.Some? then state.value else h.state)
            && r.mode == h.mode && r.pending == h.pending && r.prepared == h.prepared
            && r.positionCmds == h.positionCmds && r.velocityCmds == h.velocityCmds && r.accelerationCmds == h.accelerationCmds
            && r.digitalCmds == h.digitalCmds && r.analogCmds == h.analogCmds
            && |r.positions| == |h.positions|
            && (forall i :: 0 <= i < |h.positions| ==>
                  r.positions[i] == if IsConnected(h.driver) && state.Some? && state.value.has.positions && i < 6
                                    then DegToRad(state.value.jointPositions[i]) else h.positions[i])
            && (!ok ==> r.velocities == h.velocities && r.efforts == h.efforts
                        && r.digitalInputs == h.digitalInputs && r.analogInputs == h.analogInputs)
  {
    hide ReadRobotState, BitValues, DegToRad;
  }

  lemma ReadStores(h: Hardware, contended: bool, now: nat)
    requires Sized(h)
    ensures ReadRobotState(h.driver, contended, now).1.Some? ==>
              ReadRobotState(h.driver, contended, now).0.lastValid ==
              ReadRobotState(h.driver, contended, now).1.value.header.sequence
  {
  }

  /** Only a read changes the positions. */
  lemma OnlyReadsMeasure(fp: Fp, h: Hardware, c: Call)
    requires Sized(h) && !c.ReadCall?
    ensures After(fp, h, c).positions == h.positions
  {
    hide Connect, OnDatagram, ResolveMode;
  }

  lemma {:induction false} UnreadRun(fp: Fp, h: Hardware, calls: seq<Call>, i: nat)
    requires Sized(h) && i <= |calls| && forall k :: 0 <= k < |calls| ==> !calls[k].ReadCall?
    ensures HardwareAt(fp, h, calls, i).positions == h.positions
  {
    hide After;
    if i > 0 {
      UnreadRun(fp, h, calls, i - 1);
      OnlyReadsMeasure(fp, HardwareAt(fp, h, calls, i - 1), calls[i - 1]);
    }
  }

  /**
   Bumpless start: a successful read, any calls that are not reads, a perform into position mode, then
   any calls that neither write commands nor perform nor activate. The next write that is accepted
   sends, as references, exactly the measured joint degrees for the configured joints, and zero for
   the others.
   */
  lemma BumplessStart(fp: Fp, h: Hardware, contended: bool, now: nat, before: seq<Call>, calls: seq<Call>,
                      period: Double, result: SendResult)
    requires Sized(h) && |h.positions| <= 6 && Read(h, contended, now).1
    requires forall k :: 0 <= k < |before| ==> !before[k].ReadCall?
    requires forall k :: 0 <= k < |calls| ==> Quiet(calls[k])
    ensures var measured := Read(h, contended, now).0;
            var (switched, ok) := Perform(HardwareAt(fp, measured, before, |before|));
            var later := HardwareAt(fp, switched, calls, |calls|);
            && Sized(later) && |later.positions| == |h.positions|
            && (ok && switched.mode == CMD_JOINT_POSITION && Write(fp, later, period, result).ok ==>
                  var command := Write(fp, later, period, result).command;
                  && command.Some? && command.value.commandType == CMD_JOINT_POSITION
                  && forall i :: 0 <= i < 6 ==>
                       command.value.reference[i] == if i < |h.positions| then measured.state.jointPositions[i] else ZERO)
  {
    hide Read, Perform, HardwareAt, Write, Quiet;
    var measured := Read(h, contended, now).0;
    GoodReadMeasures(h, contended, now);
    UnreadRun(fp, measured, before, |before|);
    var ready := HardwareAt(fp, measured, before, |before|);
    PerformExactly(ready);
    var (switched, ok) := Perform(ready);
    PerformKeepsSizes(ready);
    QuietRun(fp, switched, calls, |calls|);
    var later := HardwareAt(fp, switched, calls, |calls|);
    AcceptedWrite(fp, later, period, result);
    if ok && switched.mode == CMD_JOINT_POSITION && Write(fp, later, period, result).ok {
      PositionCommandsAreSound(fp, later, period, result);
      forall i | 0 <= i < |h.positions|
        ensures RadToDeg(later.positionCmds[i]) == measured.state.jointPositions[i]
      {
        DegreesRoundTrip(measured.state.jointPositions[i]);
      }
    }
  }

  lemma PerformKeepsSizes(h: Hardware)
    requires Sized(h)
    ensures |Perform(h).0.positions| == |h.positions|
  {
  }

  /** A write that returns OK handed the command of the current mode to the socket. */
  lemma AcceptedWrite(fp: Fp, h: Hardware, period: Double, result: SendResult)
    requires Sized(h) && |h.positions| <= 6
    ensures var w := Write(fp, h, period, result);
            w.ok ==> w.command.Some? && w.command.value.commandType == h.mode
  {
    hide CommandBytes, HasNaN, OutputBits, Overlay;
  }
}
