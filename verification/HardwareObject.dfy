/**
 The hardware interface class: the vectors it shares with the controllers, updated entry by entry,
 and the two-step mode switch.
 */
module HardwareObject {
  import opened Wire
  import opened Messages
  import D = DriverState
  import H = HardwareState
  import DriverObject

  // ----- the loops over joints, inputs and outputs -----

  method CopyDegrees(values: Vec6, x_target: seq<Double>) returns (target: seq<Double>)
    ensures target == H.Overlay(x_target, values, H.DegToRad)
  {
    target := x_target;
    var i := 0;
    while i < |x_target| && i < 6
      invariant 0 <= i <= 6 && i <= |x_target| == |target|
      invariant forall k :: 0 <= k < |target| ==> target[k] == if k < i then H.DegToRad(values[k]) else x_target[k]
    {
      target := target[i := H.DegToRad(values[i])];
      i := i + 1;
    }
  }

  method CopyPlain(values: seq<Double>, x_target: seq<Double>) returns (target: seq<Double>)
    ensures target == H.Overlay(x_target, values, H.Same)
  {
    target := x_target;
    var i := 0;
    while i < |x_target| && i < |values|
      invariant 0 <= i <= |values| && i <= |x_target| == |target|
      invariant forall k :: 0 <= k < |target| ==> target[k] == if k < i then H.Same(values[k]) else x_target[k]
    {
      target := target[i := values[i]];
      i := i + 1;
    }
  }

  method CopyBits(values: Bits16, x_target: seq<Double>) returns (target: seq<Double>)
    ensures target == H.Overlay(x_target, H.BitValues(values), H.Same)
  {
    target := x_target;
    var i := 0;
    while i < |x_target| && i < 16
      invariant 0 <= i <= 16 && i <= |x_target| == |target|
      invariant forall k :: 0 <= k < |target| ==> target[k] == if k < i then H.BitValues(values)[k] else x_target[k]
    {
      target := target[i := if values[i] then Finite(1.0) else ZERO];
      i := i + 1;
    }
  }

  method Reference(commands: seq<Double>) returns (reference: Vec6)
    ensures reference == H.Overlay(ZERO6, commands, H.RadToDeg)
  {
    reference := ZERO6;
    var i := 0;
    while i < |commands| && i < 6
      invariant 0 <= i <= 6 && i <= |commands|
      invariant forall k :: 0 <= k < 6 ==> reference[k] == if k < i then H.RadToDeg(commands[k]) else ZERO6[k]
    {
      reference := reference[i := H.RadToDeg(commands[i])];
      i := i + 1;
    }
  }

  method DigitalOutputs(commands: seq<Double>) returns (bits: Bits16)
    ensures bits == H.OutputBits(commands)
  {
    bits := ALL_OFF;
    var i := 0;
    while i < |commands| && i < 16
      invariant 0 <= i <= 16 && i <= |commands|
      invariant forall k :: 0 <= k < 16 ==> (bits[k] <==> k < i && H.Above(commands[k], 0.5))
    {
      bits := bits[i := H.Above(commands[i], 0.5)];
      i := i + 1;
    }
  }

  method FindNaN(reference: Vec6, joints: nat) returns (found: bool)
    requires joints <= 6
    ensures found == H.HasNaN(reference, joints)
  {
    found := false;
    var i := 0;
    while i < joints
      invariant 0 <= i <= joints
      invariant forall k :: 0 <= k < i ==> !reference[k].NaN?
    {
      if reference[i].NaN? {
        return true;
      }
      i := i + 1;
    }
  }

  /** The first interface that names a mode decides. */
  method ResolveMode(start: seq<string>) returns (mode: byte)
    ensures mode == H.ResolveMode(start)
  {
    hide H.KindOf;
    var i := 0;
    while i < |start|
      invariant 0 <= i <= |start|
      invariant forall j :: 0 <= j < i ==> H.KindOf(start[j]).None?
    {
      var kind := H.KindOf(start[i]);
      if kind.Some? {
        H.FirstMentionDecides(start, i);
        return kind.value;
      }
      i := i + 1;
    }
    H.NoMentionStops(start);
    mode := CMD_STOP;
  }

  class StaubliHardwareInterface {
    const driver: DriverObject.RobotDriver
    var mode: byte
    var pending: byte
    var prepared: bool
    var state: RobotState
    var positions: seq<Double>
    var velocities: seq<Double>
    var efforts: seq<Double>
    var positionCmds: seq<Double>
    var velocityCmds: seq<Double>
    var accelerationCmds: seq<Double>
    var digitalInputs: seq<Double>
    var analogInputs: seq<Double>
    var digitalCmds: seq<Double>
    var analogCmds: seq<Double>

    /** This object's own fields beside a given driver. */
    ghost function Own(d: D.Driver): H.Hardware
      reads this
    {
      H.Hardware(d, mode, pending, prepared, state, positions, velocities, efforts, positionCmds, velocityCmds,
                 accelerationCmds, digitalInputs, analogInputs, digitalCmds, analogCmds)
    }

    ghost function Value(): H.Hardware
      reads this, driver, driver.Repr()
    {
      Own(driver.Value())
    }

    ghost predicate Valid()
      reads this, driver, driver.Repr()
    {
      driver.Valid() && H.Sized(Value())
    }

    constructor (joints: nat, digitalIn: nat, analogIn: nat, digitalOut: nat, analogOut: nat)
      ensures Valid() && Value() == H.Initial(joints, digitalIn, analogIn, digitalOut, analogOut)
    {
      driver := new DriverObject.RobotDriver();
      mode, pending, prepared := CMD_STOP, CMD_STOP, false;
      state := FRESH_STATE;
      positions, velocities, efforts := H.Repeat(ZERO, joints), H.Repeat(ZERO, joints), H.Repeat(ZERO, joints);
      positionCmds, velocityCmds := H.Repeat(NaN(0), joints), H.Repeat(NaN(0), joints);
      accelerationCmds := H.Repeat(NaN(0), joints);
      digitalInputs, analogInputs := H.Repeat(ZERO, digitalIn), H.Repeat(ZERO, analogIn);
      digitalCmds, analogCmds := H.Repeat(ZERO, digitalOut), H.Repeat(ZERO, analogOut);
    }

    /** Joints first, then inputs; stops where positions or velocities are missing. */
    method UpdateState(m: RobotState, ghost d: D.Driver) returns (ok: bool)
      requires H.Sized(Own(d))
      modifies this`positions, this`velocities, this`efforts, this`digitalInputs, this`analogInputs
      ensures H.Sized(Own(d)) && (Own(d), ok) == H.UpdateFrom(old(Own(d)), m)
    {
      hide H.Overlay, H.BitValues, D.Consistent, D.Wired, H.Repeat;
      if !m.has.positions {
        return false;
      }
      positions := CopyDegrees(m.jointPositions, positions);
      if !m.has.velocities {
        return false;
      }
      velocities := CopyDegrees(m.jointVelocities, velocities);
      if m.has.torques {
        efforts := CopyPlain(m.jointTorques, efforts);
      } else {
        efforts := H.Repeat(ZERO, |efforts|);
      }
      if m.has.digitalInputs {
        digitalInputs := CopyBits(m.digitalInputs, digitalInputs);
      }
      if m.has.analogInputs {
        analogInputs := CopyPlain(m.analogInputs, analogInputs);
      }
      ok := true;
    }

    method Read(contended: bool, now: nat) returns (ok: bool)
      requires Valid()
      modifies this, driver, driver.subscriber
      ensures Valid() && (Value(), ok) == H.Read(old(Value()), contended, now)
    {
      hide H.UpdateFrom, D.ReadRobotState, D.IsConnected;
      var up := driver.IsUp();
      if !up {
        return false;
      }
      var read := driver.ReadState(contended, now);
      if read.None? {
        return false;
      }
      state := read.value;
      ok := UpdateState(state, driver.Value());
    }

    /** The command of the current mode; an unsupported mode has none. */
    method MakeCommand(period: Double) returns (command: Option<RobotCommand>)
      requires Valid()
      ensures command == if mode in {CMD_STOP, CMD_JOINT_POSITION, CMD_JOINT_VELOCITY}
                         then Some(H.CommandOf(Value(), period)) else None
    {
      var c := FRESH_COMMAND;
      c := c.(header := c.header.(sequence := driver.lastValid));
      c := c.(controllerPeriod := period);
      c := c.(commandType := mode);
      if c.commandType == CMD_STOP {
        c := c.(reference := ZERO6);
      } else if c.commandType == CMD_JOINT_POSITION {
        var reference := Reference(positionCmds);
        c := c.(reference := reference);
      } else if c.commandType == CMD_JOINT_VELOCITY {
        var reference := Reference(velocityCmds);
        c := c.(reference := reference);
      } else {
        return None;
      }
      var bits := DigitalOutputs(digitalCmds);
      c := c.(digitalOutputs := bits);
      var analog := CopyPlain(analogCmds, ZERO4);
      c := c.(analogOutputs := analog);
      command := Some(c);
    }

    /** The second half of a write, once the connection and the fault test are behind it. */
    method SendOwnCommand(fp: Fp, period: Double, result: D.SendResult) returns (sent: D.Sent, ok: bool)
      requires Valid() && |positions| <= 6
      ensures sent == H.WriteCommand(fp, Value(), period, result).sent && ok == H.WriteCommand(fp, Value(), period, result).ok
    {
      hide H.CommandOf, D.SendMessage, D.SendStopAll, D.SendRobotCommand, H.HasNaN, D.Consistent, D.StopCommand;
      var command := MakeCommand(period);
      if command.None? {
        return D.Sent(None, false), false;
      }
      var foundNaN := FindNaN(command.value.reference, |positions|);
      if foundNaN {
        sent := driver.SendStopAllCommand(fp, result);
        return sent, false;
      }
      sent := driver.SendCommand(fp, command.value, result);
      ok := sent.ok;
    }

    method Write(fp: Fp, period: Double, result: D.SendResult) returns (sent: D.Sent, ok: bool)
      requires Valid() && |positions| <= 6
      ensures sent == H.Write(fp, Value(), period, result).sent && ok == H.Write(fp, Value(), period, result).ok
    {
      hide H.WriteCommand, D.SendStopAll, D.IsConnected, D.Consistent, D.StopCommand;
      var up := driver.IsUp();
      if !up {
        return D.Sent(None, false), false;
      }
      if mode != CMD_STOP {
        if state.status.errorState || state.controlState == CMD_INVALID {
          sent := driver.SendStopAllCommand(fp, result);
          return sent, false;
        }
      }
      sent, ok := SendOwnCommand(fp, period, result);
    }

    method PrepareCommandModeSwitch(start: seq<string>) returns (ok: bool)
      requires Valid()
      modifies this`pending, this`prepared
      ensures Valid() && (Value(), ok) == H.Prepare(old(Value()), start)
    {
      hide H.ResolveMode;
      prepared := false;
      var incoming := ResolveMode(start);
      if incoming == CMD_JOINT_VELOCITY || incoming == CMD_JOINT_TORQUE {
        return false;
      }
      if incoming != CMD_STOP && incoming != CMD_JOINT_POSITION && incoming != CMD_INVALID {
        return false;
      }
      pending := if incoming == CMD_INVALID then CMD_STOP else incoming;
      prepared := true;
      ok := true;
    }

    method PerformCommandModeSwitch() returns (ok: bool)
      requires Valid()
      modifies this`mode, this`prepared, this`positionCmds, this`velocityCmds, this`accelerationCmds
      ensures Valid() && (Value(), ok) == H.Perform(old(Value()))
    {
      hide D.Consistent, D.Wired;
      var newMode := if prepared then pending else CMD_STOP;
      prepared := false;
      if newMode == CMD_JOINT_POSITION {
        if state.status.errorState {
          mode := CMD_STOP;
          return false;
        }
        if !state.status.motionPossible {
          mode := CMD_STOP;
          return false;
        }
      }
      positionCmds := positions;
      velocityCmds := H.Repeat(ZERO, |velocityCmds|);
      accelerationCmds := H.Repeat(ZERO, |accelerationCmds|);
      mode := newMode;
      ok := true;
    }

    method OnActivate()
      requires Valid()
      modifies this`mode
      ensures Valid() && Value() == old(Value()).(mode := CMD_STOP)
    {
      mode := CMD_STOP;
    }

    method OnError(fp: Fp, result: D.SendResult) returns (sent: D.Sent, ok: bool)
      requires Valid()
      ensures ok == D.IsConnected(driver.Value())
      ensures sent == if ok then D.SendStopAll(fp, driver.Value(), result) else D.Sent(None, false)
    {
      hide D.SendStopAll, D.IsConnected;
      ok := driver.IsUp();
      sent := D.Sent(None, false);
      if ok {
        sent := driver.SendStopAllCommand(fp, result);
      }
    }

    method OnCleanup(closes: bool)
      requires Valid()
      modifies driver.Repr()
      ensures Valid() && Value() == old(Value()).(driver := D.Disconnect(old(driver.Value())))
    {
      var closed := driver.DisconnectNow(closes);
    }
  }
}
