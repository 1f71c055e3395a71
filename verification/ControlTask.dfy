/**
 The control task as the controller runs it: locals updated in place through one loop iteration,
 a motion library that is told what to do, and two byte arrays allocated once.
 */
module ControlTask {
  import opened Wire
  import opened Messages
  import opened Val3Codec
  import opened StateUpdate
  import opened Sequence
  import opened SocketRead
  import opened ControlLoop
  import ControlInvariants
  import ControlRuns

  /**
   The controller's motion library, with a record of everything asked of it. Its rule is what its
   methods require: begin only when not started, move and end only when started.
   */
  class MotionLibrary {
    var sync: Sync
    ghost var issued: seq<Action>

    constructor ()
      ensures sync == NotStarted && issued == []
    {
      sync, issued := NotStarted, [];
    }

    ghost predicate Did(before: seq<Action>, m: Motion)
      reads this
    {
      sync == m.sync && issued == before + m.actions
    }

    method MovejSyncState(status: RunStatus) returns (code: int)
      ensures code == StatusCode(sync, status)
      ensures code == -1 <==> sync == NotStarted
    {
      code := StatusCode(sync, status);
    }

    method MovejSyncBegin()
      requires sync == NotStarted
      modifies this
      ensures sync == Running && issued == old(issued) + [SyncBegin]
    {
      sync, issued := Running, issued + [SyncBegin];
    }

    method MovejSync(target: Vec6)
      requires sync == Running
      modifies this`issued
      ensures issued == old(issued) + [SyncMove(target)]
    {
      issued := issued + [SyncMove(target)];
    }

    method MovejSyncEnd()
      requires sync == Running
      modifies this
      ensures sync == NotStarted && issued == old(issued) + [SyncEnd]
    {
      sync, issued := NotStarted, issued + [SyncEnd];
    }

    method StopMove()
      modifies this`issued
      ensures issued == old(issued) + [Action.StopMove]
    {
      issued := issued + [Action.StopMove];
    }

    method ResetMotion()
      modifies this`issued
      ensures issued == old(issued) + [Action.ResetMotion]
    {
      issued := issued + [Action.ResetMotion];
    }
  }

  method StopJointPositionControl(lib: MotionLibrary) returns (error: bool)
    modifies lib
    ensures lib.Did(old(lib.issued), StopJointPosition(old(lib.sync)))
    ensures !error
  {
    var state := lib.MovejSyncState(Fine);
    if state != -1 {
      lib.MovejSyncEnd();
    }
    assert lib.issued == old(lib.issued) + StopJointPosition(old(lib.sync)).actions;
    error := false;
  }

  method UpdateJointPositionControl(arm: Arm, c: Val3Command, lib: MotionLibrary, first: bool, in_: Input)
    returns (error: bool)
    requires !first ==> lib.sync == Running
    modifies lib
    ensures lib.Did(old(lib.issued), JointPosition(arm, c, old(lib.sync), first, in_))
    ensures error == JointPosition(arm, c, old(lib.sync), first, in_).error
  {
    ghost var before := lib.issued;
    var state := lib.MovejSyncState(in_.before);
    if !arm.motionPossible {
      if state != -1 {
        error := StopJointPositionControl(lib);
      }
      assert lib.issued == before + StopJointPosition(old(lib.sync)).actions;
      return true;
    }
    if !c.isValid {
      if state != -1 {
        error := StopJointPositionControl(lib);
      }
      assert lib.issued == before + StopJointPosition(old(lib.sync)).actions;
      return true;
    }
    if c.motionType != 2 {
      error := StopJointPositionControl(lib);
      return true;
    }
    ghost var started := if first then [Action.ResetMotion, SyncBegin] else [];
    if first {
      lib.ResetMotion();
      if state == -1 {
        lib.MovejSyncBegin();
      } else {
        error := StopJointPositionControl(lib);
        assert lib.issued == before + ([Action.ResetMotion] + StopJointPosition(old(lib.sync)).actions);
        return true;
      }
    }
    assert lib.issued == before + started;
    var target := c.motionData;
    if !in_.inRange(target) {
      ghost var now := lib.sync;
      error := StopJointPositionControl(lib);
      assert lib.issued == before + (started + StopJointPosition(now).actions);
      return true;
    }
    lib.MovejSync(target);
    assert lib.issued == before + (started + [SyncMove(target)]);
    state := lib.MovejSyncState(in_.after);
    error := false;
    if state == -2 {
      ghost var now := lib.sync;
      error := StopJointPositionControl(lib);
      assert lib.issued == before + (started + [SyncMove(target)] + StopJointPosition(now).actions);
      return true;
    }
  }

  method UpdateJointVelocityControl(arm: Arm, c: Val3Command, lib: MotionLibrary, first: bool) returns (error: bool)
    modifies lib
    ensures lib.Did(old(lib.issued), JointVelocity(arm, c, old(lib.sync), first))
    ensures error
  {
    error := true;
    if !arm.motionPossible {
      lib.ResetMotion();
      return;
    }
    if !c.isValid {
      lib.ResetMotion();
      return;
    }
    if c.motionType != 3 {
      lib.ResetMotion();
      return;
    }
    if first {
      lib.ResetMotion();
    }
    assert lib.issued == old(lib.issued) + JointVelocity(arm, c, old(lib.sync), first).actions;
  }

  class ControlTask {
    var mode: int
    var prevMode: int
    var error: bool
    var sequence: int
    var delay: int
    var active: bool
    var stateMsg: StateMsg
    var header: MessageHeader
    var command: Val3Command
    const tx: array<byte>
    const rx: array<byte>
    const socket: UdpSocket
    const motion: MotionLibrary

    ghost predicate Valid()
      reads this
    {
      && tx.Length == STATE_SIZE && rx.Length == COMMAND_SIZE && tx != rx
      && stateMsg.initialized
      && stateMsg.header == StateHeader(stateMsg.header.sequence)
      && header.headerSize == 8
    }

    ghost function Value(): Task
      requires Valid()
      reads this, tx, rx, socket, motion
    {
      Task(mode, prevMode, error, sequence, delay, active, stateMsg, tx[..], header, command, rx[..], socket.queue, motion.sync)
    }

    constructor ()
      ensures Valid() && Value() == INITIAL_TASK
      ensures fresh(tx) && fresh(rx) && fresh(socket) && fresh(motion) && motion.issued == []
    {
      mode, prevMode := 1, 1;
      error, active := false, false;
      sequence, delay := 0, 1000;
      stateMsg := StateMsg(true, STATE_HEADER, INIT_STATE);
      header, command := COMMAND_HEADER, Val3Command(false, 1, ZERO6, ZERO4);
      tx := new byte[STATE_SIZE](_ => 0);
      rx := new byte[COMMAND_SIZE](_ => 0);
      socket := new UdpSocket();
      motion := new MotionLibrary();
      new;
      assert tx[..] == EMPTY_TX && rx[..] == EMPTY_RX;
    }

    method PublishState(fp: Fp, in_: Input) returns (frame: Option<seq<byte>>)
      requires Valid()
      modifies this`sequence, this`stateMsg, this`error, tx
      ensures Valid() && (Value(), frame) == Publish(fp, old(Value()), in_)
    {
      ghost var before := Value();
      var state := UpdateStateInPlace(stateMsg.state, in_.reading);
      sequence := GetNextSequenceNumber(sequence);
      stateMsg := stateMsg.(header := stateMsg.header.(sequence := sequence));
      state := state.(sequenceDelay := delay);
      state := state.(inError := error);
      state := state.(controlMode := mode);
      stateMsg := stateMsg.(state := state);
      assert stateMsg == OutgoingMsg(before, in_);
      var txError := EncodeRobotStateMsgInto(fp, stateMsg, tx);
      if !txError {
        txError := !in_.txOk;
      }
      if txError {
        error := true;
      }
      frame := if txError then None else Some(tx[..]);
    }

    method ReceiveCommand(fp: Fp, arrivals: seq<Datagram>) returns (newMsg: bool)
      requires Valid()
      modifies this`error, this`mode, this`active, this`header, this`command, rx, socket
      ensures Valid() && (Value(), newMsg) == Receive(fp, old(Value()), arrivals)
    {
      hide ReadData, FloatsAt, U16At;
      ghost var before := Value();
      socket.Deliver(arrivals);
      var rxError;
      newMsg, rxError := socket.ReadInto(rx);
      ReadFailsExactly(before.queue + arrivals, before.rx);
      if rxError {
        error := true;
      } else {
        if newMsg {
          var bad;
          header, command, bad := DecodeRobotCommandMsgFrom(fp, header, command, rx);
          if bad {
            error := true;
            mode := 1;
          }
        }
      }
      if newMsg && !active {
        active := true;
      }
      assert tx[..] == before.tx;
    }

    method CheckStreamInPlace()
      requires Valid()
      modifies this`delay, this`error, this`mode
      ensures Valid() && Value() == CheckStream(old(Value()))
    {
      if command.isValid {
        delay := ComputeSequenceDelay(sequence, header.sequence);
      } else {
        delay := 1000;
      }
      if active {
        if stateMsg.state.arm.inMotion && delay > 5 {
          error := true;
          mode := 1;
        }
        if !stateMsg.state.arm.inMotion && delay > 25 {
          error := true;
          mode := 1;
        }
        if delay < 0 {
          error := true;
          mode := 1;
        }
      }
    }

    method SelectMode()
      requires Valid()
      modifies this`command, this`error, this`mode
      ensures Valid() && Value() == Interlock(ExtractMode(old(Value())))
    {
      if command.motionType < 0 || command.motionType > 4 {
        command := command.(isValid := false);
        error := true;
      }
      if error || !command.isValid {
        mode := 0;
      } else {
        mode := command.motionType;
      }
      if prevMode != mode && mode != 1 && prevMode != 1 {
        mode := 1;
        error := true;
      }
      if prevMode == 1 && mode != 1 && stateMsg.state.arm.inMotion {
        mode := 1;
        error := true;
      }
    }

    method ExecuteMotion(in_: Input)
      requires Valid() && (mode == 2 && prevMode != 1 ==> motion.sync == Running)
      modifies this`error, motion
      ensures Valid()
      ensures var before := old(Value());
              var m := Execute(before, in_);
              && motion.Did(old(motion.issued), m)
              && Value() == before.(sync := m.sync, error := before.error || m.error || before.mode > 3)
    {
      ghost var before := Value();
      ghost var issued := motion.issued;
      var failed;
      if mode <= 1 {
        if prevMode == 2 {
          failed := StopJointPositionControl(motion);
          if failed {
            assert false;  // ending movejSync never reports an error
          }
        } else if prevMode == 3 {
          motion.ResetMotion();
        }
        motion.StopMove();
        motion.ResetMotion();
        assert motion.issued == issued + Execute(before, in_).actions;
      } else if mode == 2 {
        failed := UpdateJointPositionControl(stateMsg.state.arm, command, motion, prevMode == 1, in_);
        if failed {
          error := true;
        }
      } else if mode == 3 {
        failed := UpdateJointVelocityControl(stateMsg.state.arm, command, motion, prevMode == 1);
        if failed {
          error := true;
        }
      } else {
        error := true;
        assert motion.issued == issued + Execute(before, in_).actions;
      }
    }

    method HandleErrors() returns (hardStop: bool)
      requires Valid()
      modifies this, socket, motion
      ensures Valid()
      ensures var before := old(Value());
              && hardStop == before.error
              && Value() == (if before.error then HardStop(before) else before)
              && motion.issued == old(motion.issued) + (if before.error then HardStopActions(before) else [])
    {
      hide Initialised;
      ghost var before := Value();
      ghost var issued := motion.issued;
      hardStop := error;
      if error {
        if mode == 2 {
          var failed := StopJointPositionControl(motion);
        }
        motion.StopMove();
        motion.ResetMotion();
        assert motion.issued == issued + HardStopActions(before);
        command := command.(motionType := 0);
        mode := 0;
        error := false;
        sequence := 0;
        delay := 1000;
        active := false;
        command := command.(isValid := false);
        socket.ClearBuffer();
        assert tx[..] == before.tx && rx[..] == before.rx;
      }
    }

    /** Publish, receive, watch and select: the first half of an iteration. */
    method SettleMode(fp: Fp, in_: Input) returns (frame: Option<seq<byte>>, newMsg: bool)
      requires Valid()
      modifies this, tx, rx, socket
      ensures Valid()
      ensures Value() == Decide(fp, old(Value()), in_)
      ensures frame == Publish(fp, old(Value()), in_).1
      ensures newMsg == Receive(fp, Publish(fp, old(Value()), in_).0, in_.arrivals).1
    {
      hide Publish, Receive, CheckStream, ExtractMode, Interlock, Initialised;
      frame := PublishState(fp, in_);
      newMsg := ReceiveCommand(fp, in_.arrivals);
      CheckStreamInPlace();
      SelectMode();
    }

    /** Execute and handle errors: the second half. */
    method ActAndRecover(in_: Input) returns (hardStop: bool)
      requires Valid() && (mode == 2 && prevMode != 1 ==> motion.sync == Running)
      modifies this, socket, motion
      ensures Valid()
      ensures (Value(), hardStop) == (Finish(old(Value()), in_).0, Finish(old(Value()), in_).1)
      ensures motion.issued == old(motion.issued) + Finish(old(Value()), in_).2
    {
      hide Execute, HardStop, HardStopActions;
      ghost var d := Value();
      ghost var issued := motion.issued;
      ExecuteMotion(in_);
      hardStop := HandleErrors();
      prevMode := mode;
      assert motion.issued == issued + Finish(d, in_).2;
    }

    /** One iteration of the loop, from a state that holds at its head. */
    method RunCycle(fp: Fp, in_: Input) returns (frame: Option<seq<byte>>)
      requires Valid() && ControlInvariants.AtHead(Value())
      modifies this, tx, rx, socket, motion
      ensures Valid()
      ensures Value() == Cycle(fp, old(Value()), in_).task && frame == Cycle(fp, old(Value()), in_).frame
      ensures motion.issued == old(motion.issued) + Cycle(fp, old(Value()), in_).actions
    {
      hide Publish, Receive, Decide, Finish, Initialised;
      ControlRuns.LibraryReady(fp, Value(), in_);
      hide ControlInvariants.AtHead;
      var newMsg;
      frame, newMsg := SettleMode(fp, in_);
      var hardStop := ActAndRecover(in_);
    }

    /** The task's loop, over the cycles it gets to run. */
    method Run(fp: Fp, inputs: seq<Input>) returns (frames: seq<Option<seq<byte>>>)
      requires Valid() && Value() == INITIAL_TASK
      modifies this, tx, rx, socket, motion
      ensures Valid() && Value() == TaskAt(fp, inputs, |inputs|)
      ensures |frames| == |inputs|
      ensures forall k :: 0 <= k < |inputs| ==> frames[k] == CycleAt(fp, inputs, k).frame
      ensures motion.issued == old(motion.issued) + ControlRuns.Issued(fp, inputs, |inputs|)
    {
      hide Cycle, TaskAt, CycleAt, Initialised, ControlInvariants.AtHead;
      FirstHead(fp, inputs);
      frames := [];
      ghost var before := motion.issued;
      assert before + [] == before;
      var i := 0;
      while i < |inputs|
        invariant 0 <= i <= |inputs| && Valid() && Value() == TaskAt(fp, inputs, i)
        invariant |frames| == i
        invariant motion.issued == before + ControlRuns.Issued(fp, inputs, i)
        invariant forall k :: 0 <= k < i ==> frames[k] == CycleAt(fp, inputs, k).frame
      {
        NextHead(fp, inputs, i);
        ControlInvariants.HeadInvariant(fp, inputs, i);
        var frame := RunCycle(fp, inputs[i]);
        frames := frames + [frame];
        i := i + 1;
      }
    }
  }
}
