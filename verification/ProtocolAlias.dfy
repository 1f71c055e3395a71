/**
 Why the age bound needs its condition: 16-bit numbers start again after a hard stop, so a command
 that answers a frame of an earlier epoch can pass for a fresh one. What follows shows what a cycle
 does with one delivered command, exactly, and builds runs in which the arm moves to a position that
 answers a frame published arbitrarily long before.
 */
module ProtocolAlias {
  import opened Wire
  import opened Messages
  import opened Val3Codec
  import opened StateUpdate
  import opened Sequence
  import opened SocketRead
  import opened ControlLoop
  import opened ControlInvariants
  import opened Protocol
  import opened ProtocolSafety
  import opened ProtocolHandshake
  import ControlRuns
  import D = DriverState
  import H = HardwareState

  // ----- one cycle, one datagram at most -----

  /** The arm could move and is at rest, and the state frame gets out. */
  predicate Calm(in_: Input) {
    in_.txOk && in_.reading.settled && in_.reading.powered && in_.reading.esStatus == 0
  }

  /** A cycle that sees no datagram and holds no command goes to mode 0 without an error. */
  lemma IdleDecides(fp: Fp, t: Task, in_: Input)
    requires AtHead(t) && t.mode <= 1 && !t.command.isValid && 0 <= t.command.motionType <= 4
    requires t.queue == [] && in_.arrivals == [] && Calm(in_)
    ensures var d := Decide(fp, t, in_);
            && !d.error && d.mode == 0 && d.command == t.command
            && d == t.(sequence := (t.sequence + 1) % WRAP, stateMsg := d.stateMsg, tx := d.tx, mode := 0)
  {
    var p := Publish(fp, t, in_).0;
    Published(fp, t, in_);
    ReadTakesNewest([], t.rx);
    hide Publish, ReadData;
    assert t.queue + in_.arrivals == [];
    assert Receive(fp, p, in_.arrivals).0 == p;
  }

  /** Reading one command of the driver from an empty queue. */
  lemma ReceivesOne(fp: Fp, p: Task, m: Message, frames: map<Tag, seq<byte>>)
    requires Initialised(p) && p.queue == [] && !p.error && GoodMessage(fp, m, frames)
    ensures var q := Receive(fp, p, [m.bytes]).0;
            && q == p.(queue := [], rx := q.rx, header := q.header, command := q.command, active := true)
            && q.command.isValid && Holds(fp, q.header, q.command, m.command)
  {
    hide DecodeRobotCommandMsg, ReadData, CommandBytes, GoodFrame;
    assert p.queue + [m.bytes] == [m.bytes];
    assert |m.bytes| == COMMAND_SIZE;
    ReadTakesNewest([m.bytes], p.rx);
    assert [m.bytes][1..] == [];
    DecodedAsSent(fp, m, frames, p.header, p.command);
    DecodedValid(fp, m.bytes, p.header, p.command);
  }

  lemma DecodedValid(fp: Fp, bytes: RxBuffer, h: MessageHeader, c: Val3Command)
    requires h.headerSize == 8
    ensures !DecodeRobotCommandMsg(fp, h, c, bytes).2 ==> DecodeRobotCommandMsg(fp, h, c, bytes).1.isValid
  {
  }

  /** Watchdog and mode selection on a command just read, with the arm at rest. */
  lemma SelectsOne(q: Task)
    requires Initialised(q) && !q.error && q.active && q.command.isValid && q.command.motionType in {1, 2}
    requires 0 <= q.sequence < WRAP && 0 <= q.header.sequence < WRAP && !q.stateMsg.state.arm.inMotion
    requires q.prevMode == 1 || (q.prevMode == 0 && q.command.motionType == 1)
    ensures var d := Interlock(ExtractMode(CheckStream(q)));
            && (d.error <==> (q.sequence - q.header.sequence) % WRAP > 25)
            && (!d.error ==> d.mode == q.command.motionType)
            && d == q.(command := d.command, mode := d.mode, error := d.error, delay := d.delay)
            && (!d.error ==> d.command == q.command)
  {
    hide SequenceDelay, Trips;
    TripsExactly(q.sequence, q.header.sequence, 25);
  }

  /** What the cycle decides when one command of the driver arrives at an empty queue. */
  lemma CommandDecides(fp: Fp, t: Task, in_: Input, m: Message, frames: map<Tag, seq<byte>>)
    requires AtHead(t) && t.mode <= 1 && t.queue == [] && Calm(in_)
    requires GoodMessage(fp, m, frames) && in_.arrivals == [m.bytes]
    requires m.command.commandType == CMD_STOP || t.mode == 1
    ensures var d := Decide(fp, t, in_);
            && (d.error <==> ((t.sequence + 1) % WRAP - m.command.header.sequence) % WRAP > 25)
            && (!d.error ==> d.mode == m.command.commandType && d.command.isValid && Holds(fp, d.header, d.command, m.command))
            && d.stateMsg.state.arm == ArmOf(in_.reading) && d.prevMode == t.mode && d.sync == t.sync
            && d.queue == [] && d.sequence == (t.sequence + 1) % WRAP
  {
    hide Publish, Receive, CheckStream, ExtractMode, Interlock, CommandBytes, GoodFrame, OutgoingMsg;
    var p := Publish(fp, t, in_).0;
    Published(fp, t, in_);
    ReceivesOne(fp, p, m, frames);
    SelectsOne(Receive(fp, p, in_.arrivals).0);
  }

  /** Without an error and below position control, the cycle just stops the arm. */
  lemma StoppedFinishes(d: Task, in_: Input)
    requires Initialised(d) && !d.error && d.mode <= 1 && d.prevMode <= 1
    ensures Finish(d, in_) == (d.(prevMode := d.mode), false, [StopMove, ResetMotion])
  {
    assert [] + [StopMove, ResetMotion] == [StopMove, ResetMotion];
    assert [StopMove, ResetMotion] + [] == [StopMove, ResetMotion];
  }

  /** Position control entered from mode 1 with the arm ready moves to the commanded position. */
  lemma PositionMoves(d: Task, in_: Input, target: Vec6)
    requires Initialised(d) && d.mode == 2 && d.prevMode == 1 && d.sync == NotStarted && d.stateMsg.state.arm.motionPossible
    requires d.command.isValid && d.command.motionType == 2 && d.command.motionData == target
    ensures SyncMove(target) in Finish(d, in_).2 <==> in_.inRange(target)
  {
    hide HardStop;
    var m := Execute(d, in_);
    if in_.inRange(target) {
      assert m.actions[2] == SyncMove(target);
    }
    forall k | 0 <= k < |Finish(d, in_).2| && Finish(d, in_).2[k] == SyncMove(target)
      ensures in_.inRange(target)
    {
    }
  }

  /**
   Exactly when a position command delivered in mode 1 to a ready arm is executed: its number is at
   most 25 behind the last number published, modulo 65536, and the target is in range. Nothing in
   the test knows how old the command is, or whether a hard stop has come between.
   */
  lemma DeliveredPositionMoves(fp: Fp, s: System, e: Event, n: nat)
    requires Inv(fp, s) && e.Act? && Possible(s, e) && s.task.mode == 1 && s.queued == [] && e.deliver == [n] && n < |s.sent|
    requires s.sent[n].command.commandType == CMD_JOINT_POSITION && Calm(CycleInput(s, e))
    ensures var target := Narrowed(fp, s.sent[n].command.reference);
            SyncMove(target) in Cycle(fp, s.task, CycleInput(s, e)).actions <==>
            Age(s, s.sent[n].answers.value) % WRAP <= 25 && e.inRange(target)
  {
    hide Decide, Publish, Receive, Finish, FramesOk, DriverOk, CommandBytes, GoodFrame;
    var in_ := CycleInput(s, e);
    var m := s.sent[n];
    var d := Decide(fp, s.task, in_);
    var target := Narrowed(fp, m.command.reference);
    assert GoodMessage(fp, m, s.frames);
    assert in_.arrivals == [m.bytes];
    CommandDecides(fp, s.task, in_, m, s.frames);
    CountUp(s.count);
    DistanceModulo(s.count + 1, m.answers.value.count);
    if d.error {
      DecideKeeps(fp, s.task, in_);
      FailedDoesNotMove(d, in_, target);
    } else {
      PositionMoves(d, in_, target);
    }
  }

  lemma FailedDoesNotMove(d: Task, in_: Input, target: Vec6)
    requires Decided(d, in_.reading.settled) && d.error
    ensures SyncMove(target) !in Finish(d, in_).2
  {
    hide Finish, Execute, JointPosition, HardStop;
    if SyncMove(target) in Finish(d, in_).2 {
      ControlRuns.FinishMovesSafely(d, in_, target);
      assert false;
    }
  }

  // ----- the driver's part of the run -----

  const NOW := D.STALENESS_TIMEOUT

  const READY := Reading(true, true, 0, 0, 0, ZERO6, ZERO6, ZERO6)

  /** A state the driver accepts, stores and may start moving from. */
  ghost predicate Usable(m: RobotState) {
    && m.header.msgType == TYPE_ROBOT_STATE && m.header.version == PROTOCOL_VERSION
    && m.has.positions && m.has.velocities && m.controlState == CMD_STOP
    && !m.status.errorState && m.status.motionPossible
  }

  /** The switch into position mode, and a zero position command. */
  function Switching(): seq<H.Call> {
    [H.PrepareCall(["position"]), H.PerformCall, H.SetCommands([ZERO], [ZERO], [ZERO], [], [])]
  }

  lemma SwitchesToPosition(fp: Fp, h: H.Hardware)
    requires H.Sized(h) && |h.positions| == 1 && h.digitalCmds == [] && h.analogCmds == [] && H.MotionAllowed(h.state)
    ensures var a := H.After(fp, h, Switching()[0]);
            var b := H.After(fp, a, Switching()[1]);
            var r := H.After(fp, b, Switching()[2]);
            r.driver == h.driver && r.state == h.state && r.mode == CMD_JOINT_POSITION && r.positionCmds == [ZERO]
            && |r.positions| == 1
  {
    assert H.FoundAt("position", "position", 0);
    assert H.KindOf("position") == Some(CMD_JOINT_POSITION);
    assert H.ResolveMode(["position"]) == CMD_JOINT_POSITION;
    hide H.KindOf, H.ResolveMode;
  }

  /** With no fault shown and nothing but numbers to send, a write sends the command of its mode. */
  lemma WriteSends(fp: Fp, h: H.Hardware)
    requires H.Sized(h) && |h.positions| <= 6 && D.IsConnected(h.driver) && h.mode in {CMD_STOP, CMD_JOINT_POSITION}
    requires !h.state.status.errorState && h.state.controlState != CMD_INVALID
    requires forall i :: 0 <= i < |h.positionCmds| ==> h.mode == CMD_JOINT_POSITION ==> h.positionCmds[i] == ZERO
    ensures var w := H.Write(fp, h, ZERO, D.Delivered);
            && w.sent.frame.Some? && w.command.value.commandType == h.mode && w.command.value.reference == ZERO6
  {
    var command := H.CommandOf(h, ZERO);
    assert H.RadToDeg(ZERO) == ZERO;
    assert command.reference == ZERO6;
    hide CommandBytes, H.Overlay, H.OutputBits;
  }

  // ----- building runs -----

  function ActsIn(events: seq<Event>): nat {
    if events == [] then 0 else ActsIn(events[..|events| - 1]) + if events[|events| - 1].Act? then 1 else 0
  }

  lemma {:induction false} SamePrefix(fp: Fp, start: System, events: seq<Event>, more: seq<Event>, i: nat)
    requires WellFormed(start) && i <= |events|
    ensures SystemAt(fp, start, events + more, i) == SystemAt(fp, start, events, i)
  {
    hide Step, WellFormed;
    if i > 0 {
      SamePrefix(fp, start, events, more, i - 1);
    }
  }

  /** The state a run ends in. */
  function End(fp: Fp, start: System, events: seq<Event>): (s: System)
    requires WellFormed(start)
    ensures WellFormed(s)
  {
    SystemAt(fp, start, events, |events|)
  }

  lemma Extend(fp: Fp, start: System, events: seq<Event>, e: Event)
    requires WellFormed(start)
    ensures End(fp, start, events + [e]) == Step(fp, End(fp, start, events), e)
    ensures SystemAt(fp, start, events + [e], |events|) == End(fp, start, events)
    ensures ActsIn(events + [e]) == ActsIn(events) + if e.Act? then 1 else 0
    ensures Clocked(events) && ClockOk(e) ==> Clocked(events + [e])
  {
    hide Step, WellFormed, ClockOk;
    SamePrefix(fp, start, events, [e], |events|);
    assert (events + [e])[..|events|] == events;
  }

  // ----- the run: opening -----

  const SMALL := Config(1, 0, 0, 0, 0)
  const FIRST := Tag(0, 1)

  function Attaching(): Event {
    AttachOn(FIRST, NOW)
  }

  lemma FirstEmit(fp: Fp)
    ensures var s := Step(fp, Start(SMALL), Emit(READY, true));
            && FIRST in s.frames
            && s == Start(SMALL).(pending := Some(Pending(READY, true)), frames := map[FIRST := s.frames[FIRST]])
            && ReadState(fp, FRESH_STATE, s.frames[FIRST]).1
            && var m := ReadState(fp, FRESH_STATE, s.frames[FIRST]).0;
               Usable(m) && m.header.sequence == 1
  {
    hide Publish, ReadState, AtHead, H.Initial;
    InitialAtHead();
    ControlRuns.PublishedFrame(fp, INITIAL_TASK, PublishInput(READY, true), FRESH_STATE);
  }

  /** A write by a connected driver puts its command on the network, answering the first frame. */
  lemma WritesOne(fp: Fp, s: System, m: RobotState)
    requires WellFormed(s) && Linked(s.hardware.driver, m, NOW) && s.received == [FIRST]
    requires s.hardware.mode in {CMD_STOP, CMD_JOINT_POSITION}
    requires !s.hardware.state.status.errorState && s.hardware.state.controlState != CMD_INVALID
    requires forall i :: 0 <= i < |s.hardware.positionCmds| ==>
               s.hardware.mode == CMD_JOINT_POSITION ==> s.hardware.positionCmds[i] == ZERO
    ensures var r := Step(fp, s, WriteOut(ZERO, D.Delivered));
            && |r.sent| == |s.sent| + 1 && r == s.(sent := s.sent + [r.sent[|s.sent|]])
            && var n := r.sent[|s.sent|];
               n.answers == Some(FIRST) && n.command.commandType == s.hardware.mode && n.command.reference == ZERO6
  {
    hide H.Write, D.IsConnected, Initialised;
    WriteSends(fp, s.hardware);
  }

  lemma LocalStep(fp: Fp, s: System, c: H.Call)
    requires WellFormed(s) && !c.Configure? && !c.Datagram?
    ensures Step(fp, s, Local(c)) == s.(hardware := H.After(fp, s.hardware, c))
  {
    hide H.After, Initialised, H.Sized;
  }

  /** A stop command and then a zero position command, both answering the first frame. */
  ghost predicate Loaded(s: System) {
    && |s.sent| == 2
    && s.sent[0].command.commandType == CMD_STOP && s.sent[0].answers == Some(FIRST)
    && s.sent[1].command.commandType == CMD_JOINT_POSITION && s.sent[1].answers == Some(FIRST)
    && s.sent[1].command.reference == ZERO6
  }

  /** The driver attached to a controller that has published one frame reads it and writes a stop. */
  lemma DriverAttaches(fp: Fp, s1: System)
    requires s1 == Step(fp, Start(SMALL), Emit(READY, true))
    ensures var m := ReadState(fp, FRESH_STATE, s1.frames[FIRST]).0;
            var s2 := Step(fp, s1, Attaching());
            var s3 := Step(fp, s2, Local(H.ReadCall(false, NOW)));
            var s4 := Step(fp, s3, WriteOut(ZERO, D.Delivered));
            && FIRST in s1.frames && Usable(m)
            && s4 == s1.(hardware := s4.hardware, received := [FIRST], sent := s4.sent)
            && |s4.sent| == 1 && s4.sent[0].answers == Some(FIRST) && s4.sent[0].command.commandType == CMD_STOP
            && Linked(s4.hardware.driver, m, NOW) && s4.hardware.state == m.(timestamp := NOW)
            && |s4.hardware.positions| == 1 && s4.hardware.digitalCmds == [] && s4.hardware.analogCmds == []
  {
    FirstEmit(fp);
    StartEmpty(SMALL);
    assert s1.hardware == H.Initial(1, 0, 0, 0, 0) && s1.sent == [];
    hide Step, H.Read, H.After, Linked, ReadState, Start, H.Initial, D.Consistent, Initialised;
    var m := ReadState(fp, FRESH_STATE, s1.frames[FIRST]).0;
    InitialHardware();
    UsableMeans(m);
    Attaches(fp, s1, FIRST, NOW);
    var s2 := Step(fp, s1, Attaching());
    ReadsAgain(s2.hardware, m, NOW);
    LocalStep(fp, s2, H.ReadCall(false, NOW));
    AfterRead(fp, s2.hardware);
    WritesOne(fp, Step(fp, s2, Local(H.ReadCall(false, NOW))), m);
  }

  /** In position mode, with numbers to send and no fault in the state stored. */
  ghost predicate Armed(h: H.Hardware) {
    h.mode == CMD_JOINT_POSITION && Numeric(h) && !H.ShowsFault(h)
  }

  /** Then it switches to position mode and writes a zero position command. */
  lemma DriverSwitches(fp: Fp, s4: System, m: RobotState)
    requires WellFormed(s4) && Linked(s4.hardware.driver, m, NOW) && Usable(m) && s4.received == [FIRST]
    requires s4.hardware.state == m.(timestamp := NOW)
    requires |s4.hardware.positions| == 1 && s4.hardware.digitalCmds == [] && s4.hardware.analogCmds == []
    ensures var s5 := Step(fp, s4, Local(Switching()[0]));
            var s6 := Step(fp, s5, Local(Switching()[1]));
            var s7 := Step(fp, s6, Local(Switching()[2]));
            var s8 := Step(fp, s7, WriteOut(ZERO, D.Delivered));
            && s8 == s4.(hardware := s8.hardware, sent := s8.sent)
            && |s8.sent| == |s4.sent| + 1 && s8.sent[..|s4.sent|] == s4.sent && Armed(s8.hardware)
            && var n := s8.sent[|s4.sent|];
               n.answers == Some(FIRST) && n.command.commandType == CMD_JOINT_POSITION && n.command.reference == ZERO6
  {
    hide Step, H.After, Linked, Initialised, D.Consistent;
    SwitchesToPosition(fp, s4.hardware);
    LocalStep(fp, s4, Switching()[0]);
    var s5 := Step(fp, s4, Local(Switching()[0]));
    LocalStep(fp, s5, Switching()[1]);
    var s6 := Step(fp, s5, Local(Switching()[1]));
    LocalStep(fp, s6, Switching()[2]);
    WritesOne(fp, Step(fp, s6, Local(Switching()[2])), m);
  }

  lemma DriverActs(fp: Fp, s1: System)
    requires s1 == Step(fp, Start(SMALL), Emit(READY, true))
    ensures var s2 := Step(fp, s1, Attaching());
            var s3 := Step(fp, s2, Local(H.ReadCall(false, NOW)));
            var s4 := Step(fp, s3, WriteOut(ZERO, D.Delivered));
            var s5 := Step(fp, s4, Local(Switching()[0]));
            var s6 := Step(fp, s5, Local(Switching()[1]));
            var s7 := Step(fp, s6, Local(Switching()[2]));
            var s8 := Step(fp, s7, WriteOut(ZERO, D.Delivered));
            s8 == s1.(hardware := s8.hardware, received := [FIRST], sent := s8.sent) && Loaded(s8) && Armed(s8.hardware)
  {
    hide Step, Linked, Usable, ReadState, Start, WellFormed, Attaching;
    DriverAttaches(fp, s1);
    var m := ReadState(fp, FRESH_STATE, s1.frames[FIRST]).0;
    var s3 := Step(fp, Step(fp, s1, Attaching()), Local(H.ReadCall(false, NOW)));
    DriverSwitches(fp, Step(fp, s3, WriteOut(ZERO, D.Delivered)), m);
  }

  lemma UsableMeans(m: RobotState)
    requires Usable(m)
    ensures m.header.msgType == TYPE_ROBOT_STATE && m.header.version == PROTOCOL_VERSION
  {
  }

  lemma InitialHardware()
    ensures var h := H.Initial(1, 0, 0, 0, 0);
            && H.Sized(h) && h.driver == D.NEW_DRIVER && h.mode == CMD_STOP && |h.positions| == 1 && |h.positionCmds| == 1
            && h.digitalCmds == [] && h.analogCmds == []
  {
  }

  lemma AfterRead(fp: Fp, h: H.Hardware)
    requires H.Sized(h)
    ensures H.After(fp, h, H.ReadCall(false, NOW)) == H.Read(h, false, NOW).0
  {
    hide H.Read;
  }

  // ----- the run: cycles -----

  /** Between cycles, with both commands on the network and none in the controller's queue. */
  ghost predicate Scene(fp: Fp, s: System, epoch: nat, count: nat, mode: int) {
    && Inv(fp, s) && Loaded(s)
    && s.pending.None? && s.epoch == epoch && s.count == count && s.queued == [] && s.task.mode == mode
    && (mode == 0 ==> !s.task.command.isValid && 0 <= s.task.command.motionType <= 4)
  }

  function ActOn(deliver: seq<nat>, inRange: seq<Double> -> bool): Event {
    Act(deliver, inRange, Fine, Fine)
  }

  /** A cycle that sees nothing, from a loop head without a command. */
  lemma IdleAct(fp: Fp, s: System, inRange: seq<Double> -> bool)
    requires Inv(fp, s) && Loaded(s) && s.pending == Some(Pending(READY, true)) && s.queued == []
    requires s.task.mode <= 1 && !s.task.command.isValid && 0 <= s.task.command.motionType <= 4
    ensures Scene(fp, Step(fp, s, ActOn([], inRange)), s.epoch, s.count + 1, 0)
    ensures Step(fp, s, ActOn([], inRange)).hardware == s.hardware
  {
    hide Decide, Finish, Publish, Receive, FramesOk, SentOk, DriverOk;
    var e := ActOn([], inRange);
    var in_ := CycleInput(s, e);
    StepKeeps(fp, s, e);
    IdleDecides(fp, s.task, in_);
    StoppedFinishes(Decide(fp, s.task, in_), in_);
  }

  /** Publishing fails: the cycle is a hard stop, whatever else happens. */
  lemma FailedAct(fp: Fp, s: System, inRange: seq<Double> -> bool)
    requires Inv(fp, s) && Loaded(s) && s.pending == Some(Pending(READY, false))
    ensures Scene(fp, Step(fp, s, ActOn([], inRange)), s.epoch + 1, 0, 0)
  {
    hide Decide, Publish, Receive, FramesOk, SentOk, DriverOk, AtHead;
    var e := ActOn([], inRange);
    var in_ := CycleInput(s, e);
    StepKeeps(fp, s, e);
    ControlRuns.FrameOf(fp, s.task, in_, FRESH_STATE);
  }

  /** The stop command arrives in mode 0 with a number that looks fresh, and is accepted. */
  lemma StopAct(fp: Fp, s: System, inRange: seq<Double> -> bool)
    requires Inv(fp, s) && Loaded(s) && s.pending == Some(Pending(READY, true)) && s.queued == []
    requires s.task.mode == 0 && Age(s, FIRST) % WRAP <= 25
    ensures Scene(fp, Step(fp, s, ActOn([0], inRange)), s.epoch, s.count + 1, 1)
  {
    hide Decide, Finish, Publish, Receive, FramesOk, DriverOk, GoodFrame, CommandBytes;
    var e := ActOn([0], inRange);
    var in_ := CycleInput(s, e);
    StepKeeps(fp, s, e);
    assert GoodMessage(fp, s.sent[0], s.frames);
    assert in_.arrivals == [s.sent[0].bytes];
    CommandDecides(fp, s.task, in_, s.sent[0], s.frames);
    CountUp(s.count);
    DistanceModulo(s.count + 1, FIRST.count);
    StoppedFinishes(Decide(fp, s.task, in_), in_);
  }

  /** Publishing changes nothing else. */
  lemma SceneEmits(fp: Fp, s: System, epoch: nat, count: nat, mode: int, txOk: bool)
    requires Scene(fp, s, epoch, count, mode)
    ensures var r := Step(fp, s, Emit(READY, txOk));
            Inv(fp, r) && Loaded(r) && r.pending == Some(Pending(READY, txOk)) && Possible(s, Emit(READY, txOk))
            && r.task == s.task && r.epoch == s.epoch && r.count == s.count && r.queued == s.queued && r.sent == s.sent
            && r.hardware == s.hardware
  {
    hide Publish, FramesOk, SentOk, ControllerOk, DriverOk, Initialised, H.Sized;
    StepKeeps(fp, s, Emit(READY, txOk));
  }

  /** A run so far: it begins by publishing the first frame, and the clock is as it should be. */
  ghost predicate Begun(events: seq<Event>) {
    Clocked(events) && events != [] && events[0] == Emit(READY, true)
  }

  /** The run with one more event. */
  lemma Grow(fp: Fp, events: seq<Event>, e: Event) returns (more: seq<Event>)
    requires WellFormed(Start(SMALL)) && ClockOk(e) && Clocked(events)
    requires if events == [] then e == Emit(READY, true) else Begun(events)
    ensures more == events + [e] && Begun(more)
    ensures End(fp, Start(SMALL), more) == Step(fp, End(fp, Start(SMALL), events), e)
    ensures SystemAt(fp, Start(SMALL), more, |events|) == End(fp, Start(SMALL), events)
    ensures ActsIn(more) == ActsIn(events) + if e.Act? then 1 else 0
  {
    hide Step, WellFormed, ClockOk, Start, ActsIn;
    Extend(fp, Start(SMALL), events, e);
    more := events + [e];
  }

  lemma Opening(fp: Fp, inRange: seq<Double> -> bool) returns (events: seq<Event>)
    ensures WellFormed(Start(SMALL)) && Begun(events) && ActsIn(events) == 1
    ensures Scene(fp, End(fp, Start(SMALL), events), 0, 1, 0) && Armed(End(fp, Start(SMALL), events).hardware)
  {
    hide Step, WellFormed, Start, Attaching, Scene, Inv, Loaded, Begun, ActsIn, SystemAt, H.After, H.Read, Armed;
    StartEmpty(SMALL);
    AtTheStart(fp);
    events := Grow(fp, [], Emit(READY, true));
    var s1 := End(fp, Start(SMALL), events);
    DriverActs(fp, s1);
    events := Grow(fp, events, Attaching());
    events := Grow(fp, events, Local(H.ReadCall(false, NOW)));
    events := Grow(fp, events, WriteOut(ZERO, D.Delivered));
    events := Grow(fp, events, Local(Switching()[0]));
    events := Grow(fp, events, Local(Switching()[1]));
    events := Grow(fp, events, Local(Switching()[2]));
    events := Grow(fp, events, WriteOut(ZERO, D.Delivered));
    FirstTask(fp, s1);
    InvAlways(fp, SMALL, events, |events|);
    IdleAct(fp, End(fp, Start(SMALL), events), inRange);
    events := Grow(fp, events, ActOn([], inRange));
  }

  lemma AtTheStart(fp: Fp)
    requires WellFormed(Start(SMALL))
    ensures ActsIn([]) == 0 && End(fp, Start(SMALL), []) == Start(SMALL)
    ensures ClockOk(Attaching()) && !Attaching().Act?
  {
  }

  lemma FirstTask(fp: Fp, s1: System)
    requires WellFormed(Start(SMALL)) && s1 == Step(fp, Start(SMALL), Emit(READY, true))
    ensures s1.task == INITIAL_TASK && s1.pending == Some(Pending(READY, true)) && s1.queued == []
    ensures s1.epoch == 0 && s1.count == 0
  {
    hide Publish;
  }

  /** Any number of idle cycles. */
  lemma {:induction false} Idling(fp: Fp, inRange: seq<Double> -> bool, n: nat) returns (events: seq<Event>)
    ensures WellFormed(Start(SMALL)) && Begun(events) && ActsIn(events) == n + 1
    ensures Scene(fp, End(fp, Start(SMALL), events), 0, n + 1, 0)
  {
    hide Step, WellFormed, Start, Inv, Loaded, Clocked, ActsIn, End;
    if n == 0 {
      events := Opening(fp, inRange);
    } else {
      events := Idling(fp, inRange, n - 1);
      SceneEmits(fp, End(fp, Start(SMALL), events), 0, n, 0, true);
      events := Grow(fp, events, Emit(READY, true));
      IdleAct(fp, End(fp, Start(SMALL), events), inRange);
      events := Grow(fp, events, ActOn([], inRange));
    }
  }

  /** Then a hard stop, and the old stop command accepted after it. */
  lemma Restarted(fp: Fp, inRange: seq<Double> -> bool, n: nat) returns (events: seq<Event>)
    ensures WellFormed(Start(SMALL)) && Begun(events) && ActsIn(events) == n + 3
    ensures Scene(fp, End(fp, Start(SMALL), events), 1, 1, 1)
  {
    hide Step, WellFormed, Start, Inv, Loaded, Clocked, ActsIn, End;
    events := Idling(fp, inRange, n);
    SceneEmits(fp, End(fp, Start(SMALL), events), 0, n + 1, 0, false);
    events := Grow(fp, events, Emit(READY, false));
    FailedAct(fp, End(fp, Start(SMALL), events), inRange);
    events := Grow(fp, events, ActOn([], inRange));
    SceneEmits(fp, End(fp, Start(SMALL), events), 1, 0, 0, true);
    events := Grow(fp, events, Emit(READY, true));
    StopAct(fp, End(fp, Start(SMALL), events), inRange);
    events := Grow(fp, events, ActOn([0], inRange));
  }

  /** The event acts on the second command ever sent, which answers the first frame: it moves there. */
  ghost predicate MovesOnFirst(fp: Fp, s: System, e: Event)
    requires WellFormed(s)
  {
    && |s.sent| == 2 && s.sent[1].answers == Some(FIRST)
    && e.Act? && Possible(s, e) && Current(s, e.deliver) == Some(1)
    && SyncMove(Narrowed(fp, s.sent[1].command.reference)) in Cycle(fp, s.task, CycleInput(s, e)).actions
  }

  /** From mode 1 and with a number that looks fresh, the old position command moves the arm. */
  lemma OldPositionMoves(fp: Fp, events: seq<Event>, epoch: nat, count: nat, inRange: seq<Double> -> bool)
    returns (more: seq<Event>)
    requires WellFormed(Start(SMALL)) && Begun(events) && Scene(fp, End(fp, Start(SMALL), events), epoch, count, 1)
    requires count % WRAP <= 25 && inRange(Narrowed(fp, ZERO6))
    ensures Begun(more) && ActsIn(more) == ActsIn(events) + 1
    ensures var s := SystemAt(fp, Start(SMALL), more, |more| - 1);
            s.epoch == epoch && s.count == count && MovesOnFirst(fp, s, more[|more| - 1])
  {
    hide Step, Start, FramesOk, SentOk, ControllerOk, DriverOk, WellFormed, ActsIn, Cycle, Clocked, H.Write, H.After;
    SceneEmits(fp, End(fp, Start(SMALL), events), epoch, count, 1, true);
    var grown := Grow(fp, events, Emit(READY, true));
    var s := End(fp, Start(SMALL), grown);
    DeliveredPositionMoves(fp, s, ActOn([1], inRange), 1);
    more := Grow(fp, grown, ActOn([1], inRange));
  }

  /**
   Without its condition the age bound is false: for every n there is a run whose last cycle moves the
   arm to a position answering the frame published by the very first event, more than n cycles ago.
   A hard stop has come in between, and the numbers of both commands pass for fresh ones.
   */
  lemma StaleMove(fp: Fp, inRange: seq<Double> -> bool, n: nat) returns (events: seq<Event>)
    requires inRange(Narrowed(fp, ZERO6))
    ensures events != [] && Clocked(events) && events[0].Emit? && ActsIn(events) > n
    ensures WellFormed(Start(SMALL)) && Tag(Start(SMALL).epoch, Start(SMALL).count + 1) == FIRST
    ensures var s := SystemAt(fp, Start(SMALL), events, |events| - 1);
            s.epoch == 1 && MovesOnFirst(fp, s, events[|events| - 1])
  {
    hide Step, Scene, Clocked, WellFormed, ActsIn, MovesOnFirst, SystemAt, End;
    events := Restarted(fp, inRange, n);
    events := OldPositionMoves(fp, events, 1, 1, inRange);
  }

  /** The stop command accepted when the numbering has come round m times since the first frame. */
  lemma ComeRound(fp: Fp, inRange: seq<Double> -> bool, m: nat) returns (events: seq<Event>)
    requires m > 0
    ensures WellFormed(Start(SMALL)) && Begun(events) && Scene(fp, End(fp, Start(SMALL), events), 0, WRAP * m + 1, 1)
  {
    hide Step, WellFormed, Start, Inv, Loaded, Clocked, ActsIn, End;
    events := Idling(fp, inRange, WRAP * m - 1);
    SceneEmits(fp, End(fp, Start(SMALL), events), 0, WRAP * m, 0, true);
    events := Grow(fp, events, Emit(READY, true));
    ModuloShift(0, m);
    StopAct(fp, End(fp, Start(SMALL), events), inRange);
    events := Grow(fp, events, ActOn([0], inRange));
  }

  /**
   The other half of the condition: with no hard stop at all, for every m > 0 there is a run whose last
   cycle moves the arm to a position answering the first frame when 65536 * m + 1 cycles have
   published since.
   */
  lemma StaleMoveInEpoch(fp: Fp, inRange: seq<Double> -> bool, m: nat) returns (events: seq<Event>)
    requires inRange(Narrowed(fp, ZERO6)) && m > 0
    ensures events != [] && Clocked(events) && events[0].Emit?
    ensures WellFormed(Start(SMALL)) && Tag(Start(SMALL).epoch, Start(SMALL).count + 1) == FIRST
    ensures var s := SystemAt(fp, Start(SMALL), events, |events| - 1);
            s.epoch == 0 && Age(s, FIRST) == WRAP * m + 1 && MovesOnFirst(fp, s, events[|events| - 1])
  {
    hide Step, Scene, Clocked, WellFormed, ActsIn, MovesOnFirst, SystemAt, End;
    events := ComeRound(fp, inRange, m);
    ModuloShift(1, m);
    events := OldPositionMoves(fp, events, 0, WRAP * m + 1, inRange);
  }

  // ----- a fault that is not heard -----

  /** A frame published in mode 0 shows control mode 0. */
  lemma StoppedEmits(fp: Fp, s: System)
    requires Inv(fp, s) && s.pending.None? && s.task.mode == 0
    ensures var r := Step(fp, s, Emit(READY, true));
            Tag(s.epoch, s.count + 1) in r.frames && ControlByte(r.frames[Tag(s.epoch, s.count + 1)]) == CMD_INVALID
  {
    hide Publish, FramesOk, SentOk, QueueOk, DriverOk, AtHead, H.Sized;
    FrameShowsMode(fp, s.task, READY, true);
    ControlRuns.PublishedFrame(fp, s.task, PublishInput(READY, true), FRESH_STATE);
  }

  /**
   Without a read since the connection the fault handshake fails: a run whose last event is a position
   command in answer to a frame that shows control mode 0, received while connecting.
   */
  lemma FaultUnheard(fp: Fp, inRange: seq<Double> -> bool) returns (events: seq<Event>)
    ensures WellFormed(Start(SMALL)) && Clocked(events)
    ensures var s := End(fp, Start(SMALL), events);
            |s.sent| == 3 && s.sent[2].command.commandType == CMD_JOINT_POSITION && s.sent[2].answers == Some(Tag(0, 2))
            && Tag(0, 2) in s.frames && ControlByte(s.frames[Tag(0, 2)]) == CMD_INVALID
  {
    hide Step, Start, Initialised, H.Sized, FramesOk, SentOk, ControllerOk, DriverOk, Numeric, ActsIn, Clocked, End, H.ShowsFault;
    events := Opening(fp, inRange);
    var s := End(fp, Start(SMALL), events);
    SceneEmits(fp, s, 0, 1, 0, true);
    StoppedEmits(fp, s);
    events := Grow(fp, events, Emit(READY, true));
    ConnectionHandshake(fp, End(fp, Start(SMALL), events), Tag(0, 2), NOW, false, ZERO);
    events := Grow(fp, events, AttachOn(Tag(0, 2), NOW));
    events := Grow(fp, events, WriteOut(ZERO, D.Delivered));
  }
}
