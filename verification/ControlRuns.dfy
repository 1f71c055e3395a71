/**
 Properties of whole runs of the control task: motion-library typestate, actuation safety, the
 restart interlock, the watchdog's response time and what the published frames say.
 */
module ControlRuns {
  import opened Wire
  import opened Messages
  import opened Val3Codec
  import opened StateUpdate
  import opened Sequence
  import opened SocketRead
  import opened ControlLoop
  import opened ControlInvariants
  import CrossCodec

  // ----- motion library -----

  lemma ExecuteObeys(d: Task, in_: Input)
    requires Decided(d, in_.reading.settled)
    ensures var m := Execute(d, in_);
            && Replay(d.sync, m.actions) == Some(m.sync)
            && (d.mode != 2 ==> m.sync == NotStarted)
            && (d.mode == 2 && !m.error ==> m.sync == Running)
            && (d.mode == 2 ==> (d.prevMode == 1 <==> d.sync == NotStarted))
  {
    hide Replay, JointPosition;
    ReplayTail(NotStarted);
    ReplayStop(d.sync);
    NothingReplayed(d.sync);
    ReplayReset(d.sync);
    var stop := if d.prevMode == 2 then StopJointPosition(d.sync).actions else [];
    ReplayConcat(d.sync, stop, [StopMove, ResetMotion]);
    if d.mode == 2 {
      JointPositionObeys(d.stateMsg.state.arm, d.command, d.sync, d.prevMode == 1, in_);
    }
  }

  lemma ReplayReset(sync: Sync)
    ensures Replay(sync, [ResetMotion]) == Some(sync)
  {
    assert [ResetMotion][1..] == [];
  }

  lemma FinishObeys(d: Task, in_: Input)
    requires Decided(d, in_.reading.settled)
    ensures Replay(d.sync, Finish(d, in_).2) == Some(Finish(d, in_).0.sync)
  {
    hide Replay, Execute;
    ExecuteObeys(d, in_);
    var m := Execute(d, in_);
    var after := if d.mode == 2 then StopJointPosition(m.sync) else Motion(m.sync, [], false);
    ReplayStop(m.sync);
    NothingReplayed(m.sync);
    ReplayConcat(m.sync, after.actions, [StopMove, ResetMotion]);
    ReplayTail(after.sync);
    ReplayConcat(d.sync, m.actions, after.actions + [StopMove, ResetMotion]);
    assert m.actions + [] == m.actions;
  }

  /** One cycle, started from any loop head, uses the library by its rule. */
  lemma CycleObeysLibrary(fp: Fp, t: Task, in_: Input)
    requires AtHead(t)
    ensures Replay(t.sync, Cycle(fp, t, in_).actions) == Some(Cycle(fp, t, in_).task.sync)
  {
    hide Replay, Decide, Finish, Publish, Receive;
    DecideKeeps(fp, t, in_);
    DecideTraces(fp, t, in_);
    FinishObeys(Decide(fp, t, in_), in_);
  }

  lemma HeadSync(fp: Fp, run: seq<Input>, i: nat)
    requires i <= |run|
    ensures TaskAt(fp, run, i).sync == Running <==> TaskAt(fp, run, i).mode == 2
  {
    hide TaskAt;
    HeadInvariant(fp, run, i);
  }

  /** Every action of the first `i` cycles, in order. */
  function Issued(fp: Fp, run: seq<Input>, i: nat): seq<Action>
    requires i <= |run|
  {
    if i == 0 then [] else Issued(fp, run, i - 1) + CycleAt(fp, run, i - 1).actions
  }

  /**
   Over any run the library is never misused: movejSync is begun only when not started, moved and
   ended only when started, and at each loop head it is started exactly in mode 2.
   */
  lemma {:induction false} RunObeysLibrary(fp: Fp, run: seq<Input>, i: nat)
    requires i <= |run|
    ensures Replay(NotStarted, Issued(fp, run, i)) == Some(TaskAt(fp, run, i).sync)
    ensures TaskAt(fp, run, i).sync == Running <==> TaskAt(fp, run, i).mode == 2
  {
    hide Replay, Cycle, AtHead;
    HeadSync(fp, run, i);
    if i == 0 {
      NothingReplayed(NotStarted);
    } else {
      RunObeysLibrary(fp, run, i - 1);
      HeadInvariant(fp, run, i - 1);
      CycleObeysLibrary(fp, TaskAt(fp, run, i - 1), run[i - 1]);
      ReplayConcat(NotStarted, Issued(fp, run, i - 1), CycleAt(fp, run, i - 1).actions);
    }
  }

  /** The branch of position control that finds movejSync already started on a first call is never reached. */
  lemma NeverStartedTwice(fp: Fp, run: seq<Input>, k: nat)
    requires k < |run|
    ensures var d := Decide(fp, TaskAt(fp, run, k), run[k]);
            d.mode == 2 ==> (d.prevMode == 1 <==> d.sync == NotStarted)
  {
    hide Decide, Execute;
    HeadInvariant(fp, run, k);
    DecideKeeps(fp, TaskAt(fp, run, k), run[k]);
    ExecuteObeys(Decide(fp, TaskAt(fp, run, k), run[k]), run[k]);
  }

  /** A cycle that continues position control finds movejSync running. */
  lemma LibraryReady(fp: Fp, t: Task, in_: Input)
    requires AtHead(t)
    ensures var d := Decide(fp, t, in_);
            d.mode == 2 && d.prevMode != 1 ==> d.sync == Running
  {
    hide Decide, Execute;
    DecideKeeps(fp, t, in_);
    ExecuteObeys(Decide(fp, t, in_), in_);
  }

  // ----- actuation -----

  lemma JointPositionMoves(arm: Arm, c: Val3Command, sync: Sync, first: bool, in_: Input, target: Vec6)
    requires SyncMove(target) in JointPosition(arm, c, sync, first, in_).actions
    ensures arm.motionPossible && c.isValid && c.motionType == 2 && c.motionData == target && in_.inRange(target)
  {
  }

  lemma OnlyPositionControlMoves(t: Task, in_: Input, target: Vec6)
    ensures SyncMove(target) !in HardStopActions(t)
    ensures t.mode != 2 ==> SyncMove(target) !in Execute(t, in_).actions
  {
  }

  lemma FinishMovesSafely(d: Task, in_: Input, target: Vec6)
    requires Decided(d, in_.reading.settled)
    requires SyncMove(target) in Finish(d, in_).2
    ensures d.mode == 2 && !d.error && d.stateMsg.state.arm.motionPossible
    ensures d.command.isValid && d.command.motionType == 2 && d.command.motionData == target
    ensures in_.inRange(target) && d.delay <= Limit(!in_.reading.settled)
  {
    hide JointPosition, HardStopActions, Execute;
    forall t: Task {
      OnlyPositionControlMoves(t, in_, target);
    }
    assert SyncMove(target) in Execute(d, in_).actions;
    PositionControlIsCalled(d, in_);
    JointPositionMoves(d.stateMsg.state.arm, d.command, d.sync, d.prevMode == 1, in_, target);
  }

  lemma PositionControlIsCalled(d: Task, in_: Input)
    requires d.mode == 2
    ensures Execute(d, in_) == JointPosition(d.stateMsg.state.arm, d.command, d.sync, d.prevMode == 1, in_)
  {
    hide JointPosition;
  }

  lemma CycleMovesSafely(fp: Fp, t: Task, in_: Input, target: Vec6)
    requires AtHead(t) && SyncMove(target) in Cycle(fp, t, in_).actions
    ensures var d := Decide(fp, t, in_);
            && d.mode == 2 && in_.reading.powered && in_.reading.esStatus == 0
            && d.command.isValid && d.command.motionType == 2 && d.command.motionData == target
            && in_.inRange(target)
            && d.delay == (d.sequence - d.header.sequence) % WRAP <= Limit(!in_.reading.settled)
  {
    DecideKeeps(fp, t, in_);
    DecideTraces(fp, t, in_);
    hide Decide, Finish, Publish, Receive;
    FinishMovesSafely(Decide(fp, t, in_), in_, target);
  }

  /**
   Every position ever handed to movejSync in any run: motion is possible, the command is a valid
   position command, the target is the commanded one and in range, and the command is no older than
   25 cycles, 5 if the arm is moving.
   */
  lemma MovesAreSafe(fp: Fp, run: seq<Input>, k: nat, target: Vec6)
    requires k < |run| && SyncMove(target) in CycleAt(fp, run, k).actions
    ensures var d := Decide(fp, TaskAt(fp, run, k), run[k]);
            && d.mode == 2 && run[k].reading.powered && run[k].reading.esStatus == 0
            && d.command.isValid && d.command.motionType == 2 && d.command.motionData == target
            && run[k].inRange(target)
            && d.delay == (d.sequence - d.header.sequence) % WRAP <= Limit(!run[k].reading.settled)
  {
    hide TaskAt, AtHead, Decide, Cycle;
    HeadInvariant(fp, run, k);
    NextHead(fp, run, k);
    CycleMovesSafely(fp, TaskAt(fp, run, k), run[k], target);
  }

  /** A cycle that does not end in position control has stopped the arm as its last act. */
  lemma OtherCyclesStop(fp: Fp, run: seq<Input>, k: nat)
    requires k < |run| && TaskAt(fp, run, k + 1).mode != 2
    ensures var actions := CycleAt(fp, run, k).actions;
            |actions| >= 2 && actions[|actions| - 2..] == [StopMove, ResetMotion]
  {
    HeadInvariant(fp, run, k);
    DecideKeeps(fp, TaskAt(fp, run, k), run[k]);
    hide Decide;
    FinishStops(Decide(fp, TaskAt(fp, run, k), run[k]), run[k]);
  }

  lemma FinishStops(d: Task, in_: Input)
    requires Decided(d, in_.reading.settled) && Finish(d, in_).0.mode != 2
    ensures var actions := Finish(d, in_).2;
            |actions| >= 2 && actions[|actions| - 2..] == [StopMove, ResetMotion]
  {
    hide JointPosition;
  }

  // ----- exactly when a cycle is a hard stop -----

  /** What a cycle has to go by: the command just read, or the one held; `bad` is a datagram the decoder refuses. */
  datatype InHand = InHand(header: MessageHeader, command: Val3Command, unreadable: bool, bad: bool)

  function Sighted(fp: Fp, t: Task, in_: Input): InHand
    requires Initialised(t)
  {
    var read := ReadData(t.queue + in_.arrivals, t.rx);
    if read.error || !read.newData then InHand(t.header, t.command, read.error, false)
    else
      var (header, command, bad) := DecodeRobotCommandMsg(fp, t.header, t.command, read.data);
      InHand(header, command, false, bad)
  }

  /** The mode the command in hand asks for; 0 when there is none. */
  function Asked(c: Val3Command): int {
    if c.isValid then c.motionType else 0
  }

  /** The frame is refused, or the datagram, or the command is older than the limit in force. */
  predicate LinkFails(fp: Fp, t: Task, in_: Input)
    requires Initialised(t)
  {
    var s := Sighted(fp, t, in_);
    || !in_.txOk || s.unreadable || s.bad
    || (s.command.isValid && (t.sequence + 1 - s.header.sequence) % WRAP > Limit(!in_.reading.settled))
  }

  /** The mode asked for is not stop or position, cannot be entered from the present one, or not while the arm moves. */
  predicate ModeRefused(t: Task, asked: int, settled: bool) {
    || asked > 2
    || (asked != t.mode && asked != 1 && t.mode != 1)
    || (asked != 1 && t.mode == 1 && !settled)
  }

  /** Position control cannot go on: no motion possible, target out of range, or movejSync in its error state. */
  predicate MotionFails(c: Val3Command, in_: Input) {
    !in_.reading.powered || in_.reading.esStatus != 0 || !in_.inRange(c.motionData) || in_.after == Faulted
  }

  predicate MustStop(fp: Fp, t: Task, in_: Input)
    requires Initialised(t)
  {
    var c := Sighted(fp, t, in_).command;
    || LinkFails(fp, t, in_)
    || ModeRefused(t, Asked(c), in_.reading.settled)
    || (Asked(c) == 2 && MotionFails(c, in_))
  }

  lemma ReceivedExactly(fp: Fp, p: Task, t: Task, in_: Input)
    requires AtHead(t) && Initialised(p) && p.header == t.header && p.command == t.command && p.active == t.active
    requires p.queue == t.queue && p.rx == t.rx
    ensures var s := Sighted(fp, t, in_);
            var q := Receive(fp, p, in_.arrivals).0;
            && (q.error <==> p.error || s.unreadable || s.bad)
            && (!q.error ==> q.header == s.header && q.command == s.command && (s.command.isValid <==> q.active))
            && 0 <= s.header.sequence < WRAP
            && (!s.bad ==> s.command.motionType >= 0 && (s.command.isValid || s.command.motionType <= 4))
            && q.sequence == p.sequence && q.prevMode == p.prevMode && q.stateMsg == p.stateMsg && q.sync == p.sync
            && 0 <= q.header.sequence < WRAP
  {
    Decoded(fp, t.header, t.command, ReadData(t.queue + in_.arrivals, t.rx).data);
    hide DecodeRobotCommandMsg, ReadData;
  }

  /** Watchdog, mode selection and interlocks raise an error exactly for an old command or a refused mode. */
  lemma SettledExactly(q: Task)
    requires Initialised(q) && 0 <= q.sequence < WRAP && 0 <= q.header.sequence < WRAP
    requires !q.error ==> (q.command.isValid <==> q.active) && q.command.motionType >= 0
    requires !q.error && !q.command.isValid ==> q.command.motionType <= 4
    ensures var d := Interlock(ExtractMode(CheckStream(q)));
            var moving := q.stateMsg.state.arm.inMotion;
            && (q.error ==> d.error)
            && (!q.error ==>
                  (d.error <==>
                    || (q.command.isValid && (q.sequence - q.header.sequence) % WRAP > Limit(moving))
                    || Asked(q.command) > 4
                    || (Asked(q.command) != q.prevMode && Asked(q.command) != 1 && q.prevMode != 1)
                    || (Asked(q.command) != 1 && q.prevMode == 1 && moving)))
            && (!d.error ==> d.mode == Asked(q.command) && d.command == q.command)
            && d.stateMsg == q.stateMsg && d.prevMode == q.prevMode && d.sync == q.sync
  {
    hide SequenceDelay, Trips;
    TripsExactly(q.sequence, q.header.sequence, Limit(q.stateMsg.state.arm.inMotion));
  }

  lemma FinishExactly(d: Task, in_: Input)
    requires Decided(d, in_.reading.settled) && d.stateMsg.state.arm == ArmOf(in_.reading)
    ensures Finish(d, in_).1 <==> d.error || d.mode > 2 || (d.mode == 2 && MotionFails(d.command, in_))
  {
    hide HardStop, HardStopActions;
  }

  lemma DecidesExactly(fp: Fp, t: Task, in_: Input)
    requires AtHead(t)
    ensures var d := Decide(fp, t, in_);
            var c := Sighted(fp, t, in_).command;
            && (d.error || d.mode > 2 <==> LinkFails(fp, t, in_) || ModeRefused(t, Asked(c), in_.reading.settled))
            && (!d.error ==> d.mode == Asked(c) && d.command == c)
            && d.stateMsg.state.arm == ArmOf(in_.reading)
  {
    hide Publish, Receive, CheckStream, ExtractMode, Interlock, OutgoingMsg, DecodeRobotCommandMsg, ReadData, Sighted;
    var p := Publish(fp, t, in_).0;
    Published(fp, t, in_);
    ReceivedExactly(fp, p, t, in_);
    var q := Receive(fp, p, in_.arrivals).0;
    SettledExactly(q);
    NextDistance(t.sequence, Sighted(fp, t, in_).header.sequence);
  }

  lemma NextDistance(sequence: int, echo: int)
    requires 0 <= sequence < WRAP
    ensures ((sequence + 1) % WRAP - echo) % WRAP == (sequence + 1 - echo) % WRAP
  {
    if sequence + 1 == WRAP {
      ModuloShift(-echo, 1);
    }
  }

  lemma CycleStopsExactly(fp: Fp, t: Task, in_: Input)
    requires AtHead(t)
    ensures Cycle(fp, t, in_).hardStop <==> MustStop(fp, t, in_)
  {
    assert Initialised(t);
    hide Decide, Finish, Publish, Receive, Sighted, LinkFails, ModeRefused, MotionFails, AtHead, Decided;
    DecideKeeps(fp, t, in_);
    DecidesExactly(fp, t, in_);
    FinishExactly(Decide(fp, t, in_), in_);
  }

  /**
   In every run a cycle is a hard stop exactly when its frame is refused, its datagram or its command
   is unusable or too old, the mode asked for is unsupported or may not be entered, or position
   control cannot go on. Nothing else raises an alarm.
   */
  lemma HardStopsExactly(fp: Fp, run: seq<Input>, k: nat)
    requires k < |run|
    ensures CycleAt(fp, run, k).hardStop <==> MustStop(fp, TaskAt(fp, run, k), run[k])
  {
    hide Cycle, TaskAt, AtHead, MustStop;
    HeadInvariant(fp, run, k);
    NextHead(fp, run, k);
    CycleStopsExactly(fp, TaskAt(fp, run, k), run[k]);
  }

  // ----- restart interlock -----

  /** A datagram the decoder takes for a STOP command. */
  predicate IsStopFrame(rx: RxBuffer) {
    U16At(rx, 0) == 43981 && rx[2] == 1 && rx[3] == 2 && rx[12] == 1
  }

  /** The cycle received a STOP command and took it: no hard stop, and it ends in mode 1 holding the command. */
  predicate AcceptsStop(o: Outcome) {
    o.received && !o.hardStop && o.task.mode == 1 && o.task.command.isValid && IsStopFrame(o.task.rx)
  }

  /** From mode 0 a cycle ends in mode 0 or accepts a STOP. */
  lemma ModeZeroStep(fp: Fp, t: Task, in_: Input)
    requires AtHead(t) && t.mode == 0
    ensures var o := Cycle(fp, t, in_);
            o.task.mode == 0 || AcceptsStop(o)
  {
    DecideKeeps(fp, t, in_);
    DecideTraces(fp, t, in_);
    var d := Decide(fp, t, in_);
    FinishRestores(d, in_);
    hide Decide, Finish, Publish, Receive;
  }

  /** A change into mode 2 comes from mode 1, by a command received in that very cycle, with the arm settled. */
  lemma ModeTwoEntry(fp: Fp, t: Task, in_: Input)
    requires AtHead(t) && t.mode != 2 && Cycle(fp, t, in_).task.mode == 2
    ensures t.mode == 1 && in_.reading.settled && Cycle(fp, t, in_).received
  {
    DecideKeeps(fp, t, in_);
    DecideTraces(fp, t, in_);
    var d := Decide(fp, t, in_);
    FinishRestores(d, in_);
    hide Decide, Finish, Publish, Receive;
  }

  /** Once a cycle has ended in mode 0, every later one ends in mode 0 until one accepts a STOP. */
  lemma {:induction false} StaysStopped(fp: Fp, run: seq<Input>, i: nat, j: nat)
    requires i <= j <= |run| && TaskAt(fp, run, i).mode == 0
    requires forall k :: i <= k < j ==> !AcceptsStop(CycleAt(fp, run, k))
    ensures TaskAt(fp, run, j).mode == 0
    decreases j
  {
    hide Cycle, AcceptsStop;
    if i < j {
      StaysStopped(fp, run, i, j - 1);
      HeadInvariant(fp, run, j - 1);
      ModeZeroStep(fp, TaskAt(fp, run, j - 1), run[j - 1]);
      assert !AcceptsStop(CycleAt(fp, run, j - 1));
    }
  }

  /** The last cycle before loop head j that entered mode 2. */
  lemma {:induction false} LastEntry(fp: Fp, run: seq<Input>, i: nat, j: nat) returns (m: nat)
    requires i < j <= |run| && TaskAt(fp, run, i).mode == 0 && TaskAt(fp, run, j).mode == 2
    ensures i <= m < j && TaskAt(fp, run, m).mode == 1 && TaskAt(fp, run, m + 1).mode == 2
    ensures run[m].reading.settled && CycleAt(fp, run, m).received
    decreases j
  {
    hide Cycle;
    if TaskAt(fp, run, j - 1).mode == 2 {
      m := LastEntry(fp, run, i, j - 1);
    } else {
      m := j - 1;
      HeadInvariant(fp, run, m);
      ModeTwoEntry(fp, TaskAt(fp, run, m), run[m]);
    }
  }

  /**
   No position cycle follows a hard stop (or any cycle that ended in mode 0) unless, between them,
   one cycle accepted a STOP received after it and a later one started position control with the
   arm settled.
   */
  lemma RestartInterlock(fp: Fp, run: seq<Input>, i: nat, j: nat)
    requires i < j < |run|
    requires CycleAt(fp, run, i).hardStop || TaskAt(fp, run, i + 1).mode == 0
    requires TaskAt(fp, run, j + 1).mode == 2
    ensures exists k, m :: i < k < m <= j
              && AcceptsStop(CycleAt(fp, run, k))
              && TaskAt(fp, run, m).mode == 1 && TaskAt(fp, run, m + 1).mode == 2
              && run[m].reading.settled && CycleAt(fp, run, m).received
  {
    hide Cycle, CycleAt, TaskAt, AcceptsStop;
    HardStopEndsInZero(fp, run, i);
    NextHead(fp, run, i);
    var m := LastEntry(fp, run, i + 1, j + 1);
    if forall k :: i + 1 <= k < m ==> !AcceptsStop(CycleAt(fp, run, k)) {
      StaysStopped(fp, run, i + 1, m);
      assert false;
    }
    var k :| i + 1 <= k < m && AcceptsStop(CycleAt(fp, run, k));
  }

  lemma HardStopEndsInZero(fp: Fp, run: seq<Input>, k: nat)
    requires k < |run|
    ensures var o := CycleAt(fp, run, k);
            o.hardStop ==> o.task.mode == 0 && !o.task.command.isValid && o.task.sequence == 0 && o.task.queue == []
  {
    HeadInvariant(fp, run, k);
    DecideKeeps(fp, TaskAt(fp, run, k), run[k]);
    FinishRestores(Decide(fp, TaskAt(fp, run, k), run[k]), run[k]);
    hide Decide, Finish;
  }

  // ----- watchdog -----

  /** A cycle without a new command: position control ends, or the delay grows by one and is still in its limit. */
  lemma SilentStep(fp: Fp, t: Task, in_: Input)
    requires AtHead(t) && t.mode != 1 && !Cycle(fp, t, in_).received
    ensures var e := Cycle(fp, t, in_).task;
            e.mode == 0 || (t.mode == 2 && e.mode == 2 && e.delay == t.delay + 1 <= Limit(!in_.reading.settled))
  {
    hide Decide, Finish, Publish, Receive, OutgoingMsg, DecodeRobotCommandMsg, ArmOf;
    DecideKeeps(fp, t, in_);
    DecideTraces(fp, t, in_);
    var d := Decide(fp, t, in_);
    FinishRestores(d, in_);
    if Finish(d, in_).0.mode != 0 {
      assert d.command == t.command && d.header == t.header && t.mode == 2;
      AgeByOne(t.sequence, t.header.sequence);
    }
  }

  lemma AgeByOne(sequence: int, echo: int)
    requires 0 <= sequence < WRAP && 0 <= echo < WRAP && (sequence - echo) % WRAP <= 25
    ensures ((sequence + 1) % WRAP - echo) % WRAP == (sequence - echo) % WRAP + 1
  {
    var d := (sequence - echo) % WRAP;
    assert sequence - echo == d || sequence - echo == d - WRAP;
    if sequence == WRAP - 1 {
      assert (sequence + 1) % WRAP == 0;
      assert (0 - echo) % WRAP == (0 - echo + WRAP) % WRAP;
    }
  }

  /** While no command arrives, position control either has ended or has a delay that counts the cycles. */
  lemma {:induction false} SilentRun(fp: Fp, run: seq<Input>, i: nat, n: nat)
    requires i + n <= |run| && TaskAt(fp, run, i).mode == 2
    requires forall k :: i <= k < i + n ==> !CycleAt(fp, run, k).received
    ensures var t := TaskAt(fp, run, i + n);
            t.mode == 0 || (t.mode == 2 && t.delay == TaskAt(fp, run, i).delay + n
                            && (n > 0 ==> t.delay <= Limit(!run[i + n - 1].reading.settled)))
  {
    hide Cycle;
    if n > 0 {
      SilentRun(fp, run, i, n - 1);
      HeadInvariant(fp, run, i + n - 1);
      assert !CycleAt(fp, run, i + n - 1).received;
      SilentStep(fp, TaskAt(fp, run, i + n - 1), run[i + n - 1]);
    }
  }

  /**
   Bounded response: if no command arrives for n cycles after a loop head in mode 2, the mode is 0 and
   movejSync is ended as soon as the delay plus n exceeds 25 (5 if the arm moves in the last of them),
   so after 26 cycles at the latest, 6 while moving; the numbering may wrap on the way.
   */
  lemma WatchdogResponds(fp: Fp, run: seq<Input>, i: nat, n: nat)
    requires i + n <= |run| && TaskAt(fp, run, i).mode == 2 && n > 0
    requires forall k :: i <= k < i + n ==> !CycleAt(fp, run, k).received
    requires TaskAt(fp, run, i).delay + n > Limit(!run[i + n - 1].reading.settled)
    ensures TaskAt(fp, run, i + n).mode == 0 && TaskAt(fp, run, i + n).sync == NotStarted
  {
    hide Cycle, CycleAt, TaskAt;
    SilentRun(fp, run, i, n);
    HeadSync(fp, run, i + n);
  }

  lemma WatchdogDeadlines(fp: Fp, run: seq<Input>, i: nat)
    requires i <= |run| && TaskAt(fp, run, i).mode == 2
    ensures i + 26 <= |run| && (forall k :: i <= k < i + 26 ==> !CycleAt(fp, run, k).received)
            ==> TaskAt(fp, run, i + 26).mode == 0 && TaskAt(fp, run, i + 26).sync == NotStarted
    ensures i + 6 <= |run| && (forall k :: i <= k < i + 6 ==> !CycleAt(fp, run, k).received && !run[k].reading.settled)
            ==> TaskAt(fp, run, i + 6).mode == 0 && TaskAt(fp, run, i + 6).sync == NotStarted
  {
    hide Cycle, CycleAt, TaskAt;
    HeadInvariant(fp, run, i);
    hide AtHead;
    if i + 26 <= |run| && (forall k :: i <= k < i + 26 ==> !CycleAt(fp, run, k).received) {
      WatchdogResponds(fp, run, i, 26);
    }
    if i + 6 <= |run| && (forall k :: i <= k < i + 6 ==> !CycleAt(fp, run, k).received && !run[k].reading.settled) {
      WatchdogResponds(fp, run, i, 6);
    }
  }

  // ----- published frames -----

  /**
   What the driver reads from the frame of any cycle: the loop head's mode and delay, the next
   number, and an in-error bit that is never set, since the flag is cleared before each loop head.
   A frame is missing only when the socket refuses it, and then the cycle is a hard stop.
   */
  lemma FramesTellTheHead(fp: Fp, run: seq<Input>, k: nat, target: RobotState)
    requires k < |run|
    ensures var t := TaskAt(fp, run, k);
            var o := CycleAt(fp, run, k);
            && 0 <= t.delay < 65536 && 0 <= t.mode < 256
            && (o.frame.None? <==> !run[k].txOk)
            && (o.frame.None? ==> o.hardStop)
            && (o.frame.Some? ==>
                  && ReadState(fp, target, o.frame.value).1
                  && CrossCodec.Conveys(fp, ReadState(fp, target, o.frame.value).0, run[k].reading,
                                        (t.sequence + 1) % WRAP, t.delay, t.mode, false))
  {
    hide Cycle, TaskAt, CrossCodec.Conveys, ReadState;
    HeadInvariant(fp, run, k);
    FrameOf(fp, TaskAt(fp, run, k), run[k], target);
  }

  lemma FrameOf(fp: Fp, t: Task, in_: Input, target: RobotState)
    requires AtHead(t)
    ensures 0 <= t.delay < 65536
    ensures var o := Cycle(fp, t, in_);
            && (o.frame.None? <==> !in_.txOk)
            && (o.frame.None? ==> o.hardStop)
            && (o.frame.Some? ==>
                  && ReadState(fp, target, o.frame.value).1
                  && CrossCodec.Conveys(fp, ReadState(fp, target, o.frame.value).0, in_.reading,
                                        (t.sequence + 1) % WRAP, t.delay, t.mode, false))
  {
    hide ReadState, CrossCodec.Conveys, Publish, Receive, Decide, Finish;
    PublishedFrame(fp, t, in_, target);
    DecideKeeps(fp, t, in_);
    FinishRestores(Decide(fp, t, in_), in_);
    if Publish(fp, t, in_).0.error {
      FailedPublishFails(fp, t, in_);
    }
  }

  lemma PublishedFrame(fp: Fp, t: Task, in_: Input, target: RobotState)
    requires AtHead(t)
    ensures 0 <= t.delay < 65536
    ensures var (p, frame) := Publish(fp, t, in_);
            && (frame.None? <==> !in_.txOk) && (frame.None? <==> p.error)
            && (frame.Some? ==>
                  && ReadState(fp, target, frame.value).1
                  && CrossCodec.Conveys(fp, ReadState(fp, target, frame.value).0, in_.reading,
                                        (t.sequence + 1) % WRAP, t.delay, t.mode, false))
  {
    Published(fp, t, in_);
    var next := (t.sequence + 1) % WRAP;
    CrossCodec.StateFramesAgree(fp, t.stateMsg.state, in_.reading, next, t.delay, t.mode, false, t.tx, target);
    assert OutgoingMsg(t, in_) == StateMsg(true, STATE_HEADER.(sequence := next),
             CrossCodec.PublishedState(t.stateMsg.state, in_.reading, t.delay, t.mode, false));
    hide ReadState, CrossCodec.Conveys, EncodeRobotStateMsg;
  }

  lemma FailedPublishFails(fp: Fp, t: Task, in_: Input)
    requires AtHead(t) && Publish(fp, t, in_).0.error
    ensures Decide(fp, t, in_).error
  {
    var p := Publish(fp, t, in_).0;
    Published(fp, t, in_);
    Received(fp, p, in_.arrivals);
    hide Publish, Receive;
  }

  /** After a hard stop every frame tells the driver mode 0, until a STOP has been accepted. */
  lemma FaultIsPublished(fp: Fp, run: seq<Input>, i: nat, k: nat, target: RobotState)
    requires i < k < |run| && CycleAt(fp, run, i).hardStop && CycleAt(fp, run, k).frame.Some?
    requires forall m :: i < m < k ==> !AcceptsStop(CycleAt(fp, run, m))
    ensures ReadState(fp, target, CycleAt(fp, run, k).frame.value).1
    ensures ReadState(fp, target, CycleAt(fp, run, k).frame.value).0.controlState == CMD_INVALID
  {
    hide Cycle, CycleAt, TaskAt, ReadState, AcceptsStop;
    HardStopEndsInZero(fp, run, i);
    NextHead(fp, run, i);
    StaysStopped(fp, run, i + 1, k);
    FramesTellTheHead(fp, run, k, target);
  }
}
