/**
 What each cycle of a run does, exactly: the calls it makes to the motion library, and the loop head
 it leaves.
 */
module ControlEffects {
  import opened Wire
  import opened Val3Codec
  import opened StateUpdate
  import opened Sequence
  import opened SocketRead
  import opened ControlLoop
  import opened ControlInvariants
  import opened ControlRuns

  // ----- calls to the motion library -----

  /** Position control that goes on hands over the target; one that starts first resets and begins. */
  lemma PositionActions(d: Task, in_: Input)
    requires Decided(d, in_.reading.settled) && d.mode == 2 && !Finish(d, in_).1
    ensures Finish(d, in_).2 ==
            if d.prevMode == 2 then [SyncMove(d.command.motionData)]
            else [ResetMotion, SyncBegin, SyncMove(d.command.motionData)]
  {
    hide HardStop, HardStopActions;
    assert [ResetMotion, SyncBegin] + [SyncMove(d.command.motionData)] ==
           [ResetMotion, SyncBegin, SyncMove(d.command.motionData)];
  }

  /** A stop ends movejSync if it was running, and then stops and resets. */
  lemma StopActions(d: Task, in_: Input)
    requires Decided(d, in_.reading.settled) && d.mode <= 1 && !Finish(d, in_).1
    ensures Finish(d, in_).2 ==
            if d.prevMode == 2 then [SyncEnd, StopMove, ResetMotion] else [StopMove, ResetMotion]
  {
    hide HardStop, HardStopActions, JointPosition;
    assert [SyncEnd] + [StopMove, ResetMotion] == [SyncEnd, StopMove, ResetMotion];
  }

  /** Which positions the second half of a cycle moves to. */
  lemma FinishMovesExactly(d: Task, in_: Input, x: Vec6)
    requires Decided(d, in_.reading.settled) && d.stateMsg.state.arm == ArmOf(in_.reading)
    ensures SyncMove(x) in Finish(d, in_).2 <==>
            && !d.error && d.mode == 2 && in_.reading.powered && in_.reading.esStatus == 0
            && x == d.command.motionData && in_.inRange(x)
  {
    if SyncMove(x) in Finish(d, in_).2 {
      FinishMovesSafely(d, in_, x);
    }
    hide HardStop, HardStopActions;
    if !d.error && d.mode == 2 && in_.reading.powered && in_.reading.esStatus == 0 && in_.inRange(d.command.motionData) {
      var m := Execute(d, in_);
      var at := if d.prevMode == 1 then 2 else 0;
      assert m.actions[at] == SyncMove(d.command.motionData);
      assert Finish(d, in_).2[at] == SyncMove(d.command.motionData);
    }
  }

  /** The calls of position control that has to give up: begun if it may be, moved if in range, and always ended. */
  function GivingUp(starting: bool, possible: bool, reachable: bool, x: Vec6): seq<Action> {
    (if starting && possible then [ResetMotion, SyncBegin] else [])
    + (if possible && reachable then [SyncMove(x)] else [])
    + (if starting && !possible then [] else [SyncEnd])
  }

  /** What a failing cycle does: the motion of its mode, given up, and then the hard stop. */
  function FailingCalls(d: Task, in_: Input): seq<Action> {
    (if d.mode <= 1 then (if d.prevMode == 2 then [SyncEnd] else []) + [StopMove, ResetMotion]
     else if d.mode == 2 then
       GivingUp(d.prevMode == 1, in_.reading.powered && in_.reading.esStatus == 0,
                in_.inRange(d.command.motionData), d.command.motionData)
     else if d.mode == 3 then [ResetMotion] else [])
    + [StopMove, ResetMotion]
  }

  lemma HardStopActs(d: Task, in_: Input)
    requires Decided(d, in_.reading.settled) && d.stateMsg.state.arm == ArmOf(in_.reading) && Finish(d, in_).1
    ensures Finish(d, in_).2 == FailingCalls(d, in_)
  {
    hide HardStop;
    var x := d.command.motionData;
    assert [ResetMotion, SyncBegin] + [SyncMove(x)] + [] == [ResetMotion, SyncBegin] + [SyncMove(x)];
  }

  lemma CycleParts(fp: Fp, t: Task, in_: Input)
    requires AtHead(t)
    ensures var d := Decide(fp, t, in_);
            var o := Cycle(fp, t, in_);
            && (o.task, o.hardStop, o.actions) == Finish(d, in_)
            && Decided(d, in_.reading.settled) && d.prevMode == t.mode
            && (!o.hardStop ==> !d.error && d.mode <= 2 && o.task == d.(sync := o.task.sync, prevMode := d.mode))
            && (o.hardStop ==> o.task.mode == 0)
  {
    hide Decide, Finish, Publish, Receive, Decided;
    DecideKeeps(fp, t, in_);
    DecideTraces(fp, t, in_);
    FinishRestores(Decide(fp, t, in_), in_);
  }

  lemma CycleMoves(fp: Fp, t: Task, in_: Input)
    requires AtHead(t)
    ensures var o := Cycle(fp, t, in_);
            && (o.task.mode == 2 ==>
                  && o.task.command.isValid && !o.hardStop
                  && o.actions == if t.mode == 2 then [SyncMove(o.task.command.motionData)]
                                  else [ResetMotion, SyncBegin, SyncMove(o.task.command.motionData)])
            && (o.task.mode != 2 && !o.hardStop ==>
                  o.actions == if t.mode == 2 then [SyncEnd, StopMove, ResetMotion] else [StopMove, ResetMotion])
  {
    CycleParts(fp, t, in_);
    CycleKeepsHead(fp, t, in_);
    var d := Decide(fp, t, in_);
    hide Decide, Finish, Cycle, Decided;
    if !Cycle(fp, t, in_).hardStop {
      if d.mode == 2 {
        PositionActions(d, in_);
      } else {
        StopActions(d, in_);
      }
    }
  }

  /**
   Every cycle that ends in position control moves the arm: it hands the target of the command held
   to movejSync, after a reset and a begin if position control starts in that cycle, and asks nothing
   else of the library.
   */
  lemma PositionCyclesMove(fp: Fp, run: seq<Input>, k: nat)
    requires k < |run| && TaskAt(fp, run, k + 1).mode == 2
    ensures var x := TaskAt(fp, run, k + 1).command.motionData;
            CycleAt(fp, run, k).actions ==
              if TaskAt(fp, run, k).mode == 2 then [SyncMove(x)] else [ResetMotion, SyncBegin, SyncMove(x)]
  {
    hide Cycle, TaskAt, AtHead;
    HeadInvariant(fp, run, k);
    NextHead(fp, run, k);
    CycleMoves(fp, TaskAt(fp, run, k), run[k]);
  }

  /** Every other cycle that is no hard stop ends movejSync if it was running, stops and resets, and no more. */
  lemma StopCyclesStop(fp: Fp, run: seq<Input>, k: nat)
    requires k < |run| && TaskAt(fp, run, k + 1).mode != 2 && !CycleAt(fp, run, k).hardStop
    ensures CycleAt(fp, run, k).actions ==
            if TaskAt(fp, run, k).mode == 2 then [SyncEnd, StopMove, ResetMotion] else [StopMove, ResetMotion]
  {
    hide Cycle, TaskAt, AtHead;
    HeadInvariant(fp, run, k);
    NextHead(fp, run, k);
    CycleMoves(fp, TaskAt(fp, run, k), run[k]);
  }

  lemma CycleGivesUp(fp: Fp, t: Task, in_: Input)
    requires AtHead(t)
    ensures var o := Cycle(fp, t, in_);
            o.hardStop ==> o.actions == FailingCalls(Decide(fp, t, in_), in_)
  {
    hide Decide, Finish, Cycle, FailingCalls, Decided, Sighted, LinkFails, ModeRefused;
    CycleParts(fp, t, in_);
    DecidesExactly(fp, t, in_);
    if Cycle(fp, t, in_).hardStop {
      HardStopActs(Decide(fp, t, in_), in_);
    }
  }

  /** What every hard stop of a run asks of the library: to end what was begun, and to stop and reset last of all. */
  lemma HardStopsAct(fp: Fp, run: seq<Input>, k: nat)
    requires k < |run| && CycleAt(fp, run, k).hardStop
    ensures CycleAt(fp, run, k).actions == FailingCalls(Decide(fp, TaskAt(fp, run, k), run[k]), run[k])
  {
    hide Cycle, TaskAt, AtHead, Decide, FailingCalls;
    HeadInvariant(fp, run, k);
    NextHead(fp, run, k);
    CycleGivesUp(fp, TaskAt(fp, run, k), run[k]);
  }

  lemma CycleMovesExactly(fp: Fp, t: Task, in_: Input, x: Vec6)
    requires AtHead(t)
    ensures var c := Sighted(fp, t, in_).command;
            SyncMove(x) in Cycle(fp, t, in_).actions <==>
            && !LinkFails(fp, t, in_) && !ModeRefused(t, Asked(c), in_.reading.settled)
            && Asked(c) == 2 && in_.reading.powered && in_.reading.esStatus == 0
            && x == c.motionData && in_.inRange(x)
  {
    assert Initialised(t);
    hide Decide, Finish, Cycle, Sighted, LinkFails, ModeRefused, AtHead, Decided;
    CycleParts(fp, t, in_);
    DecidesExactly(fp, t, in_);
    FinishMovesExactly(Decide(fp, t, in_), in_, x);
  }

  /**
   Exactly which positions a cycle of a run moves to: the target of the command in hand, when the link
   is sound, position control may be entered or continued, motion is possible and the target in range.
   */
  lemma MovesExactly(fp: Fp, run: seq<Input>, k: nat, x: Vec6)
    requires k < |run|
    ensures var t := TaskAt(fp, run, k);
            var c := Sighted(fp, t, run[k]).command;
            SyncMove(x) in CycleAt(fp, run, k).actions <==>
            && !LinkFails(fp, t, run[k]) && !ModeRefused(t, Asked(c), run[k].reading.settled)
            && Asked(c) == 2 && run[k].reading.powered && run[k].reading.esStatus == 0
            && x == c.motionData && run[k].inRange(x)
  {
    hide Cycle, TaskAt, AtHead, Sighted, LinkFails, ModeRefused;
    HeadInvariant(fp, run, k);
    NextHead(fp, run, k);
    CycleMovesExactly(fp, TaskAt(fp, run, k), run[k], x);
  }

  // ----- the next loop head -----

  lemma DecidesFields(fp: Fp, t: Task, in_: Input)
    requires AtHead(t)
    ensures var d := Decide(fp, t, in_);
            var s := Sighted(fp, t, in_);
            var read := ReadData(t.queue + in_.arrivals, t.rx);
            && d.sequence == (t.sequence + 1) % WRAP
            && d.queue == read.queue && d.rx == read.data
            && (!d.error ==> d.header == s.header && d.command == s.command)
            && d.stateMsg == OutgoingMsg(t, in_)
  {
    assert Initialised(t);
    hide Publish, Receive, CheckStream, ExtractMode, Interlock, OutgoingMsg, DecodeRobotCommandMsg, ReadData, Sighted;
    var p := Publish(fp, t, in_).0;
    Published(fp, t, in_);
    ReceivedExactly(fp, p, t, in_);
    ReceivesFields(fp, p, in_.arrivals);
    var q := Receive(fp, p, in_.arrivals).0;
    Watched(q);
    Selected(CheckStream(q));
    SettlingKeeps(q);
  }

  lemma ReceivesFields(fp: Fp, p: Task, arrivals: seq<Datagram>)
    requires Initialised(p)
    ensures var q := Receive(fp, p, arrivals).0;
            var read := ReadData(p.queue + arrivals, p.rx);
            q.queue == read.queue && q.rx == read.data && q.sequence == p.sequence && q.stateMsg == p.stateMsg
    ensures Receive(fp, p, arrivals).1 <==>
            !ReadData(p.queue + arrivals, p.rx).error && ReadData(p.queue + arrivals, p.rx).newData
  {
    hide DecodeRobotCommandMsg, ReadData;
  }

  lemma SettlingKeeps(q: Task)
    requires Initialised(q)
    ensures var d := Interlock(ExtractMode(CheckStream(q)));
            && d.queue == q.queue && d.rx == q.rx && d.sequence == q.sequence && d.header == q.header
            && d.stateMsg == q.stateMsg && (!d.error ==> d.command == q.command)
  {
    hide SequenceDelay, Trips;
  }

  /** The loop head a cycle leaves when it is no hard stop. */
  ghost predicate Continues(fp: Fp, t: Task, in_: Input, e: Task)
    requires Initialised(t)
  {
    var s := Sighted(fp, t, in_);
    && e.sequence == (t.sequence + 1) % WRAP
    && e.header == s.header && e.command == s.command && e.active == s.command.isValid
    && e.mode == Asked(s.command) && e.prevMode == e.mode && !e.error
    && e.delay == (if s.command.isValid then (t.sequence + 1 - s.header.sequence) % WRAP else 1000)
    && e.queue == ReadData(t.queue + in_.arrivals, t.rx).queue
    && e.sync == (if e.mode == 2 then Running else NotStarted)
  }

  /** The loop head a hard stop leaves. */
  ghost predicate Resets(t: Task) {
    && t.sequence == 0 && t.delay == 1000 && !t.active && !t.command.isValid && t.command.motionType == 0
    && t.mode == 0 && t.prevMode == 0 && !t.error && t.queue == [] && t.sync == NotStarted
  }

  lemma CycleLeaves(fp: Fp, t: Task, in_: Input)
    requires AtHead(t)
    ensures var o := Cycle(fp, t, in_);
            if o.hardStop then Resets(o.task) else Continues(fp, t, in_, o.task)
  {
    assert Initialised(t);
    CycleParts(fp, t, in_);
    CycleKeepsHead(fp, t, in_);
    var d := Decide(fp, t, in_);
    HardStopsReset(d, in_);
    hide Decide, Finish, Cycle, Sighted, Decided, OutgoingMsg, LinkFails, ModeRefused;
    DecidesFields(fp, t, in_);
    DecidesExactly(fp, t, in_);
    NextDistance(t.sequence, Sighted(fp, t, in_).header.sequence);
  }

  lemma HardStopsReset(d: Task, in_: Input)
    requires Decided(d, in_.reading.settled)
    ensures Finish(d, in_).1 ==> Resets(Finish(d, in_).0)
  {
  }

  /** Over every run, each loop head is the one its predecessor and the cycle between determine. */
  lemma HeadsExactly(fp: Fp, run: seq<Input>, k: nat)
    requires k < |run|
    ensures if CycleAt(fp, run, k).hardStop then Resets(TaskAt(fp, run, k + 1))
            else Continues(fp, TaskAt(fp, run, k), run[k], TaskAt(fp, run, k + 1))
    ensures var read := ReadData(TaskAt(fp, run, k).queue + run[k].arrivals, TaskAt(fp, run, k).rx);
            CycleAt(fp, run, k).received <==> !read.error && read.newData
  {
    hide Cycle, TaskAt, AtHead, Resets, Continues, ReadData;
    HeadInvariant(fp, run, k);
    NextHead(fp, run, k);
    CycleLeaves(fp, TaskAt(fp, run, k), run[k]);
    CycleReceives(fp, TaskAt(fp, run, k), run[k]);
  }

  lemma CycleReceives(fp: Fp, t: Task, in_: Input)
    requires AtHead(t)
    ensures var read := ReadData(t.queue + in_.arrivals, t.rx);
            Cycle(fp, t, in_).received <==> !read.error && read.newData
  {
    hide Publish, Decide, Finish, ReadData, Receive, OutgoingMsg;
    Published(fp, t, in_);
    ReceivesFields(fp, Publish(fp, t, in_).0, in_.arrivals);
  }
}
