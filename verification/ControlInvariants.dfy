/**
 What every iteration of the control loop keeps, and what follows for a single cycle.
 */
module ControlInvariants {
  import opened Wire
  import opened Val3Codec
  import opened StateUpdate
  import opened Sequence
  import opened SocketRead
  import opened ControlLoop

  /** True at every loop head. */
  ghost predicate AtHead(t: Task) {
    && Initialised(t)
    && !t.error
    && t.prevMode == t.mode && 0 <= t.mode <= 2
    && 0 <= t.sequence < WRAP && 0 <= t.header.sequence < WRAP
    && (t.command.isValid <==> t.active)
    && 0 <= t.command.motionType <= 4
    && (t.command.isValid ==>
          && t.delay == (t.sequence - t.header.sequence) % WRAP <= 25
          && t.mode == t.command.motionType)
    && (!t.command.isValid ==> t.delay == 1000 && t.mode <= 1)
    && (t.sync == Running <==> t.mode == 2)
  }

  function Limit(inMotion: bool): int {
    if inMotion then 5 else 25
  }

  /** True once the mode of the cycle is settled; `settled` is what the arm reported. */
  ghost predicate Decided(d: Task, settled: bool) {
    && Initialised(d)
    && 0 <= d.prevMode <= 2
    && (d.sync == Running <==> d.prevMode == 2)
    && 0 <= d.sequence < WRAP && 0 <= d.header.sequence < WRAP
    && (d.error ==> d.mode == 0 || d.mode == 1)
    && (!d.error ==>
          && (d.command.isValid <==> d.active)
          && 0 <= d.command.motionType <= 4
          && d.mode == (if d.command.isValid then d.command.motionType else 0)
          && d.delay == (if d.command.isValid then (d.sequence - d.header.sequence) % WRAP else 1000)
          && (d.command.isValid ==> d.delay <= Limit(!settled))
          && (d.prevMode != d.mode ==> d.mode == 1 || d.prevMode == 1)
          && (d.prevMode == 1 && d.mode != 1 ==> settled))
  }

  // ----- phase by phase -----

  lemma Published(fp: Fp, t: Task, in_: Input)
    requires AtHead(t)
    ensures var p := Publish(fp, t, in_).0;
            && Initialised(p)
            && p == t.(sequence := (t.sequence + 1) % WRAP, stateMsg := OutgoingMsg(t, in_), tx := p.tx, error := p.error)
            && p.stateMsg.state.arm == ArmOf(in_.reading)
            && (p.error <==> Publish(fp, t, in_).1.None?)
            && (p.error <==> !in_.txOk)
  {
    var p := Publish(fp, t, in_).0;
    EncodeNeverFails(fp, OutgoingMsg(t, in_), t.tx);
  }

  /** The encoder's own tests all pass on an initialised message with a sequence number in range. */
  lemma EncodeNeverFails(fp: Fp, msg: StateMsg, data: TxBuffer)
    requires msg.initialized && msg.header == StateHeader(msg.header.sequence) && msg.header.sequence >= 0
    ensures !EncodeRobotStateMsg(fp, msg, data).1
  {
  }

  lemma Decoded(fp: Fp, h: MessageHeader, c: Val3Command, data: RxBuffer)
    requires h.headerSize == 8
    ensures var (r, d, error) := DecodeRobotCommandMsg(fp, h, c, data);
            && r.headerSize == 8
            && 0 <= r.sequence < WRAP
            && (!error ==> d.isValid && 0 <= d.motionType < 256)
  {
  }

  /** What reading and decoding can change, and the cases it leaves. */
  lemma Received(fp: Fp, p: Task, arrivals: seq<Datagram>)
    requires Initialised(p) && 0 <= p.header.sequence < WRAP && (p.command.isValid <==> p.active)
    ensures var (q, got) := Receive(fp, p, arrivals);
            && Initialised(q)
            && q.sequence == p.sequence && q.prevMode == p.prevMode && q.sync == p.sync && q.stateMsg == p.stateMsg
            && 0 <= q.header.sequence < WRAP
            && (p.error ==> q.error)
            && (!got ==> q.header == p.header && q.command == p.command && q.active == p.active)
            && (!q.error ==> (q.command.isValid <==> q.active))
            && (!q.error && got ==>
                  && q.command.isValid
                  && DecodeRobotCommandMsg(fp, p.header, p.command, q.rx) == (q.header, q.command, false))
  {
    Decoded(fp, p.header, p.command, ReadData(p.queue + arrivals, p.rx).data);
    hide DecodeRobotCommandMsg, ReadData;
  }

  lemma Watched(q: Task)
    requires Initialised(q) && 0 <= q.sequence < WRAP && 0 <= q.header.sequence < WRAP
    requires !q.error ==> (q.command.isValid <==> q.active)
    ensures var w := CheckStream(q);
            && w == q.(delay := w.delay, error := w.error, mode := w.mode)
            && (q.error ==> w.error)
            && (!w.error ==>
                  && w.delay == (if w.command.isValid then (w.sequence - w.header.sequence) % WRAP else 1000)
                  && (w.command.isValid ==> w.delay <= Limit(w.stateMsg.state.arm.inMotion)))
  {
    TripsExactly(q.sequence, q.header.sequence, Limit(q.stateMsg.state.arm.inMotion));
  }

  lemma Selected(w: Task)
    requires Initialised(w) && 0 <= w.sequence < WRAP && 0 <= w.header.sequence < WRAP
    requires 0 <= w.prevMode <= 2 && (w.sync == Running <==> w.prevMode == 2)
    requires !w.error ==>
               && (w.command.isValid <==> w.active)
               && w.delay == (if w.command.isValid then (w.sequence - w.header.sequence) % WRAP else 1000)
               && (w.command.isValid ==> w.delay <= Limit(w.stateMsg.state.arm.inMotion))
    ensures Decided(Interlock(ExtractMode(w)), !w.stateMsg.state.arm.inMotion)
    ensures var d := Interlock(ExtractMode(w));
            && d == w.(command := d.command, mode := d.mode, error := d.error)
            && (w.error ==> d.error) && (!d.error ==> d.command == w.command)
  {
  }

  /** The mode of the cycle is settled as `Decided` says, whatever arrived. */
  lemma DecideKeeps(fp: Fp, t: Task, in_: Input)
    requires AtHead(t)
    ensures Decided(Decide(fp, t, in_), in_.reading.settled)
  {
    var p := Publish(fp, t, in_).0;
    Published(fp, t, in_);
    var q := Receive(fp, p, in_.arrivals).0;
    Received(fp, p, in_.arrivals);
    Watched(q);
    Selected(CheckStream(q));
    hide Publish, Receive, CheckStream, ExtractMode, Interlock;
  }

  /** Where the command of a decided cycle comes from, and what identifies the cycle. */
  lemma DecideTraces(fp: Fp, t: Task, in_: Input)
    requires AtHead(t)
    ensures var d := Decide(fp, t, in_);
            var got := Receive(fp, Publish(fp, t, in_).0, in_.arrivals).1;
            && d.sequence == (t.sequence + 1) % WRAP && d.prevMode == t.mode && d.sync == t.sync
            && d.stateMsg == OutgoingMsg(t, in_) && d.stateMsg.state.arm == ArmOf(in_.reading)
            && (!d.error && !got ==> d.header == t.header && d.command == t.command)
            && (!d.error && got ==>
                  && d.command.isValid
                  && DecodeRobotCommandMsg(fp, t.header, t.command, d.rx) == (d.header, d.command, false))
  {
    var p := Publish(fp, t, in_).0;
    Published(fp, t, in_);
    var q := Receive(fp, p, in_.arrivals).0;
    Received(fp, p, in_.arrivals);
    Watched(q);
    Selected(CheckStream(q));
    hide Publish, Receive, CheckStream, ExtractMode, Interlock, DecodeRobotCommandMsg;
  }

  /** The end of the cycle: the invariant is restored, whether or not the cycle failed. */
  lemma FinishRestores(d: Task, in_: Input)
    requires Decided(d, in_.reading.settled)
    ensures var (e, hardStop, actions) := Finish(d, in_);
            && AtHead(e)
            && (hardStop ==> e.mode == 0 && !e.command.isValid && e.sequence == 0 && e.queue == [])
            && (!hardStop ==>
                  && !d.error && d.mode <= 2
                  && e == d.(sync := e.sync, prevMode := d.mode))
  {
  }

  lemma CycleKeepsHead(fp: Fp, t: Task, in_: Input)
    requires AtHead(t)
    ensures AtHead(Cycle(fp, t, in_).task)
  {
    DecideKeeps(fp, t, in_);
    FinishRestores(Decide(fp, t, in_), in_);
    hide Decide, Finish;
  }

  lemma InitialAtHead()
    ensures AtHead(INITIAL_TASK)
  {
  }

  /** The loop begins in mode 1, not in mode 0, with no command held and the arm not under position control. */
  lemma StartsInStop()
    ensures INITIAL_TASK.mode == 1 && INITIAL_TASK.prevMode == 1 && !INITIAL_TASK.error && !INITIAL_TASK.active
    ensures INITIAL_TASK.sequence == 0 && INITIAL_TASK.delay == 1000 && !INITIAL_TASK.command.isValid
    ensures INITIAL_TASK.queue == [] && INITIAL_TASK.sync == NotStarted
  {
  }

  /** Loop-head invariant of every run. */
  lemma {:induction false} HeadInvariant(fp: Fp, run: seq<Input>, i: nat)
    requires i <= |run|
    ensures AtHead(TaskAt(fp, run, i))
  {
    hide Cycle, AtHead;
    if i == 0 {
      InitialAtHead();
    } else {
      HeadInvariant(fp, run, i - 1);
      CycleKeepsHead(fp, TaskAt(fp, run, i - 1), run[i - 1]);
    }
  }

  // ----- motion library typestate -----

  /** The library's own rule: begin only when not started; move and end only when started. */
  function Replay(sync: Sync, actions: seq<Action>): Option<Sync>
    decreases actions
  {
    if actions == [] then Some(sync)
    else
      match actions[0]
      case SyncBegin => if sync == NotStarted then Replay(Running, actions[1..]) else None
      case SyncMove(_) => if sync == Running then Replay(sync, actions[1..]) else None
      case SyncEnd => if sync == Running then Replay(NotStarted, actions[1..]) else None
      case StopMove => Replay(sync, actions[1..])
      case ResetMotion => Replay(sync, actions[1..])
  }

  lemma {:induction false} ReplayConcat(sync: Sync, a: seq<Action>, b: seq<Action>)
    ensures Replay(sync, a + b) == if Replay(sync, a).Some? then Replay(Replay(sync, a).value, b) else None
    decreases a
  {
    if a == [] {
      assert a + b == b;
    } else {
      assert (a + b)[1..] == a[1..] + b;
      match a[0]
      case SyncBegin => ReplayConcat(Running, a[1..], b);
      case SyncEnd => ReplayConcat(NotStarted, a[1..], b);
      case SyncMove(_) => ReplayConcat(sync, a[1..], b);
      case StopMove => ReplayConcat(sync, a[1..], b);
      case ResetMotion => ReplayConcat(sync, a[1..], b);
    }
  }

  lemma ReplayTail(sync: Sync)
    ensures Replay(sync, [StopMove, ResetMotion]) == Some(sync)
  {
    assert [StopMove, ResetMotion][1..] == [ResetMotion];
    assert [ResetMotion][1..] == [];
  }

  lemma ReplayStop(sync: Sync)
    ensures Replay(sync, StopJointPosition(sync).actions) == Some(NotStarted)
  {
    assert [SyncEnd][1..] == [];
  }

  lemma ReplayStart()
    ensures Replay(NotStarted, [ResetMotion, SyncBegin]) == Some(Running)
  {
    assert [ResetMotion, SyncBegin][1..] == [SyncBegin];
    assert [SyncBegin][1..] == [];
  }

  lemma ReplayMove(target: Vec6)
    ensures Replay(Running, [SyncMove(target)]) == Some(Running)
  {
    assert [SyncMove(target)][1..] == [];
  }

  /** Position control uses the library by its rule when it is first called unstarted and later called started. */
  lemma JointPositionObeys(arm: Arm, c: Val3Command, sync: Sync, first: bool, in_: Input)
    requires first <==> sync == NotStarted
    ensures var m := JointPosition(arm, c, sync, first, in_);
            Replay(sync, m.actions) == Some(m.sync) && (!m.error ==> m.sync == Running)
  {
    ReplayStop(sync);
    ReplayStart();
    ReplayMove(c.motionData);
    ReplayStop(Running);
    var started := if first then [ResetMotion, SyncBegin] else [];
    ReplayConcat(sync, started, [SyncEnd]);
    ReplayConcat(sync, started, [SyncMove(c.motionData)]);
    ReplayConcat(sync, started + [SyncMove(c.motionData)], [SyncEnd]);
    hide Replay;
    assert Replay(sync, started) == Some(Running) by { if !first { NothingReplayed(sync); } }
  }

  lemma NothingReplayed(sync: Sync)
    ensures Replay(sync, []) == Some(sync)
  {
  }
}
