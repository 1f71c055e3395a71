/**
 The fault handshake across the network: a hard stop shows as control mode 0 in the controller's
 frames, and a driver in position mode answers such a frame with a stop, provided it has read a state
 into the hardware interface since it last connected.
 */
module ProtocolHandshake {
  import opened Wire
  import opened Messages
  import opened StateUpdate
  import opened Sequence
  import opened ControlLoop
  import opened ControlInvariants
  import opened Protocol
  import opened ProtocolSafety
  import ControlRuns
  import D = DriverState
  import H = HardwareState

  // ----- which frame the stored state comes from -----

  /** The event ends whatever connection there was. */
  predicate Drops(s: System, e: Event) {
    (e.Attach? && Possible(s, e) && e.ipGiven) || (e.Local? && e.call.Cleanup?)
  }

  predicate Connects(fp: Fp, s: System, e: Event)
    requires WellFormed(s)
  {
    e.Attach? && Possible(s, e)
    && D.Connect(fp, s.hardware.driver,
                 D.Attachment(e.ipGiven, e.closes, e.controlOpens, e.diagnosticsOpens, Attempts(s.frames, e.polls))).1
  }

  /** The event reads a state into the hardware interface. */
  predicate StoresState(s: System, e: Event)
    requires WellFormed(s)
  {
    e.Local? && e.call.ReadCall? && D.IsConnected(s.hardware.driver)
    && D.ReadRobotState(s.hardware.driver, e.call.contended, e.call.now).1.Some?
  }

  /** Successful connections among the first `i` events. */
  function Connections(fp: Fp, start: System, events: seq<Event>, i: nat): nat
    requires WellFormed(start) && i <= |events|
  {
    if i == 0 then 0
    else Connections(fp, start, events, i - 1) + if Connects(fp, SystemAt(fp, start, events, i - 1), events[i - 1]) then 1 else 0
  }

  /** A frame as read on one connection: a frame delivered again on another is another source. */
  datatype Source = Source(connection: nat, tag: Option<Tag>)

  /** Where the state in the hardware interface comes from, if anything has been read into it. */
  function Stored(fp: Fp, start: System, events: seq<Event>, i: nat): Option<Source>
    requires WellFormed(start) && i <= |events|
  {
    if i == 0 then None
    else if StoresState(SystemAt(fp, start, events, i - 1), events[i - 1])
    then Some(Source(Connections(fp, start, events, i - 1), Echoed(SystemAt(fp, start, events, i))))
    else Stored(fp, start, events, i - 1)
  }

  /** A state has been read into the hardware interface, and no connection or disconnection has come since. */
  predicate ReadSince(fp: Fp, start: System, events: seq<Event>, i: nat)
    requires WellFormed(start) && i <= |events|
  {
    i > 0
    && (StoresState(SystemAt(fp, start, events, i - 1), events[i - 1])
        || (!Drops(SystemAt(fp, start, events, i - 1), events[i - 1]) && ReadSince(fp, start, events, i - 1)))
  }

  /** The state stored is the one last returned on the connection there is. */
  ghost predicate UpToDate(s: System) {
    var d := s.hardware.driver;
    && D.IsConnected(d) && d.returnedAt.Some? && d.returnedAt.value < |d.subscriber.value.accepted|
    && s.hardware.state == d.subscriber.value.accepted[d.returnedAt.value]
  }

  lemma ReadStoresState(h: H.Hardware, contended: bool, now: nat)
    requires H.Sized(h) && LinkOk(h.driver) && now >= h.driver.timeout && D.IsConnected(h.driver)
    ensures var d := D.ReadRobotState(h.driver, contended, now).0;
            var got := D.ReadRobotState(h.driver, contended, now).1;
            var r := H.Read(h, contended, now).0;
            && r.driver == d && D.IsConnected(d)
            && d.subscriber.value.accepted == h.driver.subscriber.value.accepted
            && (got.None? ==> r.state == h.state && d.returnedAt == h.driver.returnedAt)
            && (got.Some? ==>
                  && r.state == got.value && d.returnedAt.Some? && d.returnedAt.value < |d.subscriber.value.accepted|
                  && got.value == d.subscriber.value.accepted[d.returnedAt.value])
  {
    D.ReadTraceable(h.driver, contended, now);
    ReadKeepsReceived(h.driver, contended, now);
    hide D.ReadRobotState, H.Overlay;
  }

  lemma ReadKeepsReceived(d: D.Driver, contended: bool, now: nat)
    requires D.Consistent(d) && D.IsConnected(d)
    ensures var e := D.ReadRobotState(d, contended, now).0;
            D.IsConnected(e) && e.subscriber.value.accepted == d.subscriber.value.accepted
  {
  }

  /** Calls other than reads and clean-up leave the driver and the stored state alone. */
  lemma OtherCallsKeep(fp: Fp, h: H.Hardware, c: H.Call)
    requires H.Sized(h) && !c.Configure? && !c.Datagram? && !c.ReadCall? && !c.Cleanup?
    ensures H.After(fp, h, c).driver == h.driver && H.After(fp, h, c).state == h.state
  {
    hide H.ResolveMode;
  }

  lemma ArrivalAppends(fp: Fp, d: D.Driver, bytes: seq<byte>, now: nat)
    requires D.Consistent(d) && D.IsConnected(d)
    ensures var e := D.OnDatagram(fp, d, bytes, now);
            && D.IsConnected(e) && e.returnedAt == d.returnedAt
            && d.subscriber.value.accepted <= e.subscriber.value.accepted
  {
    hide ReadState;
  }

  /** A read brings the stored state up to date; nothing but a new connection or its end undoes that. */
  lemma StepTells(fp: Fp, s: System, e: Event)
    requires Inv(fp, s) && ClockOk(e)
    ensures var r := Step(fp, s, e);
            && (StoresState(s, e) ==> UpToDate(r))
            && (!Drops(s, e) ==> D.IsConnected(r.hardware.driver) == D.IsConnected(s.hardware.driver))
            && (!Drops(s, e) && !StoresState(s, e) && D.IsConnected(s.hardware.driver) ==>
                  Echoed(r) == Echoed(s) && (UpToDate(s) ==> UpToDate(r)))
            && (Drops(s, e) && D.IsConnected(r.hardware.driver) ==> Connects(fp, s, e))
  {
    hide D.ReadRobotState, H.Read, H.Write, D.OnDatagram, D.Connect, D.SendStopAll, Cycle, Publish, FramesOk, SentOk,
         ControllerOk, ModesOk, ReadFrom;
    if Possible(s, e) {
      match e
      case Emit(_, _) =>
      case Act(_, _, _, _) =>
      case WriteOut(_, _) =>
      case ErrorOut(_) =>
      case StateArrives(tag, now) => ArrivalTells(fp, s, tag, now);
      case Attach(_, _, _, _, _) => AttachTells(fp, s, e);
      case Local(call) => LocalTells(fp, s, call);
    }
  }

  lemma ArrivalTells(fp: Fp, s: System, tag: Tag, now: nat)
    requires Inv(fp, s) && tag in s.frames
    ensures var r := Step(fp, s, StateArrives(tag, now));
            && D.IsConnected(r.hardware.driver) == D.IsConnected(s.hardware.driver)
            && (D.IsConnected(s.hardware.driver) ==> Echoed(r) == Echoed(s) && (UpToDate(s) ==> UpToDate(r)))
  {
    hide D.OnDatagram, FramesOk, SentOk, ControllerOk, ModesOk, ReadFrom;
    ArrivalKeepsLink(fp, s.hardware.driver, s.frames[tag], now);
    if D.IsConnected(s.hardware.driver) {
      ArrivalAppends(fp, s.hardware.driver, s.frames[tag], now);
    }
  }

  lemma AttachTells(fp: Fp, s: System, e: Event)
    requires Inv(fp, s) && e.Attach? && Possible(s, e) && ClockOk(e)
    ensures var r := Step(fp, s, e);
            && (!e.ipGiven ==> r == s)
            && (e.ipGiven && D.IsConnected(r.hardware.driver) ==> Connects(fp, s, e))
  {
    hide D.Connect, FramesOk, SentOk, ControllerOk, ModesOk, ReadFrom, Tracks;
    var env := D.Attachment(e.ipGiven, e.closes, e.controlOpens, e.diagnosticsOpens, Attempts(s.frames, e.polls));
    D.ConnectCases(fp, s.hardware.driver, env);
    D.ConnectTraceable(fp, s.hardware.driver, env);
  }

  lemma LocalTells(fp: Fp, s: System, c: H.Call)
    requires Inv(fp, s) && Possible(s, Local(c)) && ClockOk(Local(c))
    ensures var r := Step(fp, s, Local(c));
            && (StoresState(s, Local(c)) ==> UpToDate(r))
            && (c.Cleanup? ==> !D.IsConnected(r.hardware.driver))
            && (!c.Cleanup? ==> D.IsConnected(r.hardware.driver) == D.IsConnected(s.hardware.driver))
            && (!c.Cleanup? && !StoresState(s, Local(c)) && D.IsConnected(s.hardware.driver) ==>
                  Echoed(r) == Echoed(s) && (UpToDate(s) ==> UpToDate(r)))
  {
    hide D.ReadRobotState, H.Read, FramesOk, SentOk, ControllerOk, ModesOk, Tracks, H.ResolveMode;
    if c.ReadCall? {
      UnreadStays(s.hardware, c.contended, c.now);
      if D.IsConnected(s.hardware.driver) {
        ReadStoresState(s.hardware, c.contended, c.now);
      }
    } else if !c.Cleanup? {
      OtherCallsKeep(fp, s.hardware, c);
    }
  }

  lemma UnreadStays(h: H.Hardware, contended: bool, now: nat)
    requires H.Sized(h)
    ensures !D.IsConnected(h.driver) ==> H.Read(h, contended, now).0 == h
  {
  }

  /**
   With a connected driver, a state has been read since the connection exactly when the state stored
   comes from the frame echoed, as read on this connection; and then it is that state.
   */
  lemma {:induction false} StoredIsEchoed(fp: Fp, c: Config, events: seq<Event>, i: nat)
    requires c.joints <= 6 && Clocked(events) && i <= |events|
    ensures var s := SystemAt(fp, Start(c), events, i);
            var stored := Stored(fp, Start(c), events, i);
            var here := Connections(fp, Start(c), events, i);
            && (stored.Some? ==> stored.value.connection <= here)
            && (ReadSince(fp, Start(c), events, i) ==> UpToDate(s) && stored == Some(Source(here, Echoed(s))))
            && (!ReadSince(fp, Start(c), events, i) && D.IsConnected(s.hardware.driver) ==>
                  stored != Some(Source(here, Echoed(s))) && (stored.Some? ==> stored.value.connection < here))
  {
    hide Step, Start, ClockOk, FramesOk, SentOk, ControllerOk, DriverOk, UpToDate, Drops, Connects, StoresState, Echoed,
         D.IsConnected;
    if i == 0 {
      NotYetConnected(c);
    } else {
      StoredIsEchoed(fp, c, events, i - 1);
      InvAlways(fp, c, events, i - 1);
      assert ClockOk(events[i - 1]);
      StepTells(fp, SystemAt(fp, Start(c), events, i - 1), events[i - 1]);
      ConnectsDrops(fp, SystemAt(fp, Start(c), events, i - 1), events[i - 1]);
      UpToDateConnected(SystemAt(fp, Start(c), events, i - 1));
    }
  }

  lemma NotYetConnected(c: Config)
    requires c.joints <= 6
    ensures !D.IsConnected(Start(c).hardware.driver)
  {
  }

  lemma UpToDateConnected(s: System)
    ensures UpToDate(s) ==> D.IsConnected(s.hardware.driver)
  {
  }

  lemma ConnectsDrops(fp: Fp, s: System, e: Event)
    requires WellFormed(s)
    ensures Connects(fp, s, e) ==> Drops(s, e)
    ensures StoresState(s, e) ==> !Drops(s, e) && D.IsConnected(s.hardware.driver)
  {
    hide D.PollUntilTimeout;
  }

  // ----- what a write says about the frame it answers -----

  /** No joint command is a NaN. */
  ghost predicate Numeric(h: H.Hardware) {
    forall i :: 0 <= i < |h.positionCmds| ==> !h.positionCmds[i].NaN?
  }

  /** What a delivered write of a connected driver sends, in position mode with numeric commands: one command, exactly. */
  lemma WritesExactly(fp: Fp, h: H.Hardware, period: Double)
    requires H.Sized(h) && |h.positions| <= 6 && D.IsConnected(h.driver) && h.mode == CMD_JOINT_POSITION && Numeric(h)
    ensures var w := H.Write(fp, h, period, D.Delivered);
            && w.command.Some? && w.sent.frame.Some?
            && w.command.value.commandType == if H.ShowsFault(h) then CMD_STOP else CMD_JOINT_POSITION
  {
    hide CommandBytes, H.OutputBits;
    var command := H.CommandOf(h, period);
    forall i | 0 <= i < 6
      ensures !command.reference[i].NaN?
    {
    }
  }

  lemma UpToDateShows(s: System)
    requires DriverOk(s) && UpToDate(s)
    ensures Echoed(s).Some? && Echoed(s).value in s.frames
    ensures s.hardware.state.controlState == ControlByte(s.frames[Echoed(s).value]) && !s.hardware.state.status.errorState
  {
    hide D.Traceable;
  }

  lemma WriteAnswers(fp: Fp, s: System, period: Double)
    requires Inv(fp, s) && D.IsConnected(s.hardware.driver) && s.hardware.mode == CMD_JOINT_POSITION && Numeric(s.hardware)
    ensures var r := Step(fp, s, WriteOut(period, D.Delivered));
            && |r.sent| == |s.sent| + 1 && r.sent[..|s.sent|] == s.sent
            && r.sent[|s.sent|].answers == Echoed(s) && Echoed(s).Some? && Echoed(s).value in s.frames
            && r.sent[|s.sent|].command.commandType == if H.ShowsFault(s.hardware) then CMD_STOP else CMD_JOINT_POSITION
  {
    hide H.Write, D.Traceable, FramesOk, SentOk, ControllerOk, ModesOk, ReadFrom;
    WritesExactly(fp, s.hardware, period);
    EchoIsEmitted(s);
  }

  /** Handling an error sends one stop in answer to the frame echoed, if connected and the socket delivers it. */
  lemma ErrorAnswers(fp: Fp, s: System, result: D.SendResult)
    requires WellFormed(s)
    ensures var r := Step(fp, s, ErrorOut(result));
            if D.IsConnected(s.hardware.driver) && result == D.Delivered then
              && |r.sent| == |s.sent| + 1 && r.sent[..|s.sent|] == s.sent
              && r.sent[|s.sent|].answers == Echoed(s) && r.sent[|s.sent|].command.commandType == CMD_STOP
            else
              r.sent == s.sent
  {
    hide D.SendStopAll, D.SendRobotCommand, CommandBytes, Initialised, Echoed;
    D.SendsExactly(fp, s.hardware.driver, FRESH_COMMAND, result);
  }

  /**
   The fault handshake at the driver, exactly. A delivered write in position mode answers the frame
   echoed. If a state has been read since the connection, it is a position command exactly when that
   frame shows a control mode other than 0; if not, exactly when the older state shows no fault,
   whatever the frame shows.
   */
  lemma FaultHeardExactly(fp: Fp, c: Config, events: seq<Event>, i: nat, period: Double)
    requires c.joints <= 6 && Clocked(events) && i <= |events|
    requires var s := SystemAt(fp, Start(c), events, i);
             D.IsConnected(s.hardware.driver) && s.hardware.mode == CMD_JOINT_POSITION && Numeric(s.hardware)
    ensures var s := SystemAt(fp, Start(c), events, i);
            var r := Step(fp, s, WriteOut(period, D.Delivered));
            && |r.sent| == |s.sent| + 1 && r.sent[|s.sent|].answers == Echoed(s)
            && Echoed(s).Some? && Echoed(s).value in s.frames
            && (r.sent[|s.sent|].command.commandType == CMD_JOINT_POSITION <==>
                if ReadSince(fp, Start(c), events, i) then ControlByte(s.frames[Echoed(s).value]) != CMD_INVALID
                else !H.ShowsFault(s.hardware))
  {
    hide Step, SystemAt, Start, FramesOk, SentOk, ControllerOk, UpToDate, ReadSince, Stored, Connections, Echoed, Numeric,
         D.IsConnected, LinkOk, Tracks, H.Sized, Initialised;
    InvAlways(fp, c, events, i);
    StoredIsEchoed(fp, c, events, i);
    var s := SystemAt(fp, Start(c), events, i);
    WriteAnswers(fp, s, period);
    if ReadSince(fp, Start(c), events, i) {
      UpToDateShows(s);
    }
  }

  // ----- what arrives is read -----

  /** Connected, with this state in the box. */
  ghost predicate Holding(d: D.Driver, m: RobotState) {
    D.Consistent(d) && D.IsConnected(d) && d.subscriber.value.box == m
  }

  lemma ReadKeepsBox(d: D.Driver, m: RobotState, contended: bool, now: nat)
    requires Holding(d, m)
    ensures Holding(D.ReadRobotState(d, contended, now).0, m)
  {
  }

  lemma StepKeepsBox(fp: Fp, s: System, e: Event, m: RobotState)
    requires WellFormed(s) && Holding(s.hardware.driver, m) && !e.StateArrives? && !Drops(s, e)
    ensures Holding(Step(fp, s, e).hardware.driver, m)
  {
    hide Holding, D.ReadRobotState, D.IsConnected, H.Read, H.Write, H.After, D.SendStopAll, Cycle, Publish, H.Sized, Initialised;
    if Possible(s, e) {
      match e
      case Emit(_, _) =>
      case Act(_, _, _, _) =>
      case WriteOut(_, _) =>
      case ErrorOut(_) =>
      case Attach(ipGiven, _, _, _, _) => AttachWithoutAddress(fp, s, e);
      case Local(call) => LocalKeepsBox(fp, s.hardware, call, m);
    }
  }

  lemma AttachWithoutAddress(fp: Fp, s: System, e: Event)
    requires WellFormed(s) && e.Attach? && !e.ipGiven
    ensures Step(fp, s, e).hardware.driver == s.hardware.driver
  {
    hide D.PollUntilTimeout;
  }

  lemma LocalKeepsBox(fp: Fp, h: H.Hardware, c: H.Call, m: RobotState)
    requires H.Sized(h) && Holding(h.driver, m) && !c.Configure? && !c.Datagram? && !c.Cleanup?
    ensures Holding(H.After(fp, h, c).driver, m)
  {
    hide Holding, D.ReadRobotState, D.IsConnected, H.ResolveMode;
    LocalDriver(fp, h, c);
    if c.ReadCall? {
      ReadKeepsBox(h.driver, m, c.contended, c.now);
    }
  }

  lemma ArrivalFillsBox(fp: Fp, d: D.Driver, bytes: seq<byte>, now: nat)
    requires D.Consistent(d) && D.IsConnected(d) && ReadState(fp, FRESH_STATE, bytes).1
    ensures Holding(D.OnDatagram(fp, d, bytes, now), ReadState(fp, FRESH_STATE, bytes).0.(timestamp := now))
  {
    hide ReadState;
  }

  /** The state in the box is the frame that arrived last on the connection. */
  lemma {:induction false} LatestInBox(fp: Fp, c: Config, events: seq<Event>, k: nat, i: nat)
    requires c.joints <= 6 && Clocked(events) && k < i <= |events| && events[k].StateArrives?
    requires Possible(SystemAt(fp, Start(c), events, k), events[k])
    requires D.IsConnected(SystemAt(fp, Start(c), events, k).hardware.driver)
    requires forall j :: k < j < i ==> !events[j].StateArrives? && !Drops(SystemAt(fp, Start(c), events, j), events[j])
    ensures var frame := SystemAt(fp, Start(c), events, k).frames[events[k].tag];
            Holding(SystemAt(fp, Start(c), events, i).hardware.driver,
                    ReadState(fp, FRESH_STATE, frame).0.(timestamp := events[k].now))
    decreases i
  {
    hide Start, ClockOk, SentOk, ControllerOk, LinkOk, Tracks, ModesOk, Holding, Drops, D.IsConnected, ReadState, GoodFrame,
         D.OnDatagram, Step, H.Sized;
    var s := SystemAt(fp, Start(c), events, k);
    if i == k + 1 {
      InvAlways(fp, c, events, k);
      GoodFrameReads(fp, s.frames[events[k].tag], events[k].tag);
      ArrivalFills(fp, s, events[k]);
    } else {
      LatestInBox(fp, c, events, k, i - 1);
      StepKeepsBox(fp, SystemAt(fp, Start(c), events, i - 1), events[i - 1],
                   ReadState(fp, FRESH_STATE, s.frames[events[k].tag]).0.(timestamp := events[k].now));
    }
  }

  lemma ArrivalFills(fp: Fp, s: System, e: Event)
    requires WellFormed(s) && e.StateArrives? && Possible(s, e) && D.IsConnected(s.hardware.driver)
    requires ReadState(fp, FRESH_STATE, s.frames[e.tag]).1
    ensures Holding(Step(fp, s, e).hardware.driver, ReadState(fp, FRESH_STATE, s.frames[e.tag]).0.(timestamp := e.now))
  {
    hide Holding, D.IsConnected, D.OnDatagram, ReadState;
    ArrivalFillsBox(fp, s.hardware.driver, s.frames[e.tag], e.now);
  }

  /**
   What the network delivers is read: a connected driver whose last frame arrived less than 100 ms ago
   reads that very frame with OK, when the box is free; its number is echoed from then on.
   */
  lemma LatestFrameIsRead(fp: Fp, c: Config, events: seq<Event>, k: nat, i: nat, now: nat)
    requires c.joints <= 6 && Clocked(events) && k < i <= |events| && events[k].StateArrives?
    requires Possible(SystemAt(fp, Start(c), events, k), events[k])
    requires D.IsConnected(SystemAt(fp, Start(c), events, k).hardware.driver)
    requires forall j :: k < j < i ==> !events[j].StateArrives? && !Drops(SystemAt(fp, Start(c), events, j), events[j])
    requires now - events[k].now < 100_000_000
    ensures var frame := SystemAt(fp, Start(c), events, k).frames[events[k].tag];
            var (r, ok) := H.Read(SystemAt(fp, Start(c), events, i).hardware, false, now);
            && ok && r.state == ReadState(fp, FRESH_STATE, frame).0.(timestamp := events[k].now)
            && r.driver.lastValid == events[k].tag.count % WRAP
  {
    hide SystemAt, Start, Clocked, SentOk, ControllerOk, Tracks, ModesOk, D.Traceable, Drops, ReadState, GoodFrame,
         D.ReadRobotState, H.Read, H.Overlay, Initialised;
    LatestInBox(fp, c, events, k, i);
    InvAlways(fp, c, events, k);
    InvAlways(fp, c, events, i);
    GoodFrameReads(fp, SystemAt(fp, Start(c), events, k).frames[events[k].tag], events[k].tag);
    D.ReadsExactly(SystemAt(fp, Start(c), events, i).hardware.driver, false, now);
    H.ReadExactly(SystemAt(fp, Start(c), events, i).hardware, false, now);
  }

  // ----- the handshake from hard stop to stop command -----

  /** A frame shows the mode of the loop head that published it. */
  lemma FrameShowsMode(fp: Fp, t: Task, reading: Reading, txOk: bool)
    requires AtHead(t)
    ensures var frame := Publish(fp, t, PublishInput(reading, txOk)).1;
            frame.Some? ==> ControlByte(frame.value) == t.mode
  {
    ControlRuns.PublishedFrame(fp, t, PublishInput(reading, txOk), FRESH_STATE);
    hide Publish;
  }

  /** The event is a cycle that accepts a STOP. */
  ghost predicate TakesStop(fp: Fp, s: System, e: Event)
    requires WellFormed(s)
  {
    e.Act? && Possible(s, e) && ControlRuns.AcceptsStop(Cycle(fp, s.task, CycleInput(s, e)))
  }

  lemma StepStaysStopped(fp: Fp, s: System, e: Event)
    requires Inv(fp, s)
    ensures var r := Step(fp, s, e);
            && (StopsHard(fp, s, e) ==> r.task.mode == 0)
            && (s.task.mode == 0 ==> r.task.mode == 0 || TakesStop(fp, s, e))
  {
    hide Cycle, Publish, H.Write, H.After, D.Connect, D.OnDatagram, D.SendStopAll, DriverOk, FramesOk, SentOk, QueueOk, AtHead,
         ControlRuns.AcceptsStop, H.Sized;
    if e.Act? && Possible(s, e) {
      var in_ := CycleInput(s, e);
      if s.task.mode == 0 {
        ControlRuns.ModeZeroStep(fp, s.task, in_);
      }
      CycleStopsInZero(fp, s.task, in_);
    }
  }

  lemma CycleStopsInZero(fp: Fp, t: Task, in_: Input)
    requires AtHead(t)
    ensures Cycle(fp, t, in_).hardStop ==> Cycle(fp, t, in_).task.mode == 0
  {
    hide Decide, Finish, Publish, Receive;
    DecideKeeps(fp, t, in_);
    FinishRestores(Decide(fp, t, in_), in_);
  }

  lemma {:induction false} StoppedUntilStop(fp: Fp, c: Config, events: seq<Event>, i: nat, j: nat)
    requires c.joints <= 6 && Clocked(events) && i <= j <= |events| && SystemAt(fp, Start(c), events, i).task.mode == 0
    requires forall k :: i <= k < j ==> !TakesStop(fp, SystemAt(fp, Start(c), events, k), events[k])
    ensures SystemAt(fp, Start(c), events, j).task.mode == 0
    decreases j
  {
    hide Step, Start, TakesStop, FramesOk, SentOk, ControllerOk, DriverOk, ClockOk;
    if i < j {
      StoppedUntilStop(fp, c, events, i, j - 1);
      InvAlways(fp, c, events, j - 1);
      StepStaysStopped(fp, SystemAt(fp, Start(c), events, j - 1), events[j - 1]);
      assert !TakesStop(fp, SystemAt(fp, Start(c), events, j - 1), events[j - 1]);
    }
  }

  /**
   The fault handshake over the network. Every position command ever sent was written in position
   mode in answer to a frame published before. If the hardware interface had read a state since the
   connection, that frame was published with control mode not 0, and between any earlier hard stop
   and its publication the controller had accepted a STOP.
   */
  lemma PositionsHearFaults(fp: Fp, c: Config, events: seq<Event>, i: nat, n: nat) returns (write: nat, emit: nat)
    requires c.joints <= 6 && Clocked(events) && i <= |events| && n < |SystemAt(fp, Start(c), events, i).sent|
    requires SystemAt(fp, Start(c), events, i).sent[n].command.commandType == CMD_JOINT_POSITION
    ensures emit < write < i && events[emit].Emit? && events[write].WriteOut?
    ensures var w := SystemAt(fp, Start(c), events, write);
            var p := SystemAt(fp, Start(c), events, emit);
            && SystemAt(fp, Start(c), events, i).sent[n].answers == Echoed(w) == Some(Tag(p.epoch, p.count + 1))
            && (ReadSince(fp, Start(c), events, write) ==>
                  && p.task.mode != 0
                  && forall stop :: 0 <= stop < emit && StopsHard(fp, SystemAt(fp, Start(c), events, stop), events[stop]) ==>
                       exists k :: stop < k < emit && TakesStop(fp, SystemAt(fp, Start(c), events, k), events[k]))
  {
    hide SystemAt, Step, Start, Publish, PublishInput, FramesOk, SentOk, ControllerOk, LinkOk, Tracks, ModesOk, UpToDate,
         ReadSince, Stored, Connections, Echoed, H.Write, D.IsConnected, D.StopCommand, TakesStop, StopsHard, ClockOk,
         H.Sized, Initialised;
    var start := Start(c);
    assert WellFormed(start) && start.frames == map[] && start.sent == [] by { StartEmpty(c); }
    write := SentBy(fp, start, events, i, n);
    var w := SystemAt(fp, start, events, write);
    InvAlways(fp, c, events, write);
    WritesPositions(fp, w, events[write], SystemAt(fp, start, events, i).sent[n].command);
    EchoIsEmitted(w);
    emit := EmittedBy(fp, start, events, write, Echoed(w).value);
    if ReadSince(fp, start, events, write) {
      StoredIsEchoed(fp, c, events, write);
      UpToDateShows(w);
      EmitterNotStopped(fp, c, events, emit);
      forall stop | 0 <= stop < emit && StopsHard(fp, SystemAt(fp, start, events, stop), events[stop])
        ensures exists k :: stop < k < emit && TakesStop(fp, SystemAt(fp, start, events, k), events[k])
      {
        StopTakenBetween(fp, c, events, stop, emit);
      }
    }
  }

  lemma EmitterNotStopped(fp: Fp, c: Config, events: seq<Event>, emit: nat)
    requires c.joints <= 6 && Clocked(events) && emit < |events| && events[emit].Emit?
    ensures var p := SystemAt(fp, Start(c), events, emit);
            var frame := Publish(fp, p.task, PublishInput(events[emit].reading, events[emit].txOk)).1;
            frame.Some? ==> ControlByte(frame.value) == p.task.mode
  {
    hide SystemAt, Start, Publish, FramesOk, SentOk, DriverOk, AtHead, QueueOk;
    InvAlways(fp, c, events, emit);
    FrameShowsMode(fp, SystemAt(fp, Start(c), events, emit).task, events[emit].reading, events[emit].txOk);
  }

  lemma StoppedAfter(fp: Fp, c: Config, events: seq<Event>, stop: nat)
    requires c.joints <= 6 && Clocked(events) && stop < |events|
    requires StopsHard(fp, SystemAt(fp, Start(c), events, stop), events[stop])
    ensures SystemAt(fp, Start(c), events, stop + 1).task.mode == 0
  {
    hide Step, Start, TakesStop, StopsHard, FramesOk, SentOk, ControllerOk, DriverOk, ClockOk;
    InvAlways(fp, c, events, stop);
    StepStaysStopped(fp, SystemAt(fp, Start(c), events, stop), events[stop]);
  }

  lemma StopTakenBetween(fp: Fp, c: Config, events: seq<Event>, stop: nat, emit: nat)
    requires c.joints <= 6 && Clocked(events) && stop < emit < |events|
    requires StopsHard(fp, SystemAt(fp, Start(c), events, stop), events[stop])
    requires SystemAt(fp, Start(c), events, emit).task.mode != 0
    ensures exists k :: stop < k < emit && TakesStop(fp, SystemAt(fp, Start(c), events, k), events[k])
  {
    hide SystemAt, Step, Start, TakesStop, StopsHard, ClockOk;
    StoppedAfter(fp, c, events, stop);
    if forall k :: stop + 1 <= k < emit ==> !TakesStop(fp, SystemAt(fp, Start(c), events, k), events[k]) {
      StoppedUntilStop(fp, c, events, stop + 1, emit);
      assert false;
    }
  }

  // ----- connecting on one frame -----

  /** Connected on the one state `m`, received at time `now`, which is also the last state returned. */
  ghost predicate Linked(d: D.Driver, m: RobotState, now: nat) {
    && D.Consistent(d) && D.IsConnected(d) && d.timeout == D.STALENESS_TIMEOUT
    && d.returnedAt == Some(0) && d.lastValid == m.header.sequence
    && d.subscriber.value.box == m.(timestamp := now) && d.subscriber.value.accepted == [m.(timestamp := now)]
  }

  /** One fresh state frame of the protocol during the polls is enough to connect, whatever came before. */
  lemma ConnectsOnce(fp: Fp, d: D.Driver, bytes: seq<byte>, now: nat)
    requires D.Consistent(d) && d.timeout == D.STALENESS_TIMEOUT && ReadState(fp, FRESH_STATE, bytes).1
    requires ReadState(fp, FRESH_STATE, bytes).0.header.msgType == TYPE_ROBOT_STATE
    requires ReadState(fp, FRESH_STATE, bytes).0.header.version == PROTOCOL_VERSION
    ensures var env := D.Attachment(true, true, true, true, [D.Attempt([(bytes, now)], false, now)]);
            var (e, ok) := D.Connect(fp, d, env);
            ok && Linked(e, ReadState(fp, FRESH_STATE, bytes).0, now)
  {
    var attempt := D.Attempt([(bytes, now)], false, now);
    var m := ReadState(fp, FRESH_STATE, bytes).0;
    var d1 := if d.control.connected || d.diagnostics.connected then D.Disconnect(d) else d;
    var opened_ := D.Opened(d1);
    assert [(bytes, now)][..0] == [] && [attempt][..0] == [];
    assert D.OnDatagrams(fp, opened_, [(bytes, now)]) == D.OnDatagram(fp, opened_, bytes, now);
    var got := D.OnDatagram(fp, opened_, bytes, now);
    assert got.subscriber.value.box == m.(timestamp := now);
    hide ReadState, D.OnDatagram, D.OnDatagrams;
    assert D.PollUntilTimeout(fp, opened_, [attempt]).0 == D.ReadRobotState(got, false, now).0;
  }

  /** A read on that connection stores the state and keeps mode and commands. */
  lemma ReadsAgain(h: H.Hardware, m: RobotState, now: nat)
    requires H.Sized(h) && Linked(h.driver, m, now) && m.header.msgType == TYPE_ROBOT_STATE
    ensures var r := H.Read(h, false, now).0;
            && Linked(r.driver, m, now) && r.state == m.(timestamp := now)
            && r.mode == h.mode && r.prepared == h.prepared && |r.positions| == |h.positions|
            && r.digitalCmds == h.digitalCmds && r.analogCmds == h.analogCmds && r.positionCmds == h.positionCmds
    ensures D.ReadRobotState(h.driver, false, now).1.Some?
  {
  }

  function AttachOn(tag: Tag, now: nat): Event {
    Attach(true, true, true, true, [Poll([(tag, now)], false, now)])
  }

  /** Attaching on one frame changes the driver and nothing else. */
  lemma Attaches(fp: Fp, s: System, tag: Tag, now: nat)
    requires WellFormed(s) && s.hardware.driver.timeout == D.STALENESS_TIMEOUT && tag in s.frames
    requires ReadState(fp, FRESH_STATE, s.frames[tag]).1
    requires ReadState(fp, FRESH_STATE, s.frames[tag]).0.header.msgType == TYPE_ROBOT_STATE
    requires ReadState(fp, FRESH_STATE, s.frames[tag]).0.header.version == PROTOCOL_VERSION
    ensures Possible(s, AttachOn(tag, now))
    ensures var r := Step(fp, s, AttachOn(tag, now));
            && r == s.(hardware := s.hardware.(driver := r.hardware.driver), received := [tag])
            && Linked(r.hardware.driver, ReadState(fp, FRESH_STATE, s.frames[tag]).0, now)
  {
    hide D.Connect, ReadState, Linked, Initialised;
    var polls := [Poll([(tag, now)], false, now)];
    ConnectsOnce(fp, s.hardware.driver, s.frames[tag], now);
    assert Datagrams(s.frames, polls[0].arrivals) == [(s.frames[tag], now)];
    assert Attempts(s.frames, polls) == [D.Attempt([(s.frames[tag], now)], false, now)];
    assert polls[0].arrivals[..0] == [] && polls[..0] == [];
    assert TagsOf(polls[0].arrivals) == [tag];
    assert TagsOfPolls(polls) == [] + [tag] == [tag];
  }

  lemma GoodFrameReads(fp: Fp, bytes: seq<byte>, tag: Tag)
    requires GoodFrame(bytes, tag)
    ensures var (m, ok) := ReadState(fp, FRESH_STATE, bytes);
            ok && ReadFrom(m, tag, bytes) && m.header.msgType == TYPE_ROBOT_STATE && m.header.version == PROTOCOL_VERSION
  {
  }

  function ReadAt(now: nat): Event {
    Local(H.ReadCall(false, now))
  }

  lemma ReadStep(fp: Fp, s: System, m: RobotState, now: nat)
    requires WellFormed(s) && Linked(s.hardware.driver, m, now) && m.header.msgType == TYPE_ROBOT_STATE
    ensures var r := Step(fp, s, ReadAt(now));
            && r == s.(hardware := r.hardware) && StoresState(s, ReadAt(now))
            && Linked(r.hardware.driver, m, now) && r.hardware.state == m.(timestamp := now)
            && r.hardware.mode == s.hardware.mode && r.hardware.positionCmds == s.hardware.positionCmds
  {
    ReadsAgain(s.hardware, m, now);
    hide H.Read, D.ReadRobotState, Initialised;
  }

  lemma LinkedEchoes(s: System, m: RobotState, tag: Tag, now: nat)
    requires Linked(s.hardware.driver, m, now) && s.received == [tag]
    ensures Echoed(s) == Some(tag) && D.IsConnected(s.hardware.driver)
  {
  }

  /** The driver connects on the frame, reads it if told to, and writes. */
  function ConnectAndWrite(fp: Fp, s: System, tag: Tag, now: nat, read: bool, period: Double): System
    requires WellFormed(s)
  {
    var a := Step(fp, s, AttachOn(tag, now));
    var b := if read then Step(fp, a, ReadAt(now)) else a;
    Step(fp, b, WriteOut(period, D.Delivered))
  }

  /**
   Connecting on a frame that shows control mode 0, in position mode: the next delivered write is a
   position command in answer to that very frame if and only if no read has come between and the
   state stored before the connection shows no fault.
   */
  lemma ConnectionHandshake(fp: Fp, s: System, tag: Tag, now: nat, read: bool, period: Double)
    requires Inv(fp, s) && tag in s.frames && ControlByte(s.frames[tag]) == CMD_INVALID && now >= D.STALENESS_TIMEOUT
    requires s.hardware.mode == CMD_JOINT_POSITION && Numeric(s.hardware)
    ensures var r := ConnectAndWrite(fp, s, tag, now, read, period);
            && |r.sent| == |s.sent| + 1 && r.sent[|s.sent|].answers == Some(tag) && r.frames == s.frames
            && (r.sent[|s.sent|].command.commandType == CMD_JOINT_POSITION <==> !read && !H.ShowsFault(s.hardware))
  {
    hide Step, Linked, Initialised, H.Sized, SentOk, ControllerOk, ModesOk, D.Traceable, Tracks, Numeric, ReadState, GoodFrame;
    assert GoodFrame(s.frames[tag], tag);
    GoodFrameReads(fp, s.frames[tag], tag);
    var m := ReadState(fp, FRESH_STATE, s.frames[tag]).0;
    Attaches(fp, s, tag, now);
    StepKeeps(fp, s, AttachOn(tag, now));
    var a := Step(fp, s, AttachOn(tag, now));
    var b := if read then Step(fp, a, ReadAt(now)) else a;
    if read {
      ReadStep(fp, a, m, now);
      StepKeeps(fp, a, ReadAt(now));
    }
    NumericDepends(s.hardware, b.hardware);
    LinkedEchoes(b, m, tag, now);
    WriteAnswers(fp, b, period);
    WritesOnly(fp, b, period);
  }

  lemma NumericDepends(g: H.Hardware, h: H.Hardware)
    requires g.positionCmds == h.positionCmds && Numeric(g)
    ensures Numeric(h)
  {
  }

  lemma WritesOnly(fp: Fp, s: System, period: Double)
    requires WellFormed(s)
    ensures Step(fp, s, WriteOut(period, D.Delivered)).frames == s.frames
  {
    hide H.Write, Initialised, H.Sized;
  }
}
