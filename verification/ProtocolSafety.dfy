/**
 What every reachable state of the whole system keeps, and what it says about the age of the
 commands the controller executes.
 */
module ProtocolSafety {
  import opened Wire
  import opened Messages
  import opened Val3Codec
  import opened StateUpdate
  import opened Sequence
  import opened SocketRead
  import opened ControlLoop
  import opened ControlInvariants
  import opened Protocol
  import ControlRuns
  import CrossCodec
  import Subscriber
  import D = DriverState
  import H = HardwareState

  // ----- the invariant -----

  /**
   A state frame of the protocol that has positions and velocities, no error bit, and the low 16 bits of
   its tag.
   */
  ghost predicate GoodFrame(bytes: seq<byte>, tag: Tag) {
    && |bytes| == STATE_SIZE
    && HeaderAt(bytes).magic == MAGIC_NUMBER && HeaderAt(bytes).version == PROTOCOL_VERSION
    && HeaderAt(bytes).msgType == TYPE_ROBOT_STATE
    && HeaderAt(bytes).sequence == tag.count % WRAP
    && !StatusAt(U16At(bytes, 14)).errorState
    && ValidAt(U16At(bytes, 16)).positions && ValidAt(U16At(bytes, 16)).velocities
  }

  /** The control mode a state frame shows. */
  function ControlByte(bytes: seq<byte>): byte {
    if |bytes| == STATE_SIZE then bytes[10] else 0
  }

  ghost predicate Emitted(s: System, tag: Tag) {
    tag.epoch < s.epoch || (tag.epoch == s.epoch && tag.count <= s.count + if s.pending.Some? then 1 else 0)
  }

  ghost predicate FramesOk(s: System) {
    forall tag :: tag in s.frames ==> GoodFrame(s.frames[tag], tag) && Emitted(s, tag)
  }

  /** A command the driver can have sent, echoing a frame the controller has emitted. */
  ghost predicate GoodMessage(fp: Fp, m: Message, frames: map<Tag, seq<byte>>) {
    && m.bytes == CommandBytes(fp, m.command)
    && CommandHeaderOk(m.command.header)
    && m.command.header.magic == MAGIC_NUMBER && m.command.header.version == PROTOCOL_VERSION
    && m.answers.Some? && m.answers.value in frames
    && m.command.header.sequence == m.answers.value.count % WRAP
    && m.command.commandType in {CMD_STOP, CMD_JOINT_POSITION}
    && forall i :: 0 <= i < 6 ==> !m.command.reference[i].NaN?
  }

  ghost predicate SentOk(fp: Fp, s: System) {
    forall i :: 0 <= i < |s.sent| ==> GoodMessage(fp, s.sent[i], s.frames)
  }

  /** What the controller's decoder makes of the command. */
  ghost predicate Holds(fp: Fp, h: MessageHeader, c: Val3Command, command: RobotCommand) {
    && h.sequence == command.header.sequence
    && c.motionType == command.commandType && c.motionData == Narrowed(fp, command.reference)
  }

  ghost predicate QueueOk(s: System) {
    && |s.queued| == |s.task.queue|
    && forall i :: 0 <= i < |s.queued| ==> s.queued[i] < |s.sent| && s.task.queue[i] == s.sent[s.queued[i]].bytes
  }

  ghost predicate ControllerOk(fp: Fp, s: System) {
    && AtHead(s.task)
    && s.task.sequence == s.count % WRAP
    && QueueOk(s)
    && (s.task.command.isValid ==>
          s.held.Some? && s.held.value < |s.sent| && Holds(fp, s.task.header, s.task.command, s.sent[s.held.value].command))
  }

  /** The state carries what the frame it came from does, as far as `GoodFrame` says. */
  ghost predicate ReadFrom(m: RobotState, tag: Tag, bytes: seq<byte>) {
    && m.header.sequence == tag.count % WRAP && m.header.msgType == TYPE_ROBOT_STATE
    && m.controlState == ControlByte(bytes) && !m.status.errorState
    && m.has.positions && m.has.velocities
  }

  /** Every state the subscriber has accepted comes from the frame noted for it. */
  ghost predicate Tracks(d: D.Driver, received: seq<Tag>, frames: map<Tag, seq<byte>>) {
    d.subscriber.Some? ==>
      && |received| == |d.subscriber.value.accepted|
      && forall i :: 0 <= i < |received| ==>
           received[i] in frames && ReadFrom(d.subscriber.value.accepted[i], received[i], frames[received[i]])
  }

  /** Connected means that a state has been returned on this connection. */
  ghost predicate LinkOk(d: D.Driver) {
    D.Traceable(d) && d.timeout == D.STALENESS_TIMEOUT && (D.IsConnected(d) ==> d.returnedAt.Some?)
  }

  ghost predicate ModesOk(h: H.Hardware) {
    && h.mode in {CMD_STOP, CMD_JOINT_POSITION}
    && (h.prepared ==> h.pending in {CMD_STOP, CMD_JOINT_POSITION})
  }

  ghost predicate DriverOk(s: System) {
    LinkOk(s.hardware.driver) && Tracks(s.hardware.driver, s.received, s.frames) && ModesOk(s.hardware)
  }

  ghost predicate Inv(fp: Fp, s: System) {
    WellFormed(s) && FramesOk(s) && SentOk(fp, s) && ControllerOk(fp, s) && DriverOk(s)
  }

  // ----- publishing -----

  lemma EmittedIsGood(fp: Fp, t: Task, reading: Reading, txOk: bool, count: nat)
    requires AtHead(t) && t.sequence == count % WRAP
    ensures var frame := Publish(fp, t, PublishInput(reading, txOk)).1;
            frame.Some? ==> GoodFrame(frame.value, Tag(0, count + 1))
  {
    var in_ := PublishInput(reading, txOk);
    ControlRuns.PublishedFrame(fp, t, in_, FRESH_STATE);
    CountUp(count);
    hide Publish;
  }

  lemma TagsByCount(frame: Option<seq<byte>>, s: System)
    ensures frame.Some? && GoodFrame(frame.value, Tag(0, s.count + 1)) ==> GoodFrame(frame.value, Tag(s.epoch, s.count + 1))
  {
  }

  lemma CountUp(count: nat)
    ensures (count % WRAP + 1) % WRAP == (count + 1) % WRAP
  {
  }

  lemma EmitKeeps(fp: Fp, s: System, reading: Reading, txOk: bool)
    requires Inv(fp, s) && s.pending.None?
    ensures Inv(fp, EmitStep(fp, s, reading, txOk))
  {
    hide Publish, AtHead, LinkOk, ModesOk, Holds, GoodFrame;
    EmittedIsGood(fp, s.task, reading, txOk, s.count);
    var frame := Publish(fp, s.task, PublishInput(reading, txOk)).1;
    assert frame.Some? ==> GoodFrame(frame.value, Tag(s.epoch, s.count + 1)) by { TagsByCount(frame, s); }
  }

  /** What is published does not depend on what the rest of the cycle sees: it is the cycle's own frame. */
  lemma EmitsTheCyclesFrame(fp: Fp, t: Task, in_: Input)
    requires Initialised(t)
    ensures Publish(fp, t, PublishInput(in_.reading, in_.txOk)).1 == Cycle(fp, t, in_).frame
  {
    hide EncodeRobotStateMsg, Decide, Finish, Receive;
  }

  // ----- acting -----

  lemma SettlingReadsNothing(q: Task)
    requires Initialised(q)
    ensures var d := Interlock(ExtractMode(CheckStream(q)));
            d.queue == q.queue && d.rx == q.rx
  {
    hide SequenceDelay, Trips;
  }

  /** What a decided cycle has read, in terms of the queue. */
  lemma DecideReads(fp: Fp, t: Task, in_: Input)
    requires AtHead(t) && WellSized(t.queue + in_.arrivals, COMMAND_SIZE)
    ensures var all := t.queue + in_.arrivals;
            var d := Decide(fp, t, in_);
            var got := Receive(fp, Publish(fp, t, in_).0, in_.arrivals).1;
            && d.queue == all[Taken(all)..]
            && d.rx == (if all == [] then t.rx else all[Taken(all) - 1])
            && got == (all != [])
  {
    assert Initialised(t);
    hide Publish, DecodeRobotCommandMsg, ReadData, CheckStream, ExtractMode, Interlock, OutgoingMsg, AtHead;
    var p := Publish(fp, t, in_).0;
    Published(fp, t, in_);
    ReadTakesNewest(t.queue + in_.arrivals, t.rx);
    SettlingReadsNothing(Receive(fp, p, in_.arrivals).0);
  }

  /** The datagrams in sight of a cycle, each of them a message that was sent. */
  lemma InSight(fp: Fp, s: System, deliver: seq<nat>)
    requires SentOk(fp, s) && QueueOk(s) && forall j :: 0 <= j < |deliver| ==> deliver[j] < |s.sent|
    ensures var all := s.task.queue + Arrivals(s.sent, deliver);
            var which := s.queued + deliver;
            && |all| == |which| && WellSized(all, COMMAND_SIZE)
            && forall i :: 0 <= i < |all| ==> which[i] < |s.sent| && all[i] == s.sent[which[i]].bytes
  {
    hide CommandBytes, Initialised;
    var all := s.task.queue + Arrivals(s.sent, deliver);
    var which := s.queued + deliver;
    forall i | 0 <= i < |all|
      ensures which[i] < |s.sent| && all[i] == s.sent[which[i]].bytes && |all[i]| == COMMAND_SIZE
    {
      assert GoodMessage(fp, s.sent[which[i]], s.frames);
    }
  }

  /** A message of the driver, once read, is decoded as it was meant. */
  lemma DecodedAsSent(fp: Fp, m: Message, frames: map<Tag, seq<byte>>, h: MessageHeader, c: Val3Command)
    requires GoodMessage(fp, m, frames) && h.headerSize == 8
    ensures var (r, d, error) := DecodeRobotCommandMsg(fp, h, c, m.bytes);
            !error && Holds(fp, r, d, m.command)
  {
    CrossCodec.CommandFramesAgree(fp, m.command, h, c);
    hide CommandBytes, DecodeRobotCommandMsg;
  }

  /** The command a decided cycle goes by is the current message. */
  lemma DecidesOnCurrent(fp: Fp, s: System, e: Event)
    requires Inv(fp, s) && e.Act? && Possible(s, e)
    ensures var d := Decide(fp, s.task, CycleInput(s, e));
            && d.sequence == (s.count + 1) % WRAP
            && (!d.error && d.command.isValid ==>
                  && Current(s, e.deliver).Some? && Current(s, e.deliver).value < |s.sent|
                  && Holds(fp, d.header, d.command, s.sent[Current(s, e.deliver).value].command))
  {
    hide Decide, Publish, Receive, DecodeRobotCommandMsg, Holds, GoodMessage, GoodFrame, DriverOk, FramesOk, OutgoingMsg, ArmOf;
    var in_ := CycleInput(s, e);
    var all := s.task.queue + in_.arrivals;
    var which := s.queued + e.deliver;
    InSight(fp, s, e.deliver);
    CountUp(s.count);
    DecideTraces(fp, s.task, in_);
    DecideReads(fp, s.task, in_);
    var d := Decide(fp, s.task, in_);
    if !d.error && all != [] {
      var m := s.sent[which[Taken(all) - 1]];
      assert d.rx == m.bytes;
      DecodedAsSent(fp, m, s.frames, s.task.header, s.task.command);
    }
  }

  lemma ActKeeps(fp: Fp, s: System, e: Event)
    requires Inv(fp, s) && e.Act? && Possible(s, e)
    ensures Inv(fp, ActStep(fp, s, e))
  {
    hide Decide, Publish, Receive, Finish, AtHead, Decided, Holds, GoodMessage, GoodFrame, LinkOk, Tracks, ModesOk, QueueOk;
    var in_ := CycleInput(s, e);
    DecideKeeps(fp, s.task, in_);
    FinishRestores(Decide(fp, s.task, in_), in_);
    DecidesOnCurrent(fp, s, e);
    QueueAfter(fp, s, e);
  }

  lemma QueueAfter(fp: Fp, s: System, e: Event)
    requires Inv(fp, s) && e.Act? && Possible(s, e)
    ensures QueueOk(ActStep(fp, s, e))
  {
    hide Decide, Publish, Receive, Finish, AtHead, Decided, Holds, GoodMessage, GoodFrame, DriverOk;
    var in_ := CycleInput(s, e);
    InSight(fp, s, e.deliver);
    DecideReads(fp, s.task, in_);
    DecideKeeps(fp, s.task, in_);
    FinishRestores(Decide(fp, s.task, in_), in_);
  }

  // ----- what reaches the driver -----

  lemma DatagramTracks(fp: Fp, d: D.Driver, received: seq<Tag>, frames: map<Tag, seq<byte>>, tag: Tag, now: nat)
    requires D.Consistent(d) && Tracks(d, received, frames) && tag in frames && GoodFrame(frames[tag], tag)
    ensures var e := D.OnDatagram(fp, d, frames[tag], now);
            && e.subscriber.Some? == d.subscriber.Some?
            && Tracks(e, if d.subscriber.Some? then received + [tag] else received, frames)
  {
    if d.subscriber.Some? {
      D.AcceptedWasReceived(fp, d.subscriber.value, frames[tag], now);
      assert ReadState(fp, FRESH_STATE, frames[tag]).1;
      assert ReadFrom(ReadState(fp, FRESH_STATE, frames[tag]).0, tag, frames[tag]);
    }
    hide ReadState;
  }

  lemma {:induction false} DatagramsTrack(fp: Fp, d: D.Driver, received: seq<Tag>, frames: map<Tag, seq<byte>>,
                                          arrivals: seq<(Tag, nat)>)
    requires D.Consistent(d) && Tracks(d, received, frames) && d.subscriber.Some? && Known(frames, arrivals)
    requires forall tag :: tag in frames ==> GoodFrame(frames[tag], tag)
    ensures var e := D.OnDatagrams(fp, d, Datagrams(frames, arrivals));
            e.subscriber.Some? && Tracks(e, received + TagsOf(arrivals), frames)
    decreases |arrivals|
  {
    hide D.OnDatagram, Tracks, GoodFrame, D.Consistent;
    if arrivals == [] {
      assert received + [] == received;
    } else {
      var n := |arrivals| - 1;
      assert Datagrams(frames, arrivals)[..n] == Datagrams(frames, arrivals[..n]);
      DatagramsTrack(fp, d, received, frames, arrivals[..n]);
      var before := D.OnDatagrams(fp, d, Datagrams(frames, arrivals[..n]));
      DatagramTracks(fp, before, received + TagsOf(arrivals[..n]), frames, arrivals[n].0, arrivals[n].1);
      assert received + TagsOf(arrivals) == received + TagsOf(arrivals[..n]) + [arrivals[n].0];
    }
  }

  lemma ReadTracks(d: D.Driver, received: seq<Tag>, frames: map<Tag, seq<byte>>, contended: bool, now: nat)
    requires D.Consistent(d) && Tracks(d, received, frames)
    ensures var e := D.ReadRobotState(d, contended, now).0;
            e.subscriber.Some? == d.subscriber.Some? && Tracks(e, received, frames)
  {
  }

  lemma {:induction false} PollsTrack(fp: Fp, d: D.Driver, received: seq<Tag>, frames: map<Tag, seq<byte>>, polls: seq<Poll>)
    requires D.Consistent(d) && Tracks(d, received, frames) && d.subscriber.Some?
    requires forall k :: 0 <= k < |polls| ==> Known(frames, polls[k].arrivals)
    requires forall tag :: tag in frames ==> GoodFrame(frames[tag], tag)
    ensures var e := D.PollUntilTimeout(fp, d, Attempts(frames, polls)).0;
            e.subscriber.Some? && Tracks(e, received + TagsOfPolls(polls), frames)
    decreases |polls|
  {
    hide D.OnDatagrams, D.ReadRobotState, Tracks, GoodFrame, D.Consistent, Known;
    if polls == [] {
      assert received + [] == received;
    } else {
      var n := |polls| - 1;
      assert Attempts(frames, polls)[..n] == Attempts(frames, polls[..n]);
      PollsTrack(fp, d, received, frames, polls[..n]);
      var before := D.PollUntilTimeout(fp, d, Attempts(frames, polls[..n])).0;
      var tags := received + TagsOfPolls(polls[..n]);
      DatagramsTrack(fp, before, tags, frames, polls[n].arrivals);
      var reached := D.OnDatagrams(fp, before, Datagrams(frames, polls[n].arrivals));
      ReadTracks(reached, tags + TagsOf(polls[n].arrivals), frames, polls[n].contended, polls[n].now);
      assert received + TagsOfPolls(polls) == tags + TagsOf(polls[n].arrivals);
    }
  }

  /** A connection that has just been opened and polled knows exactly the frames that reached it. */
  lemma OpenedTracks(fp: Fp, d: D.Driver, frames: map<Tag, seq<byte>>, polls: seq<Poll>)
    requires forall k :: 0 <= k < |polls| ==> Known(frames, polls[k].arrivals)
    requires forall tag :: tag in frames ==> GoodFrame(frames[tag], tag)
    ensures Tracks(D.PollUntilTimeout(fp, D.Opened(d), Attempts(frames, polls)).0, TagsOfPolls(polls), frames)
  {
    hide D.PollUntilTimeout, GoodFrame, Known;
    PollsTrack(fp, D.Opened(d), [], frames, polls);
    assert [] + TagsOfPolls(polls) == TagsOfPolls(polls);
  }

  lemma AttachTracks(fp: Fp, d: D.Driver, received: seq<Tag>, frames: map<Tag, seq<byte>>, env: D.Attachment, polls: seq<Poll>)
    requires D.Consistent(d) && Tracks(d, received, frames)
    requires forall k :: 0 <= k < |polls| ==> Known(frames, polls[k].arrivals)
    requires env.polls == Attempts(frames, polls)
    requires forall tag :: tag in frames ==> GoodFrame(frames[tag], tag)
    ensures var (e, ok) := D.Connect(fp, d, env);
            Tracks(e, if ok then TagsOfPolls(polls) else if env.ipGiven then [] else received, frames)
  {
    hide D.Connect, D.PollUntilTimeout, GoodFrame, Known, D.Consistent, D.Opened;
    var d1 := if d.control.connected || d.diagnostics.connected then D.Disconnect(d) else d;
    D.ConnectCases(fp, d, env);
    OpenedTracks(fp, d1, frames, polls);
  }

  lemma AttachKeeps(fp: Fp, s: System, e: Event)
    requires Inv(fp, s) && e.Attach? && Possible(s, e) && ClockOk(e)
    ensures Inv(fp, AttachStep(fp, s, e))
  {
    hide GoodFrame, GoodMessage, AtHead, Holds, Tracks, D.Traceable, D.Connect, D.IsConnected, Known;
    var env := D.Attachment(e.ipGiven, e.closes, e.controlOpens, e.diagnosticsOpens, Attempts(s.frames, e.polls));
    D.ConnectTraceable(fp, s.hardware.driver, env);
    D.ConnectCases(fp, s.hardware.driver, env);
    AttachTracks(fp, s.hardware.driver, s.received, s.frames, env, e.polls);
  }

  lemma ArrivalKeeps(fp: Fp, s: System, tag: Tag, now: nat)
    requires Inv(fp, s) && tag in s.frames
    ensures Inv(fp, Step(fp, s, StateArrives(tag, now)))
  {
    hide GoodFrame, GoodMessage, AtHead, Holds, Tracks, D.Traceable, D.OnDatagram;
    D.DatagramTraceable(fp, s.hardware.driver, s.frames[tag], now);
    DatagramTracks(fp, s.hardware.driver, s.received, s.frames, tag, now);
    ArrivalKeepsLink(fp, s.hardware.driver, s.frames[tag], now);
  }

  lemma ArrivalKeepsLink(fp: Fp, d: D.Driver, bytes: seq<byte>, now: nat)
    requires D.Consistent(d)
    ensures D.IsConnected(D.OnDatagram(fp, d, bytes, now)) == D.IsConnected(d)
  {
    hide Subscriber.UpdateMessage;
  }

  // ----- calls inside the driver -----

  lemma LocalDriver(fp: Fp, h: H.Hardware, c: H.Call)
    requires H.Sized(h) && !c.Configure? && !c.Datagram?
    ensures var r := H.After(fp, h, c);
            && |r.positions| == |h.positions|
            && (r.driver == h.driver
                || (c.ReadCall? && r.driver == D.ReadRobotState(h.driver, c.contended, c.now).0)
                || (c.Cleanup? && r.driver == D.Disconnect(h.driver)))
  {
    hide D.ReadRobotState, H.ResolveMode;
  }

  lemma ReadKeepsLink(d: D.Driver, contended: bool, now: nat)
    requires LinkOk(d) && now >= d.timeout
    ensures LinkOk(D.ReadRobotState(d, contended, now).0)
  {
    hide D.Traceable;
    D.ReadTraceable(d, contended, now);
  }

  lemma DisconnectKeepsLink(d: D.Driver, received: seq<Tag>, frames: map<Tag, seq<byte>>)
    requires LinkOk(d)
    ensures LinkOk(D.Disconnect(d)) && Tracks(D.Disconnect(d), received, frames)
  {
  }

  lemma LocalKeeps(fp: Fp, s: System, c: H.Call)
    requires Inv(fp, s) && Possible(s, Local(c)) && ClockOk(Local(c))
    ensures Inv(fp, Step(fp, s, Local(c)))
  {
    hide GoodFrame, GoodMessage, AtHead, Holds, Tracks, D.Traceable, D.ReadRobotState, D.Disconnect, H.After;
    LocalDriver(fp, s.hardware, c);
    H.CallEffects(fp, s.hardware, c);
    DisconnectKeepsLink(s.hardware.driver, s.received, s.frames);
    if c.ReadCall? {
      ReadKeepsLink(s.hardware.driver, c.contended, c.now);
      ReadTracks(s.hardware.driver, s.received, s.frames, c.contended, c.now);
    }
  }

  // ----- sending -----

  /** The number the driver echoes is that of a frame the controller has emitted. */
  lemma EchoIsEmitted(s: System)
    requires LinkOk(s.hardware.driver) && Tracks(s.hardware.driver, s.received, s.frames)
    requires D.IsConnected(s.hardware.driver)
    ensures Echoed(s).Some? && Echoed(s).value in s.frames
    ensures s.hardware.driver.lastValid == Echoed(s).value.count % WRAP
  {
  }

  lemma TransmitKeeps(fp: Fp, s: System, command: RobotCommand)
    requires Inv(fp, s) && D.IsConnected(s.hardware.driver)
    requires command.header.sequence == s.hardware.driver.lastValid
    requires CommandHeaderOk(command.header)
    requires command.header.magic == MAGIC_NUMBER && command.header.version == PROTOCOL_VERSION
    requires command.commandType in {CMD_STOP, CMD_JOINT_POSITION} && forall i :: 0 <= i < 6 ==> !command.reference[i].NaN?
    ensures Inv(fp, Transmit(s, command, Some(CommandBytes(fp, command))))
  {
    hide GoodFrame, AtHead, Holds, Tracks, D.Traceable, D.IsConnected, CommandBytes, H.Sized, Initialised;
    EchoIsEmitted(s);
  }

  /** What a write hands to the socket, whatever the mode. */
  lemma WrittenCommand(fp: Fp, h: H.Hardware, period: Double, result: D.SendResult)
    requires H.Sized(h) && |h.positions| <= 6 && ModesOk(h)
    ensures var w := H.Write(fp, h, period, result);
            w.sent.frame.Some? ==>
              && D.IsConnected(h.driver)
              && w.sent.frame.value == CommandBytes(fp, w.command.value)
              && CommandHeaderOk(w.command.value.header)
              && w.command.value.header.magic == MAGIC_NUMBER && w.command.value.header.version == PROTOCOL_VERSION
              && w.command.value.header.sequence == h.driver.lastValid
              && w.command.value.commandType in {CMD_STOP, CMD_JOINT_POSITION}
              && forall i :: 0 <= i < 6 ==> !w.command.value.reference[i].NaN?
  {
    hide H.Write;
    H.SentAsGiven(fp, h, period, result);
    H.PositionCommandsAreSound(fp, h, period, result);
    H.StopCommandsAreZero(fp, h, period, result);
  }

  lemma WriteKeeps(fp: Fp, s: System, period: Double, result: D.SendResult)
    requires Inv(fp, s)
    ensures Inv(fp, Step(fp, s, WriteOut(period, result)))
  {
    hide H.Write, CommandBytes, FramesOk, SentOk, ControllerOk, LinkOk, Tracks;
    WrittenCommand(fp, s.hardware, period, result);
    var w := H.Write(fp, s.hardware, period, result);
    if w.sent.frame.Some? {
      TransmitKeeps(fp, s, w.command.value);
    }
  }

  lemma ErrorKeeps(fp: Fp, s: System, result: D.SendResult)
    requires Inv(fp, s)
    ensures Inv(fp, Step(fp, s, ErrorOut(result)))
  {
    hide CommandBytes, FramesOk, SentOk, ControllerOk, LinkOk, Tracks, D.IsConnected, ModesOk;
    if D.IsConnected(s.hardware.driver) {
      TransmitKeeps(fp, s, D.StopCommand(s.hardware.driver));
    }
  }

  // ----- every reachable state -----

  lemma StepKeeps(fp: Fp, s: System, e: Event)
    requires Inv(fp, s) && ClockOk(e)
    ensures Inv(fp, Step(fp, s, e))
  {
    hide Inv, ClockOk, EmitStep, ActStep, AttachStep, Transmit, H.Write, H.After, D.OnDatagram, D.SendStopAll;
    if Possible(s, e) {
      match e
      case Emit(reading, txOk) => EmitKeeps(fp, s, reading, txOk);
      case Act(_, _, _, _) => ActKeeps(fp, s, e);
      case StateArrives(tag, now) => ArrivalKeeps(fp, s, tag, now);
      case Attach(_, _, _, _, _) => AttachKeeps(fp, s, e);
      case WriteOut(period, result) => WriteKeeps(fp, s, period, result);
      case ErrorOut(result) => ErrorKeeps(fp, s, result);
      case Local(call) => LocalKeeps(fp, s, call);
    }
  }

  lemma StartOk(fp: Fp, c: Config)
    requires c.joints <= 6
    ensures Inv(fp, Start(c))
  {
    InitialAtHead();
    hide AtHead;
  }

  ghost predicate Clocked(events: seq<Event>) {
    forall k :: 0 <= k < |events| ==> ClockOk(events[k])
  }

  lemma {:induction false} InvAlways(fp: Fp, c: Config, events: seq<Event>, i: nat)
    requires c.joints <= 6 && Clocked(events) && i <= |events|
    ensures Inv(fp, SystemAt(fp, Start(c), events, i))
  {
    hide FramesOk, SentOk, ControllerOk, DriverOk, Step, ClockOk, Start;
    if i == 0 {
      StartOk(fp, c);
    } else {
      InvAlways(fp, c, events, i - 1);
      assert ClockOk(events[i - 1]);
      StepKeeps(fp, SystemAt(fp, Start(c), events, i - 1), events[i - 1]);
    }
  }

  // ----- where frames and commands come from -----

  /** What each step adds to the network. */
  lemma StepAdds(fp: Fp, s: System, e: Event)
    requires WellFormed(s)
    ensures var r := Step(fp, s, e);
            && (r.frames != s.frames ==>
                  && e.Emit? && Possible(s, e)
                  && var frame := Publish(fp, s.task, PublishInput(e.reading, e.txOk)).1;
                     frame.Some? && r.frames == s.frames[Tag(s.epoch, s.count + 1) := frame.value])
            && (r.sent != s.sent ==>
                  exists command: RobotCommand, bytes: seq<byte> ::
                    && r.sent == s.sent + [Message(command, bytes, Echoed(s))]
                    && D.IsConnected(s.hardware.driver)
                    && (if e.WriteOut? then H.Write(fp, s.hardware, e.period, e.result).command == Some(command)
                        else e.ErrorOut? && command == D.StopCommand(s.hardware.driver)))
  {
    hide Publish, Cycle, Current, H.Write, H.After, D.Connect, D.OnDatagram, D.SendStopAll, D.StopCommand, Initialised,
         H.Sized, Echoed, D.IsConnected;
    if e.WriteOut? {
      H.SentAsGiven(fp, s.hardware, e.period, e.result);
      var w := H.Write(fp, s.hardware, e.period, e.result);
      if w.command.Some? && w.sent.frame.Some? {
        assert Step(fp, s, e).sent == s.sent + [Message(w.command.value, w.sent.frame.value, Echoed(s))];
      }
    }
    if e.ErrorOut? && D.IsConnected(s.hardware.driver) {
      var sent := D.SendStopAll(fp, s.hardware.driver, e.result);
      if sent.frame.Some? {
        assert Step(fp, s, e).sent == s.sent + [Message(D.StopCommand(s.hardware.driver), sent.frame.value, Echoed(s))];
      }
    }
  }

  /** Every frame on the network was published by the controller, at the count of its tag. */
  lemma {:induction false} EmittedBy(fp: Fp, start: System, events: seq<Event>, i: nat, tag: Tag) returns (k: nat)
    requires WellFormed(start) && start.frames == map[] && i <= |events| && tag in SystemAt(fp, start, events, i).frames
    ensures k < i && events[k].Emit?
    ensures var s := SystemAt(fp, start, events, k);
            && tag == Tag(s.epoch, s.count + 1)
            && Publish(fp, s.task, PublishInput(events[k].reading, events[k].txOk)).1
               == Some(SystemAt(fp, start, events, i).frames[tag])
    decreases i
  {
    hide Step, Publish, PublishInput, WellFormed;
    assert i > 0;
    var s := SystemAt(fp, start, events, i - 1);
    StepAdds(fp, s, events[i - 1]);
    if SystemAt(fp, start, events, i).frames != s.frames && tag == Tag(s.epoch, s.count + 1) {
      k := i - 1;
    } else {
      k := EmittedBy(fp, start, events, i - 1, tag);
    }
  }

  /** Every command on the network was sent by the driver, echoing the state it had last returned. */
  lemma {:induction false} SentBy(fp: Fp, start: System, events: seq<Event>, i: nat, n: nat) returns (k: nat)
    requires WellFormed(start) && start.sent == [] && i <= |events| && n < |SystemAt(fp, start, events, i).sent|
    ensures k < i
    ensures var s := SystemAt(fp, start, events, k);
            var m := SystemAt(fp, start, events, i).sent[n];
            && m.answers == Echoed(s) && D.IsConnected(s.hardware.driver)
            && (if events[k].WriteOut? then H.Write(fp, s.hardware, events[k].period, events[k].result).command == Some(m.command)
                else events[k].ErrorOut? && m.command == D.StopCommand(s.hardware.driver))
    decreases i
  {
    hide Step, WellFormed, Echoed, H.Write, D.StopCommand, D.IsConnected;
    assert i > 0;
    var s := SystemAt(fp, start, events, i - 1);
    StepAdds(fp, s, events[i - 1]);
    if n < |s.sent| {
      k := SentBy(fp, start, events, i - 1, n);
    } else {
      k := i - 1;
    }
  }

  // ----- cycles and hard stops -----

  predicate StopsHard(fp: Fp, s: System, e: Event)
    requires WellFormed(s)
  {
    e.Act? && Possible(s, e) && Cycle(fp, s.task, CycleInput(s, e)).hardStop
  }

  /** Cycles completed by the first `i` events. */
  function CyclesIn(fp: Fp, start: System, events: seq<Event>, i: nat): nat
    requires WellFormed(start) && i <= |events|
  {
    if i == 0 then 0
    else CyclesIn(fp, start, events, i - 1)
         + if events[i - 1].Act? && Possible(SystemAt(fp, start, events, i - 1), events[i - 1]) then 1 else 0
  }

  /** Hard stops among them. */
  function StopsIn(fp: Fp, start: System, events: seq<Event>, i: nat): nat
    requires WellFormed(start) && i <= |events|
  {
    if i == 0 then 0
    else StopsIn(fp, start, events, i - 1) + if StopsHard(fp, SystemAt(fp, start, events, i - 1), events[i - 1]) then 1 else 0
  }

  lemma StepCounts(fp: Fp, s: System, e: Event)
    requires WellFormed(s)
    ensures var r := Step(fp, s, e);
            if StopsHard(fp, s, e) then r.epoch == s.epoch + 1 && r.count == 0
            else r.epoch == s.epoch && r.count == s.count + if e.Act? && Possible(s, e) then 1 else 0
  {
    hide Cycle, Publish, H.Write, H.After, D.Connect, D.OnDatagram, D.SendStopAll, Initialised, H.Sized, Current;
  }

  /** Epochs count hard stops, and within an epoch the counter counts cycles. */
  lemma {:induction false} CountersCount(fp: Fp, start: System, events: seq<Event>, i: nat, j: nat)
    requires WellFormed(start) && i <= j <= |events|
    ensures var a := SystemAt(fp, start, events, i);
            var b := SystemAt(fp, start, events, j);
            && b.epoch - a.epoch == StopsIn(fp, start, events, j) - StopsIn(fp, start, events, i) >= 0
            && (a.epoch == b.epoch ==>
                  b.count - a.count == CyclesIn(fp, start, events, j) - CyclesIn(fp, start, events, i))
    decreases j
  {
    hide Step, WellFormed, StopsHard, Possible;
    if i < j {
      CountersCount(fp, start, events, i, j - 1);
      StepCounts(fp, SystemAt(fp, start, events, j - 1), events[j - 1]);
    }
  }

  // ----- the age of executed commands -----

  /** How many frames the controller has published since the one with this tag, by unbounded counters. */
  function Age(s: System, tag: Tag): int {
    s.count + 1 - tag.count
  }

  /** Limits on a wrapped distance are limits on the age itself exactly while the frame is younger than 65536 cycles. */
  lemma AgeWithinLimit(sequence: int, echo: int, count: nat, answered: nat, limit: int)
    requires sequence == (count + 1) % WRAP && echo == answered % WRAP
    requires (sequence - echo) % WRAP <= limit < 5536
    ensures (count + 1 - answered) % WRAP <= limit
    ensures answered <= count + 1 ==> (count + 1 - answered <= limit <==> count + 1 - answered < WRAP)
  {
    DistanceModulo(count + 1, answered);
  }

  lemma MoveAnswers(fp: Fp, s: System, e: Event, target: Vec6)
    requires Inv(fp, s) && e.Act? && Possible(s, e)
    requires SyncMove(target) in Cycle(fp, s.task, CycleInput(s, e)).actions
    ensures var i := Current(s, e.deliver);
            && i.Some? && i.value < |s.sent|
            && var m := s.sent[i.value];
            && GoodMessage(fp, m, s.frames)
            && m.command.commandType == CMD_JOINT_POSITION && target == Narrowed(fp, m.command.reference)
            && Age(s, m.answers.value) % WRAP <= Limit(!s.pending.value.reading.settled)
            && (m.answers.value.epoch == s.epoch ==>
                  && Age(s, m.answers.value) >= 0
                  && (Age(s, m.answers.value) <= Limit(!s.pending.value.reading.settled) <==> Age(s, m.answers.value) < WRAP))
  {
    hide Cycle, Decide, AtHead, QueueOk, GoodFrame, LinkOk, Tracks, ModesOk, H.Sized, Initialised;
    var in_ := CycleInput(s, e);
    ControlRuns.CycleMovesSafely(fp, s.task, in_, target);
    DecideKeeps(fp, s.task, in_);
    DecidesOnCurrent(fp, s, e);
    var d := Decide(fp, s.task, in_);
    var m := s.sent[Current(s, e.deliver).value];
    assert GoodMessage(fp, m, s.frames);
    AgeWithinLimit(d.sequence, d.header.sequence, s.count, m.answers.value.count, Limit(!in_.reading.settled));
  }

  /** A position command comes from a write in position mode with no fault shown. */
  lemma WritesPositions(fp: Fp, s: System, e: Event, command: RobotCommand)
    requires Inv(fp, s) && command.commandType == CMD_JOINT_POSITION
    requires if e.WriteOut? then H.Write(fp, s.hardware, e.period, e.result).command == Some(command)
             else e.ErrorOut? && command == D.StopCommand(s.hardware.driver)
    ensures e.WriteOut? && s.hardware.mode == CMD_JOINT_POSITION
    ensures !s.hardware.state.status.errorState && s.hardware.state.controlState != CMD_INVALID
  {
    hide H.Write, FramesOk, SentOk, ControllerOk, LinkOk, Tracks;
    if e.WriteOut? {
      H.PositionCommandsAreSound(fp, s.hardware, e.period, e.result);
    }
  }

  /**
   Composed safety. In any run of controller, network and driver, every position the arm is told to
   move to is, in single precision, the reference of a position command that the driver wrote
   earlier in position mode, without a NaN and without a fault in the state it had last read; that
   command answers a frame the controller itself had published before; the two 16-bit numbers are at
   most 25 apart (5 with the arm in motion); and if no hard stop has come between, the frame really
   is at most so many cycles old exactly when it is less than 65536 cycles old. Both are counted in
   events of the run, not by the programs.
   */
  lemma MovesAnswerOwnFrames(fp: Fp, c: Config, events: seq<Event>, k: nat, target: Vec6) returns (write: nat, emit: nat)
    requires c.joints <= 6 && Clocked(events) && k < |events|
    requires events[k].Act? && Possible(SystemAt(fp, Start(c), events, k), events[k])
    requires SyncMove(target) in
             Cycle(fp, SystemAt(fp, Start(c), events, k).task, CycleInput(SystemAt(fp, Start(c), events, k), events[k])).actions
    ensures emit < write < k && events[emit].Emit? && events[write].WriteOut?
    ensures var s := SystemAt(fp, Start(c), events, k);
            var w := SystemAt(fp, Start(c), events, write);
            var p := SystemAt(fp, Start(c), events, emit);
            var command := H.Write(fp, w.hardware, events[write].period, events[write].result).command;
            var limit := Limit(!s.pending.value.reading.settled);
            var age := CyclesIn(fp, Start(c), events, k) - CyclesIn(fp, Start(c), events, emit);
            && command.Some? && target == Narrowed(fp, command.value.reference)
            && w.hardware.mode == CMD_JOINT_POSITION
            && !w.hardware.state.status.errorState && w.hardware.state.controlState != CMD_INVALID
            && (forall j :: 0 <= j < 6 ==> !command.value.reference[j].NaN?)
            && Echoed(w) == Some(Tag(p.epoch, p.count + 1))
            && Publish(fp, p.task, PublishInput(events[emit].reading, events[emit].txOk)).1.Some?
            && command.value.header.sequence == (p.count + 1) % WRAP
            && (s.count - p.count) % WRAP <= limit
            && (StopsIn(fp, Start(c), events, emit) == StopsIn(fp, Start(c), events, k) ==>
                  age == s.count - p.count && (age <= limit <==> age < WRAP))
  {
    hide SystemAt, Cycle, ClockOk, Possible, Step, H.Write, H.After, Publish, Start, FramesOk, SentOk, ControllerOk,
         LinkOk, Tracks, D.IsConnected, Echoed, H.Sized, Initialised, StopsIn, CyclesIn;
    var start := Start(c);
    assert WellFormed(start) && start.frames == map[] && start.sent == [] by { StartEmpty(c); }
    InvAlways(fp, c, events, k);
    var s := SystemAt(fp, start, events, k);
    MoveAnswers(fp, s, events[k], target);
    var n := Current(s, events[k].deliver).value;
    var m := s.sent[n];
    write := SentBy(fp, start, events, k, n);
    var w := SystemAt(fp, start, events, write);
    InvAlways(fp, c, events, write);
    WritesPositions(fp, w, events[write], m.command);
    EchoIsEmitted(w);
    emit := EmittedBy(fp, start, events, write, m.answers.value);
    CountersCount(fp, start, events, emit, k);
  }

  lemma StartEmpty(c: Config)
    requires c.joints <= 6
    ensures WellFormed(Start(c)) && Start(c).frames == map[] && Start(c).sent == []
  {
  }
}
