/**
 Controller, driver and the network between them as one system. The network keeps every frame ever
 put on it and may deliver any of them, in any order, any number of times, or never.

 The programs only ever see bytes. Which frame a message answers is recorded beside them: each state
 frame has a tag with the unbounded counter that its 16-bit number abbreviates.
 */
module Protocol {
  import opened Wire
  import opened Messages
  import opened StateUpdate
  import opened SocketRead
  import opened ControlLoop
  import D = DriverState
  import H = HardwareState

  /** `epoch` counts the hard stops before the frame, `count` the cycles since the last of them. */
  datatype Tag = Tag(epoch: nat, count: nat)

  /** A command frame on the network, with the tag of the state frame whose number it echoes. */
  datatype Message = Message(command: RobotCommand, bytes: seq<byte>, answers: Option<Tag>)

  /** A cycle that has published its state and not yet read its commands. */
  datatype Pending = Pending(reading: Reading, txOk: bool)

  /**
   `queued` and `held` say which messages the controller's socket queue and its decoded command are;
   `received` says which frames the driver's subscriber has accepted.
   */
  datatype System = System(
    task: Task, epoch: nat, count: nat, pending: Option<Pending>, queued: seq<nat>, held: Option<nat>,
    frames: map<Tag, seq<byte>>, sent: seq<Message>,
    hardware: H.Hardware, received: seq<Tag>)

  predicate WellFormed(s: System) {
    Initialised(s.task) && H.Sized(s.hardware) && |s.hardware.positions| <= 6
  }

  /** The sizes the driver is configured with; the robot has no more than six joints. */
  datatype Config = Config(joints: nat, digitalIn: nat, analogIn: nat, digitalOut: nat, analogOut: nat)

  function Start(c: Config): (s: System)
    requires c.joints <= 6
    ensures WellFormed(s)
  {
    System(INITIAL_TASK, 0, 0, None, [], None, map[], [],
           H.Initial(c.joints, c.digitalIn, c.analogIn, c.digitalOut, c.analogOut), [])
  }

  // ----- events -----

  /** One poll of the connection loop: the frames that arrive before it, each with its time. */
  datatype Poll = Poll(arrivals: seq<(Tag, nat)>, contended: bool, now: nat)

  datatype Event =
    | Emit(reading: Reading, txOk: bool)
    | Act(deliver: seq<nat>, inRange: seq<Double> -> bool, before: RunStatus, after: RunStatus)
    | StateArrives(tag: Tag, now: nat)
    | Attach(ipGiven: bool, closes: bool, controlOpens: bool, diagnosticsOpens: bool, polls: seq<Poll>)
    | WriteOut(period: Double, result: D.SendResult)
    | ErrorOut(result: D.SendResult)
    | Local(call: H.Call)

  predicate Known(frames: map<Tag, seq<byte>>, arrivals: seq<(Tag, nat)>) {
    forall j :: 0 <= j < |arrivals| ==> arrivals[j].0 in frames
  }

  /** Only what is on the network can arrive; publishing and acting alternate. */
  predicate Possible(s: System, e: Event) {
    match e
    case Emit(_, _) => s.pending.None?
    case Act(deliver, _, _, _) => s.pending.Some? && forall j :: 0 <= j < |deliver| ==> deliver[j] < |s.sent|
    case StateArrives(tag, _) => tag in s.frames
    case Attach(_, _, _, _, polls) => forall k :: 0 <= k < |polls| ==> Known(s.frames, polls[k].arrivals)
    case WriteOut(_, _) => true
    case ErrorOut(_) => true
    case Local(call) => !call.Configure? && !call.Datagram?
  }

  function Arrivals(sent: seq<Message>, deliver: seq<nat>): (a: seq<Datagram>)
    requires forall j :: 0 <= j < |deliver| ==> deliver[j] < |sent|
    ensures |a| == |deliver| && forall j :: 0 <= j < |deliver| ==> a[j] == sent[deliver[j]].bytes
  {
    seq(|deliver|, j requires 0 <= j < |deliver| => sent[deliver[j]].bytes)
  }

  function Datagrams(frames: map<Tag, seq<byte>>, arrivals: seq<(Tag, nat)>): (a: seq<(seq<byte>, nat)>)
    requires Known(frames, arrivals)
    ensures |a| == |arrivals| && forall j :: 0 <= j < |arrivals| ==> a[j] == (frames[arrivals[j].0], arrivals[j].1)
  {
    seq(|arrivals|, j requires 0 <= j < |arrivals| => (frames[arrivals[j].0], arrivals[j].1))
  }

  function Attempts(frames: map<Tag, seq<byte>>, polls: seq<Poll>): (a: seq<D.Attempt>)
    requires forall k :: 0 <= k < |polls| ==> Known(frames, polls[k].arrivals)
    ensures |a| == |polls|
    ensures forall k :: 0 <= k < |polls| ==>
              a[k] == D.Attempt(Datagrams(frames, polls[k].arrivals), polls[k].contended, polls[k].now)
  {
    seq(|polls|, k requires 0 <= k < |polls| =>
      D.Attempt(Datagrams(frames, polls[k].arrivals), polls[k].contended, polls[k].now))
  }

  /** The tags of frames that arrived one after the other. */
  function TagsOf(arrivals: seq<(Tag, nat)>): (tags: seq<Tag>)
    ensures |tags| == |arrivals|
    decreases |arrivals|
  {
    if arrivals == [] then [] else TagsOf(arrivals[..|arrivals| - 1]) + [arrivals[|arrivals| - 1].0]
  }

  function TagsOfPolls(polls: seq<Poll>): seq<Tag>
    decreases |polls|
  {
    if polls == [] then [] else TagsOfPolls(polls[..|polls| - 1]) + TagsOf(polls[|polls| - 1].arrivals)
  }

  // ----- steps -----

  /** What one whole cycle takes in, of which publishing needs the first part only. */
  function CycleInput(s: System, e: Event): Input
    requires e.Act? && Possible(s, e)
  {
    Input(s.pending.value.reading, Arrivals(s.sent, e.deliver), s.pending.value.txOk, e.inRange, e.before, e.after)
  }

  function PublishInput(reading: Reading, txOk: bool): Input {
    Input(reading, [], txOk, _ => false, Fine, Fine)
  }

  /** The message a cycle goes by if it does not fail: the last one it reads, or the one it holds. */
  function Current(s: System, deliver: seq<nat>): Option<nat> {
    var all := s.queued + deliver;
    if all == [] then s.held else Some(all[if |all| == 1 then 0 else 1])
  }

  /** The frame whose number the driver echoes. */
  function Echoed(s: System): Option<Tag> {
    var at := s.hardware.driver.returnedAt;
    if at.Some? && at.value < |s.received| then Some(s.received[at.value]) else None
  }

  function EmitStep(fp: Fp, s: System, reading: Reading, txOk: bool): (r: System)
    requires WellFormed(s)
    ensures WellFormed(r)
  {
    var frame := Publish(fp, s.task, PublishInput(reading, txOk)).1;
    s.(pending := Some(Pending(reading, txOk)),
       frames := if frame.Some? then s.frames[Tag(s.epoch, s.count + 1) := frame.value] else s.frames)
  }

  function ActStep(fp: Fp, s: System, e: Event): (r: System)
    requires WellFormed(s) && e.Act? && Possible(s, e)
    ensures WellFormed(r)
  {
    var o := Cycle(fp, s.task, CycleInput(s, e));
    var all := s.queued + e.deliver;
    if o.hardStop then s.(task := o.task, epoch := s.epoch + 1, count := 0, pending := None, queued := [], held := None)
    else s.(task := o.task, count := s.count + 1, pending := None,
            queued := if |all| < 2 then [] else all[2..],
            held := Current(s, e.deliver))
  }

  function AttachStep(fp: Fp, s: System, e: Event): (r: System)
    requires WellFormed(s) && e.Attach? && Possible(s, e)
    ensures WellFormed(r)
  {
    var env := D.Attachment(e.ipGiven, e.closes, e.controlOpens, e.diagnosticsOpens, Attempts(s.frames, e.polls));
    var (driver, ok) := D.Connect(fp, s.hardware.driver, env);
    s.(hardware := s.hardware.(driver := driver),
       received := if ok then TagsOfPolls(e.polls) else if e.ipGiven then [] else s.received)
  }

  function Transmit(s: System, command: RobotCommand, frame: Option<seq<byte>>): System {
    if frame.Some? then s.(sent := s.sent + [Message(command, frame.value, Echoed(s))]) else s
  }

  /** An event that is not possible changes nothing. */
  function Step(fp: Fp, s: System, e: Event): (r: System)
    requires WellFormed(s)
    ensures WellFormed(r)
  {
    if !Possible(s, e) then s
    else match e
      case Emit(reading, txOk) => EmitStep(fp, s, reading, txOk)
      case Act(_, _, _, _) => ActStep(fp, s, e)
      case StateArrives(tag, now) =>
        s.(hardware := s.hardware.(driver := D.OnDatagram(fp, s.hardware.driver, s.frames[tag], now)),
           received := if s.hardware.driver.subscriber.Some? then s.received + [tag] else s.received)
      case Attach(_, _, _, _, _) => AttachStep(fp, s, e)
      case WriteOut(period, result) =>
        var w := H.Write(fp, s.hardware, period, result);
        if w.command.None? then s else Transmit(s, w.command.value, w.sent.frame)
      case ErrorOut(result) =>
        if !D.IsConnected(s.hardware.driver) then s
        else Transmit(s, D.StopCommand(s.hardware.driver), D.SendStopAll(fp, s.hardware.driver, result).frame)
      case Local(call) => s.(hardware := H.After(fp, s.hardware, call))
  }

  function SystemAt(fp: Fp, start: System, events: seq<Event>, i: nat): (s: System)
    requires WellFormed(start) && i <= |events|
    ensures WellFormed(s)
  {
    if i == 0 then start else Step(fp, SystemAt(fp, start, events, i - 1), events[i - 1])
  }

  /** The clock, when it is read, is never below the staleness timeout. */
  predicate ClockOk(e: Event) {
    match e
    case Attach(_, _, _, _, polls) => forall k :: 0 <= k < |polls| ==> polls[k].now >= D.STALENESS_TIMEOUT
    case Local(call) => call.ReadCall? ==> call.now >= D.STALENESS_TIMEOUT
    case Emit(_, _) => true
    case Act(_, _, _, _) => true
    case StateArrives(_, _) => true
    case WriteOut(_, _) => true
    case ErrorOut(_) => true
  }
}
