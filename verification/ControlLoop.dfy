/**
 One iteration of the controller's task as a step from the state at one loop head to the next,
 phase by phase, together with what it puts on the wire and what it asks of the motion library.
 */
module ControlLoop {
  import opened Wire
  import opened Val3Codec
  import opened StateUpdate
  import opened Sequence
  import opened SocketRead

  // ----- the motion library -----

  /** Whether movejSync has been begun and not yet ended. */
  datatype Sync = NotStarted | Running

  /** What a running movejSync reports of itself: -2, 0, 1 or 2. */
  datatype RunStatus = Faulted | Fine | Stale | Locked

  function StatusCode(sync: Sync, status: RunStatus): int {
    if sync == NotStarted then -1
    else match status
      case Faulted => -2
      case Fine => 0
      case Stale => 1
      case Locked => 2
  }

  datatype Action = SyncBegin | SyncMove(target: Vec6) | SyncEnd | StopMove | ResetMotion

  /** The outcome of a motion routine. */
  datatype Motion = Motion(sync: Sync, actions: seq<Action>, error: bool)

  // ----- state and inputs -----

  datatype Task = Task(
    mode: int, prevMode: int, error: bool, sequence: int, delay: int, active: bool,
    stateMsg: StateMsg, tx: TxBuffer,
    header: MessageHeader, command: Val3Command, rx: RxBuffer, queue: seq<Datagram>, sync: Sync)

  /** Everything one cycle takes from outside the program. */
  datatype Input = Input(reading: Reading, arrivals: seq<Datagram>, txOk: bool, inRange: seq<Double> -> bool,
                         before: RunStatus, after: RunStatus)

  /** What the message initialisers establish. */
  predicate Initialised(t: Task) {
    && t.stateMsg.initialized
    && t.stateMsg.header == StateHeader(t.stateMsg.header.sequence)
    && t.header.headerSize == 8
  }

  /** That movejSync is not started when the loop begins is an assumption about how the task is launched. */
  const INITIAL_TASK := Task(
    1, 1, false, 0, 1000, false,
    StateMsg(true, STATE_HEADER, INIT_STATE), EMPTY_TX,
    COMMAND_HEADER, Val3Command(false, 1, ZERO6, ZERO4), EMPTY_RX, [], NotStarted)

  // ----- publishing -----

  /** The state message of this cycle. */
  function OutgoingMsg(t: Task, in_: Input): StateMsg {
    StateMsg(t.stateMsg.initialized, t.stateMsg.header.(sequence := NextSequence(t.sequence)),
             UpdateState(t.stateMsg.state, in_.reading).(sequenceDelay := t.delay, controlMode := t.mode, inError := t.error))
  }

  function Publish(fp: Fp, t: Task, in_: Input): (r: (Task, Option<seq<byte>>))
    requires Initialised(t)
    ensures Initialised(r.0)
  {
    var msg := OutgoingMsg(t, in_);
    var (tx, encodeError) := EncodeRobotStateMsg(fp, msg, t.tx);
    var failed := encodeError || !in_.txOk;
    (t.(sequence := NextSequence(t.sequence), stateMsg := msg, tx := tx, error := t.error || failed),
     if failed then None else Some(tx))
  }

  // ----- receiving -----

  /** The task afterwards, and whether a full-size datagram was read. */
  function Receive(fp: Fp, t: Task, arrivals: seq<Datagram>): (r: (Task, bool))
    requires Initialised(t)
    ensures Initialised(r.0)
  {
    var read := ReadData(t.queue + arrivals, t.rx);
    var t1 := t.(queue := read.queue, rx := read.data);
    if read.error then (t1.(error := true), false)
    else if !read.newData then (t1, false)
    else
      var (header, command, bad) := DecodeRobotCommandMsg(fp, t.header, t.command, read.data);
      (t1.(header := header, command := command, error := t.error || bad, mode := if bad then 1 else t.mode, active := true),
       true)
  }

  // ----- watchdog -----

  function CheckStream(t: Task): (r: Task)
    requires Initialised(t)
    ensures Initialised(r)
  {
    var delay := if t.command.isValid then SequenceDelay(t.sequence, t.header.sequence) else 1000;
    var inMotion := t.stateMsg.state.arm.inMotion;
    var trip := t.active && (Trips(delay, if inMotion then 5 else 25));
    t.(delay := delay, error := t.error || trip, mode := if trip then 1 else t.mode)
  }

  // ----- mode selection and interlocks -----

  function ExtractMode(t: Task): (r: Task)
    requires Initialised(t)
    ensures Initialised(r)
  {
    var badType := t.command.motionType < 0 || t.command.motionType > 4;
    var t1 := t.(command := t.command.(isValid := t.command.isValid && !badType), error := t.error || badType);
    t1.(mode := if t1.error || !t1.command.isValid then 0 else t1.command.motionType)
  }

  function Interlock(t: Task): (r: Task)
    requires Initialised(t)
    ensures Initialised(r)
  {
    var t1 := if t.prevMode != t.mode && t.mode != 1 && t.prevMode != 1 then t.(mode := 1, error := true) else t;
    if t1.prevMode == 1 && t1.mode != 1 && t1.stateMsg.state.arm.inMotion then t1.(mode := 1, error := true) else t1
  }

  // ----- motion -----

  function StopJointPosition(sync: Sync): Motion {
    if sync != NotStarted then Motion(NotStarted, [SyncEnd], false) else Motion(sync, [], false)
  }

  function JointPosition(arm: Arm, c: Val3Command, sync: Sync, first: bool, in_: Input): Motion {
    var stop := StopJointPosition(sync);
    if !arm.motionPossible || !c.isValid || c.motionType != 2 then stop.(error := true)
    else if first && sync == Running then Motion(stop.sync, [ResetMotion] + stop.actions, true)
    else
      var started := if first then Motion(Running, [ResetMotion, SyncBegin], false) else Motion(sync, [], false);
      var stop1 := StopJointPosition(started.sync);
      if !in_.inRange(c.motionData) then Motion(stop1.sync, started.actions + stop1.actions, true)
      else if StatusCode(started.sync, in_.after) == -2
      then Motion(stop1.sync, started.actions + [SyncMove(c.motionData)] + stop1.actions, true)
      else Motion(started.sync, started.actions + [SyncMove(c.motionData)], false)
  }

  /** Not implemented in the controller: every path ends in an error. */
  function JointVelocity(arm: Arm, c: Val3Command, sync: Sync, first: bool): Motion {
    if !arm.motionPossible || !c.isValid || c.motionType != 3 || first then Motion(sync, [ResetMotion], true)
    else Motion(sync, [], true)
  }

  function Execute(t: Task, in_: Input): Motion {
    if t.mode <= 1 then
      var stop := if t.prevMode == 2 then StopJointPosition(t.sync)
                  else Motion(t.sync, if t.prevMode == 3 then [ResetMotion] else [], false);
      Motion(stop.sync, stop.actions + [StopMove, ResetMotion], false)
    else if t.mode == 2 then JointPosition(t.stateMsg.state.arm, t.command, t.sync, t.prevMode == 1, in_)
    else if t.mode == 3 then JointVelocity(t.stateMsg.state.arm, t.command, t.sync, t.prevMode == 1)
    else Motion(t.sync, [], true)
  }

  // ----- hard stop -----

  /** Stops everything, forgets the command and restarts the numbering. */
  function HardStop(t: Task): (r: Task)
    requires Initialised(t)
    ensures Initialised(r)
  {
    t.(mode := 0, error := false, sequence := 0, delay := 1000, active := false,
       command := t.command.(isValid := false, motionType := 0), queue := [],
       sync := if t.mode == 2 then StopJointPosition(t.sync).sync else t.sync)
  }

  function HardStopActions(t: Task): seq<Action> {
    (if t.mode == 2 then StopJointPosition(t.sync).actions else []) + [StopMove, ResetMotion]
  }

  // ----- the whole iteration -----

  /** The loop head reached, the frame sent, and what happened on the way. */
  datatype Outcome = Outcome(task: Task, frame: Option<seq<byte>>, received: bool, hardStop: bool, actions: seq<Action>)

  /** The task once the mode of this cycle is settled, before any motion. */
  function Decide(fp: Fp, t: Task, in_: Input): (r: Task)
    requires Initialised(t)
    ensures Initialised(r)
  {
    Interlock(ExtractMode(CheckStream(Receive(fp, Publish(fp, t, in_).0, in_.arrivals).0)))
  }

  function Finish(t: Task, in_: Input): (r: (Task, bool, seq<Action>))
    requires Initialised(t)
    ensures Initialised(r.0)
  {
    var motion := Execute(t, in_);
    var error := t.error || motion.error || t.mode > 3;
    var t1 := t.(sync := motion.sync, error := error);
    var t2 := if error then HardStop(t1) else t1;
    (t2.(prevMode := t2.mode), error, motion.actions + if error then HardStopActions(t1) else [])
  }

  function Cycle(fp: Fp, t: Task, in_: Input): (r: Outcome)
    requires Initialised(t)
    ensures Initialised(r.task)
  {
    var published := Publish(fp, t, in_);
    var received := Receive(fp, published.0, in_.arrivals).1;
    var (end, hardStop, actions) := Finish(Decide(fp, t, in_), in_);
    Outcome(end, published.1, received, hardStop, actions)
  }

  /** The loop head after the first `i` cycles of a run from the task's start. */
  function TaskAt(fp: Fp, run: seq<Input>, i: nat): (t: Task)
    requires i <= |run|
    ensures Initialised(t)
  {
    if i == 0 then INITIAL_TASK else Cycle(fp, TaskAt(fp, run, i - 1), run[i - 1]).task
  }

  /** Cycle number i of the run, counting from 0. */
  function CycleAt(fp: Fp, run: seq<Input>, i: nat): Outcome
    requires i < |run|
  {
    Cycle(fp, TaskAt(fp, run, i), run[i])
  }

  lemma FirstHead(fp: Fp, run: seq<Input>)
    ensures TaskAt(fp, run, 0) == INITIAL_TASK
  {
  }

  lemma NextHead(fp: Fp, run: seq<Input>, k: nat)
    requires k < |run|
    ensures CycleAt(fp, run, k) == Cycle(fp, TaskAt(fp, run, k), run[k])
    ensures TaskAt(fp, run, k + 1) == CycleAt(fp, run, k).task
  {
    hide Cycle;
  }
}
