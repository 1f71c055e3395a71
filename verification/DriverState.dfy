/**
 The driver object: two sockets, a state subscriber that lives as long as a connection, and the
 last state it found valid.
 */
module DriverState {
  import opened Wire
  import opened Messages
  import opened Subscriber

  /** The two flags a UDP socket keeps. */
  datatype Flags = Flags(connected: bool, receiving: bool)

  const OFF := Flags(false, false)
  const ON := Flags(true, true)

  /**
   `currentAt` and `returnedAt` are history variables: the place in `subscriber.accepted` of the
   cached state and of the last state returned on this connection.
   */
  datatype Driver = Driver(
    control: Flags, diagnostics: Flags, subscriber: Option<Subscription>, diagnosticsUp: bool,
    lastValid: uint16, current: RobotState, timeout: nat,
    currentAt: Option<nat>, returnedAt: Option<nat>)

  /** Each socket is open and receiving exactly while the interface on it exists. */
  predicate Wired(d: Driver) {
    && d.control == (if d.subscriber.Some? then ON else OFF)
    && d.diagnostics == (if d.diagnosticsUp then ON else OFF)
    && (d.subscriber.Some? ==> d.subscriber.value.lastRead <= MAX_SEQUENCE)
  }

  /** Between calls both interfaces exist or neither does. */
  predicate Consistent(d: Driver) {
    Wired(d) && d.diagnosticsUp == d.subscriber.Some?
  }

  const STALENESS_TIMEOUT := 100_000_000

  const NEW_DRIVER := Driver(OFF, OFF, None, false, 0,
    FRESH_STATE.(header := FRESH_STATE.header.(sequence := 0, msgType := TYPE_INVALID)), STALENESS_TIMEOUT, None, None)

  function ResetData(d: Driver): Driver {
    d.(lastValid := 0,
       current := d.current.(header := d.current.header.(sequence := 0, msgType := TYPE_INVALID)),
       currentAt := None, returnedAt := None)
  }

  /** Interfaces destroyed, sockets closed, data reset; the cached timestamp survives. */
  function Disconnect(d: Driver): Driver {
    ResetData(d.(subscriber := None, diagnosticsUp := false, control := OFF, diagnostics := OFF))
  }

  predicate IsConnected(d: Driver) {
    d.control.connected && d.diagnostics.connected && d.subscriber.Some? && d.control.receiving
    && d.diagnosticsUp && d.diagnostics.receiving
  }

  /** A datagram reaches the control socket at time `now`. */
  function OnDatagram(fp: Fp, d: Driver, bytes: seq<byte>, now: nat): (r: Driver)
    requires Consistent(d)
    ensures Consistent(r)
  {
    if d.subscriber.Some? then d.(subscriber := Some(UpdateMessage(fp, d.subscriber.value, bytes, now))) else d
  }

  /** The driver afterwards and the state returned, if any. */
  function ReadRobotState(d: Driver, contended: bool, now: nat): (r: (Driver, Option<RobotState>))
    requires Consistent(d)
    ensures Consistent(r.0)
  {
    if d.subscriber.None? then (d, None)
    else
      var sub := d.subscriber.value;
      var out := ReadMessage(sub, d.current, Status(false, 1_000_000_000, 0), contended, now);
      var at := if contended then d.currentAt else if sub.accepted == [] then None else Some(|sub.accepted| - 1);
      var d1 := d.(subscriber := Some(out.sub), current := out.msg, currentAt := at);
      if !out.ok || out.msg.header.msgType != TYPE_ROBOT_STATE || out.status.age >= d.timeout then (d1, None)
      else (d1.(lastValid := out.msg.header.sequence, returnedAt := at), Some(out.msg))
  }

  /** What happens around one poll of the connection loop: datagrams first, then the read. */
  datatype Attempt = Attempt(datagrams: seq<(seq<byte>, nat)>, contended: bool, now: nat)

  function OnDatagrams(fp: Fp, d: Driver, datagrams: seq<(seq<byte>, nat)>): (r: Driver)
    requires Consistent(d)
    ensures Consistent(r) && r.subscriber.Some? == d.subscriber.Some?
    decreases |datagrams|
  {
    if datagrams == [] then d
    else
      var n := |datagrams| - 1;
      OnDatagram(fp, OnDatagrams(fp, d, datagrams[..n]), datagrams[n].0, datagrams[n].1)
  }

  /** The driver after the polls, and whether the last of them returned a state. */
  function PollUntilTimeout(fp: Fp, d: Driver, polls: seq<Attempt>): (r: (Driver, bool))
    requires Consistent(d)
    ensures Consistent(r.0)
    decreases |polls|
  {
    if polls == [] then (d, false)
    else
      var n := |polls| - 1;
      var before := PollUntilTimeout(fp, d, polls[..n]).0;
      var read := ReadRobotState(OnDatagrams(fp, before, polls[n].datagrams), polls[n].contended, polls[n].now);
      (read.0, read.1.Some?)
  }

  /** What connecting depends on: the address given, what the sockets report, and the polls made before the timeout. */
  datatype Attachment = Attachment(ipGiven: bool, closes: bool, controlOpens: bool, diagnosticsOpens: bool, polls: seq<Attempt>)

  /** Both sockets open and receiving, a new subscriber, nothing received yet. */
  function Opened(d: Driver): (r: Driver)
    ensures Consistent(r)
  {
    d.(control := ON, subscriber := Some(NEW_SUBSCRIPTION), diagnostics := ON, diagnosticsUp := true)
  }

  function Connect(fp: Fp, d: Driver, env: Attachment): (r: (Driver, bool))
    requires Consistent(d)
    ensures Consistent(r.0)
  {
    if !env.ipGiven then (d, false)
    else
      var d1 := if d.control.connected || d.diagnostics.connected then Disconnect(d) else d;
      if (d.control.connected || d.diagnostics.connected) && !env.closes then (d1, false)
      else if !env.controlOpens then (d1, false)
      else if !env.diagnosticsOpens then (Disconnect(d1.(control := ON, subscriber := Some(NEW_SUBSCRIPTION))), false)
      else
        var (d2, ready) := PollUntilTimeout(fp, Opened(d1), env.polls);
        if !ready then (Disconnect(d2), false)
        else if d2.current.header.version != PROTOCOL_VERSION then (Disconnect(d2), false)
        else (d2, true)
  }

  // ----- sending -----

  /** What the socket makes of a frame: passed on, dropped because the send buffer is full, or refused. */
  datatype SendResult = Delivered | Dropped | Refused

  /** The frame that reached the network, if any, and the value returned. */
  datatype Sent = Sent(frame: Option<seq<byte>>, ok: bool)

  function SendMessage(fp: Fp, d: Driver, command: RobotCommand, result: SendResult): Sent {
    if !d.control.connected || !CommandHeaderOk(command.header) then Sent(None, false)
    else match result
      case Delivered => Sent(Some(CommandBytes(fp, command)), true)
      case Dropped => Sent(None, true)
      case Refused => Sent(None, false)
  }

  function StopCommand(d: Driver): RobotCommand {
    FRESH_COMMAND.(header := FRESH_COMMAND.header.(sequence := d.lastValid))
  }

  function SendStopAll(fp: Fp, d: Driver, result: SendResult): Sent {
    SendMessage(fp, d, StopCommand(d), result)
  }

  function SendRobotCommand(fp: Fp, d: Driver, command: RobotCommand, result: SendResult): Sent {
    if d.subscriber.None? || !d.control.connected || !d.control.receiving then Sent(None, false)
    else SendMessage(fp, d, command, result)
  }

  /**
   What sending returns, exactly: true when the socket is open and does not refuse; and a frame goes out
   only when it is neither refused nor dropped. This holds of stops and of commands with a sound header.
   */
  lemma SendsExactly(fp: Fp, d: Driver, command: RobotCommand, result: SendResult)
    requires Consistent(d) && CommandHeaderOk(command.header)
    ensures SendStopAll(fp, d, result).ok <==> d.control.connected && result != Refused
    ensures SendStopAll(fp, d, result).frame ==
            if d.control.connected && result == Delivered then Some(CommandBytes(fp, StopCommand(d))) else None
    ensures SendRobotCommand(fp, d, command, result).ok <==> d.control.connected && result != Refused
    ensures SendRobotCommand(fp, d, command, result).frame ==
            if d.control.connected && result == Delivered then Some(CommandBytes(fp, command)) else None
  {
    hide CommandBytes;
  }

  /** A stop is addressed by the last valid number and commands nothing. */
  lemma StopCommandIsStop(d: Driver)
    ensures var c := StopCommand(d);
            && c.header == FrameHeader(0xABCD, 1, 2, d.lastValid, 47)
            && c.commandType == 1 && c.reference == ZERO6
            && (forall i :: 0 <= i < 16 ==> !c.digitalOutputs[i]) && c.analogOutputs == ZERO4
  {
  }

  // ----- reading and connecting, exactly -----

  /** The message a read goes by: the box, or the one cached when the box is locked. */
  function InBox(d: Driver, contended: bool): RobotState
    requires d.subscriber.Some?
  {
    if contended then d.current else d.subscriber.value.box
  }

  /**
   Exactly when a read returns a state: there is a subscriber, and the message it goes by is a ROBOT_STATE
   younger than the timeout, not a cached one that was never received. It is that message, and its
   number is the one echoed.
   */
  lemma ReadsExactly(d: Driver, contended: bool, now: nat)
    requires Consistent(d)
    ensures var (e, state) := ReadRobotState(d, contended, now);
            && (state.Some? <==>
                  && d.subscriber.Some? && InBox(d, contended).header.msgType == 1
                  && now - InBox(d, contended).timestamp < d.timeout
                  && !(contended && InBox(d, contended).timestamp == 0))
            && (state.Some? ==> state.value == InBox(d, contended) && e.current == state.value
                                && e.lastValid == state.value.header.sequence)
            && (state.None? ==> e.lastValid == d.lastValid)
  {
  }

  /** Sockets, interfaces and stored data after a disconnection. */
  lemma DisconnectsExactly(d: Driver)
    ensures var e := Disconnect(d);
            && !e.control.connected && !e.control.receiving && !e.diagnostics.connected && !e.diagnostics.receiving
            && e.subscriber.None? && !e.diagnosticsUp && !IsConnected(e)
            && e.lastValid == 0 && e.current.header.sequence == 0 && e.current.header.msgType == 0
            && e.current == d.current.(header := e.current.header) && e.timeout == d.timeout
  {
  }

  // ----- freshness -----

  /** Where everything the driver holds comes from. */
  ghost predicate Traceable(d: Driver)
    ensures Traceable(d) ==> Consistent(d)
  {
    && Consistent(d)
    && (d.subscriber.None? ==>
          d.currentAt.None? && d.returnedAt.None? && d.lastValid == 0 && d.current.header.msgType == TYPE_INVALID)
    && (d.subscriber.Some? ==>
          var accepted := d.subscriber.value.accepted;
          && (if accepted == [] then d.subscriber.value.box == FRESH_STATE
              else d.subscriber.value.box == accepted[|accepted| - 1])
          && (d.current.header.msgType == TYPE_ROBOT_STATE ==>
                if d.currentAt.None? then d.current.timestamp == 0
                else d.currentAt.value < |accepted| && d.current == accepted[d.currentAt.value])
          && (if d.returnedAt.None? then d.lastValid == 0
              else d.returnedAt.value < |accepted|
                   && accepted[d.returnedAt.value].header.sequence == d.lastValid
                   && accepted[d.returnedAt.value].header.msgType == TYPE_ROBOT_STATE))
  }

  lemma ReadTraceable(d: Driver, contended: bool, now: nat)
    requires Traceable(d) && now >= d.timeout
    ensures var (e, state) := ReadRobotState(d, contended, now);
            && Traceable(e) && e.timeout == d.timeout
            && (state.None? ==> e.returnedAt == d.returnedAt && e.lastValid == d.lastValid)
            && (state.Some? ==>
                  && d.subscriber.Some? && e.subscriber.Some?
                  && e.subscriber.value.accepted == d.subscriber.value.accepted
                  && e.returnedAt.Some?
                  && state.value == d.subscriber.value.accepted[e.returnedAt.value]
                  && state.value.header.msgType == TYPE_ROBOT_STATE
                  && now - state.value.timestamp < d.timeout
                  && e.lastValid == state.value.header.sequence)
  {
  }

  lemma DatagramTraceable(fp: Fp, d: Driver, bytes: seq<byte>, now: nat)
    requires Traceable(d)
    ensures var e := OnDatagram(fp, d, bytes, now);
            Traceable(e) && e.timeout == d.timeout && e.currentAt == d.currentAt && e.returnedAt == d.returnedAt
            && e.lastValid == d.lastValid && e.current == d.current
  {
    hide ReadState;
  }

  lemma {:induction false} DatagramsTraceable(fp: Fp, d: Driver, datagrams: seq<(seq<byte>, nat)>)
    requires Traceable(d)
    ensures var e := OnDatagrams(fp, d, datagrams);
            Traceable(e) && e.timeout == d.timeout
    decreases |datagrams|
  {
    hide OnDatagram, Traceable;
    if datagrams != [] {
      var n := |datagrams| - 1;
      DatagramsTraceable(fp, d, datagrams[..n]);
      DatagramTraceable(fp, OnDatagrams(fp, d, datagrams[..n]), datagrams[n].0, datagrams[n].1);
    }
  }

  lemma {:induction false} PollsTraceable(fp: Fp, d: Driver, polls: seq<Attempt>)
    requires Traceable(d) && forall k :: 0 <= k < |polls| ==> polls[k].now >= d.timeout
    ensures var (e, ready) := PollUntilTimeout(fp, d, polls);
            && Traceable(e) && e.timeout == d.timeout
            && (ready ==> e.returnedAt.Some?)
    decreases |polls|
  {
    hide OnDatagrams, ReadRobotState, Traceable;
    if polls != [] {
      var n := |polls| - 1;
      PollsTraceable(fp, d, polls[..n]);
      var before := PollUntilTimeout(fp, d, polls[..n]).0;
      DatagramsTraceable(fp, before, polls[n].datagrams);
      ReadTraceable(OnDatagrams(fp, before, polls[n].datagrams), polls[n].contended, polls[n].now);
    }
  }

  /** A successful connection has returned a state on it, of the protocol's version. */
  lemma ConnectTraceable(fp: Fp, d: Driver, env: Attachment)
    requires Traceable(d) && forall k :: 0 <= k < |env.polls| ==> env.polls[k].now >= d.timeout
    ensures var (e, ok) := Connect(fp, d, env);
            && Traceable(e) && e.timeout == d.timeout
            && (ok ==> IsConnected(e) && e.returnedAt.Some? && e.current.header.version == PROTOCOL_VERSION)
            && (!ok && env.ipGiven ==> !IsConnected(e))
  {
    var d1 := if d.control.connected || d.diagnostics.connected then Disconnect(d) else d;
    assert Traceable(Opened(d1));
    PollsTraceable(fp, Opened(d1), env.polls);
    hide PollUntilTimeout;
  }

  /** The subscriber a connection attempt leaves: the polled one, none, or the old one untouched. */
  lemma ConnectCases(fp: Fp, d: Driver, env: Attachment)
    requires Consistent(d)
    ensures var (e, ok) := Connect(fp, d, env);
            var d1 := if d.control.connected || d.diagnostics.connected then Disconnect(d) else d;
            && (ok ==> e == PollUntilTimeout(fp, Opened(d1), env.polls).0)
            && (!ok && env.ipGiven ==> e.subscriber.None?)
            && (!env.ipGiven ==> !ok && e == d)
  {
    hide PollUntilTimeout;
  }

  // ----- whole runs of calls -----

  datatype Call =
    | CallConnect(env: Attachment)
    | CallDisconnect
    | CallDatagram(bytes: seq<byte>, now: nat)
    | CallRead(contended: bool, now: nat)

  /** The clock, when it is read, is never below the timeout. */
  ghost predicate ClockOk(c: Call, timeout: nat) {
    match c
    case CallConnect(env) => forall k :: 0 <= k < |env.polls| ==> env.polls[k].now >= timeout
    case CallDisconnect => true
    case CallDatagram(_, _) => true
    case CallRead(_, now) => now >= timeout
  }

  function After(fp: Fp, d: Driver, c: Call): (r: Driver)
    requires Consistent(d)
    ensures Consistent(r)
  {
    match c
    case CallConnect(env) => Connect(fp, d, env).0
    case CallDisconnect => Disconnect(d)
    case CallDatagram(bytes, now) => OnDatagram(fp, d, bytes, now)
    case CallRead(contended, now) => ReadRobotState(d, contended, now).0
  }

  function DriverAt(fp: Fp, calls: seq<Call>, i: nat): (d: Driver)
    requires i <= |calls|
    ensures Consistent(d)
  {
    if i == 0 then NEW_DRIVER else After(fp, DriverAt(fp, calls, i - 1), calls[i - 1])
  }

  lemma CallTraceable(fp: Fp, d: Driver, c: Call)
    requires Traceable(d) && ClockOk(c, d.timeout)
    ensures Traceable(After(fp, d, c)) && After(fp, d, c).timeout == d.timeout
  {
    hide Connect, OnDatagram, ReadRobotState;
    match c
    case CallConnect(env) => ConnectTraceable(fp, d, env);
    case CallDisconnect =>
    case CallDatagram(bytes, now) => DatagramTraceable(fp, d, bytes, now);
    case CallRead(contended, now) => ReadTraceable(d, contended, now);
  }

  lemma {:induction false} AlwaysTraceable(fp: Fp, calls: seq<Call>, i: nat)
    requires i <= |calls| && forall k :: 0 <= k < |calls| ==> ClockOk(calls[k], STALENESS_TIMEOUT)
    ensures Traceable(DriverAt(fp, calls, i)) && DriverAt(fp, calls, i).timeout == STALENESS_TIMEOUT
  {
    hide After, ClockOk;
    if i > 0 {
      AlwaysTraceable(fp, calls, i - 1);
      CallTraceable(fp, DriverAt(fp, calls, i - 1), calls[i - 1]);
    }
  }

  // ----- freshness, in terms of the calls -----

  /** The state that a datagram becomes when it arrives at time `now`. */
  ghost predicate Decodes(fp: Fp, bytes: seq<byte>, now: nat, m: RobotState) {
    ReadState(fp, FRESH_STATE, bytes).1 && m == ReadState(fp, FRESH_STATE, bytes).0.(timestamp := now)
  }

  ghost predicate OneDecodes(fp: Fp, datagrams: seq<(seq<byte>, nat)>, m: RobotState) {
    exists q :: 0 <= q < |datagrams| && Decodes(fp, datagrams[q].0, datagrams[q].1, m)
  }

  /** One of the datagrams that came with this call becomes `m`. */
  ghost predicate Brings(fp: Fp, c: Call, m: RobotState) {
    match c
    case CallDatagram(bytes, now) => Decodes(fp, bytes, now, m)
    case CallConnect(env) => env.ipGiven && exists p :: 0 <= p < |env.polls| && OneDecodes(fp, env.polls[p].datagrams, m)
    case CallDisconnect => false
    case CallRead(_, _) => false
  }

  /** The call ends whatever connection there was; connecting without an address does nothing. */
  predicate Resets(c: Call) {
    c.CallDisconnect? || (c.CallConnect? && c.env.ipGiven)
  }

  /** One of the first `i` calls brought `m`, and none since has ended the connection. */
  ghost predicate Heard(fp: Fp, calls: seq<Call>, i: nat, m: RobotState)
    requires i <= |calls|
  {
    exists k :: 0 <= k < i && Brings(fp, calls[k], m) && forall j :: k < j < i ==> !Resets(calls[j])
  }

  ghost predicate Accepted(d: Driver, m: RobotState) {
    d.subscriber.Some? && m in d.subscriber.value.accepted
  }

  lemma DatagramBrings(fp: Fp, d: Driver, bytes: seq<byte>, now: nat, m: RobotState)
    requires Consistent(d) && Accepted(OnDatagram(fp, d, bytes, now), m)
    ensures Accepted(d, m) || Decodes(fp, bytes, now, m)
  {
    hide ReadState;
  }

  lemma {:induction false} DatagramsBring(fp: Fp, d: Driver, datagrams: seq<(seq<byte>, nat)>, m: RobotState)
    requires Consistent(d) && Accepted(OnDatagrams(fp, d, datagrams), m)
    ensures Accepted(d, m) || OneDecodes(fp, datagrams, m)
    decreases |datagrams|
  {
    hide OnDatagram, Decodes, Consistent, Accepted;
    if datagrams != [] {
      var n := |datagrams| - 1;
      DatagramBrings(fp, OnDatagrams(fp, d, datagrams[..n]), datagrams[n].0, datagrams[n].1, m);
      if Accepted(OnDatagrams(fp, d, datagrams[..n]), m) {
        DatagramsBring(fp, d, datagrams[..n], m);
      }
    }
  }

  lemma ReadAccepts(d: Driver, contended: bool, now: nat, m: RobotState)
    requires Consistent(d)
    ensures Accepted(ReadRobotState(d, contended, now).0, m) <==> Accepted(d, m)
  {
  }

  lemma {:induction false} PollsBring(fp: Fp, d: Driver, polls: seq<Attempt>, m: RobotState)
    requires Consistent(d) && Accepted(PollUntilTimeout(fp, d, polls).0, m)
    ensures Accepted(d, m) || exists p :: 0 <= p < |polls| && OneDecodes(fp, polls[p].datagrams, m)
    decreases |polls|
  {
    hide OnDatagrams, ReadRobotState, OneDecodes, Consistent, Accepted;
    if polls != [] {
      var n := |polls| - 1;
      var before := PollUntilTimeout(fp, d, polls[..n]).0;
      ReadAccepts(OnDatagrams(fp, before, polls[n].datagrams), polls[n].contended, polls[n].now, m);
      DatagramsBring(fp, before, polls[n].datagrams, m);
      if Accepted(before, m) {
        PollsBring(fp, d, polls[..n], m);
      }
    }
  }

  /** What a driver has accepted after a call, it had before on the same connection, or the call brought it. */
  lemma CallBrings(fp: Fp, d: Driver, c: Call, m: RobotState)
    requires Consistent(d) && Accepted(After(fp, d, c), m)
    ensures (Accepted(d, m) && !Resets(c)) || Brings(fp, c, m)
  {
    hide Connect, OnDatagram, ReadRobotState, PollUntilTimeout, Decodes, OneDecodes;
    match c
    case CallConnect(env) =>
      ConnectCases(fp, d, env);
      if env.ipGiven {
        var d1 := if d.control.connected || d.diagnostics.connected then Disconnect(d) else d;
        PollsBring(fp, Opened(d1), env.polls, m);
      }
    case CallDisconnect =>
    case CallDatagram(bytes, now) => DatagramBrings(fp, d, bytes, now, m);
    case CallRead(contended, now) => ReadAccepts(d, contended, now, m);
  }

  lemma {:induction false} AcceptedWasHeard(fp: Fp, calls: seq<Call>, i: nat, m: RobotState)
    requires i <= |calls| && Accepted(DriverAt(fp, calls, i), m)
    ensures Heard(fp, calls, i, m)
  {
    hide After, Accepted, Brings, Resets;
    if i == 0 {
      NothingAccepted(m);
      assert false;
    }
    CallBrings(fp, DriverAt(fp, calls, i - 1), calls[i - 1], m);
    if Brings(fp, calls[i - 1], m) {
      assert Heard(fp, calls, i, m);
    } else {
      AcceptedWasHeard(fp, calls, i - 1, m);
      var k :| 0 <= k < i - 1 && Brings(fp, calls[k], m) && forall j :: k < j < i - 1 ==> !Resets(calls[j]);
      assert forall j :: k < j < i ==> !Resets(calls[j]);
    }
  }

  lemma NothingAccepted(m: RobotState)
    ensures !Accepted(NEW_DRIVER, m)
  {
  }

  /**
   Freshness: after any sequence of connections, disconnections, datagrams and reads, a read that
   returns a state returns what a ROBOT_STATE datagram of one of those calls became when it arrived,
   less than the timeout ago and with no connection or disconnection since; and its sequence number is
   echoed from then on.
   */
  lemma FreshReads(fp: Fp, calls: seq<Call>, i: nat, contended: bool, now: nat)
    requires i <= |calls| && forall k :: 0 <= k < |calls| ==> ClockOk(calls[k], STALENESS_TIMEOUT)
    requires now >= STALENESS_TIMEOUT
    ensures var (e, state) := ReadRobotState(DriverAt(fp, calls, i), contended, now);
            state.Some? ==>
              && Heard(fp, calls, i, state.value)
              && state.value.header.msgType == TYPE_ROBOT_STATE
              && now - state.value.timestamp < STALENESS_TIMEOUT
              && e.lastValid == state.value.header.sequence
  {
    hide DriverAt, ReadRobotState, Traceable, Heard;
    var d := DriverAt(fp, calls, i);
    AlwaysTraceable(fp, calls, i);
    ReadTraceable(d, contended, now);
    AcceptedMember(d, contended, now);
    var state := ReadRobotState(d, contended, now).1;
    if state.Some? {
      AcceptedWasHeard(fp, calls, i, state.value);
    }
  }

  lemma AcceptedMember(d: Driver, contended: bool, now: nat)
    requires Traceable(d) && now >= d.timeout
    ensures var (e, state) := ReadRobotState(d, contended, now);
            state.Some? ==> d.subscriber.Some? && state.value in d.subscriber.value.accepted
  {
    ReadTraceable(d, contended, now);
    hide ReadRobotState;
  }

  /** The state the last of the polls returns, if it does. */
  function LastPoll(fp: Fp, d: Driver, polls: seq<Attempt>): Option<RobotState>
    requires Consistent(d)
  {
    if polls == [] then None
    else
      var n := |polls| - 1;
      var before := PollUntilTimeout(fp, d, polls[..n]).0;
      ReadRobotState(OnDatagrams(fp, before, polls[n].datagrams), polls[n].contended, polls[n].now).1
  }

  /**
   Exactly when connecting succeeds: an address is given, an open connection closes, both sockets open,
   and the last poll before the timeout returns a state of the protocol's version. A failure leaves the
   driver disconnected, unless no address was given.
   */
  lemma ConnectsExactly(fp: Fp, d: Driver, env: Attachment)
    requires Consistent(d)
    ensures var (e, ok) := Connect(fp, d, env);
            var d1 := if d.control.connected || d.diagnostics.connected then Disconnect(d) else d;
            var last := LastPoll(fp, Opened(d1), env.polls);
            && (ok <==>
                  && env.ipGiven && (env.closes || (!d.control.connected && !d.diagnostics.connected))
                  && env.controlOpens && env.diagnosticsOpens
                  && last.Some? && last.value.header.version == 1)
            && (ok ==> IsConnected(e))
            && (!ok && env.ipGiven ==> e.control == e.diagnostics == OFF && e.subscriber.None? && !IsConnected(e))
  {
    hide PollUntilTimeout, LastPoll;
    var d1 := if d.control.connected || d.diagnostics.connected then Disconnect(d) else d;
    PollsEcho(fp, Opened(d1), env.polls);
    PollsHold(fp, Opened(d1), env.polls);
  }

  /** Polling keeps the connection, and holds the state the last poll returned. */
  lemma {:induction false} PollsHold(fp: Fp, d: Driver, polls: seq<Attempt>)
    requires Consistent(d)
    ensures var e := PollUntilTimeout(fp, d, polls).0;
            && (IsConnected(d) ==> IsConnected(e))
            && (LastPoll(fp, d, polls).Some? ==> e.current == LastPoll(fp, d, polls).value)
    decreases |polls|
  {
    hide OnDatagrams, ReadRobotState, Consistent, IsConnected;
    if polls != [] {
      var n := |polls| - 1;
      PollsHold(fp, d, polls[..n]);
      var before := PollUntilTimeout(fp, d, polls[..n]).0;
      DatagramsHold(fp, before, polls[n].datagrams);
      ReadHolds(OnDatagrams(fp, before, polls[n].datagrams), polls[n].contended, polls[n].now);
    }
  }

  lemma {:induction false} DatagramsHold(fp: Fp, d: Driver, datagrams: seq<(seq<byte>, nat)>)
    requires Consistent(d)
    ensures IsConnected(OnDatagrams(fp, d, datagrams)) == IsConnected(d)
    decreases |datagrams|
  {
    hide ReadState;
    if datagrams != [] {
      DatagramsHold(fp, d, datagrams[..|datagrams| - 1]);
    }
  }

  lemma ReadHolds(d: Driver, contended: bool, now: nat)
    requires Consistent(d)
    ensures var (e, state) := ReadRobotState(d, contended, now);
            IsConnected(e) == IsConnected(d) && (state.Some? ==> e.current == state.value)
  {
  }

  /** The state a call reads successfully: a read its own, a connection that succeeds that of its last poll. */
  function Returned(fp: Fp, d: Driver, c: Call): Option<RobotState>
    requires Consistent(d)
  {
    match c
    case CallRead(contended, now) => ReadRobotState(d, contended, now).1
    case CallConnect(env) =>
      var d1 := if d.control.connected || d.diagnostics.connected then Disconnect(d) else d;
      if Connect(fp, d, env).1 then LastPoll(fp, Opened(d1), env.polls) else None
    case CallDisconnect => None
    case CallDatagram(_, _) => None
  }

  /** The latest state read successfully by one of the first `i` calls, unless the connection has ended since. */
  function LatestReturned(fp: Fp, calls: seq<Call>, i: nat): Option<RobotState>
    requires i <= |calls|
  {
    if i == 0 then None
    else
      var returned := Returned(fp, DriverAt(fp, calls, i - 1), calls[i - 1]);
      if returned.Some? then returned
      else if Resets(calls[i - 1]) then None
      else LatestReturned(fp, calls, i - 1)
  }

  lemma ReadEchoes(d: Driver, contended: bool, now: nat)
    requires Consistent(d)
    ensures var (e, state) := ReadRobotState(d, contended, now);
            e.lastValid == if state.Some? then state.value.header.sequence else d.lastValid
  {
  }

  lemma PollsEcho(fp: Fp, d: Driver, polls: seq<Attempt>)
    requires Consistent(d)
    ensures var (e, ready) := PollUntilTimeout(fp, d, polls);
            && ready == LastPoll(fp, d, polls).Some?
            && (ready ==> e.lastValid == LastPoll(fp, d, polls).value.header.sequence)
  {
    hide OnDatagrams, ReadRobotState, Consistent;
    if polls != [] {
      var n := |polls| - 1;
      var before := PollUntilTimeout(fp, d, polls[..n]).0;
      ReadEchoes(OnDatagrams(fp, before, polls[n].datagrams), polls[n].contended, polls[n].now);
    }
  }

  lemma ConnectEchoes(fp: Fp, d: Driver, env: Attachment)
    requires Traceable(d)
    ensures var (e, ok) := Connect(fp, d, env);
            var got := Returned(fp, d, CallConnect(env));
            && ok == got.Some?
            && e.lastValid == if ok then got.value.header.sequence else if env.ipGiven then 0 else d.lastValid
  {
    hide PollUntilTimeout, LastPoll;
    var d1 := if d.control.connected || d.diagnostics.connected then Disconnect(d) else d;
    PollsEcho(fp, Opened(d1), env.polls);
  }

  lemma CallEchoes(fp: Fp, d: Driver, c: Call)
    requires Traceable(d)
    ensures After(fp, d, c).lastValid ==
            if Returned(fp, d, c).Some? then Returned(fp, d, c).value.header.sequence
            else if Resets(c) then 0 else d.lastValid
  {
    hide Connect, ReadRobotState, LastPoll, ReadState, Traceable;
    match c
    case CallConnect(env) => ConnectEchoes(fp, d, env);
    case CallDisconnect =>
    case CallDatagram(_, _) =>
    case CallRead(contended, now) => ReadEchoes(d, contended, now);
  }

  /** A driver is created with a staleness timeout of 100 ms and keeps it. */
  lemma TimeoutIs100ms(fp: Fp, calls: seq<Call>, i: nat)
    requires i <= |calls| && forall k :: 0 <= k < |calls| ==> ClockOk(calls[k], STALENESS_TIMEOUT)
    ensures DriverAt(fp, calls, i).timeout == 100_000_000
  {
    hide DriverAt, ClockOk, Traceable;
    AlwaysTraceable(fp, calls, i);
  }

  /**
   After any sequence of calls, exactly when a read succeeds: a datagram of the current connection has
   left a ROBOT_STATE in the box, or in the cache when the box is locked, less than 100 ms ago.
   */
  lemma ReadsWithin100ms(fp: Fp, calls: seq<Call>, i: nat, contended: bool, now: nat)
    requires i <= |calls| && forall k :: 0 <= k < |calls| ==> ClockOk(calls[k], STALENESS_TIMEOUT)
    requires now >= STALENESS_TIMEOUT
    ensures var d := DriverAt(fp, calls, i);
            ReadRobotState(d, contended, now).1.Some? <==>
              && d.subscriber.Some? && InBox(d, contended).header.msgType == 1
              && InBox(d, contended).timestamp > 0 && now - InBox(d, contended).timestamp < 100_000_000
  {
    hide DriverAt, ClockOk, Traceable, ReadRobotState;
    TimeoutIs100ms(fp, calls, i);
    ReadsExactly(DriverAt(fp, calls, i), contended, now);
  }

  /** Between any two calls, the number echoed is that of the latest successful read on this connection, or 0. */
  lemma {:induction false} EchoIsLastReturned(fp: Fp, calls: seq<Call>, i: nat)
    requires i <= |calls| && forall k :: 0 <= k < |calls| ==> ClockOk(calls[k], STALENESS_TIMEOUT)
    ensures var latest := LatestReturned(fp, calls, i);
            DriverAt(fp, calls, i).lastValid == if latest.Some? then latest.value.header.sequence else 0
  {
    hide After, ClockOk, Returned, Resets, Traceable;
    if i > 0 {
      EchoIsLastReturned(fp, calls, i - 1);
      AlwaysTraceable(fp, calls, i - 1);
      CallEchoes(fp, DriverAt(fp, calls, i - 1), calls[i - 1]);
    }
  }

  /** What the frames a subscriber has accepted have in common: each was deserialized from a datagram at its timestamp. */
  lemma AcceptedWasReceived(fp: Fp, s: Subscription, bytes: seq<byte>, now: nat)
    ensures var r := UpdateMessage(fp, s, bytes, now);
            && r.lastRead == s.lastRead && r.firstRead == s.firstRead
            && (ReadState(fp, FRESH_STATE, bytes).1 ==>
                  r.box == ReadState(fp, FRESH_STATE, bytes).0.(timestamp := now) && r.accepted == s.accepted + [r.box])
            && (!ReadState(fp, FRESH_STATE, bytes).1 ==> r == s)
  {
    hide ReadState;
  }
}
