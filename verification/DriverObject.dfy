/**
 The driver class: its methods on the sockets, the subscriber object and the cached state.
 */
module DriverObject {
  import opened Wire
  import opened Messages
  import opened Subscriber
  import MessageObjects
  import opened DriverState

  /** The lifecycle flags of a UDP socket. */
  class UdpSocket {
    var connected: bool
    var receiving: bool

    ghost function Value(): Flags
      reads this
    {
      Flags(connected, receiving)
    }

    constructor ()
      ensures Value() == OFF
    {
      connected, receiving := false, false;
    }

    /** `closes` and `opens` say whether closing, and opening, binding and resolving, raise no exception. */
    method Connect(closes: bool, opens: bool) returns (ok: bool)
      modifies this
      ensures ok == (opens && (closes || !old(connected))) && connected == ok
      ensures receiving == (old(receiving) && !old(connected))
    {
      if connected {
        var closed := Disconnect(closes);
        if !closed {
          return false;
        }
      }
      connected := opens;
      ok := opens;
    }

    /** The flags are cleared even when closing raises an exception. */
    method Disconnect(closes: bool) returns (ok: bool)
      modifies this
      ensures ok == (closes || !old(connected))
      ensures !connected && receiving == (old(receiving) && !old(connected))
    {
      ok := true;
      if connected {
        if receiving {
          StopReceiveThread();
        }
        ok := closes;
        connected := false;
      }
    }

    method StartReceiveThread() returns (ok: bool)
      modifies this`receiving
      ensures ok == (connected && !old(receiving))
      ensures receiving == (ok || old(receiving))
    {
      if !connected {
        return false;
      }
      if receiving {
        return false;
      }
      receiving := true;
      return true;
    }

    method StopReceiveThread()
      modifies this`receiving
      ensures !receiving
    {
      receiving := false;
    }
  }

  class RobotDriver {
    const control: UdpSocket
    const diagnostics: UdpSocket
    var subscriber: RealTimeSocketSubscriber?
    var diagnosticsUp: bool
    var lastValid: uint16
    var current: RobotState
    var timeout: nat
    ghost var currentAt: Option<nat>
    ghost var returnedAt: Option<nat>

    ghost function Repr(): set<object>
      reads this
    {
      {this, control, diagnostics} + (if subscriber == null then {} else {subscriber})
    }

    ghost function Value(): Driver
      reads this, Repr()
    {
      Driver(control.Value(), diagnostics.Value(), if subscriber == null then None else Some(subscriber.Value()),
             diagnosticsUp, lastValid, current, timeout, currentAt, returnedAt)
    }

    ghost predicate Valid()
      reads this, Repr()
    {
      control != diagnostics && Consistent(Value())
    }

    constructor ()
      ensures Valid() && Value() == NEW_DRIVER && fresh(control) && fresh(diagnostics) && subscriber == null
    {
      control := new UdpSocket();
      diagnostics := new UdpSocket();
      subscriber := null;
      diagnosticsUp := false;
      lastValid := 0;
      current := FRESH_STATE.(header := FRESH_STATE.header.(sequence := 0, msgType := TYPE_INVALID));
      timeout := STALENESS_TIMEOUT;
      currentAt, returnedAt := None, None;
    }

    method ResetDataInPlace()
      requires Valid()
      modifies this`lastValid, this`current, this`currentAt, this`returnedAt
      ensures Valid() && Value() == ResetData(old(Value()))
    {
      lastValid := 0;
      current := current.(header := current.header.(sequence := 0));
      current := current.(header := current.header.(msgType := TYPE_INVALID));
      currentAt, returnedAt := None, None;
    }

    method DisconnectNow(closes: bool) returns (ok: bool)
      requires control != diagnostics && Wired(Value())
      modifies Repr()
      ensures Valid() && Value() == Disconnect(old(Value())) && subscriber == null
      ensures ok == (closes || (!old(control.connected) && !old(diagnostics.connected)))
    {
      var controlClosed, diagnosticsClosed := true, true;
      if subscriber != null {
        control.StopReceiveThread();  // its destructor
        subscriber := null;
      }
      if diagnosticsUp {
        diagnostics.StopReceiveThread();
        diagnosticsUp := false;
      }
      if control.connected {
        if control.receiving {
          assert false;  // the interface's destructor has stopped the thread
        }
        controlClosed := control.Disconnect(closes);
      }
      if diagnostics.connected {
        if diagnostics.receiving {
          assert false;  // the interface's destructor has stopped the thread
        }
        diagnosticsClosed := diagnostics.Disconnect(closes);
      }
      ResetDataInPlace();
      ok := controlClosed && diagnosticsClosed;
    }

    method IsReady() returns (ready: bool)
      requires Valid()
      ensures ready == (subscriber != null)
    {
      ready := subscriber != null && control.connected && control.receiving;
    }

    method IsUp() returns (up: bool)
      requires Valid()
      ensures up == IsConnected(Value())
    {
      up := control.connected && diagnostics.connected
            && subscriber != null && control.receiving
            && diagnosticsUp && diagnostics.receiving;
    }

    method ReadState(contended: bool, now: nat) returns (state: Option<RobotState>)
      requires Valid()
      modifies this, subscriber
      ensures subscriber == old(subscriber) && Valid()
      ensures (Value(), state) == ReadRobotState(old(Value()), contended, now)
    {
      var ready := IsReady();
      if !ready {
        return None;
      }
      ghost var sub := subscriber.Value();
      var status := Status(false, 1_000_000_000, 0);
      var ok;
      current, status, ok := subscriber.ReadMessageInPlace(current, status, contended, now);
      if !contended {
        currentAt := if sub.accepted == [] then None else Some(|sub.accepted| - 1);
      }
      if !ok {
        return None;
      }
      if current.header.msgType != TYPE_ROBOT_STATE {
        return None;
      }
      if status.age >= timeout {
        return None;
      }
      lastValid := current.header.sequence;
      returnedAt := currentAt;
      state := Some(current);
    }

    /** The reception thread hands over a datagram; without a subscriber nobody listens. */
    method Datagram(fp: Fp, bytes: seq<byte>, now: nat)
      requires Valid()
      modifies this, subscriber
      ensures subscriber == old(subscriber) && Valid()
      ensures Value() == OnDatagram(fp, old(Value()), bytes, now)
    {
      if subscriber != null {
        var data := new byte[|bytes|](i requires 0 <= i < |bytes| => bytes[i]);
        assert data[..|bytes|] == bytes;
        subscriber.UpdateMessageInPlace(fp, data, |bytes|, now);
      }
    }

    method DatagramsArrive(fp: Fp, datagrams: seq<(seq<byte>, nat)>)
      requires Valid()
      modifies this, subscriber
      ensures subscriber == old(subscriber) && Valid()
      ensures Value() == OnDatagrams(fp, old(Value()), datagrams)
    {
      hide OnDatagram, Consistent;
      assert datagrams[..0] == [];
      for i := 0 to |datagrams|
        invariant subscriber == old(subscriber) && Valid()
        invariant Value() == OnDatagrams(fp, old(Value()), datagrams[..i])
      {
        assert datagrams[..i + 1][..i] == datagrams[..i];
        Datagram(fp, datagrams[i].0, datagrams[i].1);
      }
      assert datagrams[..|datagrams|] == datagrams;
    }

    /** The loop that polls for a state until the connection timeout. */
    method WaitForState(fp: Fp, polls: seq<Attempt>) returns (ready: bool)
      requires Valid()
      modifies this, subscriber
      ensures subscriber == old(subscriber) && Valid()
      ensures (Value(), ready) == PollUntilTimeout(fp, old(Value()), polls)
    {
      hide OnDatagrams, ReadRobotState, Consistent;
      ready := false;
      var i := 0;
      assert polls[..0] == [];
      while i < |polls|
        invariant 0 <= i <= |polls|
        invariant subscriber == old(subscriber) && Valid()
        invariant (Value(), ready) == PollUntilTimeout(fp, old(Value()), polls[..i])
      {
        assert polls[..i + 1][..i] == polls[..i];
        DatagramsArrive(fp, polls[i].datagrams);
        var state := ReadState(polls[i].contended, polls[i].now);
        ready := state.Some?;
        i := i + 1;
      }
      assert polls[..|polls|] == polls;
    }

    /** The control socket opens and the interface created on it starts the receive thread. */
    method OpenControl()
      requires Valid() && subscriber == null
      modifies this`subscriber, control
      ensures control != diagnostics && Wired(Value()) && fresh(subscriber)
      ensures Value() == old(Value()).(control := ON, subscriber := Some(NEW_SUBSCRIPTION))
    {
      var opened_ := control.Connect(true, true);
      var started := control.StartReceiveThread();
      if !started {
        assert false;  // the interface would refuse to be constructed
      }
      subscriber := new RealTimeSocketSubscriber();
    }

    method OpenDiagnostics()
      requires control != diagnostics && Wired(Value()) && subscriber != null && !diagnosticsUp
      modifies this`diagnosticsUp, diagnostics
      ensures Valid() && Value() == old(Value()).(diagnostics := ON, diagnosticsUp := true)
    {
      var opened_ := diagnostics.Connect(true, true);
      var started := diagnostics.StartReceiveThread();
      if !started {
        assert false;  // the subscriber would refuse to be constructed
      }
      diagnosticsUp := true;
    }

    method ConnectTo(fp: Fp, env: Attachment) returns (ok: bool)
      requires Valid()
      modifies Repr()
      ensures Valid() && (Value(), ok) == Connect(fp, old(Value()), env)
    {
      hide PollUntilTimeout;
      if !env.ipGiven {
        return false;
      }
      if control.connected || diagnostics.connected {
        var closed := DisconnectNow(env.closes);
        if !closed {
          return false;
        }
      }
      if !env.controlOpens {
        var opened_ := control.Connect(true, false);
        return false;
      }
      OpenControl();
      if !env.diagnosticsOpens {
        var opened_ := diagnostics.Connect(true, false);
        var closed := DisconnectNow(env.closes);
        return false;
      }
      OpenDiagnostics();
      if !(control.connected && control.receiving) || !(diagnostics.connected && diagnostics.receiving) {
        assert false;  // both interfaces are ready once constructed
      }
      var ready := WaitForState(fp, env.polls);
      if !ready {
        var closed := DisconnectNow(env.closes);
        return false;
      }
      if current.header.version != PROTOCOL_VERSION {
        var closed := DisconnectNow(env.closes);
        return false;
      }
      ok := true;
    }

    method Send(fp: Fp, command: RobotCommand, result: SendResult) returns (sent: Sent)
      requires Valid()
      ensures sent == SendMessage(fp, Value(), command, result)
    {
      if !control.connected {
        return Sent(None, false);
      }
      var message := new MessageObjects.RobotCommandMessage();
      message.Fill(command);
      var data := new byte[COMMAND_SIZE](_ => 0);
      var ok := message.Serialize(fp, data, data.Length);
      if !ok {
        return Sent(None, false);
      }
      assert data[..] == CommandBytes(fp, command);
      match result
      case Delivered => sent := Sent(Some(data[..]), true);
      case Dropped => sent := Sent(None, true);
      case Refused => sent := Sent(None, false);
    }

    /** Prepared from the cached state, then given the number of the last valid one. */
    method SendStopAllCommand(fp: Fp, result: SendResult) returns (sent: Sent)
      requires Valid()
      ensures sent == SendStopAll(fp, Value(), result)
    {
      var command := PrepareRobotCommandMessage(FRESH_COMMAND, current);
      command := command.(header := command.header.(sequence := lastValid));
      sent := Send(fp, command, result);
    }

    method SendCommand(fp: Fp, command: RobotCommand, result: SendResult) returns (sent: Sent)
      requires Valid()
      ensures sent == SendRobotCommand(fp, Value(), command, result)
    {
      var ready := IsReady();
      if !ready {
        return Sent(None, false);
      }
      sent := Send(fp, command, result);
    }
  }

  /** Stop, zero references and outputs, and the number of the given state. */
  method PrepareRobotCommandMessage(x_msg: RobotCommand, state: RobotState) returns (msg: RobotCommand)
    ensures msg == x_msg.(header := x_msg.header.(sequence := state.header.sequence), commandType := CMD_STOP,
                          reference := ZERO6, digitalOutputs := ALL_OFF, analogOutputs := ZERO4)
  {
    msg := x_msg.(header := x_msg.header.(sequence := state.header.sequence));
    msg := msg.(commandType := CMD_STOP);
    msg := msg.(reference := ZERO6);
    msg := msg.(digitalOutputs := ALL_OFF);
    msg := msg.(analogOutputs := ZERO4);
  }
}
