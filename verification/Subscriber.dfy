/**
 The driver's latest-value subscriber: a box the reception thread overwrites, and a reader that
 counts lost frames and measures staleness.
 */
module Subscriber {
  import opened Wire
  import opened Messages
  import opened Sequence
  import MessageObjects

  const MAX_SEQUENCE := 65535

  /**
   `accepted` is a history variable: every frame deserialized since the subscriber was created.
   The program itself keeps only the box, the last number read and the first-read flag.
   */
  datatype Subscription = Subscription(box: RobotState, lastRead: nat, firstRead: bool, accepted: seq<RobotState>)

  const NEW_SUBSCRIPTION := Subscription(FRESH_STATE, 0, true, [])

  datatype Status = Status(newMessage: bool, age: int, lost: nat)

  datatype ReadOut = ReadOut(sub: Subscription, msg: RobotState, status: Status, ok: bool)

  /** The reception thread's callback on `bytes` at time `now`. */
  function UpdateMessage(fp: Fp, s: Subscription, bytes: seq<byte>, now: nat): Subscription {
    var (m, ok) := ReadState(fp, FRESH_STATE, bytes);
    if ok then s.(box := m.(timestamp := now), accepted := s.accepted + [m.(timestamp := now)]) else s
  }

  /** Frames lost between two numbers, as the reader counts them. */
  function LostBetween(last: nat, sequence: uint16): nat
    requires last <= MAX_SEQUENCE
  {
    if sequence > last then sequence - last - 1
    else if sequence < last then MAX_SEQUENCE - last + sequence + 1
    else 0
  }

  /** `contended` says the box was locked, so that nothing could be taken from it. */
  function ReadMessage(s: Subscription, msg: RobotState, status: Status, contended: bool, now: nat): (r: ReadOut)
    requires s.lastRead <= MAX_SEQUENCE
    ensures r.sub.lastRead <= MAX_SEQUENCE
  {
    if contended && msg.timestamp == 0 then ReadOut(s, msg, status.(newMessage := false), false)
    else
      var m := if contended then msg else s.box;
      var sequence := m.header.sequence;
      ReadOut(s.(lastRead := sequence, firstRead := false), m,
              Status(s.firstRead || sequence != s.lastRead, now - m.timestamp,
                     if s.firstRead then 0 else LostBetween(s.lastRead, sequence)),
              true)
  }

  class RealTimeSocketSubscriber {
    var box: RobotState
    var lastRead: nat
    var firstRead: bool
    ghost var accepted: seq<RobotState>

    ghost function Value(): Subscription
      reads this
    {
      Subscription(box, lastRead, firstRead, accepted)
    }

    constructor ()
      ensures Value() == NEW_SUBSCRIPTION
    {
      box, lastRead, firstRead, accepted := FRESH_STATE, 0, true, [];
    }

    method UpdateMessageInPlace(fp: Fp, data: array<byte>, transferred: nat, now: nat)
      requires transferred <= data.Length
      modifies this
      ensures Value() == UpdateMessage(fp, old(Value()), data[..transferred], now)
    {
      var m := new MessageObjects.RobotStateMessage();
      var ok := m.Deserialize(fp, data, transferred);
      if ok {
        m.timestamp := now;
        box := m.Value();
        accepted := accepted + [box];
      }
    }

    method ReadMessageInPlace(x_msg: RobotState, x_status: Status, contended: bool, now: nat)
      returns (msg: RobotState, status: Status, ok: bool)
      requires lastRead <= MAX_SEQUENCE
      modifies this
      ensures ReadOut(Value(), msg, status, ok) == ReadMessage(old(Value()), x_msg, x_status, contended, now)
    {
      msg, status := x_msg, x_status;
      if contended {
        status := status.(newMessage := false);
      } else {
        msg := box;
        status := status.(newMessage := true);
      }
      if !status.newMessage && msg.timestamp == 0 {
        return msg, status, false;
      }
      status := status.(age := now - msg.timestamp);
      status := status.(newMessage := true);
      var sequence := msg.header.sequence;
      if !firstRead {
        if sequence > lastRead {
          status := status.(lost := sequence - lastRead - 1);
        } else if sequence < lastRead {
          status := status.(lost := MAX_SEQUENCE - lastRead + sequence + 1);
        } else {
          status := status.(lost := 0);
          status := status.(newMessage := false);
        }
      } else {
        status := status.(lost := 0);
        firstRead := false;
      }
      lastRead := sequence;
      ok := true;
    }
  }

  /**
   Against the documented behaviour: with the box free, a read before anything has been received
   succeeds, with the default message.
   */
  lemma FirstReadNeedsNoMessage(msg: RobotState, status: Status, now: nat)
    ensures var r := ReadMessage(NEW_SUBSCRIPTION, msg, status, false, now);
            r.ok && r.msg == FRESH_STATE && r.status.newMessage && r.status.age == now
  {
  }

  /** A read fails exactly when the box is locked and the caller has no message with a timestamp. */
  lemma ReadFailsExactly(s: Subscription, msg: RobotState, status: Status, contended: bool, now: nat)
    requires s.lastRead <= MAX_SEQUENCE
    ensures !ReadMessage(s, msg, status, contended, now).ok <==> contended && msg.timestamp == 0
  {
  }

  /** The callback takes over exactly the frames that are deserialized, stamped with their time. */
  lemma UpdatesExactly(fp: Fp, s: Subscription, bytes: seq<byte>, now: nat)
    ensures var r := UpdateMessage(fp, s, bytes, now);
            var (m, ok) := ReadState(fp, FRESH_STATE, bytes);
            var stamped := m.(timestamp := now);
            r == if ok then Subscription(stamped, s.lastRead, s.firstRead, s.accepted + [stamped]) else s
  {
    hide ReadState;
  }

  /** What a successful read reports: the message it goes by, its age, and nothing lost the first time. */
  lemma ReportsExactly(s: Subscription, msg: RobotState, status: Status, contended: bool, now: nat)
    requires s.lastRead <= MAX_SEQUENCE && !(contended && msg.timestamp == 0)
    ensures var r := ReadMessage(s, msg, status, contended, now);
            && r.ok && r.msg == (if contended then msg else s.box)
            && r.status.age == now - r.msg.timestamp
            && r.sub == s.(lastRead := r.msg.header.sequence, firstRead := false)
            && (s.firstRead ==> r.status.newMessage && r.status.lost == 0)
            && (!s.firstRead ==> (r.status.newMessage <==> r.msg.header.sequence != s.lastRead)
                                 && (!r.status.newMessage ==> r.status.lost == 0))
  {
  }

  // ----- loss accounting -----

  /** A read of a message whose unbounded sender counter is `counter`, or a read of a locked box. */
  datatype Poll = Poll(msg: RobotState, counter: nat, contended: bool, now: nat)

  /** Subscriber, message held, its counter, frames counted lost and reads that reported a new message. */
  datatype Tally = Tally(sub: Subscription, msg: RobotState, counter: nat, lost: nat, news: nat)

  ghost predicate Carries(msg: RobotState, counter: nat) {
    msg.timestamp > 0 && msg.header.sequence == counter % WRAP
  }

  /** Each message taken from the box is later than the one held, by less than 65536. */
  ghost predicate InOrder(polls: seq<Poll>, start: nat) {
    forall k :: 0 <= k < |polls| ==>
      Carries(polls[k].msg, polls[k].counter) &&
      (!polls[k].contended ==> Held(polls, start, k) <= polls[k].counter < Held(polls, start, k) + WRAP)
  }

  /** The counter of the message held before poll k. */
  function Held(polls: seq<Poll>, start: nat, k: nat): nat
    requires k <= |polls|
  {
    if k == 0 then start
    else if polls[k - 1].contended then Held(polls, start, k - 1)
    else polls[k - 1].counter
  }

  function Tallied(t: Tally, polls: seq<Poll>, k: nat): (r: Tally)
    requires k <= |polls| && t.sub.lastRead <= MAX_SEQUENCE
    ensures r.sub.lastRead <= MAX_SEQUENCE
  {
    if k == 0 then t
    else
      var b := Tallied(t, polls, k - 1);
      var p := polls[k - 1];
      var r := ReadMessage(b.sub.(box := p.msg), b.msg, Status(false, 0, 0), p.contended, p.now);
      Tally(r.sub, r.msg, if p.contended then b.counter else p.counter, b.lost + r.status.lost,
            b.news + if r.status.newMessage then 1 else 0)
  }

  /** One read: lost frames plus one if the message is new make up the advance, plus one if the numbering wrapped. */
  lemma LostAcrossOneRead(last: nat, next: nat)
    requires last <= next < last + WRAP
    ensures var lost := LostBetween(last % WRAP, next % WRAP);
            lost + (if next % WRAP != last % WRAP then 1 else 0) == next - last + (next / WRAP - last / WRAP)
    ensures next % WRAP != last % WRAP <==> next != last
  {
    var q := next / WRAP - last / WRAP;
    assert next - last == q * WRAP + (next % WRAP - last % WRAP);
    assert q == 0 || q == 1;
  }

  /** The count is the number of frames skipped exactly when the numbering did not wrap in between. */
  lemma LossIsExactUnlessWrapped(last: nat, next: nat)
    requires last < next < last + WRAP
    ensures LostBetween(last % WRAP, next % WRAP) == next - last - 1 <==> next / WRAP == last / WRAP
  {
    LostAcrossOneRead(last, next);
  }

  /**
   Conservation: over any series of reads after the first, frames counted lost plus reads that
   reported a new message equal the advance of the sender's counter plus the number of wraps crossed.
   */
  lemma {:induction false} LossConservation(t: Tally, polls: seq<Poll>, k: nat)
    requires k <= |polls| && !t.sub.firstRead && t.sub.lastRead == t.msg.header.sequence
    requires Carries(t.msg, t.counter) && InOrder(polls, t.counter)
    ensures var r := Tallied(t, polls, k);
            && !r.sub.firstRead && r.sub.lastRead == r.msg.header.sequence
            && r.counter == Held(polls, t.counter, k) && Carries(r.msg, r.counter)
            && r.counter >= t.counter && r.lost >= t.lost && r.news >= t.news
            && (r.lost - t.lost) + (r.news - t.news)
               == (r.counter - t.counter) + (r.counter / WRAP - t.counter / WRAP)
  {
    if k > 0 {
      LossConservation(t, polls, k - 1);
      var b := Tallied(t, polls, k - 1);
      var p := polls[k - 1];
      LostAcrossOneRead(b.counter, if p.contended then b.counter else p.counter);
    }
  }
}
