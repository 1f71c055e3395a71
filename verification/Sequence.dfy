/**
 Sequence numbers of the controller: a counter that wraps after 65535, and the age of a command
 worked out from the last number sent and the number the command echoes.
 */
module Sequence {
  const WRAP := 65536

  function NextSequence(n: int): int {
    if n + 1 > 65535 then 0 else n + 1
  }

  method GetNextSequenceNumber(n: int) returns (next: int)
    ensures next == NextSequence(n)
    ensures 0 <= n < WRAP ==> next == (n + 1) % WRAP
  {
    next := n + 1;
    if next > 65535 {
      next := 0;
    }
  }

  function SequenceDelay(sent: int, received: int): int {
    var d := sent - received;
    if d < -60000 && d < 0 then d + WRAP else d
  }

  method ComputeSequenceDelay(sent: int, received: int) returns (delay: int)
    ensures delay == SequenceDelay(sent, received)
    ensures delay == sent - received || (sent - received < -60000 && delay == sent - received + WRAP)
  {
    delay := sent - received;
    if delay < -60000 && delay < 0 {
      delay := delay + WRAP;
    }
  }

  /** The watchdog's test: a negative delay, or one above the limit. */
  predicate Trips(delay: int, limit: int) {
    delay < 0 || delay > limit
  }

  /**
   For every send counter and true age, the delay is the age or negative: negative exactly when the age is
   5536 or more and the numbering has wrapped in between.
   */
  lemma DelayOfTrueAge(counter: nat, age: nat)
    requires age <= 65535 && age <= counter
    ensures var d := SequenceDelay(counter % WRAP, (counter - age) % WRAP);
            && (d == age || d < 0)
            && (d < 0 <==> age >= 5536 && counter % WRAP < (counter - age) % WRAP)
            && forall limit :: 0 <= limit < 5536 ==> (Trips(d, limit) <==> age > limit)
  {
    var s, r := counter % WRAP, (counter - age) % WRAP;
    var qs, qr := counter / WRAP, (counter - age) / WRAP;
    assert counter == qs * WRAP + s && counter - age == qr * WRAP + r;
    assert age == (qs - qr) * WRAP + s - r;
    assert qs - qr == 0 || qs - qr == 1;
  }

  /** For any two numbers whatever, the test is exact about their distance modulo 65536. */
  lemma TripsExactly(sent: int, received: int, limit: int)
    requires 0 <= sent < WRAP && 0 <= received < WRAP && 0 <= limit < 5536
    ensures Trips(SequenceDelay(sent, received), limit) <==> (sent - received) % WRAP > limit
    ensures !Trips(SequenceDelay(sent, received), limit)
            ==> SequenceDelay(sent, received) == (sent - received) % WRAP
  {
    if sent < received {
      assert (sent - received) % WRAP == sent - received + WRAP;
    }
  }

  /** Distances between counters survive the wrap. */
  lemma DistanceModulo(a: nat, b: nat)
    ensures (a % WRAP - b % WRAP) % WRAP == (a - b) % WRAP
  {
    var qa, qb := a / WRAP, b / WRAP;
    assert a - b == (qa - qb) * WRAP + (a % WRAP - b % WRAP);
    ModuloShift(a % WRAP - b % WRAP, qa - qb);
  }

  lemma ModuloShift(x: int, k: int)
    ensures (k * WRAP + x) % WRAP == x % WRAP
  {
    var q, r := x / WRAP, x % WRAP;
    assert k * WRAP + x == (k + q) * WRAP + r;
    UniqueRemainder(k * WRAP + x, k + q, r);
  }

  lemma UniqueRemainder(x: int, q: int, r: int)
    requires x == q * WRAP + r && 0 <= r < WRAP
    ensures x / WRAP == q && x % WRAP == r
  {
  }
}
