/**
 Draining the controller's datagram socket: at most two attempts a cycle, the last datagram wins.
 */
module SocketRead {
  import opened Wire

  type Datagram = seq<byte>

  /** What one attempt leaves behind. */
  datatype Once = Once(queue: seq<Datagram>, data: seq<byte>, newData: bool, error: bool)

  /**
   The non-blocking read: nothing queued gives -1; otherwise the first datagram is taken from the
   queue and as much of it as fits overwrites the front of the array.
   */
  function SioGet(queue: seq<Datagram>, data: seq<byte>): (int, seq<Datagram>, seq<byte>)
  {
    if queue == [] then (-1, queue, data)
    else
      var n := if |queue[0]| < |data| then |queue[0]| else |data|;
      (n, queue[1..], queue[0][..n] + data[n..])
  }

  function ReadDataOnce(queue: seq<Datagram>, data: seq<byte>): (r: Once)
    ensures |r.data| == |data|
  {
    var (n, q, d) := SioGet(queue, data);
    if n == |data| then Once(q, d, true, false)
    else Once(q, d, false, n > 0)
  }

  /** `newData` is what earlier attempts of the same call have seen. */
  function ReadAttempts(queue: seq<Datagram>, data: seq<byte>, newData: bool, attempts: nat): (r: Once)
    ensures |r.data| == |data|
  {
    if attempts == 0 then Once(queue, data, newData, false)
    else
      var once := ReadDataOnce(queue, data);
      if once.error then once.(newData := false)
      else if (newData || once.newData) && !once.newData then once.(newData := true)
      else ReadAttempts(once.queue, once.data, newData || once.newData, attempts - 1)
  }

  function ReadData(queue: seq<Datagram>, data: seq<byte>): (r: Once)
    ensures |r.data| == |data|
  {
    ReadAttempts(queue, data, false, 2)
  }

  class UdpSocket {
    var queue: seq<Datagram>

    constructor ()
      ensures queue == []
    {
      queue := [];
    }

    method Deliver(arrivals: seq<Datagram>)
      modifies this
      ensures queue == old(queue) + arrivals
    {
      queue := queue + arrivals;
    }

    method ClearBuffer()
      modifies this
      ensures queue == []
    {
      queue := [];
    }

    method Get(data: array<byte>) returns (count: int)
      modifies this, data
      ensures (count, queue, data[..]) == SioGet(old(queue), old(data[..]))
    {
      if queue == [] {
        return -1;
      }
      var first := queue[0];
      queue := queue[1..];
      var n := if |first| < data.Length then |first| else data.Length;
      for i := 0 to n
        invariant queue == old(queue)[1..]
        invariant forall k :: 0 <= k < i ==> data[k] == first[k]
        invariant forall k :: i <= k < data.Length ==> data[k] == old(data[k])
      {
        data[i] := first[i];
      }
      assert data[..] == first[..n] + old(data[..])[n..];
      count := n;
    }

    method ReadOnceInto(data: array<byte>) returns (newData: bool, error: bool)
      modifies this, data
      ensures Once(queue, data[..], newData, error) == ReadDataOnce(old(queue), old(data[..]))
    {
      newData, error := false, false;
      var read := Get(data);
      if read == data.Length {
        newData := true;
      } else if read > 0 {
        error := true;
      }
    }

    method ReadInto(data: array<byte>) returns (newData: bool, error: bool)
      modifies this, data
      ensures Once(queue, data[..], newData, error) == ReadData(old(queue), old(data[..]))
    {
      newData, error := false, false;
      var attempt := 1;
      while attempt <= 2
        invariant 1 <= attempt <= 3
        invariant !error
        invariant ReadAttempts(queue, data[..], newData, 3 - attempt) == ReadData(old(queue), old(data[..]))
      {
        var got, failed := ReadOnceInto(data);
        if failed {
          return false, true;
        }
        if got {
          newData := true;
        }
        if newData && !got {
          return;
        }
        attempt := attempt + 1;
      }
    }
  }

  ghost predicate WellSized(queue: seq<Datagram>, size: nat) {
    forall i :: 0 <= i < |queue| ==> |queue[i]| == size
  }

  function Taken(queue: seq<Datagram>): nat {
    if |queue| < 2 then |queue| else 2
  }

  /** The loop unrolled: a second attempt is made unless the first one failed. */
  lemma TwoAttempts(queue: seq<Datagram>, data: seq<byte>)
    ensures var a := ReadDataOnce(queue, data);
            var b := ReadDataOnce(a.queue, a.data);
            ReadData(queue, data) ==
              if a.error then a.(newData := false)
              else if b.error then b.(newData := false)
              else b.(newData := a.newData || b.newData)
  {
    var a := ReadDataOnce(queue, data);
    if !a.error {
      var b := ReadDataOnce(a.queue, a.data);
      assert ReadData(queue, data) == ReadAttempts(a.queue, a.data, a.newData, 1);
      if !b.error && (b.newData || !a.newData) {
        assert ReadAttempts(a.queue, a.data, a.newData, 1) == ReadAttempts(b.queue, b.data, a.newData || b.newData, 0);
      }
    }
  }

  lemma FullRead(queue: seq<Datagram>, data: seq<byte>)
    requires queue != [] && |queue[0]| == |data| > 0
    ensures ReadDataOnce(queue, data) == Once(queue[1..], queue[0], true, false)
  {
    assert queue[0][..|data|] + data[|data|..] == queue[0];
  }

  /** Full-size datagrams: two are consumed at most, and the last one consumed is in the array. */
  lemma ReadTakesNewest(queue: seq<Datagram>, data: seq<byte>)
    requires |data| > 0 && WellSized(queue, |data|)
    ensures var r := ReadData(queue, data);
            && r.queue == queue[Taken(queue)..]
            && (r.newData <==> queue != [])
            && !r.error
            && r.data == if queue == [] then data else queue[Taken(queue) - 1]
  {
    TwoAttempts(queue, data);
    if queue != [] {
      FullRead(queue, data);
      if |queue| > 1 {
        FullRead(queue[1..], queue[0]);
        assert queue[1..][1..] == queue[2..];
      }
    }
  }

  /**
   The read fails exactly when a datagram that is neither empty nor full size is met: the first
   one, or the second. A failure always withholds the data.
   */
  lemma ReadFailsExactly(queue: seq<Datagram>, data: seq<byte>)
    requires |data| > 0
    ensures var r := ReadData(queue, data);
            && (r.error <==> (queue != [] && 0 < |queue[0]| < |data|) || (|queue| > 1 && 0 < |queue[1]| < |data|))
            && (r.error ==> !r.newData)
            && (r.newData ==> queue != [])
  {
    TwoAttempts(queue, data);
    var once := ReadDataOnce(queue, data);
    if |queue| > 1 {
      assert once.queue[0] == queue[1];
    }
  }

  /**
   One attempt, exactly: it takes one datagram if there is one, puts what fits of it in front of what the
   array held, and has new data for one that fills the array, an error for a shorter one that is not empty.
   */
  lemma OnceExactly(queue: seq<Datagram>, data: seq<byte>)
    requires |data| > 0
    ensures var r := ReadDataOnce(queue, data);
            if queue == [] then r == Once([], data, false, false)
            else
              && r.queue == queue[1..]
              && (r.newData <==> |queue[0]| >= |data|) && (r.error <==> 0 < |queue[0]| < |data|)
              && forall i :: 0 <= i < |data| ==> r.data[i] == if i < |queue[0]| then queue[0][i] else data[i]
  {
  }

  /** A whole read takes one datagram when the first fails or is the only one, and two otherwise. */
  lemma ReadConsumes(queue: seq<Datagram>, data: seq<byte>)
    requires |data| > 0
    ensures var taken := if |queue| < 2 || 0 < |queue[0]| < |data| then (if queue == [] then 0 else 1) else 2;
            ReadData(queue, data).queue == queue[taken..]
    ensures !ReadData(queue, data).error ==>
              (ReadData(queue, data).newData <==>
               (queue != [] && |queue[0]| >= |data|) || (|queue| > 1 && |queue[1]| >= |data|))
  {
    TwoAttempts(queue, data);
    OnceExactly(queue, data);
    var once := ReadDataOnce(queue, data);
    OnceExactly(once.queue, once.data);
    hide ReadDataOnce, ReadData;
    if queue != [] {
      assert queue[1..] == once.queue;
      if |queue| > 1 {
        assert once.queue[0] == queue[1];
      }
    }
  }

  /** Queue and array after `i` cycles, cycle k being preceded by the arrivals `arrivals[k]`. */
  function Cycles(queue: seq<Datagram>, data: seq<byte>, arrivals: seq<seq<Datagram>>, i: nat): Once
    requires i <= |arrivals|
  {
    if i == 0 then Once(queue, data, false, false)
    else
      var before := Cycles(queue, data, arrivals, i - 1);
      ReadData(before.queue + arrivals[i - 1], before.data)
  }

  /**
   With at most one arrival per cycle a backlog loses at least one datagram every cycle until it is
   gone; from then on each cycle that sees an arrival acts on that very datagram.
   */
  lemma {:induction false} BacklogDrains(queue: seq<Datagram>, data: seq<byte>, arrivals: seq<seq<Datagram>>, i: nat)
    requires i <= |arrivals| && |data| > 0 && WellSized(queue, |data|)
    requires forall k :: 0 <= k < |arrivals| ==> |arrivals[k]| <= 1 && WellSized(arrivals[k], |data|)
    ensures var r := Cycles(queue, data, arrivals, i);
            && |r.data| == |data| && WellSized(r.queue, |data|)
            && |r.queue| <= (if i <= |queue| then |queue| - i else 0)
    ensures 0 < i && |queue| < i && arrivals[i - 1] != []
            ==> Cycles(queue, data, arrivals, i).newData && Cycles(queue, data, arrivals, i).data == arrivals[i - 1][0]
  {
    if i > 0 {
      BacklogDrains(queue, data, arrivals, i - 1);
      var before := Cycles(queue, data, arrivals, i - 1);
      ReadTakesNewest(before.queue + arrivals[i - 1], before.data);
    }
  }
}
