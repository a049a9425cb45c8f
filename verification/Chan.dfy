/**
 * nattan's bounded channel between coroutines (sync/Chan.h): a ring of messages.
 * A blocking operation is modelled by the segments that it executes between two
 * waits, each of which holds the channel's mutex throughout.
 */
module Chan {
  import opened Bytes

  class Chan<T(0)> {
    const messages: array<T>
    var putIndex: nat
    var takeIndex: nat
    var count: nat

    /** History: everything that has been sent and received, in order. */
    ghost var sent: seq<T>
    ghost var received: seq<T>

    ghost predicate Valid()
      reads this, messages
    {
      && count <= messages.Length
      && (messages.Length == 0 ==> putIndex == takeIndex == 0)
      && (messages.Length > 0 ==>
            takeIndex < messages.Length && putIndex == At(takeIndex, count, messages.Length))
      && sent == received + Contents()
    }

    /** What is in the channel, oldest first. */
    ghost function Contents(): (s: seq<T>)
      requires count <= messages.Length && (messages.Length > 0 ==> takeIndex < messages.Length)
      reads this, messages
      ensures |s| == count
    {
      Ring(messages[..], takeIndex, count)
    }

    constructor (capacity: nat)
      ensures Valid() && Contents() == [] && sent == [] && received == []
      ensures messages.Length == capacity && fresh(messages)
    {
      messages := new T[capacity];
      putIndex, takeIndex, count, sent, received := 0, 0, 0, [], [];
    }

    predicate IsFull()
      reads this
    {
      count == messages.Length
    }

    predicate IsEmpty()
      reads this
    {
      count == 0
    }

    method Enqueue(e: T)
      requires Valid() && !IsFull()
      modifies this, messages
      ensures Valid() && Contents() == old(Contents()) + [e]
      ensures sent == old(sent) + [e] && received == old(received)
    {
      ghost var was := messages[..];
      RingPut(was, takeIndex, count, e);
      messages[putIndex] := e;
      assert messages[..] == was[putIndex := e];
      putIndex := putIndex + 1;
      if putIndex == messages.Length {
        putIndex := 0;
      }
      count := count + 1;
      sent := sent + [e];
    }

    method Dequeue() returns (e: T)
      requires Valid() && !IsEmpty()
      modifies this
      ensures Valid() && old(Contents()) == [e] + Contents()
      ensures received == old(received) + [e] && sent == old(sent)
    {
      RingTake(messages[..], takeIndex, count);
      e := messages[takeIndex];
      takeIndex := takeIndex + 1;
      if takeIndex == messages.Length {
        takeIndex := 0;
      }
      count := count - 1;
      received := received + [e];
    }

    /** send and sendTill after a wake-up, or at first: done, or the channel is full. */
    method SendSegment(msg: T) returns (done: bool)
      requires Valid()
      modifies this, messages
      ensures Valid() && done == (old(count) < messages.Length)
      ensures Contents() == old(Contents()) + if done then [msg] else []
      ensures sent == old(sent) + (if done then [msg] else []) && received == old(received)
    {
      if IsFull() {
        return false;
      }
      Enqueue(msg);
      return true;
    }

    /** recv and recvTill likewise. */
    method RecvSegment() returns (msg: Option<T>)
      requires Valid()
      modifies this
      ensures Valid() && (msg == None <==> old(Contents()) == [])
      ensures old(Contents()) == (if msg.Some? then [msg.value] else []) + Contents()
      ensures received == old(received) + (if msg.Some? then [msg.value] else []) && sent == old(sent)
    {
      if IsEmpty() {
        return None;
      }
      var e := Dequeue();
      return Some(e);
    }
  }

  /** The index i places after take in a ring of n. */
  function At(take: nat, i: nat, n: nat): (k: nat)
    requires take < n && i <= n
    ensures k < n
  {
    if take + i < n then take + i else take + i - n
  }

  function Ring<T>(s: seq<T>, take: nat, count: nat): (r: seq<T>)
    requires count <= |s| && (|s| > 0 ==> take < |s|)
    ensures |r| == count
  {
    seq(count, i requires 0 <= i < count => s[At(take, i, |s|)])
  }

  lemma RingPut<T>(s: seq<T>, take: nat, count: nat, e: T)
    requires count < |s| && take < |s|
    ensures Ring(s[At(take, count, |s|) := e], take, count + 1) == Ring(s, take, count) + [e]
  {
  }

  lemma RingTake<T>(s: seq<T>, take: nat, count: nat)
    requires 0 < count <= |s| && take < |s|
    ensures Ring(s, take, count) == [s[take]] + Ring(s, if take + 1 == |s| then 0 else take + 1, count - 1)
  {
  }

  datatype Segment<T> = Send(msg: T) | Recv

  /** What a segment comes to: whether the message was sent, or the message received. */
  datatype Outcome<T> = Sent(done: bool) | Got(msg: Option<T>)

  /** The outcomes of a queue of bounded length. */
  function Fifo<T>(capacity: nat, queue: seq<T>, segments: seq<Segment<T>>): (outcomes: seq<Outcome<T>>)
    ensures |outcomes| == |segments|
    decreases |segments|
  {
    if segments == [] then []
    else match segments[0]
      case Send(msg) =>
        if |queue| < capacity then [Sent(true)] + Fifo(capacity, queue + [msg], segments[1..])
        else [Sent(false)] + Fifo(capacity, queue, segments[1..])
      case Recv =>
        if queue == [] then [Got(None)] + Fifo(capacity, queue, segments[1..])
        else [Got(Some(queue[0]))] + Fifo(capacity, queue[1..], segments[1..])
  }

  function WentIn<T>(segments: seq<Segment<T>>, outcomes: seq<Outcome<T>>): seq<T>
    requires |outcomes| == |segments|
    decreases |segments|
  {
    if segments == [] then []
    else (if segments[0].Send? && outcomes[0] == Sent(true) then [segments[0].msg] else []) + WentIn(segments[1..], outcomes[1..])
  }

  function CameOut<T>(outcomes: seq<Outcome<T>>): seq<T> {
    if outcomes == [] then []
    else (if outcomes[0].Got? && outcomes[0].msg.Some? then [outcomes[0].msg.value] else []) + CameOut(outcomes[1..])
  }

  /** What comes out is the beginning of what was in the queue and has gone in; no more than capacity stays inside. */
  lemma {:induction false} FirstInFirstOut<T>(capacity: nat, queue: seq<T>, segments: seq<Segment<T>>)
    requires |queue| <= capacity
    ensures var outcomes := Fifo(capacity, queue, segments);
            var wentIn := queue + WentIn(segments, outcomes);
            CameOut(outcomes) <= wentIn && |wentIn| - |CameOut(outcomes)| <= capacity
    decreases |segments|
  {
    if segments != [] {
      var outcomes := Fifo(capacity, queue, segments);
      var wentIn := WentIn(segments[1..], outcomes[1..]);
      match segments[0] {
        case Send(msg) =>
          if |queue| < capacity {
            FirstInFirstOut(capacity, queue + [msg], segments[1..]);
            assert queue + [msg] + wentIn == queue + ([msg] + wentIn);
          } else {
            FirstInFirstOut(capacity, queue, segments[1..]);
          }
        case Recv =>
          FirstInFirstOut(capacity, if queue == [] then queue else queue[1..], segments[1..]);
          assert queue != [] ==> queue + wentIn == [queue[0]] + (queue[1..] + wentIn);
      }
    }
  }

  lemma FifoStep<T>(capacity: nat, queue: seq<T>, segments: seq<Segment<T>>, k: nat, outcomes: seq<Outcome<T>>)
    requires k < |segments|
    ensures segments[k].Send? ==>
              var queue' := if |queue| < capacity then queue + [segments[k].msg] else queue;
              outcomes + Fifo(capacity, queue, segments[k..])
              == (outcomes + [Sent(|queue| < capacity)]) + Fifo(capacity, queue', segments[k + 1..])
    ensures segments[k].Recv? ==>
              var got := if queue == [] then None else Some(queue[0]);
              outcomes + Fifo(capacity, queue, segments[k..])
              == (outcomes + [Got(got)]) + Fifo(capacity, if queue == [] then queue else queue[1..], segments[k + 1..])
  {
    assert segments[k..][0] == segments[k] && segments[k..][1..] == segments[k + 1..];
  }

  /**
   * Any interleaving of the segments of any number of senders and receivers gets from
   * the ring what a bounded queue gives: what has come out is the beginning of what
   * has gone in, and no more than capacity is inside.
   */
  method Interleave<T(0)>(capacity: nat, segments: seq<Segment<T>>) returns (outcomes: seq<Outcome<T>>)
    ensures outcomes == Fifo(capacity, [], segments)
    ensures CameOut(outcomes) <= WentIn(segments, outcomes)
    ensures |WentIn(segments, outcomes)| - |CameOut(outcomes)| <= capacity
  {
    var chan := new Chan<T>(capacity);
    outcomes := [];
    assert segments[0..] == segments;
    for k := 0 to |segments|
      invariant fresh(chan) && fresh(chan.messages) && chan.Valid() && chan.messages.Length == capacity
      invariant Fifo(capacity, [], segments) == outcomes + Fifo(capacity, chan.Contents(), segments[k..])
    {
      hide Chan.Contents, Fifo;
      ghost var queue := chan.Contents();
      FifoStep(capacity, queue, segments, k, outcomes);
      match segments[k] {
        case Send(msg) =>
          var done := chan.SendSegment(msg);
          outcomes := outcomes + [Sent(done)];
          assert chan.Contents() == if done then queue + [msg] else queue;
        case Recv =>
          var msg := chan.RecvSegment();
          outcomes := outcomes + [Got(msg)];
          assert chan.Contents() == if queue == [] then queue else queue[1..];
      }
    }
    assert outcomes + [] == outcomes;
    FirstInFirstOut<T>(capacity, [], segments);
    assert [] + WentIn(segments, outcomes) == WentIn(segments, outcomes);
  }
}
