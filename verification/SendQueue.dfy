/**
 * The queue of TCP requests of a server in c-ares, with its qhead and qtail
 * pointers: ares__send_query appends a request, advance_tcp_send_queue takes off
 * the bytes that the socket has accepted.
 */
module SendQueue {
  import opened Bytes

  class SendRequest {
    /** The bytes of the request that have not been sent. */
    var data: seq<Byte>
    var next: SendRequest?

    constructor (data: seq<Byte>)
      ensures this.data == data && next == null
    {
      this.data, next := data, null;
    }
  }

  ghost function At(nodes: seq<SendRequest>, i: nat): SendRequest? {
    if i < |nodes| then nodes[i] else null
  }

  /** The bytes of the requests, in order. */
  ghost function BytesOf(nodes: seq<SendRequest>): seq<Byte>
    reads nodes
  {
    if nodes == [] then [] else nodes[0].data + BytesOf(nodes[1..])
  }

  ghost predicate Distinct(nodes: seq<SendRequest>) {
    forall i, j :: 0 <= i < j < |nodes| ==> nodes[i] != nodes[j]
  }

  ghost predicate Chained(nodes: seq<SendRequest>)
    reads nodes
  {
    forall i :: 0 <= i < |nodes| ==> nodes[i].next == At(nodes, i + 1)
  }

  lemma {:induction false} BytesAppend(nodes: seq<SendRequest>, n: SendRequest)
    ensures BytesOf(nodes + [n]) == BytesOf(nodes) + n.data
  {
    if nodes == [] {
      assert BytesOf([n]) == n.data + BytesOf([n][1..]);
    } else {
      assert (nodes + [n])[1..] == nodes[1..] + [n];
      BytesAppend(nodes[1..], n);
      Assoc(nodes[0].data, BytesOf(nodes[1..]), n.data);
    }
  }

  lemma ChainedRest(nodes: seq<SendRequest>)
    requires nodes != [] && Chained(nodes) && Distinct(nodes)
    ensures nodes[0].next == At(nodes[1..], 0) && Chained(nodes[1..]) && Distinct(nodes[1..])
    ensures nodes[0] !in nodes[1..]
  {
    var rest := nodes[1..];
    forall i | 0 <= i < |rest| ensures rest[i].next == At(rest, i + 1) && rest[i] != nodes[0] {
      assert rest[i] == nodes[i + 1];
    }
  }

  class Queue {
    var qhead: SendRequest?
    var qtail: SendRequest?
    ghost var nodes: seq<SendRequest>

    /** qtail is the last request, and null exactly when qhead is. */
    ghost predicate Valid()
      reads this, nodes
    {
      && Distinct(nodes) && Chained(nodes)
      && qhead == At(nodes, 0)
      && qtail == (if nodes == [] then null else nodes[|nodes| - 1])
    }

    constructor ()
      ensures Valid() && nodes == []
    {
      qhead, qtail, nodes := null, null, [];
    }

    /** The end of the TCP half of ares__send_query. */
    method Append(data: seq<Byte>)
      requires Valid()
      modifies this, qtail
      ensures Valid() && qtail != null
      ensures |nodes| == |old(nodes)| + 1 && nodes[..|old(nodes)|] == old(nodes)
      ensures fresh(nodes[|old(nodes)|])
      ensures BytesOf(nodes) == old(BytesOf(nodes)) + data
    {
      var sendreq := new SendRequest(data);
      ghost var was := nodes;
      if qtail != null {
        assert qtail == nodes[|nodes| - 1];
        qtail.next := sendreq;
      } else {
        qhead := sendreq;
      }
      qtail := sendreq;
      nodes := nodes + [sendreq];
      SameBytes(was);
      BytesAppend(was, sendreq);
    }

    /** advance_tcp_send_queue, which is told no more bytes than are queued. */
    method Advance(numBytes: nat)
      requires Valid() && numBytes <= |BytesOf(nodes)|
      modifies this, nodes
      ensures Valid() && (qtail == null <==> qhead == null)
      ensures BytesOf(nodes) == old(BytesOf(nodes))[numBytes..]
      ensures Suffix(nodes, old(nodes))
    {
      var left: nat := numBytes;
      ghost var all, whole := nodes, BytesOf(nodes);
      assert Suffix(nodes, all);
      hide Suffix, Chained, Distinct;
      while left > 0
        invariant Valid() && left <= |BytesOf(nodes)|
        invariant Suffix(nodes, all)
        invariant BytesOf(nodes)[left..] == whole[numBytes..]
        decreases |nodes|, left
      {
        ghost var before := nodes;
        assert nodes != [];
        HeadIsInside(nodes, all);
        hide BytesOf;
        left := TakeFrom(left);
        Behind(all, before, nodes);
        if qhead == null {
          break;
        }
      }
      assert BytesOf(nodes)[0..] == BytesOf(nodes);
    }

    /** One round: the first request leaves, or loses some of its bytes. */
    method TakeFrom(numBytes: nat) returns (left: nat)
      requires Valid() && 0 < numBytes <= |BytesOf(nodes)|
      modifies this, qhead`data
      ensures Valid() && left <= |BytesOf(nodes)|
      ensures nodes == old(nodes)[1..] || (nodes == old(nodes) && left == 0)
      ensures BytesOf(nodes)[left..] == old(BytesOf(nodes))[numBytes..]
    {
      ghost var rest := nodes[1..];
      var sendreq := qhead;
      ChainedRest(nodes);
      hide Chained, Distinct;
      assert BytesOf(nodes) == sendreq.data + BytesOf(rest);
      if numBytes >= |sendreq.data| {
        left := numBytes - |sendreq.data|;
        qhead := sendreq.next;
        nodes := rest;
        if qhead == null {
          qtail := null;
        }
      } else {
        Cut(sendreq, rest, numBytes);
        left := 0;
      }
    }
  }

  ghost predicate Suffix(s: seq<SendRequest>, all: seq<SendRequest>) {
    |s| <= |all| && s == all[|all| - |s|..]
  }

  lemma HeadIsInside(s: seq<SendRequest>, all: seq<SendRequest>)
    requires Suffix(s, all) && s != []
    ensures At(s, 0) in all
  {
  }

  lemma Behind(all: seq<SendRequest>, before: seq<SendRequest>, after: seq<SendRequest>)
    requires Suffix(before, all) && before != []
    requires after == before || after == before[1..]
    ensures Suffix(after, all)
  {
  }

  /** The first of the bytes of a request are taken off. */
  method Cut(sendreq: SendRequest, ghost rest: seq<SendRequest>, n: nat)
    requires n <= |sendreq.data| && sendreq !in rest
    modifies sendreq`data
    ensures sendreq.data == old(sendreq.data)[n..]
    ensures sendreq.data + BytesOf(rest) == (old(sendreq.data) + old(BytesOf(rest)))[n..]
  {
    sendreq.data := sendreq.data[n..];
    SameBytes(rest);
  }

  twostate lemma SameBytes(nodes: seq<SendRequest>)
    requires forall n <- nodes :: n.data == old(n.data)
    ensures BytesOf(nodes) == old(BytesOf(nodes))
  {
    if nodes != [] {
      SameBytes(nodes[1..]);
    }
  }
}
