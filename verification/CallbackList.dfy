/** The linked list of callbacks of hiredis (async.c:244-280), a queue of copies. */
module CallbackList {
  import opened Bytes

  class Node<T> {
    const payload: T
    var next: Node?<T>

    constructor (payload: T)
      ensures this.payload == payload && next == null
    {
      this.payload := payload;
      next := null;
    }
  }

  ghost function Payloads<T>(nodes: seq<Node<T>>): (s: seq<T>)
    ensures |s| == |nodes|
  {
    seq(|nodes|, i requires 0 <= i < |nodes| => nodes[i].payload)
  }

  ghost function At<T>(nodes: seq<Node<T>>, i: nat): Node?<T> {
    if i < |nodes| then nodes[i] else null
  }

  class List<T> {
    var head: Node?<T>
    var tail: Node?<T>
    ghost var nodes: seq<Node<T>>

    ghost predicate Valid()
      reads this, nodes
    {
      && (forall i, j :: 0 <= i < j < |nodes| ==> nodes[i] != nodes[j])
      && head == (if nodes == [] then null else nodes[0])
      && tail == (if nodes == [] then null else nodes[|nodes| - 1])
      && forall i :: 0 <= i < |nodes| ==> nodes[i].next == At(nodes, i + 1)
    }

    /** What the list holds, in the order in which it will come out. */
    ghost function Contents(): (s: seq<T>)
      reads this
      ensures |s| == |nodes|
    {
      Payloads(nodes)
    }

    constructor ()
      ensures Valid() && Contents() == []
    {
      head, tail, nodes := null, null, [];
    }

    /** __redisPushCallback */
    method Push(source: T)
      requires Valid()
      modifies this, nodes
      ensures Valid() && Contents() == old(Contents()) + [source]
      ensures forall n <- nodes :: n in old(nodes) || fresh(n)
    {
      var cb := new Node(source);
      if head == null {
        head := cb;
      }
      if tail != null {
        tail.next := cb;
      }
      tail := cb;
      assert Payloads(nodes + [cb]) == Payloads(nodes) + [source];
      nodes := nodes + [cb];
    }

    /** __redisShiftCallback */
    method Shift() returns (target: Option<T>)
      requires Valid()
      modifies this
      ensures Valid()
      ensures old(Contents()) == [] ==> target == None && Contents() == []
      ensures old(Contents()) != [] ==> target.Some? && old(Contents()) == [target.value] + Contents()
      ensures forall n <- nodes :: n in old(nodes)
    {
      var cb := head;
      if cb == null {
        return None;
      }
      assert nodes[0] == cb;
      forall i | 0 <= i < |nodes[1..]| ensures nodes[1..][i].next == At(nodes[1..], i + 1) {
        assert nodes[1..][i] == nodes[i + 1];
      }
      assert cb == tail ==> |nodes| == 1;
      assert Payloads(nodes) == [cb.payload] + Payloads(nodes[1..]);
      head := cb.next;
      if cb == tail {
        tail := null;
      }
      nodes := nodes[1..];
      return Some(cb.payload);
    }
  }

  datatype Op<T> = PushOp(item: T) | ShiftOp

  /** What a queue gives out. */
  function Given<T>(queue: seq<T>, ops: seq<Op<T>>): seq<Option<T>>
    decreases |ops|
  {
    if ops == [] then []
    else
      match ops[0]
      case PushOp(x) => Given(queue + [x], ops[1..])
      case ShiftOp =>
        if queue == [] then [None] + Given(queue, ops[1..])
        else [Some(queue[0])] + Given(queue[1..], ops[1..])
  }

  /** Any mixture of pushing and shifting on a new list is first in, first out. */
  method Replay<T>(ops: seq<Op<T>>) returns (given: seq<Option<T>>)
    ensures given == Given([], ops)
  {
    var list := new List<T>();
    given := [];
    ghost var all := Given([], ops);
    assert ops[0..] == ops;
    CompletesStart(all);
    for i := 0 to |ops|
      invariant fresh(list) && list.Valid()
      invariant forall n <- list.nodes :: fresh(n)
      invariant Completes(given, Given(list.Contents(), ops[i..]), all)
    {
      hide Completes, Payloads;
      GivenStep(list.Contents(), ops, i);
      if ops[i].PushOp? {
        forall i | 0 <= i < |list.nodes| ensures fresh(list.nodes[i]) {
          assert list.nodes[i] in list.nodes;
        }
        list.Push(ops[i].item);
      } else {
        ghost var queue := list.Contents();
        var x := list.Shift();
        assert queue != [] ==> list.Contents() == queue[1..];
        CompletesMore(given, [x], Given(list.Contents(), ops[i + 1..]), all);
        given := given + [x];
      }
    }
    CompletesEnd(given, all);
  }

  lemma GivenStep<T>(queue: seq<T>, ops: seq<Op<T>>, i: nat)
    requires i < |ops|
    ensures Given(queue, ops[i..]) ==
              match ops[i]
              case PushOp(x) => Given(queue + [x], ops[i + 1..])
              case ShiftOp =>
                if queue == [] then [None] + Given(queue, ops[i + 1..])
                else [Some(queue[0])] + Given(queue[1..], ops[i + 1..])
  {
    assert ops[i..][0] == ops[i] && ops[i..][1..] == ops[i + 1..];
  }
}
