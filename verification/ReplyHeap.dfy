/**
 * The reply objects that hiredis builds in place (hiredis.c, create*Object) and
 * the stack of unfinished arrays that points into them (read.c, rstack).
 *
 * Objects live in a heap that only grows; a pointer is an index into it and
 * NULL is -1. An array is linked into its parent when it is created, before any
 * of its elements exists.
 */
module ReplyHeap {
  import opened Bytes
  import opened RespGrammar

  const NULL := -1

  datatype Cell =
    | Leaf(value: Reply)
    | Vector(element: seq<int>)

  type Heap = seq<Cell>

  /** redisReadTask; `parent` is the index of the parent's slot. */
  datatype Task = Task(kind: Option<Kind>, elements: int, idx: int, obj: int, parent: int)

  const SLOTS := 9

  /** The object at `id`, which uses no cell at or above `hi`, spells v. */
  ghost predicate IsTree(heap: Heap, id: int, hi: int, v: Reply)
    decreases v
  {
    && 0 <= id < hi <= |heap|
    && match v
       case Array(vs) =>
         && heap[id].Vector?
         && |heap[id].element| == |vs|
         && forall j :: 0 <= j < |vs| ==> id < heap[id].element[j] && IsTree(heap, heap[id].element[j], hi, vs[j])
       case _ => heap[id] == Leaf(v)
  }

  /** A tree depends on nothing but the cells from its root up to its limit. */
  lemma {:induction false} IsTreeFrame(heap: Heap, id: int, hi: int, v: Reply, heap': Heap, hi': int)
    requires IsTree(heap, id, hi, v)
    requires hi <= hi' <= |heap'|
    requires forall k :: id <= k < hi ==> heap'[k] == heap[k]
    ensures IsTree(heap', id, hi', v)
    decreases v
  {
    match v
    case Array(vs) =>
      forall j | 0 <= j < |vs|
        ensures IsTree(heap', heap[id].element[j], hi', vs[j])
      {
        IsTreeFrame(heap, heap[id].element[j], hi, vs[j], heap', hi');
      }
    case _ =>
  }

  /** A pointer denotes at most one reply. */
  lemma {:induction false} IsTreeUnique(heap: Heap, id: int, hi: int, v: Reply, hi': int, v': Reply)
    requires IsTree(heap, id, hi, v) && IsTree(heap, id, hi', v')
    ensures v == v'
    decreases v
  {
    match v
    case Array(vs) =>
      assert v'.Array?;
      var vs' := v'.elements;
      forall j | 0 <= j < |vs|
        ensures vs[j] == vs'[j]
      {
        IsTreeUnique(heap, heap[id].element[j], hi, vs[j], hi', vs'[j]);
      }
    case _ =>
  }

  /** Where the cells of level k's subtree end as far as the stack knows. */
  function Limit(stack: seq<Task>, ridx: nat, heap: Heap, k: nat): int
    requires ridx < |stack|
  {
    if k < ridx then stack[k].obj else |heap|
  }

  /** Slot k holds an unfinished array, whose finished elements are those of `frame`. */
  ghost predicate SlotOk(stack: seq<Task>, ridx: nat, heap: Heap, frame: Frame, k: nat)
    requires k < ridx < |stack|
  {
    var t := stack[k];
    && t.kind == Some(ArrayKind) && t.elements == frame.elements
    && 0 <= t.obj < |heap| && heap[t.obj].Vector?
    && |heap[t.obj].element| == frame.elements
    && stack[k + 1].parent == k
    && stack[k + 1].idx == |frame.done| < frame.elements
    && (k + 1 < ridx ==> t.obj < stack[k + 1].obj && heap[t.obj].element[|frame.done|] == stack[k + 1].obj)
    && forall j :: 0 <= j < |frame.done| ==>
         && t.obj < heap[t.obj].element[j]
         && IsTree(heap, heap[t.obj].element[j], Limit(stack, ridx, heap, k + 1), frame.done[j])
  }

  /** The task stack spells `frames`, and its objects are no older than `base`. */
  ghost predicate StackOk(stack: seq<Task>, ridx: nat, heap: Heap, frames: seq<Frame>, base: nat) {
    && |stack| == SLOTS && ridx < SLOTS && |frames| == ridx
    && stack[0].parent == NULL
    && base <= |heap|
    && (ridx > 0 ==> base <= stack[0].obj)
    && forall k {:trigger SlotOk(stack, ridx, heap, frames[k], k)} :: 0 <= k < ridx ==> SlotOk(stack, ridx, heap, frames[k], k)
  }

  lemma {:induction false} StackObjectsOrdered(stack: seq<Task>, ridx: nat, heap: Heap, frames: seq<Frame>, base: nat, j: nat, k: nat)
    requires StackOk(stack, ridx, heap, frames, base) && j <= k < ridx
    ensures base <= stack[j].obj <= stack[k].obj < |heap|
    decreases k
  {
    assert SlotOk(stack, ridx, heap, frames[k], k);
    if j < k {
      assert SlotOk(stack, ridx, heap, frames[k - 1], k - 1);
      StackObjectsOrdered(stack, ridx, heap, frames, base, j, k - 1);
    } else if k > 0 {
      assert SlotOk(stack, ridx, heap, frames[k - 1], k - 1);
      StackObjectsOrdered(stack, ridx, heap, frames, base, k - 1, k - 1);
    }
  }

  /** What create*Object does: a new cell, linked into the parent's element vector. */
  function Create(heap: Heap, stack: seq<Task>, task: Task, cell: Cell): (heap': Heap)
    requires task.parent != NULL ==> 0 <= task.parent < |stack| && 0 <= stack[task.parent].obj < |heap|
    requires task.parent != NULL ==> heap[stack[task.parent].obj].Vector?
    requires task.parent != NULL ==> 0 <= task.idx < |heap[stack[task.parent].obj].element|
  {
    var grown := heap + [cell];
    if task.parent == NULL then grown
    else
      var p := stack[task.parent].obj;
      grown[p := Vector(heap[p].element[task.idx := |heap|])]
  }

  /** The item of slot `ridx` is complete: it is the object `id` and spells v. */
  ghost predicate ItemDone(stack: seq<Task>, ridx: nat, heap: Heap, id: int, v: Reply)
    requires ridx < |stack|
  {
    && IsTree(heap, id, |heap|, v)
    && (ridx > 0 ==>
          && 0 <= stack[ridx - 1].obj < |heap| && heap[stack[ridx - 1].obj].Vector?
          && 0 <= stack[ridx].idx < |heap[stack[ridx - 1].obj].element|
          && heap[stack[ridx - 1].obj].element[stack[ridx].idx] == id
          && stack[ridx - 1].obj < id)
  }

  ghost predicate TaskLinked(stack: seq<Task>, ridx: nat, heap: Heap)
    requires ridx < |stack|
  {
    if ridx == 0 then stack[0].parent == NULL
    else
      && stack[ridx].parent == ridx - 1
      && 0 <= stack[ridx - 1].obj < |heap| && heap[stack[ridx - 1].obj].Vector?
      && 0 <= stack[ridx].idx < |heap[stack[ridx - 1].obj].element|
  }

  lemma StackLinks(stack: seq<Task>, ridx: nat, heap: Heap, frames: seq<Frame>, base: nat)
    requires StackOk(stack, ridx, heap, frames, base)
    ensures TaskLinked(stack, ridx, heap)
  {
    if ridx > 0 {
      assert SlotOk(stack, ridx, heap, frames[ridx - 1], ridx - 1);
    }
  }

  /** Creating the object of the current item disturbs no finished part of any unfinished array. */
  lemma CreateKeepsStack(stack: seq<Task>, ridx: nat, heap: Heap, frames: seq<Frame>, base: nat, cell: Cell)
    requires StackOk(stack, ridx, heap, frames, base)
    ensures TaskLinked(stack, ridx, heap)
    ensures var heap' := Create(heap, stack, stack[ridx], cell);
            && StackOk(stack, ridx, heap', frames, base)
            && |heap'| == |heap| + 1 && heap'[|heap|] == cell
            && (ridx > 0 ==> heap'[stack[ridx - 1].obj].Vector?
                             && stack[ridx].idx < |heap'[stack[ridx - 1].obj].element|
                             && heap'[stack[ridx - 1].obj].element[stack[ridx].idx] == |heap|)
            && forall k :: 0 <= k < base ==> heap'[k] == heap[k]
  {
    StackLinks(stack, ridx, heap, frames, base);
    var heap' := Create(heap, stack, stack[ridx], cell);
    if ridx > 0 {
      StackObjectsOrdered(stack, ridx, heap, frames, base, ridx - 1, ridx - 1);
    }
    forall k | 0 <= k < ridx
      ensures SlotOk(stack, ridx, heap', frames[k], k)
    {
      SlotStays(stack, ridx, heap, frames, base, cell, k);
    }
  }

  lemma SlotStays(stack: seq<Task>, ridx: nat, heap: Heap, frames: seq<Frame>, base: nat, cell: Cell, k: nat)
    requires StackOk(stack, ridx, heap, frames, base) && k < ridx
    ensures TaskLinked(stack, ridx, heap) && SlotOk(stack, ridx, Create(heap, stack, stack[ridx], cell), frames[k], k)
  {
    StackLinks(stack, ridx, heap, frames, base);
    var heap' := Create(heap, stack, stack[ridx], cell);
    assert SlotOk(stack, ridx, heap, frames[k], k);
    StackObjectsOrdered(stack, ridx, heap, frames, base, k, ridx - 1);
    if k + 1 < ridx {
      StackObjectsOrdered(stack, ridx, heap, frames, base, k + 1, ridx - 1);
    }
    var element := heap[stack[k].obj].element;
    forall j | 0 <= j < |frames[k].done|
      ensures IsTree(heap', element[j], Limit(stack, ridx, heap', k + 1), frames[k].done[j])
    {
      IsTreeFrame(heap, element[j], Limit(stack, ridx, heap, k + 1), frames[k].done[j],
                  heap', Limit(stack, ridx, heap', k + 1));
    }
  }

  /** A leaf, or an empty array, is complete as soon as it is created. */
  lemma CreateCompletes(stack: seq<Task>, ridx: nat, heap: Heap, frames: seq<Frame>, base: nat, cell: Cell, v: Reply)
    requires StackOk(stack, ridx, heap, frames, base)
    requires (cell == Leaf(v) && !v.Array?) || (cell == Vector([]) && v == Array([]))
    ensures TaskLinked(stack, ridx, heap)
    ensures var heap' := Create(heap, stack, stack[ridx], cell);
            StackOk(stack, ridx, heap', frames, base) && ItemDone(stack, ridx, heap', |heap|, v)
  {
    CreateKeepsStack(stack, ridx, heap, frames, base, cell);
    if ridx > 0 {
      StackObjectsOrdered(stack, ridx, heap, frames, base, ridx - 1, ridx - 1);
    }
  }

  /** The last element of the innermost array is complete, and so the array is. */
  lemma CloseArray(stack: seq<Task>, ridx: nat, heap: Heap, frames: seq<Frame>, base: nat, id: int, v: Reply)
    requires StackOk(stack, ridx, heap, frames, base) && ridx > 0
    requires ItemDone(stack, ridx, heap, id, v)
    requires |frames[ridx - 1].done| + 1 == frames[ridx - 1].elements
    ensures StackOk(stack, ridx - 1, heap, frames[..ridx - 1], base)
    ensures ItemDone(stack, ridx - 1, heap, stack[ridx - 1].obj, Array(frames[ridx - 1].done + [v]))
  {
    var f := frames[ridx - 1];
    assert SlotOk(stack, ridx, heap, f, ridx - 1);
    var vs := f.done + [v];
    var element := heap[stack[ridx - 1].obj].element;
    forall j | 0 <= j < |vs|
      ensures IsTree(heap, element[j], |heap|, vs[j])
    {
      if j < |f.done| {
        assert vs[j] == f.done[j];
      }
    }
    assert IsTree(heap, stack[ridx - 1].obj, |heap|, Array(vs));
    StackObjectsOrdered(stack, ridx, heap, frames, base, ridx - 1, ridx - 1);
    forall k | 0 <= k < ridx - 1
      ensures SlotOk(stack, ridx - 1, heap, frames[k], k)
    {
      assert SlotOk(stack, ridx, heap, frames[k], k);
      LimitGrows(stack, ridx, heap, frames, base, k);
    }
    if ridx > 1 {
      assert SlotOk(stack, ridx, heap, frames[ridx - 2], ridx - 2);
    }
  }

  lemma LimitGrows(stack: seq<Task>, ridx: nat, heap: Heap, frames: seq<Frame>, base: nat, k: nat)
    requires StackOk(stack, ridx, heap, frames, base) && k + 1 < ridx
    ensures forall j :: 0 <= j < |frames[k].done| ==>
              && SlotOk(stack, ridx, heap, frames[k], k)
              && IsTree(heap, heap[stack[k].obj].element[j], Limit(stack, ridx - 1, heap, k + 1), frames[k].done[j])
  {
    assert SlotOk(stack, ridx, heap, frames[k], k);
    StackObjectsOrdered(stack, ridx, heap, frames, base, k + 1, k + 1);
    forall j | 0 <= j < |frames[k].done|
      ensures IsTree(heap, heap[stack[k].obj].element[j], Limit(stack, ridx - 1, heap, k + 1), frames[k].done[j])
    {
      IsTreeFrame(heap, heap[stack[k].obj].element[j], Limit(stack, ridx, heap, k + 1), frames[k].done[j],
                  heap, Limit(stack, ridx - 1, heap, k + 1));
    }
  }

  /** An element is complete and more are to come: the slot is reset for the next one. */
  lemma NextElement(stack: seq<Task>, ridx: nat, heap: Heap, frames: seq<Frame>, base: nat, id: int, v: Reply, stack': seq<Task>)
    requires StackOk(stack, ridx, heap, frames, base) && ridx > 0
    requires ItemDone(stack, ridx, heap, id, v)
    requires |frames[ridx - 1].done| + 1 < frames[ridx - 1].elements
    requires stack' == stack[ridx := stack[ridx].(kind := None, elements := -1, idx := stack[ridx].idx + 1)]
    ensures var f := frames[ridx - 1];
            StackOk(stack', ridx, heap, frames[..ridx - 1] + [Frame(f.elements, f.done + [v])], base)
  {
    var f := frames[ridx - 1];
    var frames' := frames[..ridx - 1] + [Frame(f.elements, f.done + [v])];
    assert SlotOk(stack, ridx, heap, f, ridx - 1);
    forall k | 0 <= k < ridx
      ensures SlotOk(stack', ridx, heap, frames'[k], k)
    {
      assert SlotOk(stack, ridx, heap, frames[k], k);
      if k < ridx - 1 {
        assert frames'[k] == frames[k];
        assert Limit(stack', ridx, heap, k + 1) == Limit(stack, ridx, heap, k + 1);
      } else {
        var element := heap[stack[k].obj].element;
        forall j | 0 <= j < |frames'[k].done|
          ensures stack[k].obj < element[j] && IsTree(heap, element[j], |heap|, frames'[k].done[j])
        {
          if j < |f.done| {
            assert frames'[k].done[j] == f.done[j];
          }
        }
      }
    }
  }

  /** A non-empty array begins: it gets a slot of its own for its elements. */
  lemma OpenArray(stack: seq<Task>, ridx: nat, heap: Heap, frames: seq<Frame>, base: nat, n: nat, stack': seq<Task>)
    requires StackOk(stack, ridx, heap, frames, base) && ridx + 1 < SLOTS && 0 < n
    requires stack[ridx].kind == Some(ArrayKind)
    requires stack' == stack[ridx := stack[ridx].(elements := n, obj := |heap|)]
                            [ridx + 1 := Task(None, -1, 0, NULL, ridx)]
    ensures TaskLinked(stack, ridx, heap)
    ensures StackOk(stack', ridx + 1, Create(heap, stack, stack[ridx], Vector(seq(n, _ => NULL))), frames + [Frame(n, [])], base)
  {
    var cell := Vector(seq(n, _ => NULL));
    CreateKeepsStack(stack, ridx, heap, frames, base, cell);
    var heap' := Create(heap, stack, stack[ridx], cell);
    var frames' := frames + [Frame(n, [])];
    if ridx > 0 {
      StackObjectsOrdered(stack, ridx, heap, frames, base, 0, ridx - 1);
    }
    forall k | 0 <= k < ridx + 1
      ensures SlotOk(stack', ridx + 1, heap', frames'[k], k)
    {
      if k < ridx {
        assert frames'[k] == frames[k];
        assert SlotOk(stack, ridx, heap, frames[k], k);
        assert SlotOk(stack, ridx, heap', frames[k], k);
        StackObjectsOrdered(stack, ridx, heap, frames, base, k, k);
        if k == ridx - 1 {
          forall j | 0 <= j < |frames[k].done|
            ensures IsTree(heap', heap[stack[k].obj].element[j], |heap|, frames[k].done[j])
          {
            OpenKeepsSiblings(stack, ridx, heap, frames, base, heap', j);
          }
        }
      }
    }
  }

  /** The elements that precede a new array end where the array begins. */
  lemma OpenKeepsSiblings(stack: seq<Task>, ridx: nat, heap: Heap, frames: seq<Frame>, base: nat, heap': Heap, j: nat)
    requires StackOk(stack, ridx, heap, frames, base) && ridx > 0 && j < |frames[ridx - 1].done|
    requires |heap| <= |heap'| && forall k :: 0 <= k < |heap| && k != stack[ridx - 1].obj ==> heap'[k] == heap[k]
    ensures SlotOk(stack, ridx, heap, frames[ridx - 1], ridx - 1)
    ensures IsTree(heap', heap[stack[ridx - 1].obj].element[j], |heap|, frames[ridx - 1].done[j])
  {
    assert SlotOk(stack, ridx, heap, frames[ridx - 1], ridx - 1);
    IsTreeFrame(heap, heap[stack[ridx - 1].obj].element[j], |heap|, frames[ridx - 1].done[j], heap', |heap|);
  }
}
