/**
 * The resumable reply reader of hiredis (read.c): bytes arrive in pieces of any
 * size, replies are taken out as they become complete.
 */
module RespReader {
  import opened Bytes
  import opened Numbers
  import opened RespGrammar
  import opened ReplyHeap

  /** From this many consumed bytes on, the front of the buffer is discarded. */
  const DISCARD_AT := 1024

  lemma {:induction false} NewlineSkip(s: seq<Byte>, k: nat)
    requires k <= |s|
    requires forall j :: 0 <= j < k && j + 1 < |s| ==> !(s[j] == CR && s[j + 1] == LF)
    ensures Newline(s) == match Newline(s[k..]) case None => None case Some(n) => Some(n + k)
  {
    if k == 0 {
      assert s[0..] == s;
    } else if |s| >= 2 {
      NewlineSkip(s[1..], k - 1);
      assert s[1..][k - 1..] == s[k..];
    }
  }

  /** seekNewline: the offset of the first CR LF, or None. */
  method SeekNewline(s: seq<Byte>) returns (r: Option<nat>)
    ensures r == Newline(s)
  {
    var pos := 0;
    var len := |s| - 1;
    while pos < len
      invariant 0 <= pos && pos <= |s|
      invariant forall j :: 0 <= j < pos && j + 1 < |s| ==> !(s[j] == CR && s[j + 1] == LF)
    {
      while pos < len && s[pos] != CR
        invariant 0 <= pos <= len
        invariant forall j :: 0 <= j < pos && j + 1 < |s| ==> !(s[j] == CR && s[j + 1] == LF)
      {
        pos := pos + 1;
      }
      if pos == len {
        NewlineSkip(s, pos);
        return None;
      } else if s[pos + 1] == LF {
        NewlineSkip(s, pos);
        assert s[pos..][0] == CR && s[pos..][1] == LF;
        return Some(pos);
      } else {
        pos := pos + 1;
      }
    }
    NewlineSkip(s, pos);
    return None;
  }

  class Reader {
    var err: Option<ProtocolError>
    var buf: seq<Byte>
    var pos: nat
    const rstack: array<Task>
    var ridx: int
    var reply: int
    var heap: Heap

    /** Every byte accepted so far, and the replies emitted for them. */
    ghost var fed: seq<Byte>
    ghost var out: seq<Reply>
    ghost var outIds: seq<int>
    /** What the task stack stands for. */
    ghost var at: Progress
    /** Cells below this mark belong to replies already emitted. */
    ghost var base: nat

    ghost function Rest(): seq<Byte>
      reads this
      requires pos <= |buf|
    {
      buf[pos..]
    }

    /** Replies handed out stay what they were. */
    ghost predicate Emitted()
      reads this
    {
      && |out| == |outIds| && base <= |heap|
      && forall i :: 0 <= i < |out| ==> IsTree(heap, outIds[i], base, out[i])
    }

    /** The stack, its objects and the root pointer agree with `at`. */
    ghost predicate Positioned()
      reads this, rstack
    {
      match at
      case Idle => ridx == -1 && reply == NULL
      case Busy(frames, kind) =>
        && 0 <= ridx < SLOTS == rstack.Length && FramesOpen(frames)
        && ridx == |frames| && StackOk(rstack[..], ridx, heap, frames, base)
        && rstack[ridx].kind == kind
        && reply == (if ridx == 0 then NULL else rstack[0].obj)
      case Ready(v) => ridx == -1 && IsTree(heap, reply, |heap|, v)
    }

    ghost predicate Live()
      reads this, rstack
    {
      && pos <= |buf| && rstack.Length == SLOTS
      && err == None && Emitted() && Positioned()
      && Tracks(fed, out, at, Rest())
    }

    ghost predicate Dead()
      reads this, rstack
    {
      && rstack.Length == SLOTS
      && err.Some? && buf == [] && pos == 0 && ridx == -1 && reply == NULL && at == Idle
      && Emitted()
      && forall t: seq<Byte> :: ParseAll(fed + t) == Outcome(out, err)
    }

    /** The state between calls; an array nested too deep is reported at once, never kept waiting. */
    ghost predicate Valid()
      reads this, rstack
    {
      || (Live() && !at.Ready? && (at.Busy? && at.kind == Some(ArrayKind) ==> ridx < MAX_DEPTH))
      || Dead()
    }

    constructor ()
      ensures Valid() && err == None && fed == [] && out == [] && outIds == []
      ensures ParseAll(fed) == Outcome(out, err)
      ensures fresh(rstack)
    {
      err, buf, pos, ridx, reply, heap := None, [], 0, -1, NULL, [];
      rstack := new Task[SLOTS](_ => Task(None, -1, -1, NULL, NULL));
      fed, out, outIds, at, base := [], [], [], Idle, 0;
      new;
      forall t: seq<Byte>
        ensures ParseAll(fed + t) == Prepend(out, Continue(at, Rest() + t))
      {
        assert fed + t == t && Rest() + t == t;
      }
    }

    /** __redisReaderSetError */
    method SetError(e: ProtocolError)
      requires Live() && DoomedFuture(at, Rest(), e)
      modifies this
      ensures Dead() && err == Some(e) && fed == old(fed) && out == old(out) && outIds == old(outIds)
    {
      forall t: seq<Byte>
        ensures ParseAll(fed + t) == Outcome(out, Some(e))
      {
        TracksDoomed(fed, out, at, Rest(), e, t);
      }
      reply := NULL;
      buf, pos := [], 0;
      ridx := -1;
      err := Some(e);
      at := Idle;
    }

    /** Closes every array that the item just completed fills, and prepares the slot of the next item. */
    method MoveToNextTask(ghost frames: seq<Frame>, ghost v: Reply, ghost id: int) returns (ghost at': Progress, ghost root: int)
      requires 0 <= ridx < SLOTS == rstack.Length && FramesOpen(frames)
      requires StackOk(rstack[..], ridx, heap, frames, base)
      requires ItemDone(rstack[..], ridx, heap, id, v)
      modifies this`ridx, rstack
      ensures at' == Deliver(frames, v) && (at'.Busy? || at'.Ready?)
      ensures root == if old(ridx) == 0 then id else old(rstack[0].obj)
      ensures at'.Ready? ==> ridx == -1 && IsTree(heap, root, |heap|, at'.reply)
      ensures at'.Busy? ==>
                && 0 < ridx < SLOTS && at'.kind == None && FramesOpen(at'.frames)
                && StackOk(rstack[..], ridx, heap, at'.frames, base)
                && rstack[ridx].kind == None && rstack[0].obj == root
    {
      ghost var fs, w, obj := frames, v, id;
      root := if ridx == 0 then id else rstack[0].obj;
      while ridx >= 0
        invariant 0 <= ridx < SLOTS && rstack[..] == old(rstack[..]) && FramesOpen(fs)
        invariant StackOk(rstack[..], ridx, heap, fs, base)
        invariant ItemDone(rstack[..], ridx, heap, obj, w)
        invariant Deliver(fs, w) == Deliver(frames, v)
        invariant root == if ridx == 0 then obj else rstack[0].obj
        decreases ridx
      {
        if ridx == 0 {
          ridx := -1;
          at' := Ready(w);
          return;
        }
        var cur, prv := rstack[ridx], rstack[ridx - 1];
        ghost var f := fs[ridx - 1];
        assert SlotOk(rstack[..], ridx, heap, f, ridx - 1);
        assert prv.kind == Some(ArrayKind);
        if cur.idx == prv.elements - 1 {
          CloseArray(rstack[..], ridx, heap, fs, base, obj, w);
          fs, w, obj := fs[..ridx - 1], Array(f.done + [w]), prv.obj;
          ridx := ridx - 1;
        } else {
          assert cur.idx < prv.elements;
          ghost var before := rstack[..];
          rstack[ridx] := cur.(kind := None, elements := -1, idx := cur.idx + 1);
          NextElement(before, ridx, heap, fs, base, obj, w, rstack[..]);
          at' := Busy(fs[..ridx - 1] + [Frame(f.elements, f.done + [w])], None);
          return;
        }
      }
      at' := Idle;
    }

    /** Creates the object of a complete item, links it, and moves on. */
    method Complete(ghost frames: seq<Frame>, v: Reply, cell: Cell)
      requires 0 <= ridx < SLOTS == rstack.Length && FramesOpen(frames)
      requires StackOk(rstack[..], ridx, heap, frames, base)
      requires reply == (if ridx == 0 then NULL else rstack[0].obj)
      requires (cell == Leaf(v) && !v.Array?) || (cell == Vector([]) && v == Array([]))
      requires Emitted()
      modifies this`heap, this`reply, this`ridx, this`at, rstack
      ensures Emitted() && at == Deliver(frames, v) && !at.Idle? && Positioned()
    {
      var obj := |heap|;
      CreateCompletes(rstack[..], ridx, heap, frames, base, cell, v);
      CreateKeepsStack(rstack[..], ridx, heap, frames, base, cell);
      ghost var was := heap;
      heap := Create(heap, rstack[..], rstack[ridx], cell);
      StillEmitted(was);
      if ridx == 0 { reply := obj; }
      ghost var at', root := MoveToNextTask(frames, v, obj);
      at := at';
    }

    lemma StillEmitted(was: Heap)
      requires |out| == |outIds| && base <= |was| <= |heap|
      requires forall i :: 0 <= i < |out| ==> IsTree(was, outIds[i], base, out[i])
      requires forall k :: 0 <= k < base ==> heap[k] == was[k]
      ensures Emitted()
    {
      forall i | 0 <= i < |out|
        ensures IsTree(heap, outIds[i], base, out[i])
      {
        IsTreeFrame(was, outIds[i], base, out[i], heap, base);
      }
    }

    /**
     * How one step on the current item may end: the item was taken, the stream
     * is in error, or more bytes are needed and nothing changed.
     */
    twostate predicate Stepped(ok: bool)
      reads this, rstack
      requires old(pos) <= old(|buf|)
    {
      && fed == old(fed) && out == old(out) && outIds == old(outIds)
      && (ok ==> Live() && !at.Idle? && |Rest()| < |old(Rest())|)
      && (!ok && err == None ==>
            && Live() && at.Busy? && Continue(at, Rest()) == Outcome([], None)
            && (at.kind == Some(ArrayKind) ==> ridx < MAX_DEPTH))
      && (err.Some? ==> !ok && Dead())
    }

    method ProcessLineItem() returns (ok: bool)
      requires Live() && at.Busy? && at.kind.Some? && at.kind.value in {StatusKind, ErrorKind, IntegerKind}
      modifies this, rstack
      ensures Stepped(ok)
    {
      ghost var frames, kind, s := at.frames, at.kind.value, Rest();
      HeadStep(frames, kind, s);
      var cur := rstack[ridx];
      var nl := SeekNewline(buf[pos..]);
      if nl == None {
        return false;
      }
      var line := buf[pos..][..nl.value];
      assert buf[pos + nl.value + 2..] == s[nl.value + 2..];
      var obj: Reply;
      if cur.kind == Some(IntegerKind) {
        var v := String2ll(line);
        if v == None {
          SetError(BadInteger);
          return false;
        }
        obj := Integer(v.value);
      } else {
        obj := if cur.kind == Some(StatusKind) then Status(line) else Error(line);
      }
      pos := pos + nl.value + 2;
      assert HeadOf(kind, |frames|, s) == Whole(obj, Rest());
      Take(frames, kind, s, obj, Leaf(obj));
      return true;
    }

    /** The item is complete and the cursor is behind it. */
    method Take(ghost frames: seq<Frame>, ghost kind: Kind, ghost s: seq<Byte>, v: Reply, cell: Cell)
      requires pos <= |buf| && rstack.Length == SLOTS && err == None && Emitted() && Positioned()
      requires at == Busy(frames, Some(kind)) && Tracks(fed, out, at, s)
      requires SameFuture(at, s, Deliver(frames, v), Rest())
      requires (cell == Leaf(v) && !v.Array?) || (cell == Vector([]) && v == Array([]))
      modifies this`heap, this`reply, this`ridx, this`at, rstack
      ensures Live() && !at.Idle?
    {
      TracksStep(fed, out, at, s, Deliver(frames, v), Rest());
      Complete(frames, v, cell);
    }

    method ProcessBulkItem() returns (ok: bool)
      requires Live() && at.Busy? && at.kind == Some(BulkKind)
      modifies this, rstack
      ensures Stepped(ok)
    {
      hide Int64Of, Tracks, SameFuture, DoomedFuture, Continue, ParseAll, Deliver, StackOk, IsTree;
      ghost var frames, s := at.frames, Rest();
      HeadStep(frames, BulkKind, s);
      var nl := SeekNewline(buf[pos..]);
      if nl.Some? {
        var p := buf[pos..];
        ghost var rest := s[nl.value + 2..];
        var bytelen := nl.value + 2;
        var len := String2ll(p[..bytelen - 2]);
        if len == None {
          SetError(BadBulkLength);
          return false;
        }
        if len.value < -1 {
          SetError(BulkLengthOutOfRange);
          return false;
        }
        var obj: Option<Reply> := None;
        if len.value == -1 {
          obj := Some(Nil);
        } else {
          bytelen := bytelen + len.value + 2;
          if pos + bytelen <= |buf| {
            obj := Some(Bulk(p[nl.value + 2..nl.value + 2 + len.value]));
            assert p[nl.value + 2..nl.value + 2 + len.value] == rest[..len.value];
            assert rest[len.value + 2..] == buf[pos + bytelen..];
          }
        }
        if obj.Some? {
          pos := pos + bytelen;
          assert HeadOf(BulkKind, |frames|, s) == Whole(obj.value, Rest());
          Take(frames, BulkKind, s, obj.value, Leaf(obj.value));
          return true;
        }
      }
      return false;
    }

    method ProcessMultiBulkItem() returns (ok: bool)
      requires Live() && at.Busy? && at.kind == Some(ArrayKind)
      modifies this, rstack
      ensures Stepped(ok)
    {
      hide Int64Of, Tracks, SameFuture, DoomedFuture, Continue, ParseAll, Deliver, StackOk, IsTree;
      ghost var frames, s := at.frames, Rest();
      HeadStep(frames, ArrayKind, s);
      if ridx == 8 {
        SetError(NestedTooDeep);
        return false;
      }
      var nl := SeekNewline(buf[pos..]);
      if nl == None {
        return false;
      }
      var elements := String2ll(buf[pos..][..nl.value]);
      assert buf[pos + nl.value + 2..] == s[nl.value + 2..];
      if elements == None {
        SetError(BadMultiBulkLength);
        return false;
      }
      if elements.value < -1 || elements.value > INT_MAX {
        SetError(MultiBulkLengthOutOfRange);
        return false;
      }
      pos := pos + nl.value + 2;
      if elements.value == -1 {
        Take(frames, ArrayKind, s, Nil, Leaf(Nil));
      } else if elements.value == 0 {
        Take(frames, ArrayKind, s, Array([]), Vector([]));
      } else {
        TracksStep(fed, out, at, s, Busy(frames + [Frame(elements.value, [])], None), Rest());
        Open(frames, elements.value);
      }
      return true;
    }

    /** createArray, and a fresh slot for the first element. */
    method Open(ghost frames: seq<Frame>, elements: nat)
      requires 0 <= ridx < 8 && rstack.Length == SLOTS && elements > 0 && FramesOpen(frames)
      requires StackOk(rstack[..], ridx, heap, frames, base)
      requires rstack[ridx].kind == Some(ArrayKind)
      requires reply == (if ridx == 0 then NULL else rstack[0].obj)
      requires Emitted()
      modifies this`heap, this`reply, this`ridx, this`at, rstack
      ensures Emitted() && at == Busy(frames + [Frame(elements, [])], None) && Positioned()
    {
      var obj := |heap|;
      var cell := Vector(seq(elements, _ => NULL));
      ghost var before := rstack[..];
      CreateKeepsStack(before, ridx, heap, frames, base, cell);
      ghost var was := heap;
      heap := Create(heap, rstack[..], rstack[ridx], cell);
      StillEmitted(was);
      rstack[ridx] := rstack[ridx].(elements := elements, obj := obj);
      rstack[ridx + 1] := Task(None, -1, 0, NULL, ridx);
      OpenArray(before, ridx, was, frames, base, elements, rstack[..]);
      if ridx == 0 { reply := obj; }
      ridx := ridx + 1;
      at := Busy(frames + [Frame(elements, [])], None);
    }

    method ProcessItem() returns (ok: bool)
      requires Live() && at.Busy?
      modifies this, rstack
      ensures Stepped(ok)
    {
      ghost var frames := at.frames;
      if rstack[ridx].kind == None {
        if |buf| - pos >= 1 {
          var byte := buf[pos];
          TypeByteStep(frames, Rest());
          var kind := KindOf(byte);
          if kind == None {
            SetError(BadTypeByte(byte));
            return false;
          }
          ghost var s := Rest();
          pos := pos + 1;
          assert Rest() == s[1..];
          ghost var before := rstack[..];
          rstack[ridx] := rstack[ridx].(kind := kind);
          SetKind(before, ridx, heap, frames, base, rstack[..]);
          TracksStep(fed, out, at, s, Busy(frames, kind), Rest());
          at := Busy(frames, kind);
        } else {
          return false;
        }
      }
      match rstack[ridx].kind.value
      case BulkKind => ok := ProcessBulkItem();
      case ArrayKind => ok := ProcessMultiBulkItem();
      case _ => ok := ProcessLineItem();
    }

    /** redisReaderFeed */
    method Feed(bytes: seq<Byte>) returns (ok: bool)
      requires Valid()
      modifies this
      ensures Valid() && ok == (old(err) == None) && err == old(err) && out == old(out) && outIds == old(outIds)
      ensures fed == if ok then old(fed) + bytes else old(fed)
    {
      if err.Some? {
        return false;
      }
      if |bytes| >= 1 {
        ghost var s := Rest();
        TracksFeed(fed, out, at, s, bytes);
        buf := buf + bytes;
        assert Rest() == s + bytes;
        fed := fed + bytes;
      } else {
        assert fed + bytes == fed;
      }
      return true;
    }

    /**
     * redisReaderGetReply: the next complete reply if there is one. When there is
     * none, what has been emitted is exactly what the recursive parse of all
     * accepted bytes yields, up to its error if it has one.
     */
    method GetReply() returns (ok: bool, r: int)
      requires Valid()
      modifies this, rstack
      ensures Valid() && fed == old(fed) && |out| == |outIds| && pos <= |buf|
      ensures ok == (err == None)
      ensures r != NULL ==>
                && ok && |out| == |old(out)| + 1 && out[..|old(out)|] == old(out)
                && outIds == old(outIds) + [r]
                && |buf| - pos < old(|buf| - pos)
      ensures r == NULL ==> out == old(out) && outIds == old(outIds) && ParseAll(fed) == Outcome(out, err)
    {
      hide Tracks, SameFuture, DoomedFuture, Continue, Deliver;
      r := NULL;
      assert fed + [] == fed;
      if err.Some? {
        return false, NULL;
      }
      if |buf| == 0 {
        TracksEmpty();
        return true, NULL;
      }
      if ridx == -1 {
        BeginReply();
      }
      while ridx >= 0
        invariant Live() && !at.Idle? && fed == old(fed) && out == old(out) && outIds == old(outIds)
        invariant |buf| - pos <= old(|buf| - pos)
        invariant ridx == -1 ==> |buf| - pos < old(|buf| - pos)
        decreases |buf| - pos, ridx
      {
        var again := ProcessItem();
        if !again {
          break;
        }
      }
      if err.Some? {
        return false, NULL;
      }
      if pos >= DISCARD_AT {
        assert buf[pos..][0..] == buf[pos..];
        buf, pos := buf[pos..], 0;
      }
      if ridx == -1 {
        r := Emit();
      } else {
        TracksBlocked(fed, out, at, Rest());
      }
      return true, r;
    }

    /** Sets up the first item of a new top-level reply. */
    method BeginReply()
      requires Live() && at.Idle?
      modifies this`ridx, this`at, rstack
      ensures Live() && at == Busy([], None)
    {
      rstack[0] := Task(None, -1, -1, NULL, NULL);
      ridx := 0;
      StartReply(Rest());
      TracksStep(fed, out, at, Rest(), Busy([], None), Rest());
      at := Busy([], None);
    }

    /** Hands the finished reply over. */
    method Emit() returns (r: int)
      requires Live() && at.Ready?
      modifies this`reply, this`out, this`outIds, this`base, this`at
      ensures Live() && at == Idle && r != NULL
      ensures out == old(out + [at.reply]) && outIds == old(outIds) + [r]
    {
      TracksEmit(fed, out, at.reply, Rest());
      r := reply;
      forall i | 0 <= i < |out|
        ensures IsTree(heap, outIds[i], |heap|, out[i])
      {
        IsTreeFrame(heap, outIds[i], base, out[i], heap, |heap|);
      }
      out, outIds, base := out + [at.reply], outIds + [r], |heap|;
      reply := NULL;
      at := Idle;
    }

    /** An error is final: no later byte changes what the stream means. */
    lemma ErrorIsFinal(t: seq<Byte>)
      requires Valid() && err.Some?
      ensures ParseAll(fed + t) == Outcome(out, err)
    {
    }

    /** Every pointer handed out so far still denotes the reply it was handed out for. */
    lemma RepliesStand(i: nat)
      requires Valid() && i < |outIds|
      ensures |out| == |outIds| && IsTree(heap, outIds[i], |heap|, out[i])
    {
      IsTreeFrame(heap, outIds[i], base, out[i], heap, |heap|);
    }

    lemma TracksEmpty()
      requires Valid() && err == None && |buf| == 0
      ensures ParseAll(fed) == Outcome(out, None)
    {
      hide Tracks, DoomedFuture, SameFuture, StackOk, Int64Of;
      assert Rest() == [];
      if at.Busy? && at.kind.Some? {
        HeadStep(at.frames, at.kind.value, []);
      }
      TracksBlocked(fed, out, at, []);
    }

    lemma StartReply(s: seq<Byte>)
      ensures SameFuture(Idle, s, Busy([], None), s)
    {
      forall t: seq<Byte>
        ensures Continue(Idle, s + t) == Continue(Busy([], None), s + t)
      {
      }
    }
  }

  lemma SetKind(stack: seq<Task>, ridx: nat, heap: Heap, frames: seq<Frame>, base: nat, stack': seq<Task>)
    requires StackOk(stack, ridx, heap, frames, base)
    requires |stack'| == |stack| && stack' == stack[ridx := stack[ridx].(kind := stack'[ridx].kind)]
    ensures StackOk(stack', ridx, heap, frames, base)
  {
    forall k | 0 <= k < ridx
      ensures SlotOk(stack', ridx, heap, frames[k], k)
    {
      assert SlotOk(stack, ridx, heap, frames[k], k);
      assert Limit(stack', ridx, heap, k + 1) == Limit(stack, ridx, heap, k + 1);
    }
  }

  /**
   * A client that feeds a stream in the given pieces and takes out every reply
   * after each piece. Whatever the pieces are, it gets the replies and the error
   * of one recursive parse of the whole stream.
   */
  method ReadStream(pieces: seq<seq<Byte>>) returns (heap: Heap, replies: seq<int>, err: Option<ProtocolError>)
    ensures var whole := ParseAll(Concat(pieces));
            && err == whole.error
            && |replies| == |whole.replies|
            && forall i :: 0 <= i < |replies| ==> IsTree(heap, replies[i], |heap|, whole.replies[i])
  {
    hide ParseAll, Reader.Valid, IsTree;
    var r := new Reader();
    replies := [];
    ghost var given := [];
    for i := 0 to |pieces|
      invariant r.Valid() && fresh(r) && fresh(r.rstack)
      invariant replies == r.outIds
      invariant given == Concat(pieces[..i])
      invariant r.err == None ==> r.fed == given
      invariant |r.out| == |r.outIds| && ParseAll(given) == Outcome(r.out, r.err)
      invariant r.err.Some? ==> r.fed <= given
    {
      assert pieces[..i + 1] == pieces[..i] + [pieces[i]];
      ConcatAppend(pieces[..i], [pieces[i]]);
      assert Concat([pieces[i]]) == pieces[i] + Concat([]);
      given := given + pieces[i];
      var ok := r.Feed(pieces[i]);
      label Fed:
      var done := !ok;
      while !done
        invariant r.Valid() && fresh(r) && fresh(r.rstack)
        invariant |r.out| == |r.outIds| && (ok ==> r.fed == given)
        invariant !ok ==> done && r.out == old@Fed(r.out) && r.err == old@Fed(r.err) && r.fed == old@Fed(r.fed)
        invariant replies == r.outIds
        invariant ok && done ==> ParseAll(given) == Outcome(r.out, r.err)
        decreases !done, |r.buf| - r.pos
      {
        var good, reply := r.GetReply();
        if reply == NULL {
          done := true;
        } else {
          replies := replies + [reply];
        }
      }
      if !ok {
        assert given == r.fed + given[|r.fed|..];
        r.ErrorIsFinal(given[|r.fed|..]);
      }
    }
    heap, err := r.heap, r.err;
    assert pieces[..|pieces|] == pieces;
    forall i | 0 <= i < |replies|
      ensures IsTree(heap, replies[i], |heap|, r.out[i])
    {
      r.RepliesStand(i);
    }
  }
}
