/**
 * The reply half of the Redis serialization protocol as hiredis reads it
 * (read.c): a recursive-descent parse of a whole input, and the continuation of
 * such a parse from the middle of a nested reply.
 */
module RespGrammar {
  import opened Bytes
  import opened Numbers

  datatype Reply =
    | Status(str: seq<Byte>)
    | Error(str: seq<Byte>)
    | Integer(value: int)
    | Bulk(str: seq<Byte>)
    | Nil
    | Array(elements: seq<Reply>)

  datatype Kind = StatusKind | ErrorKind | IntegerKind | BulkKind | ArrayKind

  datatype ProtocolError =
    | BadTypeByte(byte: Byte)
    | BadInteger
    | BadBulkLength
    | BulkLengthOutOfRange
    | NestedTooDeep
    | BadMultiBulkLength
    | MultiBulkLengthOutOfRange

  /** The depth at which an array is refused: the task stack has nine slots, 0 to 8. */
  const MAX_DEPTH := 8

  function KindOf(b: Byte): Option<Kind> {
    if b == MINUS then Some(ErrorKind)
    else if b == PLUS then Some(StatusKind)
    else if b == COLON then Some(IntegerKind)
    else if b == DOLLAR then Some(BulkKind)
    else if b == STAR then Some(ArrayKind)
    else None
  }

  /** Where the first CR LF of s begins. */
  function Newline(s: seq<Byte>): (r: Option<nat>)
    ensures r.Some? ==> r.value + 2 <= |s|
  {
    if |s| < 2 then None
    else if s[0] == CR && s[1] == LF then Some(0)
    else match Newline(s[1..])
      case None => None
      case Some(n) => Some(n + 1)
  }

  /** What is known about one item once its type byte has been read. */
  datatype Head =
    | Whole(reply: Reply, rest: seq<Byte>)
    | Open(count: nat, rest: seq<Byte>)
    | Short
    | Bad(error: ProtocolError)

  ghost function LineHead(kind: Kind, line: seq<Byte>, rest: seq<Byte>): Head
    requires kind.StatusKind? || kind.ErrorKind? || kind.IntegerKind?
  {
    match kind
    case IntegerKind =>
      (match Int64Of(line)
       case None => Bad(BadInteger)
       case Some(v) => Whole(Integer(v), rest))
    case StatusKind => Whole(Status(line), rest)
    case _ => Whole(Error(line), rest)
  }

  ghost function BulkHead(line: seq<Byte>, rest: seq<Byte>): Head {
    match Int64Of(line)
    case None => Bad(BadBulkLength)
    case Some(len) =>
      if len < -1 then Bad(BulkLengthOutOfRange)
      else if len == -1 then Whole(Nil, rest)
      else if len + 2 <= |rest| then Whole(Bulk(rest[..len]), rest[len + 2..])
      else Short
  }

  ghost function ArrayHead(line: seq<Byte>, rest: seq<Byte>): Head {
    match Int64Of(line)
    case None => Bad(BadMultiBulkLength)
    case Some(n) =>
      if n < -1 || n > INT_MAX then Bad(MultiBulkLengthOutOfRange)
      else if n == -1 then Whole(Nil, rest)
      else if n == 0 then Whole(Array([]), rest)
      else Open(n, rest)
  }

  /** s is the input after the type byte. */
  ghost function HeadOf(kind: Kind, depth: nat, s: seq<Byte>): (h: Head)
    ensures h.Whole? || h.Open? ==> |h.rest| < |s|
    ensures h.Open? ==> 0 < h.count && kind == ArrayKind && depth < MAX_DEPTH
  {
    if kind == ArrayKind && depth >= MAX_DEPTH then Bad(NestedTooDeep)
    else match Newline(s)
      case None => Short
      case Some(e) =>
        var line, rest := s[..e], s[e + 2..];
        match kind
        case BulkKind => BulkHead(line, rest)
        case ArrayKind => ArrayHead(line, rest)
        case _ => LineHead(kind, line, rest)
  }

  datatype Parse<+T> =
    | Done(value: T, rest: seq<Byte>)
    | Incomplete
    | Failed(error: ProtocolError)

  /** One reply, at nesting depth `depth`. */
  ghost function ParseItem(s: seq<Byte>, depth: nat): (p: Parse<Reply>)
    ensures p.Done? ==> |p.rest| < |s|
    decreases |s|, 1
  {
    if s == [] then Incomplete
    else match KindOf(s[0])
      case None => Failed(BadTypeByte(s[0]))
      case Some(kind) => ParseBody(s[1..], kind, depth)
  }

  ghost function ParseBody(s: seq<Byte>, kind: Kind, depth: nat): (p: Parse<Reply>)
    ensures p.Done? ==> |p.rest| < |s|
    decreases |s|, 0
  {
    match HeadOf(kind, depth, s)
    case Whole(v, rest) => Done(v, rest)
    case Short => Incomplete
    case Bad(e) => Failed(e)
    case Open(n, rest) =>
      match ParseItems(rest, n, depth + 1)
      case Done(vs, rest') => Done(Array(vs), rest')
      case Incomplete => Incomplete
      case Failed(e) => Failed(e)
  }

  /** n replies in a row. */
  ghost function ParseItems(s: seq<Byte>, n: nat, depth: nat): (p: Parse<seq<Reply>>)
    ensures p.Done? ==> |p.rest| <= |s|
    decreases |s|, 2, n
  {
    if n == 0 then Done([], s)
    else match ParseItem(s, depth)
      case Incomplete => Incomplete
      case Failed(e) => Failed(e)
      case Done(v, rest) =>
        match ParseItems(rest, n - 1, depth)
        case Incomplete => Incomplete
        case Failed(e) => Failed(e)
        case Done(vs, rest') => Done([v] + vs, rest')
  }

  /** The replies of a stream, and the error that ended it, if one did. */
  datatype Outcome = Outcome(replies: seq<Reply>, error: Option<ProtocolError>)

  function Prepend(vs: seq<Reply>, o: Outcome): Outcome {
    Outcome(vs + o.replies, o.error)
  }

  ghost function ParseAll(s: seq<Byte>): Outcome
    decreases |s|
  {
    match ParseItem(s, 0)
    case Incomplete => Outcome([], None)
    case Failed(e) => Outcome([], Some(e))
    case Done(v, rest) => Prepend([v], ParseAll(rest))
  }

  // ---------------------------------------------------------------------
  // A decided parse does not depend on what follows it.

  lemma {:induction false} NewlineExtends(s: seq<Byte>, t: seq<Byte>)
    ensures Newline(s).Some? ==> Newline(s + t) == Newline(s)
  {
    if |s| >= 2 && !(s[0] == CR && s[1] == LF) {
      NewlineExtends(s[1..], t);
      assert (s + t)[1..] == s[1..] + t;
    }
  }

  ghost predicate HeadExtends(h: Head, h': Head, t: seq<Byte>) {
    match h
    case Whole(v, rest) => h' == Whole(v, rest + t)
    case Open(n, rest) => h' == Open(n, rest + t)
    case Bad(e) => h' == h
    case Short => true
  }

  lemma BulkHeadExtends(line: seq<Byte>, rest: seq<Byte>, t: seq<Byte>)
    ensures HeadExtends(BulkHead(line, rest), BulkHead(line, rest + t), t)
  {
    var v := Int64Of(line);
    if v.Some? && 0 <= v.value && v.value + 2 <= |rest| {
      assert (rest + t)[..v.value] == rest[..v.value];
      assert (rest + t)[v.value + 2..] == rest[v.value + 2..] + t;
    }
  }

  lemma HeadOfExtends(kind: Kind, depth: nat, s: seq<Byte>, t: seq<Byte>)
    ensures HeadExtends(HeadOf(kind, depth, s), HeadOf(kind, depth, s + t), t)
  {
    NewlineExtends(s, t);
    if Newline(s).Some? {
      var e := Newline(s).value;
      assert (s + t)[..e] == s[..e];
      assert (s + t)[e + 2..] == s[e + 2..] + t;
      BulkHeadExtends(s[..e], s[e + 2..], t);
    }
  }

  ghost predicate Extends<T>(p: Parse<T>, p': Parse<T>, t: seq<Byte>) {
    match p
    case Done(v, rest) => p' == Done(v, rest + t)
    case Failed(e) => p' == p
    case Incomplete => true
  }

  lemma {:induction false} ItemExtends(s: seq<Byte>, depth: nat, t: seq<Byte>)
    ensures Extends(ParseItem(s, depth), ParseItem(s + t, depth), t)
    decreases |s|, 1
  {
    if s != [] {
      assert (s + t)[0] == s[0] && (s + t)[1..] == s[1..] + t;
      match KindOf(s[0])
      case None =>
      case Some(kind) => BodyExtends(s[1..], kind, depth, t);
    }
  }

  lemma {:induction false} BodyExtends(s: seq<Byte>, kind: Kind, depth: nat, t: seq<Byte>)
    ensures Extends(ParseBody(s, kind, depth), ParseBody(s + t, kind, depth), t)
    decreases |s|, 0
  {
    HeadOfExtends(kind, depth, s, t);
    match HeadOf(kind, depth, s)
    case Open(n, rest) => ItemsExtend(rest, n, depth + 1, t);
    case _ =>
  }

  lemma {:induction false} ItemsExtend(s: seq<Byte>, n: nat, depth: nat, t: seq<Byte>)
    ensures Extends(ParseItems(s, n, depth), ParseItems(s + t, n, depth), t)
    decreases |s|, 2, n
  {
    if n > 0 {
      ItemExtends(s, depth, t);
      match ParseItem(s, depth)
      case Done(v, rest) => ItemsExtend(rest, n - 1, depth, t);
      case _ =>
    }
  }

  // ---------------------------------------------------------------------
  // Continuing from the middle of a nested reply.

  /** An array being read: how many elements it will have, and those that are complete. */
  datatype Frame = Frame(elements: nat, done: seq<Reply>)

  /** Where a resumable reader stands; the innermost frame is the last one. */
  datatype Progress =
    | Idle
    | Busy(frames: seq<Frame>, kind: Option<Kind>)
    | Ready(reply: Reply)

  /** The parse of the top-level reply once the current item is known to be v. */
  ghost function Return(frames: seq<Frame>, v: Reply, s: seq<Byte>): (p: Parse<Reply>)
    decreases |frames|
  {
    if frames == [] then Done(v, s)
    else
      var f := frames[|frames| - 1];
      var missing := f.elements - |f.done| - 1;
      if missing < 0 then Incomplete
      else match ParseItems(s, missing, |frames|)
        case Incomplete => Incomplete
        case Failed(e) => Failed(e)
        case Done(vs, rest) => Return(frames[..|frames| - 1], Array(f.done + [v] + vs), rest)
  }

  ghost function AfterItem(frames: seq<Frame>, p: Parse<Reply>): Parse<Reply> {
    match p
    case Done(v, rest) => Return(frames, v, rest)
    case _ => p
  }

  ghost function Resume(frames: seq<Frame>, kind: Option<Kind>, s: seq<Byte>): Parse<Reply> {
    AfterItem(frames,
              match kind
              case None => ParseItem(s, |frames|)
              case Some(k) => ParseBody(s, k, |frames|))
  }

  ghost function AfterReply(p: Parse<Reply>): Outcome {
    match p
    case Incomplete => Outcome([], None)
    case Failed(e) => Outcome([], Some(e))
    case Done(v, rest) => Prepend([v], ParseAll(rest))
  }

  /** All that is still to come out of a reader that stands at `at` with s ahead of it. */
  ghost function Continue(at: Progress, s: seq<Byte>): Outcome {
    match at
    case Idle => ParseAll(s)
    case Busy(frames, kind) => AfterReply(Resume(frames, kind, s))
    case Ready(v) => Prepend([v], ParseAll(s))
  }

  /** The item at the bottom of `frames` is complete: close every array that it fills. */
  ghost function Deliver(frames: seq<Frame>, v: Reply): Progress
    decreases |frames|
  {
    if frames == [] then Ready(v)
    else
      var f := frames[|frames| - 1];
      var outer := frames[..|frames| - 1];
      if |f.done| + 1 == f.elements then Deliver(outer, Array(f.done + [v]))
      else Busy(outer + [Frame(f.elements, f.done + [v])], None)
  }

  /** Closing arrays one by one comes to what the recursive parse does. */
  lemma {:induction false} DeliverIsReturn(frames: seq<Frame>, v: Reply, s: seq<Byte>)
    requires forall k :: 0 <= k < |frames| ==> |frames[k].done| < frames[k].elements
    ensures Continue(Deliver(frames, v), s) == AfterReply(Return(frames, v, s))
    decreases |frames|
  {
    if frames != [] {
      var f := frames[|frames| - 1];
      var outer := frames[..|frames| - 1];
      if |f.done| + 1 == f.elements {
        assert f.done + [v] + [] == f.done + [v];
        DeliverIsReturn(outer, Array(f.done + [v]), s);
      } else {
        var inner := outer + [Frame(f.elements, f.done + [v])];
        assert inner[..|inner| - 1] == outer;
        var first := ParseItem(s, |frames|);
        if first.Done? {
          var others := ParseItems(first.rest, f.elements - |f.done| - 2, |frames|);
          if others.Done? {
            assert f.done + [v] + [first.value] + others.value == f.done + [v] + ([first.value] + others.value);
          }
        }
      }
    }
  }

  /** The first element of an array that has just been opened. */
  lemma ReturnFirst(frames: seq<Frame>, n: nat, v: Reply, s: seq<Byte>)
    requires n > 0
    ensures Return(frames + [Frame(n, [])], v, s) ==
              match ParseItems(s, n - 1, |frames| + 1)
              case Incomplete => Incomplete
              case Failed(e) => Failed(e)
              case Done(vs, rest) => Return(frames, Array([v] + vs), rest)
  {
    hide ParseItems;
    var inner := frames + [Frame(n, [])];
    assert inner[..|inner| - 1] == frames && inner[|inner| - 1] == Frame(n, []);
    assert [] + [v] == [v];
  }

  /** Opening an array and reading its elements one by one. */
  lemma OpenIsBody(frames: seq<Frame>, s: seq<Byte>)
    requires HeadOf(ArrayKind, |frames|, s).Open?
    ensures var h := HeadOf(ArrayKind, |frames|, s);
            Resume(frames + [Frame(h.count, [])], None, h.rest) == Resume(frames, Some(ArrayKind), s)
  {
    var h := HeadOf(ArrayKind, |frames|, s);
    var depth := |frames| + 1;
    var first := ParseItem(h.rest, depth);
    if first.Done? {
      ReturnFirst(frames, h.count, first.value, first.rest);
    }
    hide HeadOf, ParseItem, Return;
    assert ParseItems(h.rest, h.count, depth) ==
      match first
      case Incomplete => Incomplete
      case Failed(e) => Failed(e)
      case Done(v, rest) =>
        match ParseItems(rest, h.count - 1, depth)
        case Incomplete => Incomplete
        case Failed(e) => Failed(e)
        case Done(vs, rest') => Done([v] + vs, rest');
    hide ParseItems;
  }

  // ---------------------------------------------------------------------
  // One step of the reader, whatever bytes arrive later.

  /** The reader may move from (at, s) to (at', s'): the same things are still to come. */
  ghost predicate SameFuture(at: Progress, s: seq<Byte>, at': Progress, s': seq<Byte>) {
    forall t: seq<Byte> :: Continue(at, s + t) == Continue(at', s' + t)
  }

  /** The stream is in error, whatever bytes arrive later. */
  ghost predicate DoomedFuture(at: Progress, s: seq<Byte>, e: ProtocolError) {
    forall t: seq<Byte> :: Continue(at, s + t) == Outcome([], Some(e))
  }

  ghost predicate FramesOpen(frames: seq<Frame>) {
    forall k :: 0 <= k < |frames| ==> |frames[k].done| < frames[k].elements
  }

  /** What reading `h` at the head of s makes of the future. */
  ghost predicate HeadTaken(frames: seq<Frame>, kind: Kind, s: seq<Byte>, h: Head) {
    match h
    case Whole(v, rest) => SameFuture(Busy(frames, Some(kind)), s, Deliver(frames, v), rest)
    case Open(n, rest) => SameFuture(Busy(frames, Some(kind)), s, Busy(frames + [Frame(n, [])], None), rest)
    case Bad(e) => DoomedFuture(Busy(frames, Some(kind)), s, e)
    case Short => Continue(Busy(frames, Some(kind)), s) == Outcome([], None)
  }

  /** Reading the type byte. */
  lemma TypeByteStep(frames: seq<Frame>, s: seq<Byte>)
    requires s != []
    ensures var kind := KindOf(s[0]);
            if kind.Some? then SameFuture(Busy(frames, None), s, Busy(frames, kind), s[1..])
            else DoomedFuture(Busy(frames, None), s, BadTypeByte(s[0]))
  {
    forall t: seq<Byte>
      ensures Resume(frames, None, s + t)
           == if KindOf(s[0]).Some? then Resume(frames, KindOf(s[0]), s[1..] + t) else Failed(BadTypeByte(s[0]))
    {
      assert (s + t)[0] == s[0] && (s + t)[1..] == s[1..] + t;
    }
  }

  /** Reading the rest of an item, or the header of an array. */
  lemma HeadStep(frames: seq<Frame>, kind: Kind, s: seq<Byte>)
    requires FramesOpen(frames)
    ensures HeadTaken(frames, kind, s, HeadOf(kind, |frames|, s))
  {
    var h := HeadOf(kind, |frames|, s);
    var here := Busy(frames, Some(kind));
    forall t: seq<Byte>
      ensures h.Whole? ==> Continue(here, s + t) == Continue(Deliver(frames, h.reply), h.rest + t)
      ensures h.Open? ==> Continue(here, s + t) == Continue(Busy(frames + [Frame(h.count, [])], None), h.rest + t)
      ensures h.Bad? ==> Continue(here, s + t) == Outcome([], Some(h.error))
    {
      HeadOfExtends(kind, |frames|, s, t);
      if h.Whole? {
        DeliverIsReturn(frames, h.reply, h.rest + t);
      } else if h.Open? {
        OpenIsBody(frames, s + t);
      }
    }
  }

  /**
   * What a reader that has been given `fed`, has emitted `out` and stands at `at`
   * with `rest` unread owes to the recursive parse: nothing was lost, added or
   * reordered, whatever arrives later.
   */
  ghost predicate Tracks(fed: seq<Byte>, out: seq<Reply>, at: Progress, rest: seq<Byte>) {
    forall t: seq<Byte> :: ParseAll(fed + t) == Prepend(out, Continue(at, rest + t))
  }

  lemma TracksStep(fed: seq<Byte>, out: seq<Reply>, at: Progress, rest: seq<Byte>, at': Progress, rest': seq<Byte>)
    requires Tracks(fed, out, at, rest) && SameFuture(at, rest, at', rest')
    ensures Tracks(fed, out, at', rest')
  {
    forall t: seq<Byte>
      ensures ParseAll(fed + t) == Prepend(out, Continue(at', rest' + t))
    {
      assert Continue(at, rest + t) == Continue(at', rest' + t);
    }
  }

  lemma TracksFeed(fed: seq<Byte>, out: seq<Reply>, at: Progress, rest: seq<Byte>, more: seq<Byte>)
    requires Tracks(fed, out, at, rest)
    ensures Tracks(fed + more, out, at, rest + more)
  {
    hide ParseAll, Continue;
    forall t: seq<Byte>
      ensures ParseAll(fed + more + t) == Prepend(out, Continue(at, rest + more + t))
    {
      Assoc(fed, more, t);
      Assoc(rest, more, t);
    }
  }

  lemma TracksEmit(fed: seq<Byte>, out: seq<Reply>, v: Reply, rest: seq<Byte>)
    requires Tracks(fed, out, Ready(v), rest)
    ensures Tracks(fed, out + [v], Idle, rest)
  {
    forall t: seq<Byte>
      ensures ParseAll(fed + t) == Prepend(out + [v], Continue(Idle, rest + t))
    {
      var o := ParseAll(rest + t);
      assert out + ([v] + o.replies) == out + [v] + o.replies;
    }
  }

  /** A reader that cannot go on has emitted exactly the replies of what it was given. */
  lemma TracksBlocked(fed: seq<Byte>, out: seq<Reply>, at: Progress, rest: seq<Byte>)
    requires Tracks(fed, out, at, rest) && Continue(at, rest) == Outcome([], None)
    ensures ParseAll(fed) == Outcome(out, None)
  {
    assert fed + [] == fed && rest + [] == rest;
  }

  lemma TracksDoomed(fed: seq<Byte>, out: seq<Reply>, at: Progress, rest: seq<Byte>, e: ProtocolError, more: seq<Byte>)
    requires Tracks(fed, out, at, rest) && DoomedFuture(at, rest, e)
    ensures ParseAll(fed + more) == Outcome(out, Some(e))
  {
    assert Continue(at, rest + more) == Outcome([], Some(e));
  }
}
