/**
 * What an asynchronous context of hiredis (async.c) goes through, as functions on
 * its state: the queue of callbacks that wait for replies, and the flags that
 * decide when commands are refused, when a disconnect happens and when the context
 * is freed. Callbacks may issue commands, disconnect and free the context they are
 * called from.
 */
module AsyncModel {
  import opened Bytes
  import opened RespGrammar

  /** What a callback does to the context that calls it. */
  datatype Action = Issue(cb: Callback) | Disconnect | Free

  /** runs is false for a command without a callback function. */
  datatype Callback = Callback(privdata: int, runs: bool, script: seq<Action>)

  /** A callback has been given a reply, or NULL. */
  datatype Delivery = Delivery(cb: Callback, reply: Option<Reply>)

  function CallbacksOf(log: seq<Delivery>): (s: seq<Callback>)
    ensures |s| == |log|
  {
    seq(|log|, i requires 0 <= i < |log| => log[i].cb)
  }

  /** How many callbacks a callback can lead to, itself included. */
  function Weight(cb: Callback): nat {
    1 + ScriptWeight(cb.script)
  }

  function ScriptWeight(script: seq<Action>): nat {
    if script == [] then 0 else ActionWeight(script[0]) + ScriptWeight(script[1..])
  }

  function ActionWeight(action: Action): nat {
    match action
    case Issue(cb) => Weight(cb)
    case _ => 0
  }

  function QueueWeight(queue: seq<Callback>): nat {
    if queue == [] then 0 else Weight(queue[0]) + QueueWeight(queue[1..])
  }

  lemma {:induction false} QueueWeightAppend(queue: seq<Callback>, cb: Callback)
    ensures QueueWeight(queue + [cb]) == QueueWeight(queue) + Weight(cb)
  {
    if queue == [] {
      assert QueueWeight([cb]) == Weight(cb) + QueueWeight([cb][1..]);
    } else {
      assert (queue + [cb])[1..] == queue[1..] + [cb];
      QueueWeightAppend(queue[1..], cb);
    }
  }

  const REDIS_ERR_IO := 1
  const REDIS_ERR_OTHER := 2
  const REDIS_ERR_TIMEOUT := 6

  /** What redisCheckConnectDone finds; a failure comes with a non-zero errno. */
  datatype Connect = Connected | InProgress | Failed

  /** What redisBufferRead and then redisGetReply make of the bytes that have arrived. */
  datatype Input = Unreadable(error: nat) | Read(replies: seq<Reply>, failure: Option<nat>)

  /** What redisBufferWrite comes to. */
  datatype Output = Unwritable(error: nat) | Written(done: bool)

  datatype Event =
    | Call(action: Action)
    | Readable(connect: Connect, input: Input)
    | Writable(connect: Connect, output: Output)
    | TimerFired

  /** Errors carry a number other than zero. */
  predicate Sane(event: Event) {
    match event
    case Readable(_, Unreadable(error)) => error != 0
    case Readable(_, Read(_, Some(error))) => error != 0
    case Writable(_, Unwritable(error)) => error != 0
    case _ => true
  }

  /**
   * The flags and the queue, and the history: the commands that were accepted, the
   * callbacks that were called, the replies they got. crashed says that an assertion
   * of the source has failed, farewell is the status given to the disconnect callback.
   */
  datatype State = State(connected: bool, disconnecting: bool, freeing: bool, noAutoFree: bool, err: nat, unsent: bool,
                         replies: seq<Callback>, accepted: seq<Callback>, log: seq<Delivery>, received: seq<Reply>,
                         freed: bool, crashed: bool, farewell: Option<bool>)
  {
    /** Commands are refused. */
    predicate Closed() {
      disconnecting || freeing
    }

    /** Events still reach the context. */
    predicate Alive() {
      !freed && !crashed
    }
  }

  function Start(noAutoFree: bool): State {
    State(false, false, false, noAutoFree, 0, false, [], [], [], [], false, false, None)
  }

  // ---------------------------------------------------------------------
  // The functions of async.c.

  /** __redisAsyncCommand, for a command that neither subscribes nor monitors. */
  function Asked(s: State, cb: Callback): State {
    if s.Closed() then s else s.(replies := s.replies + [cb], accepted := s.accepted + [cb], unsent := true)
  }

  /** One thing that a callback does; freeing and disconnecting wait until it has returned. */
  function Acted(s: State, action: Action): (t: State)
    ensures QueueWeight(t.replies) <= QueueWeight(s.replies) + ActionWeight(action)
  {
    match action
    case Issue(cb) => QueueWeightAppend(s.replies, cb); Asked(s, cb)
    case Disconnect => s.(disconnecting := true, noAutoFree := false)
    case Free => s.(freeing := true)
  }

  function Played(s: State, script: seq<Action>): (t: State)
    ensures QueueWeight(t.replies) <= QueueWeight(s.replies) + ScriptWeight(script)
    decreases |script|
  {
    if script == [] then s else Played(Acted(s, script[0]), script[1..])
  }

  /** __redisRunCallback: cb, which is off the queue, gets its reply. */
  function Called(s: State, cb: Callback, reply: Option<Reply>): (t: State)
    ensures QueueWeight(t.replies) < QueueWeight(s.replies) + Weight(cb)
  {
    var t := s.(log := s.log + [Delivery(cb, reply)], received := s.received + if reply.Some? then [reply.value] else []);
    if cb.runs then Played(t, cb.script) else t
  }

  /** The first callback gets its reply. */
  function CalledFirst(s: State, reply: Option<Reply>): (t: State)
    requires s.replies != []
    ensures QueueWeight(t.replies) < QueueWeight(s.replies)
  {
    Called(s.(replies := s.replies[1..]), s.replies[0], reply)
  }

  /** Everything that waits gets NULL, also commands that are issued meanwhile. */
  function Drained(s: State): State
    decreases QueueWeight(s.replies)
  {
    if s.replies == [] then s else Drained(CalledFirst(s, None))
  }

  /** __redisAsyncFree */
  function Released(s: State): State {
    var t := Drained(s);
    t.(freed := true, farewell := if t.connected then Some(t.freeing || t.err == 0) else t.farewell)
  }

  /** __redisAsyncDisconnect */
  function Severed(s: State): State {
    var t := if s.err == 0 then s else s.(disconnecting := true);
    if t.noAutoFree then t else Released(t)
  }

  /** redisAsyncFree and redisAsyncDisconnect, outside of callbacks. */
  function FreedNow(s: State): State {
    Released(s.(freeing := true))
  }

  function DisconnectedNow(s: State): State {
    var t := s.(disconnecting := true, noAutoFree := false);
    if s.replies == [] then Severed(t) else t
  }

  /** redisProcessCallbacks on the replies that the reader has ready, after which it has none or fails. */
  function Processed(s: State, rs: seq<Reply>, failure: Option<nat>): State
    decreases |rs|
  {
    if rs == [] then
      if failure.Some? then Severed(s.(err := failure.value))
      else if s.disconnecting && !s.unsent && s.replies == [] then Severed(s)
      else s
    else if s.replies == [] then
      if rs[0].Error? then Severed(s.(err := REDIS_ERR_OTHER)) else s.(crashed := true)
    else
      var t := CalledFirst(s, Some(rs[0]));
      if s.replies[0].runs && t.freeing then Released(t) else Processed(t, rs[1..], failure)
  }

  /** redisAsyncHandleTimeout */
  function TimedOut(s: State): State {
    if s.connected && s.replies == [] then s
    else Severed(Drained(if s.err == 0 then s.(err := REDIS_ERR_TIMEOUT) else s))
  }

  /** __redisAsyncHandleConnect */
  function Tried(s: State, connect: Connect): State {
    if s.connected then s
    else if connect.Failed? then Severed(s.(err := REDIS_ERR_IO))
    else s.(connected := connect.Connected?)
  }

  function GoesOn(s: State, connect: Connect): bool {
    s.connected || connect.Connected?
  }

  /** An error that was there before counts. */
  function Troubled(s: State, error: nat): State {
    Severed(if s.err != 0 then s else s.(err := error))
  }

  /** redisAsyncHandleRead */
  function HandledRead(s: State, connect: Connect, input: Input): State {
    var t := Tried(s, connect);
    if !GoesOn(s, connect) then t
    else if t.err != 0 || input.Unreadable? then Troubled(t, if input.Unreadable? then input.error else 0)
    else Processed(t, input.replies, input.failure)
  }

  /** redisAsyncHandleWrite */
  function HandledWrite(s: State, connect: Connect, output: Output): State {
    var t := Tried(s, connect);
    if !GoesOn(s, connect) then t
    else if t.err != 0 || output.Unwritable? then Troubled(t, if output.Unwritable? then output.error else 0)
    else t.(unsent := t.unsent && !output.done)
  }

  /** One event, outside of any callback. */
  function Handled(s: State, event: Event): State {
    match event
    case Call(Issue(cb)) => Asked(s, cb)
    case Call(Disconnect) => DisconnectedNow(s)
    case Call(Free) => FreedNow(s)
    case Readable(connect, input) => HandledRead(s, connect, input)
    case Writable(connect, output) => HandledWrite(s, connect, output)
    case TimerFired => TimedOut(s)
  }

  /** A run ends when the context has been freed. */
  function Ran(s: State, events: seq<Event>): State
    decreases |events|
  {
    if events == [] || !s.Alive() then s else Ran(Handled(s, events[0]), events[1..])
  }

  // ---------------------------------------------------------------------
  // What one callback does, all at once.

  /** The commands of a script before it disconnects or frees. */
  function Issued(script: seq<Action>): seq<Callback> {
    if script == [] || !script[0].Issue? then [] else [script[0].cb] + Issued(script[1..])
  }

  predicate Quits(cb: Callback) {
    cb.runs && Disconnect in cb.script
  }

  predicate Frees(cb: Callback) {
    cb.runs && Free in cb.script
  }

  /** The commands of cb that are accepted. */
  function Adds(cb: Callback, closed: bool): seq<Callback> {
    if cb.runs && !closed then Issued(cb.script) else []
  }

  /** Commands are accepted, and the flags are set. */
  function Changed(s: State, adds: seq<Callback>, quits: bool, frees: bool): State {
    s.(replies := s.replies + adds, accepted := s.accepted + adds, unsent := s.unsent || adds != [],
       disconnecting := s.disconnecting || quits, freeing := s.freeing || frees, noAutoFree := s.noAutoFree && !quits)
  }

  lemma ChangedTwice(s: State, adds: seq<Callback>, quits: bool, frees: bool, adds': seq<Callback>, quits': bool, frees': bool)
    ensures Changed(Changed(s, adds, quits, frees), adds', quits', frees') == Changed(s, adds + adds', quits || quits', frees || frees')
  {
    assert s.replies + adds + adds' == s.replies + (adds + adds');
    assert s.accepted + adds + adds' == s.accepted + (adds + adds');
  }

  lemma ActedIs(s: State, action: Action)
    ensures Acted(s, action) == Changed(s, if action.Issue? && !s.Closed() then [action.cb] else [], action.Disconnect?, action.Free?)
  {
    assert s.replies + [] == s.replies && s.accepted + [] == s.accepted;
  }

  lemma {:induction false} PlayedIs(s: State, script: seq<Action>)
    ensures Played(s, script) == Changed(s, if s.Closed() then [] else Issued(script), Disconnect in script, Free in script)
    decreases |script|
  {
    if script == [] {
      assert s.replies + [] == s.replies && s.accepted + [] == s.accepted;
    } else {
      var t := Acted(s, script[0]);
      var rest := script[1..];
      PlayedIs(t, rest);
      ActedIs(s, script[0]);
      ScriptFlags(script);
      var adds := if script[0].Issue? && !s.Closed() then [script[0].cb] else [];
      assert t.Closed() == (s.Closed() || !script[0].Issue?);
      hide Acted, Changed;
      ChangedTwice(s, adds, script[0].Disconnect?, script[0].Free?, if t.Closed() then [] else Issued(rest), Disconnect in rest, Free in rest);
    }
  }

  lemma ScriptFlags(script: seq<Action>)
    requires script != []
    ensures Disconnect in script <==> script[0].Disconnect? || Disconnect in script[1..]
    ensures Free in script <==> script[0].Free? || Free in script[1..]
  {
    assert script == [script[0]] + script[1..];
  }

  function Replied(s: State, cb: Callback, reply: Option<Reply>): State {
    s.(log := s.log + [Delivery(cb, reply)], received := s.received + if reply.Some? then [reply.value] else [])
  }

  lemma CalledIs(s: State, cb: Callback, reply: Option<Reply>)
    ensures Called(s, cb, reply) == Changed(Replied(s, cb, reply), Adds(cb, s.Closed()), Quits(cb), Frees(cb))
  {
    hide Issued, Played;
    PlayedIs(Replied(s, cb, reply), cb.script);
    assert s.replies + [] == s.replies && s.accepted + [] == s.accepted;
  }

  // ---------------------------------------------------------------------
  // What every state keeps.

  /** Everything accepted has been called back or waits, in this order; replies come before NULLs. */
  ghost predicate Booked(s: State) {
    Ledger(s.accepted, s.log, s.replies, s.received)
  }

  ghost predicate Ledger(accepted: seq<Callback>, log: seq<Delivery>, replies: seq<Callback>, received: seq<Reply>) {
    && accepted == CallbacksOf(log) + replies
    && |received| <= |log|
    && forall j :: 0 <= j < |log| ==> log[j].reply == if j < |received| then Some(received[j]) else None
  }

  ghost predicate Good(s: State) {
    && Booked(s)
    && (|s.received| < |s.log| ==> s.err != 0 || s.freed)
    && (s.freed || s.crashed ==> s.replies == [])
    && (s.freeing && !s.freed ==> s.noAutoFree && s.err != 0 && s.replies == [])
    && (s.farewell.Some? ==> s.freed)
    && (s.disconnecting && s.err == 0 && !s.freed ==> !s.noAutoFree)
  }

  /** What a callback cannot change. */
  ghost predicate Kept(s: State, t: State) {
    && t.connected == s.connected && t.err == s.err && t.freed == s.freed && t.crashed == s.crashed && t.farewell == s.farewell
    && (s.disconnecting ==> t.disconnecting) && (s.freeing ==> t.freeing) && (t.noAutoFree ==> s.noAutoFree)
    && (t.disconnecting && t.noAutoFree ==> s.disconnecting)
    && s.accepted <= t.accepted && s.log <= t.log
    && (s.Closed() ==> t.accepted == s.accepted)
  }

  lemma FirstIsBooked(s: State, reply: Option<Reply>)
    requires Booked(s) && s.replies != [] && (reply.Some? ==> |s.received| == |s.log|)
    ensures var t := CalledFirst(s, reply);
            && Booked(t) && Kept(s, t) && t.received == s.received + (if reply.Some? then [reply.value] else [])
            && |t.log| == |s.log| + 1 && |t.replies| >= |s.replies| - 1 && (s.Closed() ==> |t.replies| == |s.replies| - 1)
  {
    hide Played, Issued;
    var cb, rest := s.replies[0], s.replies[1..];
    var adds := Adds(cb, s.Closed());
    CalledIs(s.(replies := rest), cb, reply);
    OneMoreCalled(s.log, cb, rest, adds, reply);
  }

  lemma OneMoreCalled(log: seq<Delivery>, cb: Callback, rest: seq<Callback>, adds: seq<Callback>, reply: Option<Reply>)
    ensures CallbacksOf(log + [Delivery(cb, reply)]) == CallbacksOf(log) + [cb]
    ensures CallbacksOf(log) + ([cb] + rest) + adds == CallbacksOf(log) + [cb] + (rest + adds)
  {
  }

  lemma {:induction false} DrainedIsBooked(s: State)
    requires Booked(s)
    ensures var t := Drained(s); Booked(t) && Kept(s, t) && t.received == s.received && t.replies == []
    decreases QueueWeight(s.replies)
  {
    hide Ledger, CalledFirst;
    if s.replies != [] {
      FirstIsBooked(s, None);
      assert s.received + [] == s.received;
      DrainedIsBooked(CalledFirst(s, None));
    }
  }

  lemma ReleasedIsGood(s: State)
    requires Booked(s) && s.Alive() && (s.Closed() || s.replies == [])
    ensures var t := Released(s);
            && Good(t) && t.freed && !t.crashed && t.accepted == s.accepted && t.received == s.received && s.log <= t.log
            && t.err == s.err && t.connected == s.connected
  {
    hide Ledger, CalledFirst;
    DrainedIsBooked(s);
  }

  /** Without an error the queue is empty, as the source asserts. */
  ghost predicate Severable(s: State) {
    && Booked(s) && s.Alive() && s.farewell == None
    && (s.err == 0 ==> s.replies == [])
    && (|s.received| < |s.log| ==> s.err != 0)
    && (s.freeing ==> s.err != 0 && (s.replies == [] || !s.noAutoFree))
    && (s.disconnecting && s.err == 0 ==> !s.noAutoFree)
  }

  lemma SeveredIsGood(s: State)
    requires Severable(s)
    ensures var t := Severed(s);
            && Good(t) && !t.crashed && t.accepted == s.accepted && t.received == s.received && s.log <= t.log
            && t.err == s.err && t.connected == s.connected && (t.freed <==> !s.noAutoFree)
            && (s.noAutoFree ==> t.replies == s.replies && t.log == s.log)
  {
    hide Drained;
    if !s.noAutoFree {
      ReleasedIsGood(if s.err == 0 then s else s.(disconnecting := true));
    }
  }

  predicate Between<T(==)>(low: seq<T>, s: seq<T>, high: seq<T>) {
    low <= s <= high
  }

  /** Replies are given to callbacks in their order, and all of them unless the context ends. */
  ghost predicate Fed(s: State, t: State, now: seq<Reply>) {
    && Good(t) && s.accepted <= t.accepted && s.log <= t.log
    && Between(s.received, t.received, s.received + now)
    && (t.err == 0 && t.Alive() ==> s.err == 0 && t.received == s.received + now)
    && (s.err != 0 ==> t.received == s.received)
  }

  lemma {:induction false} ProcessedIsGood(s: State, rs: seq<Reply>, failure: Option<nat>)
    requires Good(s) && s.Alive() && s.err == 0 && (failure.Some? ==> failure.value != 0)
    ensures var t := Processed(s, rs, failure); Fed(s, t, rs) && t.connected == s.connected
    decreases |rs|
  {
    hide Ledger, CalledFirst, Severed, Released;
    assert s.received + [] == s.received;
    if rs == [] {
      if failure.Some? {
        SeveredIsGood(s.(err := failure.value));
      } else if s.disconnecting && !s.unsent && s.replies == [] {
        SeveredIsGood(s);
      }
    } else if s.replies == [] {
      if rs[0].Error? {
        SeveredIsGood(s.(err := REDIS_ERR_OTHER));
      }
    } else {
      ProcessedFirst(s, rs[0]);
      var t := CalledFirst(s, Some(rs[0]));
      assert s.received + rs == t.received + rs[1..];
      if s.replies[0].runs && t.freeing {
        ReleasedIsGood(t);
      } else {
        ProcessedIsGood(t, rs[1..], failure);
      }
    }
  }

  lemma ProcessedFirst(s: State, reply: Reply)
    requires Good(s) && s.Alive() && s.err == 0 && s.replies != []
    ensures var t := CalledFirst(s, Some(reply));
            && Booked(t) && Kept(s, t) && t.received == s.received + [reply]
            && (t.freeing ==> s.replies[0].runs)
            && (!t.freeing ==> Good(t))
  {
    hide Played, Issued;
    FirstIsBooked(s, Some(reply));
    CalledIs(s.(replies := s.replies[1..]), s.replies[0], Some(reply));
  }

  lemma TimedOutIsGood(s: State)
    requires Good(s) && s.Alive()
    ensures var t := TimedOut(s); Fed(s, t, []) && !t.crashed && t.connected == s.connected
  {
    hide CalledFirst, Severed, Drained;
    assert s.received + [] == s.received;
    if !(s.connected && s.replies == []) {
      var u := if s.err == 0 then s.(err := REDIS_ERR_TIMEOUT) else s;
      DrainedIsBooked(u);
      SeveredIsGood(Drained(u));
    }
  }

  // ---------------------------------------------------------------------
  // Events and runs.

  function NowConnected(event: Event, connected: bool): bool {
    match event
    case Readable(c, _) => connected || c.Connected?
    case Writable(c, _) => connected || c.Connected?
    case _ => connected
  }

  /** The replies that an event makes available. */
  function Arriving(event: Event, connected: bool): seq<Reply> {
    match event
    case Readable(_, Read(replies, _)) => if NowConnected(event, connected) then replies else []
    case _ => []
  }

  /** The replies of a whole run, in the order of the connection. */
  function Arrived(events: seq<Event>, connected: bool): seq<Reply> {
    if events == [] then []
    else Arriving(events[0], connected) + Arrived(events[1..], NowConnected(events[0], connected))
  }

  lemma TriedIsGood(s: State, connect: Connect)
    requires Good(s) && s.Alive()
    ensures var t := Tried(s, connect);
            && Fed(s, t, []) && !t.crashed && t.connected == GoesOn(s, connect)
            && (GoesOn(s, connect) ==> t == s.(connected := true))
  {
    hide Severed;
    assert s.received + [] == s.received;
    if !s.connected && connect.Failed? {
      SeveredIsGood(s.(err := REDIS_ERR_IO));
    }
  }

  lemma TroubledIsGood(s: State, error: nat)
    requires Good(s) && s.Alive() && (s.err == 0 ==> error != 0)
    ensures var t := Troubled(s, error); Good(t) && !t.crashed && t.received == s.received && t.err != 0 && t.connected == s.connected
                                         && s.accepted <= t.accepted && s.log <= t.log
  {
    hide Severed;
    SeveredIsGood(if s.err != 0 then s else s.(err := error));
  }

  lemma HandledIsGood(s: State, event: Event)
    requires Good(s) && s.Alive() && Sane(event)
    ensures var t := Handled(s, event);
            Fed(s, t, Arriving(event, s.connected)) && (t.Alive() ==> t.connected == NowConnected(event, s.connected))
  {
    hide Severed, Released, Processed, Tried, TimedOut, Troubled;
    assert s.received + [] == s.received;
    match event {
      case Call(Issue(cb)) =>
        assert CallbacksOf(s.log) + s.replies + [cb] == CallbacksOf(s.log) + (s.replies + [cb]);
      case Call(Disconnect) =>
        if s.replies == [] {
          SeveredIsGood(s.(disconnecting := true, noAutoFree := false));
        }
      case Call(Free) =>
        ReleasedIsGood(s.(freeing := true));
      case Readable(connect, input) =>
        ReadIsGood(s, connect, input);
      case Writable(connect, output) =>
        WriteIsGood(s, connect, output);
      case TimerFired =>
        TimedOutIsGood(s);
    }
  }

  lemma ReadIsGood(s: State, connect: Connect, input: Input)
    requires Good(s) && s.Alive() && Sane(Readable(connect, input))
    ensures var t := HandledRead(s, connect, input);
            && Fed(s, t, Arriving(Readable(connect, input), s.connected))
            && (t.Alive() ==> t.connected == GoesOn(s, connect))
  {
    hide Severed, Released, Processed, Tried, Troubled;
    TriedIsGood(s, connect);
    assert s.received + [] == s.received;
    var u := Tried(s, connect);
    if GoesOn(s, connect) {
      if u.err != 0 || input.Unreadable? {
        TroubledIsGood(u, if input.Unreadable? then input.error else 0);
      } else {
        ProcessedIsGood(u, input.replies, input.failure);
      }
    }
  }

  lemma WriteIsGood(s: State, connect: Connect, output: Output)
    requires Good(s) && s.Alive() && Sane(Writable(connect, output))
    ensures var t := HandledWrite(s, connect, output);
            Fed(s, t, []) && !t.crashed && (t.Alive() ==> t.connected == GoesOn(s, connect))
  {
    hide Severed, Released, Tried, Troubled;
    TriedIsGood(s, connect);
    assert s.received + [] == s.received;
    var u := Tried(s, connect);
    if GoesOn(s, connect) && (u.err != 0 || output.Unwritable?) {
      TroubledIsGood(u, if output.Unwritable? then output.error else 0);
    }
  }

  /**
   * Any run: the callbacks are called in the order in which their commands were
   * accepted, the first ones with the replies of the connection in their order and the
   * others with NULL. No reply is lost as long as there is no error.
   */
  lemma {:induction false} RunIsGood(s: State, events: seq<Event>)
    requires Good(s) && forall e <- events :: Sane(e)
    ensures var t := Ran(s, events); Good(t) && s.accepted <= t.accepted && s.log <= t.log
    ensures Between(s.received, Ran(s, events).received, s.received + Arrived(events, s.connected))
    ensures var t := Ran(s, events); t.err == 0 && t.Alive() ==> s.err == 0 && t.received == s.received + Arrived(events, s.connected)
    ensures s.err != 0 ==> Ran(s, events).received == s.received
    decreases |events|
  {
    hide Handled, Arriving, NowConnected, Good;
    if events != [] && s.Alive() {
      var t := Handled(s, events[0]);
      var now, later := Arriving(events[0], s.connected), Arrived(events[1..], NowConnected(events[0], s.connected));
      assert events[0] in events && forall e <- events[1..] :: e in events;
      HandledIsGood(s, events[0]);
      RunIsGood(t, events[1..]);
      Continues(s.received, t.received, now, later);
    }
  }

  lemma Continues(before: seq<Reply>, between: seq<Reply>, now: seq<Reply>, later: seq<Reply>)
    requires Between(before, between, before + now)
    ensures before + (now + later) == before + now + later
    ensures between <= before + (now + later)
  {
  }

  // ---------------------------------------------------------------------
  // Which callbacks a drain calls, and when a free is forgotten.

  /** The callbacks that are called when a queue is given up, with the commands that they issue. */
  function CalledBy(queue: seq<Callback>, closed: bool): seq<Callback>
    decreases QueueWeight(queue)
  {
    if queue == [] then []
    else
      var cb, rest := queue[0], queue[1..];
      AddsAreLighter(cb, closed, rest);
      [cb] + CalledBy(rest + Adds(cb, closed), closed || Quits(cb) || Frees(cb))
  }

  lemma AddsAreLighter(cb: Callback, closed: bool, rest: seq<Callback>)
    ensures QueueWeight(rest + Adds(cb, closed)) < QueueWeight(rest) + Weight(cb)
  {
    if cb.runs && !closed {
      IssuedIsLight(cb.script, rest);
    } else {
      assert rest + [] == rest;
    }
  }

  lemma {:induction false} IssuedIsLight(script: seq<Action>, rest: seq<Callback>)
    ensures QueueWeight(rest + Issued(script)) <= QueueWeight(rest) + ScriptWeight(script)
    decreases |script|
  {
    if script == [] || !script[0].Issue? {
      assert rest + [] == rest;
    } else {
      var cb, more := script[0].cb, Issued(script[1..]);
      QueueWeightAppend(rest, cb);
      IssuedIsLight(script[1..], rest + [cb]);
      assert rest + ([cb] + more) == rest + [cb] + more;
    }
  }

  function Nulls(queue: seq<Callback>): (log: seq<Delivery>)
    ensures |log| == |queue|
  {
    seq(|queue|, i requires 0 <= i < |queue| => Delivery(queue[i], None))
  }

  predicate SomeoneQuits(queue: seq<Callback>) {
    exists cb <- queue :: Quits(cb)
  }

  predicate SomeoneFrees(queue: seq<Callback>) {
    exists cb <- queue :: Frees(cb)
  }

  lemma OneMoreNull(log: seq<Delivery>, cb: Callback, later: seq<Callback>)
    ensures log + [Delivery(cb, None)] + Nulls(later) == log + Nulls([cb] + later)
  {
    assert Nulls([cb] + later) == [Delivery(cb, None)] + Nulls(later);
  }

  lemma {:induction false} DrainedCalls(s: State)
    ensures var called := CalledBy(s.replies, s.Closed());
            var t := Drained(s);
            && t.log == s.log + Nulls(called)
            && t.disconnecting == (s.disconnecting || SomeoneQuits(called))
            && t.freeing == (s.freeing || SomeoneFrees(called))
            && t.noAutoFree == (s.noAutoFree && !SomeoneQuits(called))
            && t.replies == [] && t.connected == s.connected && t.err == s.err && t.crashed == s.crashed && t.freed == s.freed
            && t.farewell == s.farewell
    decreases QueueWeight(s.replies)
  {
    hide Issued, Quits, Frees, Called;
    if s.replies == [] {
      assert s.log + [] == s.log;
    } else {
      var cb, rest := s.replies[0], s.replies[1..];
      CalledIs(s.(replies := rest), cb, None);
      var t := CalledFirst(s, None);
      assert t.replies == rest + Adds(cb, s.Closed());
      DrainedCalls(t);
      var later := CalledBy(t.replies, t.Closed());
      OneMoreNull(s.log, cb, later);
      OneMore(cb, later);
    }
  }

  lemma OneMore(cb: Callback, later: seq<Callback>)
    ensures SomeoneQuits([cb] + later) <==> Quits(cb) || SomeoneQuits(later)
    ensures SomeoneFrees([cb] + later) <==> Frees(cb) || SomeoneFrees(later)
  {
    hide Quits, Frees;
    var all := [cb] + later;
    assert all[0] == cb && forall i :: 0 <= i < |later| ==> all[i + 1] == later[i];
    assert cb in all && forall x <- later :: x in all;
  }

  /** Where commands are refused, just those that wait are called. */
  lemma {:induction false} ClosedCallsQueue(queue: seq<Callback>)
    ensures CalledBy(queue, true) == queue
    decreases |queue|
  {
    if queue != [] {
      assert queue[1..] + [] == queue[1..];
      ClosedCallsQueue(queue[1..]);
    }
  }

  /**
   * An error of the connection gives NULL to the callbacks that wait exactly if
   * automatic freeing is on. With it off they stay in the queue, and no command is
   * accepted any more, until the program frees the context: then they get it.
   */
  lemma ErrorCallsUnlessOff(s: State, error: nat)
    requires Good(s) && s.Alive() && (s.err == 0 ==> error != 0)
    ensures var t := Troubled(s, error);
            && (t.freed <==> !s.noAutoFree)
            && (!s.noAutoFree ==> t.log == s.log + Nulls(s.replies))
            && (s.noAutoFree ==> t.log == s.log && t.replies == s.replies && t.Closed() && FreedNow(t).log == s.log + Nulls(s.replies))
            && (t.log == s.log <==> s.noAutoFree || s.replies == [])
  {
    var u := if s.err != 0 then s else s.(err := error);
    var closed := u.(disconnecting := true);
    hide CalledBy, Drained, Ledger;
    ClosedCallsQueue(s.replies);
    DrainedCalls(closed);
    DrainedCalls(closed.(freeing := true));
    assert |(s.log + Nulls(s.replies))| == |s.log| + |s.replies|;
    assert s.replies == [] ==> s.log + Nulls(s.replies) == s.log;
  }

  /** There is something to time out. */
  predicate Overdue(s: State) {
    !s.connected || s.replies != []
  }

  /**
   * A timeout gives NULL to everything that waits, and to what is issued meanwhile. It
   * frees the context exactly if automatic freeing is on, or one of these callbacks
   * disconnects; so a free that one of them asks for is forgotten exactly if automatic
   * freeing is off and none of them disconnects.
   */
  lemma TimeoutFrees(s: State)
    requires Good(s) && s.Alive() && Overdue(s)
    ensures var called := CalledBy(s.replies, s.Closed());
            var t := TimedOut(s);
            && t.log == s.log + Nulls(called) && t.err != 0
            && (t.freed <==> !s.noAutoFree || SomeoneQuits(called))
            && (t.freeing && !t.freed <==> s.noAutoFree && !SomeoneQuits(called) && (s.freeing || SomeoneFrees(called)))
  {
    hide Issued, Quits, Frees, CalledFirst, CalledBy, SomeoneQuits, SomeoneFrees;
    DrainedCalls(if s.err == 0 then s.(err := REDIS_ERR_TIMEOUT) else s);
  }

  /** No callback disconnects, not even one that another callback issues. */
  predicate NeverQuits(cb: Callback) {
    forall action <- cb.script :: action != Disconnect && (action.Issue? ==> NeverQuits(action.cb))
  }

  lemma {:induction false} CalledNeverQuit(queue: seq<Callback>, closed: bool)
    requires forall cb <- queue :: NeverQuits(cb)
    ensures !SomeoneQuits(CalledBy(queue, closed))
    decreases QueueWeight(queue)
  {
    hide NeverQuits;
    if queue != [] {
      var cb, rest := queue[0], queue[1..];
      assert cb in queue;
      AddsNeverQuit(cb, closed);
      AddsAreLighter(cb, closed, rest);
      var adds := Adds(cb, closed);
      assert forall x <- rest + adds :: x in queue || x in adds;
      CalledNeverQuit(rest + adds, closed || Quits(cb) || Frees(cb));
      OneMore(cb, CalledBy(rest + adds, closed || Quits(cb) || Frees(cb)));
    }
  }

  lemma AddsNeverQuit(cb: Callback, closed: bool)
    requires NeverQuits(cb)
    ensures !Quits(cb) && forall x <- Adds(cb, closed) :: NeverQuits(x)
  {
    IssuedNeverQuit(cb.script);
  }

  lemma {:induction false} IssuedNeverQuit(script: seq<Action>)
    requires forall action <- script :: action.Issue? ==> NeverQuits(action.cb)
    ensures forall x <- Issued(script) :: NeverQuits(x)
  {
    if script != [] && script[0].Issue? {
      assert script[0] in script && forall action <- script[1..] :: action in script;
      IssuedNeverQuit(script[1..]);
    }
  }

  /** Where nobody disconnects, the flag as it is before the timeout decides. */
  lemma TimeoutFreesUnlessOff(s: State)
    requires Good(s) && s.Alive() && Overdue(s) && forall cb <- s.replies :: NeverQuits(cb)
    ensures TimedOut(s).freed <==> !s.noAutoFree
  {
    hide NeverQuits, TimedOut, CalledBy;
    TimeoutFrees(s);
    CalledNeverQuit(s.replies, s.Closed());
  }

  /** A run in which redisAsyncFree, called from a callback, is not carried out. */
  lemma FreeIsForgotten(privdata: int)
    ensures var cb := Callback(privdata, true, [Free]);
            var t := Ran(Start(true), [Call(Issue(cb)), TimerFired]);
            t.freeing && t.Alive() && t.log == [Delivery(cb, None)]
  {
    var cb := Callback(privdata, true, [Free]);
    var s := Asked(Start(true), cb);
    assert Good(s);
    OneFree(cb);
    hide CalledBy, SomeoneQuits, SomeoneFrees, TimedOut;
    TimeoutFrees(s);
    assert [] + Nulls([cb]) == [Delivery(cb, None)];
    var events := [Call(Issue(cb)), TimerFired];
    assert events[1..] == [TimerFired];
    assert Ran(s, [TimerFired]) == Ran(TimedOut(s), [TimerFired][1..]);
    TimedOutIsGood(s);
  }

  lemma OneFree(cb: Callback)
    requires cb.runs && cb.script == [Free]
    ensures CalledBy([cb], false) == [cb] && !SomeoneQuits([cb]) && SomeoneFrees([cb])
  {
    assert [cb] == [cb] + [];
    OneMore(cb, []);
    assert [cb][1..] + Adds(cb, false) == [];
    assert CalledBy([cb], false) == [cb] + CalledBy([], true);
  }

  // ---------------------------------------------------------------------
  // When the assertion on spontaneous replies fails.

  /**
   * The queue runs dry: of the replies rs, one that is not an error finds no callback,
   * and none before it has gone to a callback that frees the context.
   */
  predicate RunsDry(queue: seq<Callback>, closed: bool, rs: seq<Reply>)
    decreases |rs|
  {
    && rs != []
    && if queue == [] then !rs[0].Error?
       else !Frees(queue[0]) && RunsDry(queue[1..] + Adds(queue[0], closed), closed || Quits(queue[0]), rs[1..])
  }

  /** The source's assertion fails exactly if the queue runs dry. */
  lemma {:induction false} CrashIsRunningDry(s: State, rs: seq<Reply>, failure: Option<nat>)
    requires Good(s) && s.Alive() && s.err == 0 && (failure.Some? ==> failure.value != 0)
    ensures Processed(s, rs, failure).crashed <==> RunsDry(s.replies, s.disconnecting, rs)
    decreases |rs|
  {
    hide Ledger, Quits, Frees, Issued, Called, Severed, Released;
    if rs == [] {
      if failure.Some? {
        SeveredIsGood(s.(err := failure.value));
      } else if s.disconnecting && !s.unsent && s.replies == [] {
        SeveredIsGood(s);
      }
    } else if s.replies == [] {
      if rs[0].Error? {
        SeveredIsGood(s.(err := REDIS_ERR_OTHER));
      }
    } else {
      ProcessedFirst(s, rs[0]);
      var t := CalledFirst(s, Some(rs[0]));
      CalledIs(s.(replies := s.replies[1..]), s.replies[0], Some(rs[0]));
      if t.freeing {
        ReleasedIsGood(t);
      } else {
        CrashIsRunningDry(t, rs[1..], failure);
      }
    }
  }

  /** Callbacks that neither issue commands nor free the context: one reply too many, and no error reply. */
  lemma {:induction false} OneTooMany(queue: seq<Callback>, closed: bool, rs: seq<Reply>)
    requires forall cb <- queue :: !Frees(cb) && (cb.runs && !closed ==> Issued(cb.script) == [])
    ensures RunsDry(queue, closed, rs) <==> |rs| > |queue| && !rs[|queue|].Error?
    decreases |rs|
  {
    hide Frees, Quits, Issued;
    if rs != [] && queue != [] {
      assert queue[0] in queue && forall cb <- queue[1..] :: cb in queue;
      assert queue[1..] + [] == queue[1..];
      OneTooMany(queue[1..], closed || Quits(queue[0]), rs[1..]);
    }
  }

  /** A status reply that nobody waits for, on a new connection. */
  lemma SpontaneousReplyCrashes(noAutoFree: bool, text: seq<Byte>)
    ensures Ran(Start(noAutoFree), [Readable(Connected, Read([Status(text)], None))]).crashed
  {
    var s := Start(noAutoFree).(connected := true);
    CrashIsRunningDry(s, [Status(text)], None);
    var events := [Readable(Connected, Read([Status(text)], None))];
    assert Ran(Start(noAutoFree), events) == Ran(Handled(Start(noAutoFree), events[0]), events[1..]);
  }

  // ---------------------------------------------------------------------
  // Which commands are accepted.

  /** All commands of a script, also those after it disconnects or frees. */
  function CommandsOf(script: seq<Action>): seq<Callback> {
    if script == [] then [] else (if script[0].Issue? then [script[0].cb] else []) + CommandsOf(script[1..])
  }

  function Commanded(cb: Callback): seq<Callback> {
    if cb.runs then CommandsOf(cb.script) else []
  }

  /** The commands that the callbacks of a log issue. */
  function CommandedBy(log: seq<Delivery>): multiset<Callback> {
    if log == [] then multiset{} else CommandedBy(log[..|log| - 1]) + multiset(Commanded(log[|log| - 1].cb))
  }

  function AskedBy(event: Event): multiset<Callback> {
    if event.Call? && event.action.Issue? then multiset{event.action.cb} else multiset{}
  }

  function AskedByAll(events: seq<Event>): multiset<Callback> {
    if events == [] then multiset{} else AskedBy(events[0]) + AskedByAll(events[1..])
  }

  lemma {:induction false} IssuedIsCommanded(script: seq<Action>)
    ensures Issued(script) <= CommandsOf(script)
    ensures Disconnect !in script && Free !in script ==> Issued(script) == CommandsOf(script)
  {
    if script != [] {
      ScriptFlags(script);
      IssuedIsCommanded(script[1..]);
    }
  }

  lemma AddsAreCommanded(cb: Callback, closed: bool)
    ensures multiset(Adds(cb, closed)) <= multiset(Commanded(cb))
    ensures !closed && !Quits(cb) && !Frees(cb) ==> Adds(cb, closed) == Commanded(cb)
  {
    IssuedIsCommanded(cb.script);
    var issued, all := Issued(cb.script), CommandsOf(cb.script);
    assert all == issued + all[|issued|..];
  }

  /** Of the commands asked for, by the program or by callbacks, those accepted are all until some one disconnects or frees. */
  ghost predicate Accounted(s: State, asked: multiset<Callback>) {
    && multiset(s.accepted) <= asked + CommandedBy(s.log)
    && (!s.Closed() ==> multiset(s.accepted) == asked + CommandedBy(s.log))
  }

  lemma AccountedFirst(s: State, reply: Option<Reply>, asked: multiset<Callback>)
    requires Accounted(s, asked) && s.replies != []
    ensures Accounted(CalledFirst(s, reply), asked)
  {
    hide Adds, Commanded, Called, Quits, Frees;
    var cb := s.replies[0];
    CalledIs(s.(replies := s.replies[1..]), cb, reply);
    AddsAreCommanded(cb, s.Closed());
    var log := s.log + [Delivery(cb, reply)];
    assert log[..|log| - 1] == s.log;
  }

  lemma {:induction false} AccountedDrained(s: State, asked: multiset<Callback>)
    requires Accounted(s, asked)
    ensures Accounted(Drained(s), asked) && (s.Closed() ==> Drained(s).Closed())
    decreases QueueWeight(s.replies)
  {
    hide CommandedBy, Called;
    if s.replies != [] {
      AccountedFirst(s, None, asked);
      CalledIs(s.(replies := s.replies[1..]), s.replies[0], None);
      AccountedDrained(CalledFirst(s, None), asked);
    }
  }

  lemma AccountedSevered(s: State, asked: multiset<Callback>)
    requires Accounted(s, asked)
    ensures Accounted(Severed(s), asked) && Accounted(Released(s), asked)
  {
    hide CommandedBy, Drained;
    AccountedDrained(s, asked);
    AccountedDrained(s.(disconnecting := true), asked);
  }

  lemma {:induction false} AccountedProcessed(s: State, rs: seq<Reply>, failure: Option<nat>, asked: multiset<Callback>)
    requires Accounted(s, asked)
    ensures Accounted(Processed(s, rs, failure), asked)
    decreases |rs|
  {
    hide CommandedBy, Severed, Released, CalledFirst;
    AccountedSevered(s, asked);
    if rs == [] {
      AccountedSevered(s.(err := if failure.Some? then failure.value else 0), asked);
    } else if s.replies == [] {
      AccountedSevered(s.(err := REDIS_ERR_OTHER), asked);
    } else {
      AccountedFirst(s, Some(rs[0]), asked);
      AccountedSevered(CalledFirst(s, Some(rs[0])), asked);
      AccountedProcessed(CalledFirst(s, Some(rs[0])), rs[1..], failure, asked);
    }
  }

  lemma AccountedTried(s: State, connect: Connect, asked: multiset<Callback>)
    requires Accounted(s, asked)
    ensures Accounted(Tried(s, connect), asked)
  {
    hide CommandedBy, Severed;
    AccountedSevered(s.(err := REDIS_ERR_IO), asked);
  }

  lemma AccountedTroubled(s: State, error: nat, asked: multiset<Callback>)
    requires Accounted(s, asked)
    ensures Accounted(Troubled(s, error), asked)
  {
    hide CommandedBy, Severed;
    AccountedSevered(s, asked);
    AccountedSevered(s.(err := error), asked);
  }

  lemma AccountedHandled(s: State, event: Event, asked: multiset<Callback>)
    requires Accounted(s, asked)
    ensures Accounted(Handled(s, event), asked + AskedBy(event))
  {
    hide Accounted, CommandedBy, Severed, Released, Drained, HandledRead, HandledWrite, TimedOut;
    assert asked + multiset{} == asked;
    match event {
      case Call(Issue(cb)) =>
        AccountedAsked(s, cb, asked);
      case Call(Disconnect) =>
        AccountedMoreClosed(s, s.(disconnecting := true, noAutoFree := false), asked);
        AccountedSevered(s.(disconnecting := true, noAutoFree := false), asked);
      case Call(Free) =>
        AccountedMoreClosed(s, s.(freeing := true), asked);
        AccountedSevered(s.(freeing := true), asked);
      case Readable(connect, input) =>
        AccountedRead(s, connect, input, asked);
      case Writable(connect, output) =>
        AccountedWrite(s, connect, output, asked);
      case TimerFired =>
        AccountedTimedOut(s, asked);
    }
  }

  lemma AccountedAsked(s: State, cb: Callback, asked: multiset<Callback>)
    requires Accounted(s, asked)
    ensures Accounted(Asked(s, cb), asked + multiset{cb})
  {
    hide CommandedBy;
  }

  lemma AccountedMoreClosed(s: State, t: State, asked: multiset<Callback>)
    requires Accounted(s, asked) && t.accepted == s.accepted && t.log == s.log && (s.Closed() ==> t.Closed())
    ensures Accounted(t, asked)
  {
  }

  lemma AccountedRead(s: State, connect: Connect, input: Input, asked: multiset<Callback>)
    requires Accounted(s, asked)
    ensures Accounted(HandledRead(s, connect, input), asked)
  {
    hide Accounted, Tried, Processed, Troubled;
    var t := Tried(s, connect);
    AccountedTried(s, connect, asked);
    AccountedTroubled(t, if input.Unreadable? then input.error else 0, asked);
    if input.Read? {
      AccountedProcessed(t, input.replies, input.failure, asked);
    }
  }

  lemma AccountedWrite(s: State, connect: Connect, output: Output, asked: multiset<Callback>)
    requires Accounted(s, asked)
    ensures Accounted(HandledWrite(s, connect, output), asked)
  {
    hide Accounted, Tried, Troubled;
    var t := Tried(s, connect);
    AccountedTried(s, connect, asked);
    AccountedTroubled(t, if output.Unwritable? then output.error else 0, asked);
    AccountedMoreClosed(t, t.(unsent := t.unsent && !(output.Written? && output.done)), asked);
  }

  lemma AccountedTimedOut(s: State, asked: multiset<Callback>)
    requires Accounted(s, asked)
    ensures Accounted(TimedOut(s), asked)
  {
    hide Accounted, Severed, Drained;
    var u := if s.err == 0 then s.(err := REDIS_ERR_TIMEOUT) else s;
    AccountedMoreClosed(s, u, asked);
    AccountedDrained(u, asked);
    AccountedSevered(Drained(u), asked);
  }

  /**
   * In any run the accepted commands are among those of the program and of the
   * callbacks that were called, each as often; they are all of them as long as the
   * context is neither disconnecting nor freeing.
   */
  lemma {:induction false} RunIsAccounted(s: State, events: seq<Event>, asked: multiset<Callback>)
    requires Accounted(s, asked)
    ensures var t := Ran(s, events);
            && multiset(t.accepted) <= asked + AskedByAll(events) + CommandedBy(t.log)
            && (t.Alive() && !t.Closed() ==> multiset(t.accepted) == asked + AskedByAll(events) + CommandedBy(t.log))
    decreases |events|
  {
    hide CommandedBy, Handled, AskedBy;
    if events != [] && s.Alive() {
      AccountedHandled(s, events[0], asked);
      RunIsAccounted(Handled(s, events[0]), events[1..], asked + AskedBy(events[0]));
      assert asked + AskedBy(events[0]) + AskedByAll(events[1..]) == asked + AskedByAll(events);
    }
  }

  // ---------------------------------------------------------------------
  // A clean disconnect.

  lemma Even(s: State)
    requires Good(s) && s.err == 0 && !s.freed
    ensures |s.received| == |s.log|
  {
  }

  /** A disconnecting context whose replies arrive frees itself, and no callback gets NULL. */
  lemma {:induction false} ProcessedCleanly(s: State, rs: seq<Reply>)
    requires Good(s) && s.Alive() && s.err == 0 && s.disconnecting && !s.unsent
    requires |rs| == |s.replies| && forall cb <- s.replies :: !Frees(cb)
    ensures var t := Processed(s, rs, None);
            && t.freed && !t.crashed && t.received == s.received + rs && |t.received| == |t.log|
            && (s.connected ==> t.farewell == Some(true))
    decreases |rs|
  {
    Even(s);
    hide Ledger, Quits, Frees, Issued, Called;
    assert s.received + [] == s.received;
    if rs != [] {
      var cb, rest := s.replies[0], s.replies[1..];
      assert cb in s.replies && forall x <- rest :: x in s.replies;
      ProcessedFirst(s, rs[0]);
      CalledIs(s.(replies := rest), cb, Some(rs[0]));
      assert Adds(cb, true) == [] && rest + [] == rest;
      var t := CalledFirst(s, Some(rs[0]));
      assert t.received + rs[1..] == s.received + rs;
      ProcessedCleanly(t, rs[1..]);
    }
  }

  /**
   * redisAsyncDisconnect with commands pending: once they have been written and their
   * replies have come, each callback has got its own, and the context has been freed.
   */
  lemma DisconnectIsClean(s: State, rs: seq<Reply>)
    requires Good(s) && s.Alive() && s.connected && s.err == 0 && s.replies != []
    requires |rs| == |s.replies| && forall cb <- s.replies :: !Frees(cb)
    ensures var t := Ran(s, [Call(Disconnect), Writable(Connected, Written(true)), Readable(Connected, Read(rs, None))]);
            && t.freed && !t.crashed && t.received == s.received + rs && |t.received| == |t.log| && t.farewell == Some(true)
            && CallbacksOf(t.log) == t.accepted
  {
    hide Processed, Frees;
    var read := Readable(Connected, Read(rs, None));
    var write := Writable(Connected, Written(true));
    var events := [Call(Disconnect), write, read];
    assert events[1..] == [write, read] && [write, read][1..] == [read];
    var u := s.(disconnecting := true, noAutoFree := false);
    var v := u.(unsent := false);
    ProcessedCleanly(v, rs);
    ProcessedIsGood(v, rs, None);
    var t := Processed(v, rs, None);
    assert Ran(v, [read]) == Ran(t, [read][1..]);
    assert Ran(u, [write, read]) == Ran(v, [read]);
    assert Ran(s, events) == Ran(u, [write, read]);
    assert CallbacksOf(t.log) + [] == CallbacksOf(t.log);
  }
}
