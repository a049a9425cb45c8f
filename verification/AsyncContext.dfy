/**
 * The asynchronous context of hiredis (async.c) as an object that its methods
 * change. Each method is proved to do what the function of AsyncModel does; a
 * callback plays its script on the context that calls it.
 */
module AsyncContext {
  import opened Bytes
  import opened RespGrammar
  import opened AsyncModel
  import opened AsyncFarewell

  class Context {
    var connected: bool
    var disconnecting: bool
    var freeing: bool
    var inCallback: bool
    var noAutoFree: bool
    var err: nat
    var unsent: bool
    /** The callbacks that wait for a reply, first come first served. */
    var replies: seq<Callback>

    /** History, as in AsyncModel.State. */
    var accepted: seq<Callback>
    var log: seq<Delivery>
    var received: seq<Reply>
    var freed: bool
    var crashed: bool
    var farewell: Option<bool>

    function View(): State
      reads this
    {
      State(connected, disconnecting, freeing, noAutoFree, err, unsent, replies, accepted, log, received, freed, crashed, farewell)
    }

    /** Between two events. */
    ghost predicate Valid()
      reads this
    {
      !inCallback && Good(View())
    }

    constructor (noAutoFree: bool)
      ensures Valid() && View() == Start(noAutoFree)
    {
      connected, disconnecting, freeing, inCallback := false, false, false, false;
      this.noAutoFree, err, unsent := noAutoFree, 0, false;
      replies, accepted, log, received := [], [], [], [];
      freed, crashed, farewell := false, false, None;
    }

    /** __redisShiftCallback */
    method Shift() returns (cb: Option<Callback>)
      modifies this`replies
      ensures cb == None <==> old(replies) == []
      ensures replies == if cb == None then [] else old(replies)[1..]
      ensures cb.Some? ==> cb.value == old(replies)[0]
    {
      if replies == [] {
        return None;
      }
      cb := Some(replies[0]);
      replies := replies[1..];
    }

    /** __redisAsyncCommand, for a command that neither subscribes nor monitors. */
    method Command(cb: Callback) returns (ok: bool)
      modifies this`replies, this`accepted, this`unsent
      ensures View() == Asked(old(View()), cb)
      ensures ok <==> !disconnecting && !freeing
      ensures replies == old(replies) + (if ok then [cb] else []) && accepted == old(accepted) + (if ok then [cb] else [])
    {
      if disconnecting || freeing {
        return false;
      }
      replies := replies + [cb];
      accepted := accepted + [cb];
      unsent := true;
      return true;
    }

    /** One thing that a callback does; freeing and disconnecting wait until it has returned. */
    method Perform(action: Action)
      requires inCallback
      modifies this
      ensures inCallback && View() == Acted(old(View()), action)
      decreases 1
    {
      match action {
        case Issue(cb) =>
          var ok := Command(cb);
        case Disconnect =>
          AsyncDisconnect();
        case Free =>
          AsyncFree();
      }
    }

    /** __redisRunCallback: the callback gets its reply. */
    method RunCallback(cb: Callback, reply: Option<Reply>)
      requires !inCallback
      modifies this
      ensures !inCallback && View() == Called(old(View()), cb, reply)
      decreases 2
    {
      log := log + [Delivery(cb, reply)];
      received := received + if reply.Some? then [reply.value] else [];
      if cb.runs {
        inCallback := true;
        ghost var before := View();
        assert cb.script[0..] == cb.script;
        for i := 0 to |cb.script|
          invariant inCallback && Played(View(), cb.script[i..]) == Played(before, cb.script)
        {
          hide Acted, QueueWeight, ScriptWeight;
          assert cb.script[i..][0] == cb.script[i] && cb.script[i..][1..] == cb.script[i + 1..];
          Perform(cb.script[i]);
        }
        inCallback := false;
      }
    }

    /** The loops that give NULL to every callback that waits. */
    method GiveUp()
      requires !inCallback
      modifies this
      ensures !inCallback && View() == Drained(old(View()))
      decreases 3
    {
      hide Called, Weight, QueueWeight;
      ghost var whole := Drained(View());
      ghost var at := View();
      var cb := Shift();
      while cb.Some?
        invariant !inCallback && whole == Drained(at)
        invariant cb == None ==> at.replies == [] && View() == at
        invariant cb.Some? ==> at.replies != [] && cb.value == at.replies[0] && View() == at.(replies := at.replies[1..])
        decreases QueueWeight(at.replies) + if cb.Some? then 1 else 0
      {
        ghost var next := CalledFirst(at, None);
        RunCallback(cb.value, None);
        at := View();
        cb := Shift();
      }
    }

    /** __redisAsyncFree */
    method DoFree()
      requires !inCallback
      modifies this
      ensures !inCallback && View() == Released(old(View()))
      ensures freed && replies == [] && log == old(log) + Nulls(CalledBy(old(replies), old(disconnecting || freeing)))
      ensures connected == old(connected) && err == old(err)
      ensures farewell == if connected then Some(freeing || err == 0) else old(farewell)
      decreases 4
    {
      DrainedCalls(View());
      hide Drained, Nulls, CalledBy;
      GiveUp();
      if connected {
        farewell := Some(if freeing then true else err == 0);
      }
      freed := true;
    }

    /** redisAsyncFree: put off while a callback runs. */
    method AsyncFree()
      modifies this
      ensures inCallback == old(inCallback)
      ensures View() == if inCallback then Acted(old(View()), Free) else FreedNow(old(View()))
      ensures if inCallback then freeing && log == old(log) && freed == old(freed)
              else freed && log == old(log) + Nulls(CalledBy(old(replies), true))
      decreases if inCallback then 0 else 6
    {
      hide Released, Nulls, CalledBy;
      freeing := true;
      if !inCallback {
        DoFree();
      }
    }

    /** __redisAsyncDisconnect: without an error the queue is empty, as the source asserts. */
    method DoDisconnect()
      requires !inCallback && (err == 0 ==> replies == [])
      modifies this
      ensures !inCallback && View() == Severed(old(View()))
      ensures freed == (old(freed) || !old(noAutoFree))
      decreases 5
    {
      hide Released, Nulls, CalledBy;
      if err == 0 {
        var cb := Shift();
        assert cb == None;
      } else {
        disconnecting := true;
      }
      if !noAutoFree {
        DoFree();
      }
    }

    /** redisAsyncDisconnect: at once only if nothing is pending and no callback runs. */
    method AsyncDisconnect()
      modifies this
      ensures inCallback == old(inCallback)
      ensures View() == if inCallback then Acted(old(View()), Disconnect) else DisconnectedNow(old(View()))
      ensures inCallback || old(replies) != [] ==> disconnecting && freed == old(freed) && log == old(log) && replies == old(replies)
      ensures !inCallback && old(replies) == [] ==> freed
      decreases if inCallback then 0 else 6
    {
      hide Severed;
      disconnecting := true;
      noAutoFree := false;
      if !inCallback && replies == [] {
        DoDisconnect();
      }
    }

    /**
     * redisProcessCallbacks on the replies that the reader has ready, after which it
     * has none or fails. The assertion on spontaneous replies fails exactly if the
     * queue runs dry.
     */
    method ProcessCallbacks(rs: seq<Reply>, failure: Option<nat>)
      requires Valid() && !freed && !crashed && err == 0 && (failure.Some? ==> failure.value != 0)
      modifies this
      ensures Valid() && View() == Processed(old(View()), rs, failure)
      ensures crashed <==> RunsDry(old(replies), old(disconnecting), rs)
    {
      ProcessedIsGood(View(), rs, failure);
      CrashIsRunningDry(View(), rs, failure);
      hide Good, Booked, RunsDry, Called, Severed, Released;
      ghost var whole := Processed(View(), rs, failure);
      assert rs[0..] == rs;
      var taken := 0;
      while taken < |rs|
        invariant taken <= |rs| && Valid() && !freed && !crashed && err == 0
        invariant whole == Processed(View(), rs[taken..], failure)
      {
        hide CalledFirst;
        assert rs[taken..][0] == rs[taken] && rs[taken..][1..] == rs[taken + 1..];
        var over := ProcessReply(rs[taken]);
        if over {
          return;
        }
        taken := taken + 1;
      }
      assert rs[taken..] == [];
      if failure.Some? {
        err := failure.value;
        DoDisconnect();
      } else if disconnecting && !unsent && replies == [] {
        DoDisconnect();
      }
    }

    /** One round of its loop: is it over? */
    method ProcessReply(reply: Reply) returns (over: bool)
      requires Valid() && !freed && !crashed && err == 0
      modifies this
      ensures !inCallback
      ensures !over ==> Valid() && !freed && !crashed && err == 0 && old(replies) != [] && !(old(replies)[0].runs && freeing)
                        && View() == CalledFirst(old(View()), Some(reply))
      ensures over && old(replies) == [] ==>
                View() == if reply.Error? then Severed(old(View()).(err := REDIS_ERR_OTHER)) else old(View()).(crashed := true)
      ensures over && old(replies) != [] ==>
                var t := CalledFirst(old(View()), Some(reply)); old(replies)[0].runs && t.freeing && View() == Released(t)
    {
      if replies != [] {
        ProcessedFirst(View(), reply);
      }
      hide Good, Called, Severed, Released;
      var cb := Shift();
      if cb == None {
        if reply.Error? {
          err := REDIS_ERR_OTHER;
          DoDisconnect();
          return true;
        }
        crashed := true;
        return true;
      }
      if cb.value.runs {
        RunCallback(cb.value, Some(reply));
        if freeing {
          DoFree();
          return true;
        }
      } else {
        Ignore(cb.value, reply);
      }
      return false;
    }

    /** A reply to a command without a callback function. */
    method Ignore(cb: Callback, reply: Reply)
      requires !cb.runs
      modifies this`log, this`received
      ensures View() == Called(old(View()), cb, Some(reply))
    {
      log := log + [Delivery(cb, Some(reply))];
      received := received + [reply];
    }

    /** redisAsyncHandleTimeout */
    method HandleTimeout()
      requires Valid() && !freed && !crashed
      modifies this
      ensures Valid() && View() == TimedOut(old(View()))
      ensures Overdue(old(View())) ==>
                var called := CalledBy(old(replies), old(disconnecting || freeing));
                && log == old(log) + Nulls(called)
                && (freed <==> !old(noAutoFree) || SomeoneQuits(called))
    {
      TimedOutIsGood(View());
      ghost var given := if err == 0 then View().(err := REDIS_ERR_TIMEOUT) else View();
      DrainedCalls(given);
      if Overdue(View()) {
        TimeoutFrees(View());
      }
      hide Good, Drained, Severed, CalledBy, Nulls, SomeoneQuits;
      if connected && replies == [] {
        return;
      }
      if err == 0 {
        err := REDIS_ERR_TIMEOUT;
      }
      GiveUp();
      DoDisconnect();
    }

    /** __redisAsyncHandleConnect, and the tests of its callers: is the context connected? */
    method HandleConnect(connect: Connect) returns (go: bool)
      requires Valid() && !freed && !crashed
      modifies this
      ensures Valid() && View() == Tried(old(View()), connect) && go == GoesOn(old(View()), connect)
    {
      TriedIsGood(View(), connect);
      hide Good, Severed;
      if connected {
        return true;
      }
      if connect.Failed? {
        err := REDIS_ERR_IO;
        DoDisconnect();
        return false;
      }
      connected := connect.Connected?;
      return connected;
    }

    /** redisAsyncHandleRead: replies received are a beginning of those that arrived, and all of them without an error. */
    method HandleRead(connect: Connect, input: Input)
      requires Valid() && !freed && !crashed && Sane(Readable(connect, input))
      modifies this
      ensures Valid() && View() == HandledRead(old(View()), connect, input)
      ensures Fed(old(View()), View(), Arriving(Readable(connect, input), old(connected)))
    {
      ghost var before := View();
      ReadIsGood(before, connect, input);
      TriedIsGood(before, connect);
      hide Good, Severed, Processed, Tried;
      var go := HandleConnect(connect);
      if !go {
        return;
      }
      if err != 0 || input.Unreadable? {
        err := if err != 0 then err else input.error;
        DoDisconnect();
      } else {
        ProcessCallbacks(input.replies, input.failure);
      }
    }

    /** redisAsyncHandleWrite */
    method HandleWrite(connect: Connect, output: Output)
      requires Valid() && !freed && !crashed && Sane(Writable(connect, output))
      modifies this
      ensures Valid() && View() == HandledWrite(old(View()), connect, output)
    {
      WriteKeepsGood(View(), connect, output);
      hide Good, Severed, Tried, Fed, Sane;
      var go := HandleConnect(connect);
      if !go {
        return;
      }
      if err != 0 || output.Unwritable? {
        err := if err != 0 then err else output.error;
        DoDisconnect();
      } else {
        unsent := unsent && !output.done;
      }
    }

    /** One event, outside of any callback. */
    method Handle(event: Event)
      requires Valid() && !freed && !crashed && Sane(event)
      modifies this
      ensures Valid() && View() == Handled(old(View()), event)
    {
      HandledIsGood(View(), event);
      hide Good, FreedNow, DisconnectedNow, HandledRead, HandledWrite, TimedOut, Asked;
      match event {
        case Call(Issue(cb)) => var ok := Command(cb);
        case Call(Disconnect) => AsyncDisconnect();
        case Call(Free) => AsyncFree();
        case Readable(connect, input) => HandleRead(connect, input);
        case Writable(connect, output) => HandleWrite(connect, output);
        case TimerFired => HandleTimeout();
      }
    }
  }

  /**
   * Any run of events: the callbacks are called in the order in which their commands
   * were accepted, the first ones with the replies of the connection in their order and
   * the others with NULL; when the context has been freed, each has been called. No
   * reply is lost without an error, and the commands accepted are those of the program
   * and of the callbacks until some one disconnects or frees.
   */
  method Run(noAutoFree: bool, events: seq<Event>) returns (o: State)
    requires forall e <- events :: Sane(e)
    ensures o == Ran(Start(noAutoFree), events)
    ensures CallbacksOf(o.log) <= o.accepted && |o.received| <= |o.log|
    ensures forall j :: 0 <= j < |o.log| ==> o.log[j].reply == if j < |o.received| then Some(o.received[j]) else None
    ensures !o.Alive() ==> CallbacksOf(o.log) == o.accepted
    ensures o.received <= Arrived(events, false)
    ensures o.err == 0 && o.Alive() ==> o.received == Arrived(events, false)
    ensures multiset(o.accepted) <= AskedByAll(events) + CommandedBy(o.log)
    ensures o.Alive() && !o.Closed() ==> multiset(o.accepted) == AskedByAll(events) + CommandedBy(o.log)
    ensures var handled := events[..Took(Start(noAutoFree), events)];
            o.farewell ==
              if o.freed && exists e <- handled :: Connects(e) then
                Some(Call(Free) in handled || SomeCalledFrees(o.log) || o.err == 0)
              else None
  {
    var ctx := new Context(noAutoFree);
    var i := 0;
    assert events[0..] == events;
    while i < |events| && !ctx.freed && !ctx.crashed
      invariant 0 <= i <= |events| && fresh(ctx) && ctx.Valid()
      invariant Ran(Start(noAutoFree), events) == Ran(ctx.View(), events[i..])
    {
      hide Good, Handled, Sane;
      assert events[i..][0] == events[i] && events[i..][1..] == events[i + 1..];
      ctx.Handle(events[i]);
      i := i + 1;
    }
    o := ctx.View();
    RunSays(noAutoFree, events);
    hide *;
    FarewellExactly(noAutoFree, events);
  }

  lemma RunSays(noAutoFree: bool, events: seq<Event>)
    requires forall e <- events :: Sane(e)
    ensures var o := Ran(Start(noAutoFree), events);
            && CallbacksOf(o.log) <= o.accepted && |o.received| <= |o.log|
            && (forall j :: 0 <= j < |o.log| ==> o.log[j].reply == if j < |o.received| then Some(o.received[j]) else None)
            && (!o.Alive() ==> CallbacksOf(o.log) == o.accepted)
            && o.received <= Arrived(events, false)
            && (o.err == 0 && o.Alive() ==> o.received == Arrived(events, false))
            && multiset(o.accepted) <= AskedByAll(events) + CommandedBy(o.log)
            && (o.Alive() && !o.Closed() ==> multiset(o.accepted) == AskedByAll(events) + CommandedBy(o.log))
  {
    RunIsGood(Start(noAutoFree), events);
    RunIsAccounted(Start(noAutoFree), events, multiset{});
    hide Good, Ran, Arrived, AskedByAll, CommandedBy;
    assert [] + Arrived(events, false) == Arrived(events, false);
    GoodSays(Ran(Start(noAutoFree), events));
  }

  lemma WriteKeepsGood(s: State, connect: Connect, output: Output)
    requires Good(s) && s.Alive() && Sane(Writable(connect, output))
    ensures Good(HandledWrite(s, connect, output))
  {
    hide HandledWrite;
    WriteIsGood(s, connect, output);
  }

  lemma GoodSays(s: State)
    requires Good(s)
    ensures CallbacksOf(s.log) <= s.accepted && |s.received| <= |s.log|
    ensures forall j :: 0 <= j < |s.log| ==> s.log[j].reply == if j < |s.received| then Some(s.received[j]) else None
    ensures !s.Alive() ==> CallbacksOf(s.log) == s.accepted
  {
    assert CallbacksOf(s.log) + [] == CallbacksOf(s.log);
  }
}
