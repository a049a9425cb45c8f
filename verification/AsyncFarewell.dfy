/**
 * How an asynchronous context of hiredis (async.c) ends: which status its disconnect
 * callback is given, with which error, and when output is still to be written.
 */
module AsyncFarewell {
  import opened Bytes
  import opened RespGrammar
  import opened AsyncModel

  /** How many of the events reach the context. */
  function Took(s: State, events: seq<Event>): (n: nat)
    ensures n <= |events|
    decreases |events|
  {
    if events == [] || !s.Alive() then 0 else 1 + Took(Handled(s, events[0]), events[1..])
  }

  /** The connection turns out to be there. */
  predicate Connects(event: Event) {
    (event.Readable? && event.connect == Connected) || (event.Writable? && event.connect == Connected)
  }

  /** A callback that frees the context has been called. */
  predicate SomeCalledFrees(log: seq<Delivery>) {
    exists d <- log :: Frees(d.cb)
  }

  /** All output is written with this event. */
  predicate Flushes(s: State, event: Event) {
    && event.Writable? && event.output == Written(true)
    && (s.connected || event.connect == Connected) && s.err == 0
  }

  /** The number of commands accepted when all output was last written. */
  function Flushed(s: State, events: seq<Event>, written: nat): nat
    decreases |events|
  {
    if events == [] || !s.Alive() then written
    else Flushed(Handled(s, events[0]), events[1..], if Flushes(s, events[0]) then |s.accepted| else written)
  }

  /**
   * The context is to be freed exactly if the program or a callback that was called has
   * asked for it; output is pending exactly if a command was accepted since all output was
   * written; and the disconnect callback is called exactly for a connected context when
   * that is freed, with REDIS_OK exactly if the context was to be freed or there is no error.
   */
  ghost predicate Law(s: State, program: bool, written: nat) {
    && (s.freeing <==> program || SomeCalledFrees(s.log))
    && (s.unsent <==> |s.accepted| > written) && |s.accepted| >= written
    && s.farewell == if s.freed && s.connected then Some(s.freeing || s.err == 0) else None
  }

  // ---------------------------------------------------------------------
  // The law is kept.

  lemma OneMoreFrees(log: seq<Delivery>, d: Delivery)
    ensures SomeCalledFrees(log + [d]) <==> SomeCalledFrees(log) || Frees(d.cb)
  {
    hide Frees;
    var all := log + [d];
    assert all[|log|] == d && forall i :: 0 <= i < |log| ==> all[i] == log[i];
    assert d in all && forall x <- log :: x in all;
  }

  lemma LawFirst(s: State, reply: Option<Reply>, program: bool, written: nat)
    requires Law(s, program, written) && s.replies != [] && !s.freed
    ensures var t := CalledFirst(s, reply);
            && Law(t, program, written) && t.freed == s.freed && t.err == s.err && t.connected == s.connected
  {
    hide Issued, Frees, Quits, Called, SomeCalledFrees;
    var cb := s.replies[0];
    CalledIs(s.(replies := s.replies[1..]), cb, reply);
    OneMoreFrees(s.log, Delivery(cb, reply));
  }

  lemma {:induction false} LawDrained(s: State, program: bool, written: nat)
    requires Law(s, program, written) && !s.freed
    ensures var t := Drained(s);
            && Law(t, program, written) && t.freed == s.freed && t.err == s.err && t.connected == s.connected
    decreases QueueWeight(s.replies)
  {
    hide Law, CalledFirst;
    if s.replies != [] {
      LawFirst(s, None, program, written);
      LawDrained(CalledFirst(s, None), program, written);
    }
  }

  lemma LawReleased(s: State, program: bool, written: nat)
    requires Law(s, program, written) && !s.freed
    ensures Law(Released(s), program, written) && Released(s).connected == s.connected
  {
    hide Drained, SomeCalledFrees;
    LawDrained(s, program, written);
  }

  lemma LawSevered(s: State, program: bool, written: nat)
    requires Law(s, program, written) && !s.freed
    ensures Law(Severed(s), program, written) && Severed(s).connected == s.connected
  {
    hide Released, SomeCalledFrees;
    var t := if s.err == 0 then s else s.(disconnecting := true);
    LawReleased(t, program, written);
  }

  lemma {:induction false} LawProcessed(s: State, rs: seq<Reply>, failure: Option<nat>, program: bool, written: nat)
    requires Law(s, program, written) && !s.freed
    ensures Law(Processed(s, rs, failure), program, written) && Processed(s, rs, failure).connected == s.connected
    decreases |rs|
  {
    hide Severed, Released, CalledFirst, SomeCalledFrees;
    LawSevered(s, program, written);
    LawSevered(s.(err := REDIS_ERR_OTHER), program, written);
    if failure.Some? {
      LawSevered(s.(err := failure.value), program, written);
    }
    if rs != [] && s.replies != [] {
      LawFirst(s, Some(rs[0]), program, written);
      var t := CalledFirst(s, Some(rs[0]));
      LawReleased(t, program, written);
      LawProcessed(t, rs[1..], failure, program, written);
    }
  }

  lemma LawTried(s: State, connect: Connect, program: bool, written: nat)
    requires Law(s, program, written) && !s.freed
    ensures Law(Tried(s, connect), program, written)
    ensures Tried(s, connect).connected == (s.connected || connect == Connected)
    ensures s.connected || connect == Connected ==> Tried(s, connect) == s.(connected := true)
  {
    hide Severed, SomeCalledFrees;
    LawSevered(s.(err := REDIS_ERR_IO), program, written);
  }

  lemma LawTroubled(s: State, error: nat, program: bool, written: nat)
    requires Law(s, program, written) && !s.freed
    ensures Law(Troubled(s, error), program, written) && Troubled(s, error).connected == s.connected
  {
    hide Severed, SomeCalledFrees;
    LawSevered(if s.err != 0 then s else s.(err := error), program, written);
  }

  lemma LawTimedOut(s: State, program: bool, written: nat)
    requires Law(s, program, written) && !s.freed
    ensures Law(TimedOut(s), program, written) && TimedOut(s).connected == s.connected
  {
    hide Severed, Drained, SomeCalledFrees;
    var t := if s.err == 0 then s.(err := REDIS_ERR_TIMEOUT) else s;
    LawDrained(t, program, written);
    LawSevered(Drained(t), program, written);
  }

  lemma LawRead(s: State, connect: Connect, input: Input, program: bool, written: nat)
    requires Law(s, program, written) && !s.freed
    ensures Law(HandledRead(s, connect, input), program, written)
    ensures HandledRead(s, connect, input).connected == (s.connected || connect == Connected)
  {
    hide Law, Tried, Processed, Troubled;
    var t := Tried(s, connect);
    LawTried(s, connect, program, written);
    if GoesOn(s, connect) {
      LawTroubled(t, if input.Unreadable? then input.error else 0, program, written);
      if input.Read? {
        LawProcessed(t, input.replies, input.failure, program, written);
      }
    }
  }

  lemma LawWrite(s: State, connect: Connect, output: Output, program: bool, written: nat)
    requires Law(s, program, written) && !s.freed
    ensures var t := HandledWrite(s, connect, output);
            && Law(t, program, if Flushes(s, Writable(connect, output)) then |s.accepted| else written)
            && t.connected == (s.connected || connect == Connected)
  {
    hide Tried, Troubled, SomeCalledFrees;
    var t := Tried(s, connect);
    LawTried(s, connect, program, written);
    if GoesOn(s, connect) {
      LawTroubled(t, if output.Unwritable? then output.error else 0, program, written);
    }
  }

  lemma LawHandled(s: State, event: Event, program: bool, written: nat)
    requires Law(s, program, written) && !s.freed
    ensures var t := Handled(s, event);
            && Law(t, program || event == Call(Free), if Flushes(s, event) then |s.accepted| else written)
            && t.connected == (s.connected || Connects(event))
  {
    hide Severed, Released, HandledRead, HandledWrite, TimedOut, SomeCalledFrees;
    match event {
      case Call(Issue(cb)) =>
      case Call(Disconnect) => LawSevered(s.(disconnecting := true, noAutoFree := false), program, written);
      case Call(Free) => LawReleased(s.(freeing := true), true, written);
      case Readable(connect, input) => LawRead(s, connect, input, program, written);
      case Writable(connect, output) => LawWrite(s, connect, output, program, written);
      case TimerFired => LawTimedOut(s, program, written);
    }
  }

  /** The law holds in every run, with what the handled events have asked for. */
  lemma {:induction false} LawRan(s: State, events: seq<Event>, program: bool, written: nat)
    requires Law(s, program, written)
    ensures var t, handled := Ran(s, events), events[..Took(s, events)];
            && Law(t, program || Call(Free) in handled, Flushed(s, events, written))
            && (t.connected <==> s.connected || exists e <- handled :: Connects(e))
    decreases |events|
  {
    hide Law, Handled, Flushes, Connects;
    if events != [] && s.Alive() {
      var t := Handled(s, events[0]);
      LawHandled(s, events[0], program, written);
      var written' := if Flushes(s, events[0]) then |s.accepted| else written;
      LawRan(t, events[1..], program || events[0] == Call(Free), written');
      var n := Took(t, events[1..]);
      assert events[..n + 1] == [events[0]] + events[1..][..n];
      FirstOrLater(events[0], events[1..][..n]);
    }
  }

  lemma FirstOrLater(e: Event, later: seq<Event>)
    ensures (exists x <- [e] + later :: Connects(x)) <==> Connects(e) || exists x <- later :: Connects(x)
    ensures Call(Free) in [e] + later <==> e == Call(Free) || Call(Free) in later
  {
    hide Connects;
    var all := [e] + later;
    assert all[0] == e && forall i :: 0 <= i < |later| ==> all[i + 1] == later[i];
    assert e in all && forall x <- later :: x in all;
  }

  /**
   * In every run from a new context: the disconnect callback is called exactly if the
   * context is freed after it was connected, and it is told REDIS_OK exactly if the program
   * or a callback that was called has freed the context, or there is no error.
   */
  lemma FarewellExactly(noAutoFree: bool, events: seq<Event>)
    ensures var t := Ran(Start(noAutoFree), events);
            var handled := events[..Took(Start(noAutoFree), events)];
            t.farewell ==
              if t.freed && exists e <- handled :: Connects(e) then
                Some(Call(Free) in handled || SomeCalledFrees(t.log) || t.err == 0)
              else None
  {
    LawRan(Start(noAutoFree), events, false, 0);
    hide Ran, Took, Flushed, SomeCalledFrees, Connects;
  }

  /** In every run from a new context output is pending exactly if a command was accepted since all of it was written. */
  lemma PendingExactly(noAutoFree: bool, events: seq<Event>)
    ensures var t := Ran(Start(noAutoFree), events);
            t.unsent <==> |t.accepted| > Flushed(Start(noAutoFree), events, 0)
  {
    LawRan(Start(noAutoFree), events, false, 0);
    hide Ran, Took, Flushed, SomeCalledFrees, Connects;
  }

  // ---------------------------------------------------------------------
  // The ways in which a context ends, one by one.

  /** What the disconnect callback of a connected context is told. */
  function Told(connected: bool, ok: bool): Option<bool> {
    if connected then Some(ok) else None
  }

  lemma ReleasedTells(s: State)
    requires s.Alive() && s.farewell == None
    ensures var t := Released(s);
            && t.freed && t.err == s.err && t.connected == s.connected && t.log == s.log + Nulls(CalledBy(s.replies, s.Closed()))
            && t.farewell == Told(s.connected, s.freeing || SomeoneFrees(CalledBy(s.replies, s.Closed())) || s.err == 0)
  {
    hide Drained, CalledBy, SomeoneFrees, SomeoneQuits;
    DrainedCalls(s);
  }

  /** redisAsyncFree by the program: NULL to all that waits, and a clean farewell whatever the error. */
  lemma FreeTells(s: State)
    requires Good(s) && s.Alive()
    ensures var t := Handled(s, Call(Free));
            t.freed && t.err == s.err && t.log == s.log + Nulls(s.replies) && t.farewell == Told(s.connected, true)
  {
    hide Released, CalledBy, SomeoneFrees;
    ReleasedTells(s.(freeing := true));
    ClosedCallsQueue(s.replies);
  }

  /** redisAsyncDisconnect by the program: at once if nobody waits, and else when all has been answered. */
  lemma DisconnectTells(s: State)
    requires Good(s) && s.Alive()
    ensures var t := Handled(s, Call(Disconnect));
            && (s.replies != [] ==> t == s.(disconnecting := true, noAutoFree := false))
            && (s.replies == [] ==>
                  t.freed && t.err == s.err && t.log == s.log && t.farewell == Told(s.connected, s.freeing || s.err == 0))
  {
    hide Released, CalledBy, SomeoneFrees;
    ReleasedTells(s.(disconnecting := true, noAutoFree := false));
    ClosedCallsQueue(s.replies);
    NobodyThere();
    assert s.log + Nulls([]) == s.log;
  }

  /** A command: refused without a trace once the context disconnects or is to be freed, and else queued and to be written. */
  lemma CommandTells(s: State, cb: Callback)
    ensures var t := Handled(s, Call(Issue(cb)));
            && (s.disconnecting || s.freeing ==> t == s)
            && (!s.disconnecting && !s.freeing ==>
                  t == s.(replies := s.replies + [cb], accepted := s.accepted + [cb], unsent := true))
  {
  }

  /** An error while reading or writing: REDIS_ERR, unless one of the callbacks that get NULL frees the context. */
  lemma ErrorTells(s: State, error: nat)
    requires Good(s) && s.Alive() && (s.err == 0 ==> error != 0)
    ensures var t := Troubled(s, error);
            && t.err == (if s.err != 0 then s.err else error)
            && (t.freed <==> !s.noAutoFree)
            && t.farewell == if t.freed then Told(s.connected, SomeoneFrees(s.replies)) else None
  {
    hide Released, CalledBy, SomeoneFrees;
    var u := (if s.err != 0 then s else s.(err := error)).(disconnecting := true);
    ReleasedTells(u);
    ClosedCallsQueue(s.replies);
  }

  /** A connection that cannot be made: error 1, and no disconnect callback. */
  lemma RefusalTells(s: State)
    requires Good(s) && s.Alive() && !s.connected
    ensures var t := Tried(s, Connect.Failed);
            t.err == 1 && (t.freed <==> !s.noAutoFree) && t.farewell == None && !t.connected
  {
    hide Released, CalledBy, SomeoneFrees;
    ReleasedTells(s.(err := 1, disconnecting := true));
  }

  /** A connection that is still being made: nothing happens. */
  lemma NotYetConnected(s: State, input: Input, output: Output)
    requires !s.connected
    ensures Handled(s, Readable(InProgress, input)) == s && Handled(s, Writable(InProgress, output)) == s
  {
  }

  /** A timeout with nothing to time out: nothing happens. */
  lemma IdleTimeout(s: State)
    requires s.connected && s.replies == []
    ensures Handled(s, TimerFired) == s
  {
  }

  /** A timeout: error 6 unless there is one already, and REDIS_ERR unless a callback frees the context. */
  lemma TimeoutTells(s: State)
    requires Good(s) && s.Alive() && Overdue(s)
    ensures var called := CalledBy(s.replies, s.Closed());
            var t := Handled(s, TimerFired);
            && t.err == (if s.err != 0 then s.err else 6)
            && (t.freed <==> !s.noAutoFree || SomeoneQuits(called))
            && t.farewell == if t.freed then Told(s.connected, s.freeing || SomeoneFrees(called)) else None
  {
    hide CalledBy, SomeoneFrees, SomeoneQuits, Drained, Released;
    var u := if s.err == 0 then s.(err := 6) else s;
    DrainedCalls(u);
    var v := Drained(u).(disconnecting := true);
    ReleasedTells(v);
    assert CalledBy([], true) == [] by { ClosedCallsQueue([]); }
    assert !SomeoneFrees([]) by { NobodyThere(); }
  }

  lemma NobodyThere()
    ensures !SomeoneFrees([]) && !SomeoneQuits([])
  {
  }

  /** How many replies are given to callbacks: until one frees the context, or nobody waits any more. */
  function GivenOf(s: State, rs: seq<Reply>): (n: nat)
    ensures n <= |rs|
    decreases |rs|
  {
    if rs == [] || s.replies == [] then 0
    else if Frees(s.replies[0]) then 1
    else 1 + GivenOf(CalledFirst(s, Some(rs[0])), rs[1..])
  }

  /** The state when n replies have been given. */
  function Given(s: State, rs: seq<Reply>, n: nat): State
    requires n <= GivenOf(s, rs)
    decreases n
  {
    if n == 0 then s else Given(CalledFirst(s, Some(rs[0])), rs[1..], n - 1)
  }

  /** How the processing of replies ends, from the state u in which n of them have been given. */
  ghost predicate Ends(u: State, rs: seq<Reply>, n: nat, failure: Option<nat>, t: State) {
    && n <= |rs|
    && if u.freeing then t.freed && t.err == 0 && t.farewell == Told(u.connected, true)
       else if n < |rs| && !rs[n].Error? then t == u.(crashed := true)
       else if n < |rs| then
         && t.err == 2 && t.log == u.log && (t.freed <==> !u.noAutoFree)
         && t.farewell == if t.freed then Told(u.connected, false) else None
       else if failure.Some? then
         && t.err == failure.value && (t.freed <==> !u.noAutoFree)
         && t.farewell == if t.freed then Told(u.connected, SomeoneFrees(u.replies)) else None
       else if u.disconnecting && !u.unsent && u.replies == [] then
         && t.freed && t.err == 0 && t.log == u.log && t.farewell == Told(u.connected, true)
       else t == u
  }

  /**
   * Replies are given to the callbacks that wait, one after the other. A callback that
   * frees the context ends that cleanly; a reply too many crashes or, if it is an error,
   * ends the context with error 2; a failure of the connection ends it with that error;
   * and a context that disconnects ends cleanly as soon as all has been written and answered.
   */
  lemma {:induction false} ProcessedExactly(s: State, rs: seq<Reply>, failure: Option<nat>)
    requires Good(s) && s.Alive() && s.err == 0 && (failure.Some? ==> failure.value != 0)
    ensures var n := GivenOf(s, rs);
            Ends(Given(s, rs, n), rs, n, failure, Processed(s, rs, failure))
    decreases |rs|
  {
    hide Ledger, CalledFirst, Severed, Frees;
    if rs == [] || s.replies == [] {
      StopsHere(s, rs, failure);
    } else {
      var t := CalledFirst(s, Some(rs[0]));
      ProcessedFirst(s, rs[0]);
      FreeingIsFrees(s, rs[0]);
      if t.freeing {
        ReleasedOnFree(t);
        hide Released;
        assert Given(s, rs, 1) == Given(t, rs[1..], 0) == t;
      } else {
        hide Released, Good;
        ProcessedExactly(t, rs[1..], failure);
        var n := GivenOf(t, rs[1..]);
        assert Given(s, rs, n + 1) == Given(t, rs[1..], n);
        EndsLater(Given(t, rs[1..], n), rs, n, failure, Processed(t, rs[1..], failure));
      }
    }
  }

  lemma EndsLater(u: State, rs: seq<Reply>, n: nat, failure: Option<nat>, t: State)
    requires rs != [] && Ends(u, rs[1..], n, failure, t)
    ensures Ends(u, rs, n + 1, failure, t)
  {
    hide SomeoneFrees;
    if n < |rs[1..]| {
      assert rs[1..][n] == rs[n + 1];
    }
  }

  lemma FreeingIsFrees(s: State, reply: Reply)
    requires Good(s) && s.Alive() && s.err == 0 && s.replies != []
    ensures CalledFirst(s, Some(reply)).freeing <==> Frees(s.replies[0])
  {
    hide Ledger, Called, Frees, Quits, Issued;
    CalledIs(s.(replies := s.replies[1..]), s.replies[0], Some(reply));
  }

  lemma ReleasedOnFree(t: State)
    requires t.Alive() && t.freeing && t.farewell == None
    ensures var u := Released(t); u.freed && u.err == t.err && u.farewell == Told(t.connected, true)
  {
    hide Released, CalledBy, SomeoneFrees;
    ReleasedTells(t);
  }

  lemma StopsHere(s: State, rs: seq<Reply>, failure: Option<nat>)
    requires Good(s) && s.Alive() && s.err == 0 && (failure.Some? ==> failure.value != 0) && (rs == [] || s.replies == [])
    ensures Ends(s, rs, 0, failure, Processed(s, rs, failure))
  {
    hide Ledger, Released, CalledBy, SomeoneFrees, Drained;
    NobodyThere();
    ClosedCallsQueue(s.replies);
    if rs == [] && failure.Some? {
      ReleasedTells(s.(err := failure.value, disconnecting := true));
    } else if rs != [] && rs[0].Error? {
      ReleasedTells(s.(err := 2, disconnecting := true));
      assert s.log + Nulls([]) == s.log;
    } else if rs == [] && s.disconnecting && !s.unsent && s.replies == [] {
      ReleasedTells(s);
      assert s.log + Nulls([]) == s.log;
    }
  }
}
