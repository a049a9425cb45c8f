/**
 * DNS messages over TCP (section 4.2.2 of RFC 1035): each message is preceded by
 * its length in two bytes. read_tcp_data of ares_process.c takes them off the
 * stream in whatever pieces recv hands out.
 */
module TcpFrames {
  import opened Bytes
  import opened QueryEngine

  function WordOf(high: int, low: int): int {
    256 * high + low
  }

  /** The length word at the head of s. */
  function LengthOf(s: seq<Byte>): (n: nat)
    requires |s| >= 2
    ensures n < 65536
  {
    WordOf(s[0], s[1])
  }

  datatype Parts = Parts(messages: seq<seq<Byte>>, rest: seq<Byte>)

  /** Does s begin with a whole frame that is not empty? */
  predicate HasFrame(s: seq<Byte>) {
    |s| >= 2 && 0 < LengthOf(s) <= |s| - 2
  }

  /** The messages at the head of the stream, up to a frame that is empty or not yet complete. */
  function Cut(s: seq<Byte>): Parts {
    if HasFrame(s) then
      var end := 2 + LengthOf(s);
      var later := Cut(s[end..]);
      Parts([s[2..end]] + later.messages, later.rest)
    else Parts([], s)
  }

  function Frames(messages: seq<seq<Byte>>): seq<Byte> {
    if messages == [] then [] else TcpFrame(messages[0]) + Frames(messages[1..])
  }

  /** The stream has come to an empty frame, which nothing gets past. */
  predicate Stuck(s: seq<Byte>) {
    |s| >= 2 && LengthOf(s) == 0
  }

  class TcpReader {
    const lenbuf: array<Byte>
    var lenbufPos: nat
    var length: nat
    var buffer: array?<Byte>
    var bufferPos: nat

    ghost predicate Valid()
      reads this, lenbuf, buffer
    {
      && lenbuf.Length == 2 && buffer != lenbuf
      && lenbufPos <= 2
      && (lenbufPos < 2 ==> buffer == null)
      && (lenbufPos == 2 ==>
            && length == LengthOf(lenbuf[..])
            && buffer != null && buffer.Length == length
            && bufferPos <= length && (bufferPos == length ==> length == 0))
    }

    /** The bytes that have been read and do not make up a message yet. */
    ghost function Pending(): seq<Byte>
      requires Valid()
      reads this, lenbuf, buffer
    {
      lenbuf[..lenbufPos] + if lenbufPos == 2 then buffer[..bufferPos] else []
    }

    /** How many bytes the next recv asks for. */
    function Wanted(): (n: nat)
      requires Valid()
      reads this, lenbuf, buffer
      ensures n == 0 <==> Stuck(Pending())
    {
      if lenbufPos < 2 then 2 - lenbufPos
      else
        assert LengthOf(Pending()) == length;
        length - bufferPos
    }

    constructor ()
      ensures Valid() && fresh(lenbuf) && Pending() == []
    {
      lenbuf := new Byte[2](_ => 0);
      lenbufPos, length, buffer, bufferPos := 0, 0, null, 0;
    }

    /** What ares__close_sockets does to the reader. */
    method Reset()
      requires Valid()
      modifies this
      ensures Valid() && Pending() == []
    {
      lenbufPos, buffer, bufferPos := 0, null, 0;
    }

    /**
     * One socket that is ready for reading. recv has put got in place and returned
     * |got|, or nothing with the result count of 0 or -1.
     */
    method ReadTcpData(got: seq<Byte>, count: int, tryAgain: bool) returns (answer: Option<seq<Byte>>, failed: bool)
      requires Valid()
      requires |got| <= Wanted() && count == (if got != [] then |got| else if count == 0 then 0 else -1)
      modifies this, lenbuf, buffer
      ensures Valid() && (buffer == old(buffer) || buffer == null || fresh(buffer))
      ensures failed <==> count == 0 || (count == -1 && !tryAgain)
      ensures failed ==> answer == None && Pending() == []
      ensures !failed ==> old(Pending()) + got == (if answer.Some? then TcpFrame(answer.value) else []) + Pending()
      ensures answer.Some? ==> 0 < |answer.value| < 65536 && Pending() == []
    {
      failed, answer := false, None;
      if count <= 0 {
        if !(count == -1 && tryAgain) {
          Reset();
          failed := true;
        }
        return;
      }
      ghost var before := Pending();
      if lenbufPos != 2 {
        forall i | 0 <= i < |got| {
          lenbuf[lenbufPos + i] := got[i];
        }
        lenbufPos := lenbufPos + |got|;
        assert lenbuf[..lenbufPos] == before + got;
        if lenbufPos == 2 {
          length := LengthOf(lenbuf[..]);
          buffer := new Byte[length](_ => 0);
          bufferPos := 0;
        }
      } else {
        forall i | 0 <= i < |got| {
          buffer[bufferPos + i] := got[i];
        }
        bufferPos := bufferPos + |got|;
        assert lenbuf[..2] == lenbuf[..];
        assert before + got == lenbuf[..] + buffer[..bufferPos];
        if bufferPos == length {
          answer := Some(buffer[..]);
          FrameHead(lenbuf[..], buffer[..]);
          assert buffer[..bufferPos] == buffer[..];
          buffer := null;
          lenbufPos := 0;
          bufferPos := 0;
        }
      }
    }
  }

  lemma FrameHead(word: seq<Byte>, message: seq<Byte>)
    requires |word| == 2 && LengthOf(word) == |message|
    ensures word + message == TcpFrame(message)
  {
    var high: int, low: int := word[0], word[1];
    assert |message| / 256 == high && |message| % 256 == low;
  }

  lemma TcpFrameLength(message: seq<Byte>, rest: seq<Byte>)
    requires |message| < 65536
    ensures LengthOf(TcpFrame(message) + rest) == |message|
  {
  }

  /** A message in front of a stream is cut off first. */
  lemma CutFirst(message: seq<Byte>, rest: seq<Byte>)
    requires 0 < |message| < 65536
    ensures Cut(TcpFrame(message) + rest) == Parts([message] + Cut(rest).messages, Cut(rest).rest)
  {
    var s := TcpFrame(message) + rest;
    TcpFrameLength(message, rest);
    assert s[2..2 + |message|] == message && s[2 + |message|..] == rest;
  }

  lemma {:induction false} CutFrames(messages: seq<seq<Byte>>, rest: seq<Byte>)
    requires forall m <- messages :: 0 < |m| < 65536
    ensures Cut(Frames(messages) + rest) == Parts(messages + Cut(rest).messages, Cut(rest).rest)
  {
    hide Cut, TcpFrame;
    if messages == [] {
      assert Frames(messages) + rest == rest && messages + Cut(rest).messages == Cut(rest).messages;
    } else {
      CutFrames(messages[1..], rest);
      CutFirst(messages[0], Frames(messages[1..]) + rest);
      assert Frames(messages) + rest == TcpFrame(messages[0]) + (Frames(messages[1..]) + rest);
      assert [messages[0]] + (messages[1..] + Cut(rest).messages) == messages + Cut(rest).messages;
    }
  }

  /** What Cut gives is all there is: the stream is its messages, framed, and the rest. */
  lemma {:induction false} CutIsWhole(s: seq<Byte>)
    ensures s == Frames(Cut(s).messages) + Cut(s).rest
    ensures !HasFrame(Cut(s).rest)
    decreases |s|
  {
    if HasFrame(s) {
      var end := 2 + LengthOf(s);
      var later := Cut(s[end..]);
      CutIsWhole(s[end..]);
      FrameHead(s[..2], s[2..end]);
      hide TcpFrame;
      assert Cut(s) == Parts([s[2..end]] + later.messages, later.rest);
      FramesStep(s[2..end], later.messages);
      hide Cut, Frames, HasFrame, LengthOf;
      Rejoin(s, 2, end, Frames(later.messages), later.rest);
    } else {
      assert Frames([]) + s == s;
    }
  }

  lemma FramesStep(message: seq<Byte>, messages: seq<seq<Byte>>)
    ensures Frames([message] + messages) == TcpFrame(message) + Frames(messages)
  {
    assert ([message] + messages)[1..] == messages;
  }

  lemma Rejoin(s: seq<Byte>, i: nat, j: nat, a: seq<Byte>, b: seq<Byte>)
    requires i <= j <= |s| && s[j..] == a + b
    ensures s == s[..i] + s[i..j] + a + b
  {
  }

  /** The reader gets through a stream of frames exactly when none of the messages is empty. */
  lemma {:induction false} AllDelivered(messages: seq<seq<Byte>>)
    requires forall m <- messages :: |m| < 65536
    ensures Cut(Frames(messages)) == Parts(messages, []) <==> [] !in messages
    ensures [] in messages ==> Stuck(Cut(Frames(messages)).rest)
  {
    if messages == [] {
    } else if messages[0] == [] {
      TcpFrameLength([], Frames(messages[1..]));
    } else {
      AllDelivered(messages[1..]);
      CutFirst(messages[0], Frames(messages[1..]));
    }
  }

  /** One read of some of the bytes that have arrived, the number of which is up to recv. */
  method ReadSome(reader: TcpReader, arrived: seq<Byte>) returns (n: nat, answer: Option<seq<Byte>>)
    requires reader.Valid() && !HasFrame(reader.Pending()) && !Stuck(reader.Pending()) && arrived != []
    modifies reader, reader.lenbuf, reader.buffer
    ensures reader.Valid() && (reader.buffer == old(reader.buffer) || reader.buffer == null || fresh(reader.buffer))
    ensures 1 <= n <= |arrived| && !HasFrame(reader.Pending())
    ensures |reader.Pending()| > 2 ==> !Stuck(reader.Pending())
    ensures var before, after := Cut(old(reader.Pending()) + arrived), Cut(reader.Pending() + arrived[n..]);
            before == Parts((if answer.Some? then [answer.value] else []) + after.messages, after.rest)
  {
    var want := reader.Wanted();
    n :| 1 <= n <= want && n <= |arrived|;
    ghost var before := reader.Pending();
    var broken;
    answer, broken := reader.ReadTcpData(arrived[..n], n, false);
    hide Cut, TcpFrame;
    ghost var now, later := reader.Pending(), arrived[n..];
    assert arrived == arrived[..n] + later;
    Assoc(before, arrived[..n], later);
    if answer.Some? {
      Assoc(TcpFrame(answer.value), now, later);
      CutFirst(answer.value, now + later);
    } else {
      assert [] + now == now;
      assert [] + Cut(now + later).messages == Cut(now + later).messages;
    }
  }

  /**
   * However recv cuts up the stream, what is delivered is what the stream says. The
   * connection fails only when bytes follow an empty frame.
   */
  method Serve(stream: seq<Byte>) returns (delivered: seq<seq<Byte>>, failed: bool)
    ensures delivered == Cut(stream).messages
    ensures failed <==> Stuck(Cut(stream).rest) && |Cut(stream).rest| > 2
  {
    var reader := new TcpReader();
    var rest := stream;
    delivered, failed := [], false;
    ghost var all, last := Cut(stream).messages, Cut(stream).rest;
    assert [] + stream == stream;
    CompletesStart(all);
    hide Cut, TcpFrame, Completes, LengthOf;
    while rest != []
      invariant fresh(reader) && fresh(reader.lenbuf) && (reader.buffer != null ==> fresh(reader.buffer))
      invariant reader.Valid() && !HasFrame(reader.Pending())
      invariant |reader.Pending()| > 2 ==> !Stuck(reader.Pending())
      invariant Completes(delivered, Cut(reader.Pending() + rest).messages, all)
      invariant last == Cut(reader.Pending() + rest).rest
      decreases |rest|
    {
      hide HasFrame, Stuck;
      if reader.Wanted() == 0 {
        StuckStays(reader.Pending(), rest);
        CompletesEnd(delivered, all);
        var none;
        none, failed := reader.ReadTcpData([], 0, false);
        return;
      }
      var n, answer := ReadSome(reader, rest);
      Delivered(delivered, answer, Cut(reader.Pending() + rest[n..]).messages, all);
      if answer.Some? {
        delivered := delivered + [answer.value];
      }
      rest := rest[n..];
    }
    NothingMore(reader.Pending());
    assert reader.Pending() + [] == reader.Pending();
    CompletesEnd(delivered, all);
  }

  lemma Delivered(delivered: seq<seq<Byte>>, answer: Option<seq<Byte>>, later: seq<seq<Byte>>, all: seq<seq<Byte>>)
    requires Completes(delivered, (if answer.Some? then [answer.value] else []) + later, all)
    ensures Completes(if answer.Some? then delivered + [answer.value] else delivered, later, all)
  {
    if answer.Some? {
      CompletesMore(delivered, [answer.value], later, all);
    } else {
      assert [] + later == later;
    }
  }

  lemma NothingMore(pending: seq<Byte>)
    requires !HasFrame(pending)
    ensures Cut(pending) == Parts([], pending)
  {
  }

  lemma StuckStays(pending: seq<Byte>, rest: seq<Byte>)
    requires Stuck(pending)
    ensures Cut(pending + rest) == Parts([], pending + rest) && Stuck(pending + rest)
  {
  }
}
