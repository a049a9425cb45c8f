/**
 * The texts of the Redis serialization protocol that the reader of hiredis (read.c)
 * takes, told from the bytes alone: which text stands for which reply, and which
 * text is an error. Byte values are written out here.
 */
module RespText {
  import opened Bytes
  import opened Numbers
  import opened RespGrammar
  import RespCommand

  /** No CR LF inside. */
  predicate OneLine(s: seq<Byte>) {
    forall i :: 0 <= i < |s| - 1 ==> !(s[i] == 13 && s[i + 1] == 10)
  }

  /** s begins with this line and its CR LF. */
  predicate BeginsWith(s: seq<Byte>, line: seq<Byte>) {
    && OneLine(line) && |line| + 2 <= |s|
    && s[..|line|] == line && s[|line|] == 13 && s[|line| + 1] == 10
  }

  /** A byte, a number and a line end: the head of an integer, a bulk string or an array. */
  function NumberText(b: Byte, n: int): seq<Byte> {
    [b] + Decimal(n) + [13, 10]
  }

  /**
   * s is a text of v at this depth of nesting. Arrays and nil arrays must not be nested
   * more than eight deep, and the two bytes behind a bulk string are not looked at.
   */
  predicate IsText(v: Reply, s: seq<Byte>, depth: nat)
    decreases v, 0
  {
    match v
    case Status(str) => OneLine(str) && s == [43] + str + [13, 10]
    case Error(str) => OneLine(str) && s == [45] + str + [13, 10]
    case Integer(n) => InRange(n) && s == NumberText(58, n)
    case Bulk(str) =>
      && |str| <= LLONG_MAX && |s| == |NumberText(36, |str|)| + |str| + 2
      && s[..|s| - 2] == NumberText(36, |str|) + str
    case Nil => s == [36, 45, 49, 13, 10] || (depth < 8 && s == [42, 45, 49, 13, 10])
    case Array(vs) =>
      && depth < 8 && |vs| <= 0x7FFF_FFFF && NumberText(42, |vs|) <= s
      && AreTexts(vs, s[|NumberText(42, |vs|)|..], depth + 1)
  }

  /** s is made of texts of these replies, one after the other. */
  predicate AreTexts(vs: seq<Reply>, s: seq<Byte>, depth: nat)
    decreases vs, 1
  {
    if vs == [] then s == []
    else exists k: nat :: k <= |s| && IsText(vs[0], s[..k], depth) && AreTexts(vs[1..], s[k..], depth)
  }

  // ---------------------------------------------------------------------
  // Lines.

  lemma {:induction false} NewlineIsFirst(s: seq<Byte>)
    ensures Newline(s) == None ==> OneLine(s)
    ensures Newline(s).Some? ==> BeginsWith(s, s[..Newline(s).value])
  {
    if |s| >= 2 && !(s[0] == CR && s[1] == LF) {
      NewlineIsFirst(s[1..]);
      assert forall i :: 0 < i < |s| ==> s[i] == s[1..][i - 1];
    }
  }

  lemma LineWithin(s: seq<Byte>, line: seq<Byte>)
    requires OneLine(line)
    ensures Newline(line) == None
  {
    NewlineIsFirst(line);
  }

  lemma BeginsExactly(s: seq<Byte>, line: seq<Byte>)
    ensures BeginsWith(s, line) <==> Newline(s) == Some(|line|) && s[..|line|] == line
  {
    NewlineIsFirst(s);
    if BeginsWith(s, line) {
      LineWithin(s, line);
      RespCommand.LineEnds(line, s[|line| + 2..]);
      assert s == line + CRLF + s[|line| + 2..];
    }
  }

  // ---------------------------------------------------------------------
  // Texts parse.

  lemma NumberTextSplit(b: Byte, n: int, t: seq<Byte>)
    ensures var s := NumberText(b, n) + t;
            s != [] && s[0] == b && s[1..] == Decimal(n) + CRLF + t
  {
    hide Decimal;
    var s := NumberText(b, n) + t;
    assert s == [b] + (Decimal(n) + CRLF + t);
  }

  lemma BulkParses(str: seq<Byte>, s: seq<Byte>, depth: nat, rest: seq<Byte>)
    requires IsText(Bulk(str), s, depth)
    ensures ParseItem(s + rest, depth) == Done(Bulk(str), rest)
  {
    var end := s[|s| - 2..];
    var later := str + end + rest;
    assert s + rest == NumberText(36, |str|) + later;
    NumberTextSplit(36, |str|, later);
    RespCommand.HeaderLine(BulkKind, depth, |str|, later);
    hide HeadOf, Int64Of, Decimal, NumberText;
    assert later[..|str|] == str && later[|str| + 2..] == rest;
  }

  lemma NilTexts(depth: nat, rest: seq<Byte>)
    ensures NumberText(36, -1) == [36, 45, 49, 13, 10] && NumberText(42, -1) == [42, 45, 49, 13, 10]
    ensures ParseItem(NumberText(36, -1) + rest, depth) == Done(Nil, rest)
    ensures depth < 8 ==> ParseItem(NumberText(42, -1) + rest, depth) == Done(Nil, rest)
  {
    NumberTextSplit(36, -1, rest);
    NumberTextSplit(42, -1, rest);
    assert Decimal(-1) == [45, 49];
    RespCommand.HeaderLine(BulkKind, depth, -1, rest);
    RespCommand.HeaderLine(ArrayKind, depth, -1, rest);
    hide HeadOf, Int64Of;
  }

  lemma ArrayParses(vs: seq<Reply>, depth: nat, later: seq<Byte>, rest: seq<Byte>)
    requires depth < 8 && |vs| <= 0x7FFF_FFFF
    requires ParseItems(later, |vs|, depth + 1) == Done(vs, rest)
    ensures ParseItem(NumberText(42, |vs|) + later, depth) == Done(Array(vs), rest)
  {
    NumberTextSplit(42, |vs|, later);
    RespCommand.HeaderLine(ArrayKind, depth, |vs|, later);
    hide HeadOf, Int64Of, Decimal, NumberText;
    assert vs == [] ==> later == rest;
  }

  /** A text is read as its reply, whatever follows. */
  lemma {:induction false} TextParses(v: Reply, s: seq<Byte>, depth: nat, rest: seq<Byte>)
    requires IsText(v, s, depth)
    ensures ParseItem(s + rest, depth) == Done(v, rest)
    decreases v, 0
  {
    hide ParseItem, ParseItems, Decimal;
    match v
    case Status(str) =>
      LineWithin(s, str);
      RespCommand.ParseEncode(v, depth, rest);
    case Error(str) =>
      LineWithin(s, str);
      RespCommand.ParseEncode(v, depth, rest);
    case Integer(n) => RespCommand.ParseEncode(v, depth, rest);
    case Bulk(str) => BulkParses(str, s, depth, rest);
    case Nil => NilTexts(depth, rest);
    case Array(vs) =>
      var head := NumberText(42, |vs|);
      var later := s[|head|..];
      TextsParse(vs, later, depth + 1, rest);
      ArrayParses(vs, depth, later + rest, rest);
      assert s + rest == head + (later + rest);
  }

  lemma TextsSplit(vs: seq<Reply>, s: seq<Byte>, depth: nat) returns (k: nat)
    requires vs != [] && AreTexts(vs, s, depth)
    ensures k <= |s| && IsText(vs[0], s[..k], depth) && AreTexts(vs[1..], s[k..], depth)
  {
    hide IsText;
    k :| k <= |s| && IsText(vs[0], s[..k], depth) && AreTexts(vs[1..], s[k..], depth);
  }

  lemma TextsJoin(v: Reply, vs: seq<Reply>, s: seq<Byte>, k: nat, depth: nat)
    requires k <= |s| && IsText(v, s[..k], depth) && AreTexts(vs, s[k..], depth)
    ensures AreTexts([v] + vs, s, depth)
  {
    hide IsText;
    assert ([v] + vs)[1..] == vs;
  }

  lemma ItemsJoin(v: Reply, vs: seq<Reply>, s: seq<Byte>, depth: nat, mid: seq<Byte>, rest: seq<Byte>)
    requires ParseItem(s, depth) == Done(v, mid) && ParseItems(mid, |vs|, depth) == Done(vs, rest)
    ensures ParseItems(s, 1 + |vs|, depth) == Done([v] + vs, rest)
  {
    hide ParseItem;
  }

  lemma SplitThen(s: seq<Byte>, k: nat, rest: seq<Byte>)
    requires k <= |s|
    ensures s + rest == s[..k] + (s[k..] + rest)
  {
  }

  lemma FirstAndRest<T>(vs: seq<T>)
    requires vs != []
    ensures vs == [vs[0]] + vs[1..] && |vs| == 1 + |vs[1..]|
  {
  }

  lemma {:induction false} TextsParse(vs: seq<Reply>, s: seq<Byte>, depth: nat, rest: seq<Byte>)
    requires AreTexts(vs, s, depth)
    ensures ParseItems(s + rest, |vs|, depth) == Done(vs, rest)
    decreases vs, 1
  {
    hide IsText, ParseItem;
    if vs == [] {
      assert s + rest == rest;
    } else {
      hide AreTexts, ParseItems;
      var k := TextsSplit(vs, s, depth);
      TextParses(vs[0], s[..k], depth, s[k..] + rest);
      TextsParse(vs[1..], s[k..], depth, rest);
      SplitThen(s, k, rest);
      FirstAndRest(vs);
      ItemsJoin(vs[0], vs[1..], s + rest, depth, s[k..] + rest, rest);
    }
  }

  // ---------------------------------------------------------------------
  // What parses is a text.

  /** What was taken from the front of s when rest is left. */
  function Taken(s: seq<Byte>, rest: seq<Byte>): seq<Byte>
    requires |rest| <= |s|
  {
    s[..|s| - |rest|]
  }

  predicate IsTail(s: seq<Byte>, rest: seq<Byte>) {
    |rest| <= |s| && s[|s| - |rest|..] == rest
  }

  /** The line at the head of an item, and what comes behind it. */
  lemma HeadLine(s: seq<Byte>) returns (line: seq<Byte>, later: seq<Byte>)
    requires s != [] && Newline(s[1..]).Some?
    ensures BeginsWith(s[1..], line) && line == s[1..][..Newline(s[1..]).value]
    ensures later == s[1..][Newline(s[1..]).value + 2..]
    ensures |line| + 3 <= |s| && s[..|line| + 3] == [s[0]] + line + [13, 10] && s[|line| + 3..] == later
  {
    NewlineIsFirst(s[1..]);
    line, later := s[1..][..Newline(s[1..]).value], s[1..][Newline(s[1..]).value + 2..];
  }

  lemma LineIsText(s: seq<Byte>, depth: nat)
    requires s != [] && KindOf(s[0]).Some? && KindOf(s[0]).value in {StatusKind, ErrorKind, IntegerKind}
    requires HeadOf(KindOf(s[0]).value, depth, s[1..]).Whole?
    ensures var h := HeadOf(KindOf(s[0]).value, depth, s[1..]);
            IsTail(s, h.rest) && IsText(h.reply, Taken(s, h.rest), depth)
  {
    var line, later := HeadLine(s);
    hide Newline, Decimal;
    var kind := KindOf(s[0]).value;
    assert HeadOf(kind, depth, s[1..]) == LineHead(kind, line, later);
    if kind == IntegerKind {
      assert line == Decimal(Int64Of(line).value);
    }
  }

  lemma TakenBulk(s: seq<Byte>, head: seq<Byte>, later: seq<Byte>, n: nat)
    requires |head| <= |s| && s[..|head|] == head && s[|head|..] == later && n + 2 <= |later|
    ensures IsTail(s, later[n + 2..])
    ensures var t := Taken(s, later[n + 2..]); |t| == |head| + n + 2 && t[..|t| - 2] == head + later[..n]
  {
    assert Taken(s, later[n + 2..]) == head + later[..n + 2];
  }

  /** The head of an item whose line is a number. */
  lemma NumberHead(s: seq<Byte>, line: seq<Byte>, later: seq<Byte>, n: int)
    requires s != [] && |line| + 3 <= |s| && s[..|line| + 3] == [s[0]] + line + [13, 10] && s[|line| + 3..] == later
    requires Int64Of(line) == Some(n)
    ensures InRange(n) && |NumberText(s[0], n)| <= |s|
    ensures s[..|NumberText(s[0], n)|] == NumberText(s[0], n) && s[|NumberText(s[0], n)|..] == later
  {
    hide Decimal;
  }

  lemma BulkIsText(s: seq<Byte>, depth: nat)
    requires s != [] && KindOf(s[0]) == Some(BulkKind) && HeadOf(BulkKind, depth, s[1..]).Whole?
    ensures var h := HeadOf(BulkKind, depth, s[1..]);
            IsTail(s, h.rest) && IsText(h.reply, Taken(s, h.rest), depth)
  {
    var line, later := HeadLine(s);
    hide Newline, NumberText, Taken, IsTail, BeginsWith, Int64Of;
    assert HeadOf(BulkKind, depth, s[1..]) == BulkHead(line, later);
    hide HeadOf;
    var n := Int64Of(line).value;
    NumberHead(s, line, later, n);
    var head := NumberText(36, n);
    if n == -1 {
      NilIsTaken(s, head, later);
      NilTexts(depth, []);
    } else {
      TakenBulk(s, head, later, n);
    }
  }

  lemma NilIsTaken(s: seq<Byte>, head: seq<Byte>, later: seq<Byte>)
    requires |head| <= |s| && s[..|head|] == head && s[|head|..] == later
    ensures IsTail(s, later) && Taken(s, later) == head
  {
  }

  lemma EmptyArrayIsText(s: seq<Byte>, depth: nat)
    requires s != [] && KindOf(s[0]) == Some(ArrayKind) && HeadOf(ArrayKind, depth, s[1..]).Whole?
    ensures var h := HeadOf(ArrayKind, depth, s[1..]);
            IsTail(s, h.rest) && IsText(h.reply, Taken(s, h.rest), depth)
  {
    var line, later := HeadLine(s);
    hide Newline, Decimal;
    var n := Int64Of(line).value;
    assert HeadOf(ArrayKind, depth, s[1..]) == ArrayHead(line, later);
    assert line == Decimal(n);
    var head := NumberText(42, n);
    assert s[..|head|] == head;
    NilTexts(depth, []);
  }

  lemma OpenIsHead(s: seq<Byte>, depth: nat)
    requires s != [] && KindOf(s[0]) == Some(ArrayKind) && HeadOf(ArrayKind, depth, s[1..]).Open?
    ensures var h := HeadOf(ArrayKind, depth, s[1..]);
            && depth < 8 && 0 < h.count <= 0x7FFF_FFFF
            && NumberText(42, h.count) <= s && s[|NumberText(42, h.count)|..] == h.rest
  {
    var line, later := HeadLine(s);
    hide Newline, Decimal;
    var n := Int64Of(line).value;
    assert HeadOf(ArrayKind, depth, s[1..]) == ArrayHead(line, later);
    assert line == Decimal(n);
  }

  lemma TailOfTail(s: seq<Byte>, k: nat, rest: seq<Byte>)
    requires k <= |s| && IsTail(s[k..], rest)
    ensures IsTail(s, rest) && Taken(s, rest) == s[..k] + Taken(s[k..], rest)
  {
  }

  lemma ArrayIsText(vs: seq<Reply>, s: seq<Byte>, depth: nat, rest: seq<Byte>)
    requires depth < 8 && 0 < |vs| <= 0x7FFF_FFFF && NumberText(42, |vs|) <= s
    requires var later := s[|NumberText(42, |vs|)|..];
             IsTail(later, rest) && AreTexts(vs, Taken(later, rest), depth + 1)
    ensures IsTail(s, rest) && IsText(Array(vs), Taken(s, rest), depth)
  {
    hide AreTexts, NumberText;
    var head := NumberText(42, |vs|);
    var later := s[|head|..];
    TailOfTail(s, |head|, rest);
    assert s[..|head|] == head;
    assert (head + Taken(later, rest))[|head|..] == Taken(later, rest);
  }

  lemma {:induction false} ParsedIsText(s: seq<Byte>, depth: nat)
    requires ParseItem(s, depth).Done?
    ensures var p := ParseItem(s, depth);
            IsTail(s, p.rest) && IsText(p.value, Taken(s, p.rest), depth)
    decreases |s|, 1, 0
  {
    hide IsText, AreTexts;
    var kind := KindOf(s[0]).value;
    if HeadOf(kind, depth, s[1..]).Open? {
      OpenIsHead(s, depth);
      hide HeadOf;
      var n, later := HeadOf(kind, depth, s[1..]).count, HeadOf(kind, depth, s[1..]).rest;
      ParsedAreTexts(later, n, depth + 1);
      var p := ParseItems(later, n, depth + 1);
      ArrayIsText(p.value, s, depth, p.rest);
    } else if kind == BulkKind {
      hide HeadOf;
      BulkIsText(s, depth);
    } else if kind == ArrayKind {
      hide HeadOf;
      EmptyArrayIsText(s, depth);
    } else {
      hide HeadOf;
      LineIsText(s, depth);
    }
  }

  lemma {:induction false} ParsedAreTexts(s: seq<Byte>, n: nat, depth: nat)
    requires ParseItems(s, n, depth).Done?
    ensures var p := ParseItems(s, n, depth);
            |p.value| == n && IsTail(s, p.rest) && AreTexts(p.value, Taken(s, p.rest), depth)
    decreases |s|, 2, n
  {
    hide IsText, ParseItem;
    if n > 0 {
      ParsedIsText(s, depth);
      var v, mid := ParseItem(s, depth).value, ParseItem(s, depth).rest;
      ParsedAreTexts(mid, n - 1, depth);
      var vs, rest := ParseItems(mid, n - 1, depth).value, ParseItems(mid, n - 1, depth).rest;
      hide AreTexts, ParseItems;
      var k := |s| - |mid|;
      TailOfTail(s, k, rest);
      var all := Taken(s, rest);
      assert all[..k] == Taken(s, mid) && all[k..] == Taken(mid, rest);
      TextsJoin(v, vs, all, k, depth);
    }
  }

  /** A reply is read if and only if the input begins with one of its texts, and then exactly that text is taken. */
  lemma TextExactly(s: seq<Byte>, depth: nat, v: Reply, rest: seq<Byte>)
    ensures ParseItem(s, depth) == Done(v, rest) <==> IsTail(s, rest) && IsText(v, Taken(s, rest), depth)
  {
    hide IsText, ParseItem;
    if ParseItem(s, depth) == Done(v, rest) {
      ParsedIsText(s, depth);
    }
    if IsTail(s, rest) && IsText(v, Taken(s, rest), depth) {
      TextParses(v, Taken(s, rest), depth, rest);
      assert Taken(s, rest) + rest == s;
    }
  }

  // ---------------------------------------------------------------------
  // Errors.

  /** The error of a length line, if there is one: not a number, or not one from -1 up to max. */
  ghost function LengthError(line: seq<Byte>, max: int, bad: ProtocolError, range: ProtocolError): Option<ProtocolError> {
    match Int64Of(line)
    case None => Some(bad)
    case Some(n) => if n < -1 || n > max then Some(range) else None
  }

  /** The error of the first line of an item with this type byte. */
  ghost function LineError(b: Byte, line: seq<Byte>): Option<ProtocolError> {
    if b == 58 then if Int64Of(line) == None then Some(BadInteger) else None
    else if b == 36 then LengthError(line, LLONG_MAX, BadBulkLength, BulkLengthOutOfRange)
    else if b == 42 then LengthError(line, 0x7FFF_FFFF, BadMultiBulkLength, MultiBulkLengthOutOfRange)
    else None
  }

  /** An error that shows at once: a type byte, an array nested too deep, or a first line. */
  ghost predicate BadAtOnce(s: seq<Byte>, depth: nat, e: ProtocolError) {
    && s != []
    && if s[0] !in {43, 45, 58, 36, 42} then e == BadTypeByte(s[0])
       else if s[0] == 42 && depth >= 8 then e == NestedTooDeep
       else exists line :: BeginsWith(s[1..], line) && LineError(s[0], line) == Some(e)
  }

  /** s begins with an error, which shows at once or behind some elements of an array. */
  ghost predicate IsBad(s: seq<Byte>, depth: nat, e: ProtocolError)
    decreases |s|, 1
  {
    BadAtOnce(s, depth, e) || (depth < 8 && exists n: nat :: BadElements(s, n, depth, e))
  }

  /** The head of an array of n elements, and an error among these. */
  ghost predicate BadElements(s: seq<Byte>, n: nat, depth: nat, e: ProtocolError)
    decreases |s|, 0
  {
    && n <= 0x7FFF_FFFF && NumberText(42, n) <= s
    && BadAmong(s[|NumberText(42, n)|..], n, depth + 1, e)
  }

  /** Fewer than n texts stand before the error. */
  ghost predicate BadAmong(s: seq<Byte>, n: nat, depth: nat, e: ProtocolError)
    decreases |s|, 2
  {
    exists vs: seq<Reply>, k: nat :: |vs| < n && k <= |s| && AreTexts(vs, s[..k], depth) && IsBad(s[k..], depth, e)
  }

  lemma KindsExactly(b: Byte)
    ensures KindOf(b) == if b == 43 then Some(StatusKind) else if b == 45 then Some(ErrorKind)
                         else if b == 58 then Some(IntegerKind) else if b == 36 then Some(BulkKind)
                         else if b == 42 then Some(ArrayKind) else None
  {
  }

  /** The errors of the head of an item are those of its first line. */
  lemma HeadBadExactly(s: seq<Byte>, depth: nat, e: ProtocolError)
    requires s != [] && KindOf(s[0]).Some? && !(s[0] == 42 && depth >= 8)
    ensures HeadOf(KindOf(s[0]).value, depth, s[1..]) == Bad(e) <==>
              exists line :: BeginsWith(s[1..], line) && LineError(s[0], line) == Some(e)
  {
    var kind := KindOf(s[0]).value;
    hide Int64Of, OneLine;
    if HeadOf(kind, depth, s[1..]) == Bad(e) {
      var line, later := HeadLine(s);
      assert LineError(s[0], line) == Some(e);
    }
    forall line | BeginsWith(s[1..], line) && LineError(s[0], line) == Some(e)
      ensures HeadOf(kind, depth, s[1..]) == Bad(e)
    {
      BeginsExactly(s[1..], line);
    }
  }

  lemma {:induction false} FailedIsBad(s: seq<Byte>, depth: nat, e: ProtocolError)
    requires ParseItem(s, depth) == Failed(e)
    ensures IsBad(s, depth, e)
    decreases |s|, 1, 0
  {
    hide AreTexts, BadAmong;
    KindsExactly(s[0]);
    if KindOf(s[0]).Some? && !(s[0] == 42 && depth >= 8) {
      HeadBadExactly(s, depth, e);
      var kind := KindOf(s[0]).value;
      if HeadOf(kind, depth, s[1..]).Open? {
        OpenIsHead(s, depth);
        hide HeadOf;
        var n, later := HeadOf(kind, depth, s[1..]).count, HeadOf(kind, depth, s[1..]).rest;
        FailedIsAmong(later, n, depth + 1, e);
        assert BadElements(s, n, depth, e);
      }
    }
  }

  lemma AmongJoin(v: Reply, s: seq<Byte>, mid: seq<Byte>, n: nat, depth: nat, e: ProtocolError)
    requires n > 0 && IsTail(s, mid) && IsText(v, Taken(s, mid), depth) && BadAmong(mid, n - 1, depth, e)
    ensures BadAmong(s, n, depth, e)
  {
    hide IsText, IsBad, AreTexts;
    var vs: seq<Reply>, k: nat :| |vs| < n - 1 && k <= |mid| && AreTexts(vs, mid[..k], depth) && IsBad(mid[k..], depth, e);
    var j := |s| - |mid|;
    assert s[..j + k][..j] == Taken(s, mid) && s[..j + k][j..] == mid[..k];
    TextsJoin(v, vs, s[..j + k], j, depth);
    assert s[j + k..] == mid[k..];
    assert |[v] + vs| < n && j + k <= |s| && AreTexts([v] + vs, s[..j + k], depth) && IsBad(s[j + k..], depth, e);
  }

  lemma AmongFirst(s: seq<Byte>, n: nat, depth: nat, e: ProtocolError)
    requires n > 0 && IsBad(s, depth, e)
    ensures BadAmong(s, n, depth, e)
  {
    hide IsBad;
    var none: seq<Reply>, k: nat := [], 0;
    assert s[..k] == [] && s[k..] == s;
    assert |none| < n && k <= |s| && AreTexts(none, s[..k], depth) && IsBad(s[k..], depth, e);
  }

  lemma {:induction false} FailedIsAmong(s: seq<Byte>, n: nat, depth: nat, e: ProtocolError)
    requires ParseItems(s, n, depth) == Failed(e)
    ensures BadAmong(s, n, depth, e)
    decreases |s|, 2, n
  {
    hide IsText, AreTexts, IsBad, BadAmong, ParseItem;
    if ParseItem(s, depth).Failed? {
      FailedIsBad(s, depth, e);
      AmongFirst(s, n, depth, e);
    } else {
      ParsedIsText(s, depth);
      var v, mid := ParseItem(s, depth).value, ParseItem(s, depth).rest;
      FailedIsAmong(mid, n - 1, depth, e);
      AmongJoin(v, s, mid, n, depth, e);
    }
  }

  lemma ArrayFails(s: seq<Byte>, n: nat, depth: nat, e: ProtocolError)
    requires depth < 8 && 0 < n <= 0x7FFF_FFFF && NumberText(42, n) <= s
    requires ParseItems(s[|NumberText(42, n)|..], n, depth + 1) == Failed(e)
    ensures ParseItem(s, depth) == Failed(e)
  {
    var head := NumberText(42, n);
    var later := s[|head|..];
    assert s == head + later;
    NumberTextSplit(42, n, later);
    RespCommand.HeaderLine(ArrayKind, depth, n, later);
    hide HeadOf, Int64Of, Decimal, NumberText;
  }

  lemma ItemsFail(vs: seq<Reply>, s: seq<Byte>, n: nat, depth: nat, later: seq<Byte>, e: ProtocolError)
    requires |vs| < n && ParseItems(s, |vs|, depth) == Done(vs, later) && ParseItem(later, depth) == Failed(e)
    ensures ParseItems(s, n, depth) == Failed(e)
    decreases |vs|
  {
    hide ParseItem;
    if vs != [] {
      var v, mid := ParseItem(s, depth).value, ParseItem(s, depth).rest;
      assert ParseItems(mid, |vs| - 1, depth) == Done(vs[1..], later);
      ItemsFail(vs[1..], mid, n - 1, depth, later, e);
    }
  }

  lemma ElementsSplit(s: seq<Byte>, n: nat, depth: nat, e: ProtocolError) returns (vs: seq<Reply>, k: nat)
    requires BadElements(s, n, depth, e)
    ensures n <= 0x7FFF_FFFF && NumberText(42, n) <= s && |NumberText(42, n)| >= 3
    ensures var later := s[|NumberText(42, n)|..];
            |vs| < n && k <= |later| && AreTexts(vs, later[..k], depth + 1) && IsBad(later[k..], depth + 1, e)
  {
    hide AreTexts, IsBad;
    var later := s[|NumberText(42, n)|..];
    assert BadAmong(later, n, depth + 1, e);
    vs, k :| |vs| < n && k <= |later| && AreTexts(vs, later[..k], depth + 1) && IsBad(later[k..], depth + 1, e);
  }

  lemma BadAtOnceFails(s: seq<Byte>, depth: nat, e: ProtocolError)
    requires BadAtOnce(s, depth, e)
    ensures ParseItem(s, depth) == Failed(e)
  {
    hide ParseItems, Int64Of, BeginsWith, LineError;
    KindsExactly(s[0]);
    if KindOf(s[0]).Some? && !(s[0] == 42 && depth >= 8) {
      HeadBadExactly(s, depth, e);
    }
  }

  lemma BadLater(s: seq<Byte>, depth: nat, e: ProtocolError) returns (n: nat)
    requires IsBad(s, depth, e) && !BadAtOnce(s, depth, e)
    ensures depth < 8 && BadElements(s, n, depth, e)
  {
    hide BadElements, BeginsWith, LineError;
    n :| BadElements(s, n, depth, e);
  }

  lemma {:induction false} BadFails(s: seq<Byte>, depth: nat, e: ProtocolError)
    requires IsBad(s, depth, e)
    ensures ParseItem(s, depth) == Failed(e)
    decreases |s|
  {
    hide AreTexts, NumberText, ParseItem, ParseItems, IsBad, BadElements, BadAtOnce;
    if BadAtOnce(s, depth, e) {
      BadAtOnceFails(s, depth, e);
    } else {
      var n := BadLater(s, depth, e);
      var vs, k := ElementsSplit(s, n, depth, e);
      var later := s[|NumberText(42, n)|..];
      BadFails(later[k..], depth + 1, e);
      TextsParse(vs, later[..k], depth + 1, later[k..]);
      assert later[..k] + later[k..] == later;
      ItemsFail(vs, later, n, depth + 1, later[k..], e);
      ArrayFails(s, n, depth, e);
    }
  }

  /** The reader reports exactly the error that the input begins with. */
  lemma ErrorExactly(s: seq<Byte>, depth: nat, e: ProtocolError)
    ensures ParseItem(s, depth) == Failed(e) <==> IsBad(s, depth, e)
  {
    hide IsBad, ParseItem;
    if ParseItem(s, depth) == Failed(e) {
      FailedIsBad(s, depth, e);
    }
    if IsBad(s, depth, e) {
      BadFails(s, depth, e);
    }
  }

  /** What is left to wait for at the end of a stream: neither a text nor an error stands there. */
  ghost predicate Unfinished(s: seq<Byte>) {
    && (forall v, k: nat :: k <= |s| ==> !IsText(v, s[..k], 0))
    && (forall e :: !IsBad(s, 0, e))
  }

  /** A stream is texts of the replies, and then an error, or nothing that could be decided. */
  ghost predicate IsStream(s: seq<Byte>, o: Outcome) {
    exists k: nat :: k <= |s| && AreTexts(o.replies, s[..k], 0) &&
      match o.error
      case Some(e) => IsBad(s[k..], 0, e)
      case None => Unfinished(s[k..])
  }

  lemma UnfinishedExactly(s: seq<Byte>)
    ensures ParseItem(s, 0) == Incomplete <==> Unfinished(s)
  {
    hide ParseItem, IsText, IsBad;
    if ParseItem(s, 0) == Incomplete {
      forall v, k: nat | k <= |s| ensures !IsText(v, s[..k], 0) {
        assert Taken(s, s[k..]) == s[..k] && IsTail(s, s[k..]);
        TextExactly(s, 0, v, s[k..]);
      }
      forall e ensures !IsBad(s, 0, e) {
        ErrorExactly(s, 0, e);
      }
    } else if ParseItem(s, 0).Done? {
      ParsedIsText(s, 0);
      var rest := ParseItem(s, 0).rest;
      assert IsText(ParseItem(s, 0).value, s[..|s| - |rest|], 0);
    } else {
      ErrorExactly(s, 0, ParseItem(s, 0).error);
    }
  }

  lemma {:induction false} TextsThen(vs: seq<Reply>, s: seq<Byte>, later: seq<Byte>)
    requires AreTexts(vs, s, 0)
    ensures ParseAll(s + later) == Prepend(vs, ParseAll(later))
    decreases vs
  {
    hide IsText, ParseItem;
    if vs == [] {
      assert s + later == later;
      assert [] + ParseAll(later).replies == ParseAll(later).replies;
    } else {
      var k := TextsSplit(vs, s, 0);
      hide AreTexts;
      TextParses(vs[0], s[..k], 0, s[k..] + later);
      SplitThen(s, k, later);
      TextsThen(vs[1..], s[k..], later);
      assert vs + ParseAll(later).replies == [vs[0]] + (vs[1..] + ParseAll(later).replies);
    }
  }

  lemma {:induction false} ParsedIsStream(s: seq<Byte>)
    ensures IsStream(s, ParseAll(s))
    decreases |s|
  {
    hide IsText, ParseItem, Unfinished, IsBad;
    if ParseItem(s, 0).Done? {
      ParsedIsText(s, 0);
      var v, mid := ParseItem(s, 0).value, ParseItem(s, 0).rest;
      ParsedIsStream(mid);
      StreamJoin(v, s, mid, ParseAll(mid));
    } else {
      UnfinishedExactly(s);
      if ParseItem(s, 0).Failed? {
        ErrorExactly(s, 0, ParseItem(s, 0).error);
      }
      assert s[..0] == [] && s[0..] == s && AreTexts([], s[..0], 0);
    }
  }

  lemma StreamJoin(v: Reply, s: seq<Byte>, mid: seq<Byte>, o: Outcome)
    requires IsTail(s, mid) && IsText(v, Taken(s, mid), 0) && IsStream(mid, o)
    ensures IsStream(s, Prepend([v], o))
  {
    hide IsText, IsBad, AreTexts, Unfinished;
    var k: nat :| k <= |mid| && AreTexts(o.replies, mid[..k], 0) &&
      match o.error
      case Some(e) => IsBad(mid[k..], 0, e)
      case None => Unfinished(mid[k..]);
    var j := |s| - |mid|;
    assert s[..j + k][..j] == Taken(s, mid) && s[..j + k][j..] == mid[..k];
    TextsJoin(v, o.replies, s[..j + k], j, 0);
    assert s[j + k..] == mid[k..];
  }

  /** The replies and the error of a whole stream are those that its text spells. */
  lemma StreamExactly(s: seq<Byte>, o: Outcome)
    ensures ParseAll(s) == o <==> IsStream(s, o)
  {
    ParsedIsStream(s);
    hide IsText, IsBad, AreTexts, Unfinished, ParseItem;
    if IsStream(s, o) {
      var k: nat :| k <= |s| && AreTexts(o.replies, s[..k], 0) &&
        match o.error
        case Some(e) => IsBad(s[k..], 0, e)
        case None => Unfinished(s[k..]);
      TextsThen(o.replies, s[..k], s[k..]);
      assert s[..k] + s[k..] == s;
      match o.error
      case Some(e) => ErrorExactly(s[k..], 0, e);
      case None => UnfinishedExactly(s[k..]);
    }
  }

  // ---------------------------------------------------------------------
  // Texts known from the protocol.

  /** The aborted transaction and the timed-out pop: a nil, spelled as an array of length -1. */
  lemma NilArrayIsNil(depth: nat, t: seq<Byte>)
    requires depth < 8
    ensures ParseItem([42, 45, 49, 13, 10] + t, depth) == Done(Nil, t)
  {
    assert IsText(Nil, [42, 45, 49, 13, 10], depth);
    TextParses(Nil, [42, 45, 49, 13, 10], depth, t);
  }

  /** GET k, as a client sends it. */
  lemma GetOnTheWire()
    ensures RespCommand.Command([[71, 69, 84], [107]]) ==
              [42, 50, 13, 10] + [36, 51, 13, 10, 71, 69, 84, 13, 10] + [36, 49, 13, 10, 107, 13, 10]
  {
    var argv: seq<seq<Byte>> := [[71, 69, 84], [107]];
    var vs := RespCommand.BulkReplies(argv);
    assert argv[0..] == argv && vs[0..] == vs && vs[2..] == [];
    RespCommand.EncodeBulks(argv, 0);
    RespCommand.EncodeBulks(argv, 1);
    assert Digits(2) == [50] && Digits(3) == [51] && Digits(1) == [49];
  }
}
