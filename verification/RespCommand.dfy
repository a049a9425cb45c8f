/**
 * The request half of the Redis serialization protocol: how hiredis writes
 * commands (hiredis.c), and that its reader reads back what it writes.
 */
module RespCommand {
  import opened Bytes
  import opened Numbers
  import opened RespGrammar
  import opened ReplyHeap
  import opened RespReader

  // ---------------------------------------------------------------------
  // The wire form of every reply, and its parse.

  function BulkText(s: seq<Byte>): seq<Byte> {
    [DOLLAR] + Digits(|s|) + CRLF + s + CRLF
  }

  /** The protocol's encoding of a reply. */
  function Encode(v: Reply): seq<Byte> {
    match v
    case Status(s) => [PLUS] + s + CRLF
    case Error(s) => [MINUS] + s + CRLF
    case Integer(n) => [COLON] + Decimal(n) + CRLF
    case Bulk(s) => BulkText(s)
    case Nil => [DOLLAR] + Decimal(-1) + CRLF
    case Array(vs) => [STAR] + Digits(|vs|) + CRLF + EncodeAll(vs)
  }

  function EncodeAll(vs: seq<Reply>): seq<Byte> {
    if vs == [] then [] else Encode(vs[0]) + EncodeAll(vs[1..])
  }

  /** What the protocol can express at nesting depth `depth`. */
  predicate Encodable(v: Reply, depth: nat)
    decreases v
  {
    match v
    case Status(s) => Newline(s) == None
    case Error(s) => Newline(s) == None
    case Integer(n) => InRange(n)
    case Bulk(s) => |s| <= LLONG_MAX
    case Nil => true
    case Array(vs) => depth < MAX_DEPTH && |vs| <= INT_MAX && forall i :: 0 <= i < |vs| ==> Encodable(vs[i], depth + 1)
  }

  lemma {:induction false} LineEnds(line: seq<Byte>, t: seq<Byte>)
    requires Newline(line) == None
    ensures Newline(line + CRLF + t) == Some(|line|)
    ensures (line + CRLF + t)[..|line|] == line && (line + CRLF + t)[|line| + 2..] == t
  {
    var s := line + CRLF + t;
    if line == [] {
      assert s[0] == CR && s[1] == LF;
    } else {
      assert Newline(line[1..]) == None;
      LineEnds(line[1..], t);
      assert s[1..] == line[1..] + CRLF + t;
      assert s[0] == line[0];
      if |line| == 1 {
        assert s[1] == CR;
      } else {
        assert s[1] == line[1];
      }
    }
  }

  lemma {:induction false} NoCRNoNewline(s: seq<Byte>)
    requires CR !in s
    ensures Newline(s) == None
  {
    if |s| >= 2 {
      assert s[0] in s;
      NoCRNoNewline(s[1..]);
    }
  }

  lemma NumberLine(v: int)
    ensures Newline(Decimal(v)) == None
  {
    DigitsAreCanonical(if v < 0 then -v else v);
    forall i | 0 <= i < |Decimal(v)|
      ensures Decimal(v)[i] != CR
    {
    }
    NoCRNoNewline(Decimal(v));
  }

  /** An item that is a header line: what the reader makes of the bytes after its type byte. */
  lemma HeaderLine(kind: Kind, depth: nat, v: int, t: seq<Byte>)
    requires InRange(v) && kind in {IntegerKind, BulkKind, ArrayKind}
    ensures Int64Of(Decimal(v)) == Some(v)
    ensures HeadOf(kind, depth, Decimal(v) + CRLF + t)
         == match kind
            case IntegerKind => Whole(Integer(v), t)
            case BulkKind => BulkHead(Decimal(v), t)
            case _ => if depth >= MAX_DEPTH then Bad(NestedTooDeep) else ArrayHead(Decimal(v), t)
  {
    NumberLine(v);
    LineEnds(Decimal(v), t);
    Int64OfDecimal(v);
  }

  /** Reading undoes encoding, for every reply the protocol can express and whatever follows it. */
  lemma {:induction false} ParseEncode(v: Reply, depth: nat, t: seq<Byte>)
    requires Encodable(v, depth)
    ensures ParseItem(Encode(v) + t, depth) == Done(v, t)
    decreases v, 0
  {
    if !v.Array? {
      ScalarHead(v, depth, t);
    } else {
      var vs := v.elements;
      if vs != [] {
        ParseEncodeAll(vs, depth + 1, t);
      }
      ArrayParses(vs, depth, t);
    }
  }

  lemma ArrayText(vs: seq<Reply>, t: seq<Byte>)
    ensures Encode(Array(vs)) + t != [] && KindOf((Encode(Array(vs)) + t)[0]) == Some(ArrayKind)
    ensures (Encode(Array(vs)) + t)[1..] == Decimal(|vs|) + CRLF + (EncodeAll(vs) + t)
  {
    hide EncodeAll, Digits;
    TailOf(Digits(|vs|), EncodeAll(vs), t);
  }

  lemma TailOf(n: seq<Byte>, all: seq<Byte>, t: seq<Byte>)
    ensures [STAR] + n + CRLF + all + t != [] && ([STAR] + n + CRLF + all + t)[0] == STAR
    ensures ([STAR] + n + CRLF + all + t)[1..] == n + CRLF + (all + t)
  {
  }

  /** An array parses when its elements do. */
  lemma ArrayParses(vs: seq<Reply>, depth: nat, t: seq<Byte>)
    requires |vs| <= INT_MAX && depth < MAX_DEPTH
    requires vs != [] ==> ParseItems(EncodeAll(vs) + t, |vs|, depth + 1) == Done(vs, t)
    ensures ParseItem(Encode(Array(vs)) + t, depth) == Done(Array(vs), t)
  {
    var rest := EncodeAll(vs) + t;
    if vs == [] {
      assert rest == t;
    }
    ArrayText(vs, t);
    hide Encode, EncodeAll;
    HeaderLine(ArrayKind, depth, |vs|, rest);
    hide HeadOf, Decimal;
  }

  function KindOfReply(v: Reply): Kind {
    match v
    case Status(_) => StatusKind
    case Error(_) => ErrorKind
    case Integer(_) => IntegerKind
    case Array(_) => ArrayKind
    case _ => BulkKind
  }

  lemma ScalarHead(v: Reply, depth: nat, t: seq<Byte>)
    requires Encodable(v, depth) && !v.Array?
    ensures HeadIs(v, depth, t)
  {
    match v
    case Status(str) => LineHead(v, depth, t);
    case Error(str) => LineHead(v, depth, t);
    case Integer(n) => NumberHead(n, depth, t);
    case Nil => NilHead(depth, t);
    case Bulk(str) => BulkHeadOf(str, depth, t);
  }

  /** The type byte of a scalar's encoding names its kind, and the rest is its head. */
  ghost predicate HeadIs(v: Reply, depth: nat, t: seq<Byte>) {
    var s := Encode(v) + t;
    s != [] && KindOf(s[0]) == Some(KindOfReply(v)) && HeadOf(KindOfReply(v), depth, s[1..]) == Whole(v, t)
  }

  lemma LineHead(v: Reply, depth: nat, t: seq<Byte>)
    requires (v.Status? || v.Error?) && Newline(v.str) == None
    ensures HeadIs(v, depth, t)
  {
    var b := if v.Status? then PLUS else MINUS;
    assert Encode(v) == [b] + (v.str + CRLF);
    Behind(b, v.str + CRLF, t);
    LineEnds(v.str, t);
  }

  lemma NumberHead(n: int, depth: nat, t: seq<Byte>)
    requires InRange(n)
    ensures HeadIs(Integer(n), depth, t)
  {
    hide HeadOf, Decimal, Int64Of;
    assert Encode(Integer(n)) == [COLON] + (Decimal(n) + CRLF);
    Behind(COLON, Decimal(n) + CRLF, t);
    HeaderLine(IntegerKind, depth, n, t);
  }

  lemma NilHead(depth: nat, t: seq<Byte>)
    ensures HeadIs(Nil, depth, t)
  {
    hide HeadOf, Decimal, Int64Of;
    assert Encode(Nil) == [DOLLAR] + (Decimal(-1) + CRLF);
    Behind(DOLLAR, Decimal(-1) + CRLF, t);
    HeaderLine(BulkKind, depth, -1, t);
  }

  lemma Behind(b: Byte, body: seq<Byte>, t: seq<Byte>)
    ensures [b] + body + t != [] && ([b] + body + t)[0] == b && ([b] + body + t)[1..] == body + t
  {
  }

  lemma BulkHeadOf(str: seq<Byte>, depth: nat, t: seq<Byte>)
    requires |str| <= LLONG_MAX
    ensures HeadIs(Bulk(str), depth, t)
  {
    hide Int64Of;
    var rest := str + CRLF + t;
    assert (BulkText(str) + t)[1..] == Decimal(|str|) + CRLF + rest;
    HeaderLine(BulkKind, depth, |str|, rest);
    assert rest[..|str|] == str && rest[|str| + 2..] == t;
  }

  lemma {:induction false} ParseEncodeAll(vs: seq<Reply>, depth: nat, t: seq<Byte>)
    requires forall i :: 0 <= i < |vs| ==> Encodable(vs[i], depth)
    ensures ParseItems(EncodeAll(vs) + t, |vs|, depth) == Done(vs, t)
    decreases vs, 1
  {
    if vs == [] {
      assert EncodeAll(vs) + t == t;
    } else {
      var rest := EncodeAll(vs[1..]) + t;
      Assoc(Encode(vs[0]), EncodeAll(vs[1..]), t);
      ParseEncode(vs[0], depth, rest);
      ParseEncodeAll(vs[1..], depth, t);
      hide Encode, EncodeAll;
      assert [vs[0]] + vs[1..] == vs;
    }
  }

  /** A stream of encoded replies is read as exactly those replies, with nothing left over. */
  lemma {:induction false} ParseStream(vs: seq<Reply>)
    requires forall i :: 0 <= i < |vs| ==> Encodable(vs[i], 0)
    ensures ParseAll(EncodeAll(vs)) == Outcome(vs, None)
  {
    if vs != [] {
      ParseEncode(vs[0], 0, EncodeAll(vs[1..]));
      ParseStream(vs[1..]);
      assert [vs[0]] + vs[1..] == vs;
    }
  }

  // ---------------------------------------------------------------------
  // Commands.

  function BulkReplies(argv: seq<seq<Byte>>): (vs: seq<Reply>)
    ensures |vs| == |argv| && forall i :: 0 <= i < |vs| ==> vs[i] == Bulk(argv[i])
  {
    seq(|argv|, i requires 0 <= i < |argv| => Bulk(argv[i]))
  }

  /** A command is sent as an array of bulk strings. */
  function Command(argv: seq<seq<Byte>>): seq<Byte> {
    Encode(Array(BulkReplies(argv)))
  }

  predicate Sendable(argv: seq<seq<Byte>>) {
    |argv| <= INT_MAX && forall i :: 0 <= i < |argv| ==> |argv[i]| <= LLONG_MAX
  }

  /** bulklen */
  method BulkLen(len: nat) returns (r: nat)
    ensures forall s: seq<Byte> :: |s| == len ==> r == |BulkText(s)|
  {
    var digits := CountDigits(len);
    r := 1 + digits + 2 + len + 2;
  }

  /** sprintf or memcpy into the middle of a buffer. */
  method Put(cmd: array<Byte>, pos: nat, text: seq<Byte>) returns (pos': nat)
    requires pos + |text| <= cmd.Length
    modifies cmd
    ensures pos' == pos + |text|
    ensures cmd[..pos'] == old(cmd[..pos]) + text
  {
    forall i | 0 <= i < |text| {
      cmd[pos + i] := text[i];
    }
    pos' := pos + |text|;
  }

  method PutBulk(cmd: array<Byte>, pos: nat, arg: seq<Byte>) returns (pos': nat)
    requires pos + |BulkText(arg)| <= cmd.Length
    modifies cmd
    ensures pos' == pos + |BulkText(arg)|
    ensures cmd[..pos'] == old(cmd[..pos]) + BulkText(arg)
  {
    pos' := Put(cmd, pos, [DOLLAR] + Digits(|arg|) + CRLF);
    pos' := Put(cmd, pos', arg);
    ghost var written := cmd[..pos'];
    cmd[pos'] := CR;
    pos' := pos' + 1;
    cmd[pos'] := LF;
    pos' := pos' + 1;
    assert cmd[..pos'] == written + CRLF;
  }

  lemma EncodeBulks(argv: seq<seq<Byte>>, j: nat)
    requires j < |argv|
    ensures EncodeAll(BulkReplies(argv)[j..]) == BulkText(argv[j]) + EncodeAll(BulkReplies(argv)[j + 1..])
  {
    assert BulkReplies(argv)[j..][1..] == BulkReplies(argv)[j + 1..];
  }

  /** The length of a command, computed before it is written. */
  method TotalLength(argv: seq<seq<Byte>>) returns (totlen: nat)
    ensures totlen == |Command(argv)|
  {
    var digits := CountDigits(|argv|);
    totlen := 1 + digits + 2;
    ghost var vs := BulkReplies(argv);
    assert vs[0..] == vs;
    for j := 0 to |argv|
      invariant totlen + |EncodeAll(vs[j..])| == |Command(argv)|
    {
      EncodeBulks(argv, j);
      var bulk := BulkLen(|argv[j]|);
      totlen := totlen + bulk;
    }
  }

  lemma CommandBegins(argv: seq<seq<Byte>>)
    ensures Command(argv) == [STAR] + Digits(|argv|) + CRLF + EncodeAll(BulkReplies(argv)[0..])
  {
    assert BulkReplies(argv)[0..] == BulkReplies(argv);
  }

  lemma CommandEnds(argv: seq<seq<Byte>>)
    ensures EncodeAll(BulkReplies(argv)[|argv|..]) == []
  {
  }

  /** Writes the command into a buffer of the length computed for it, plus the final NUL. */
  method Build(argv: seq<seq<Byte>>, totlen: nat) returns (cmd: array<Byte>)
    requires totlen == |Command(argv)|
    ensures fresh(cmd) && cmd.Length == totlen + 1
    ensures cmd[..totlen] == Command(argv) && cmd[totlen] == NUL
  {
    cmd := new Byte[totlen + 1];
    ghost var vs, all := BulkReplies(argv), Command(argv);
    CommandBegins(argv);
    hide BulkReplies, Encode, EncodeAll, BulkText, Digits, Command, Completes;
    var pos := Put(cmd, 0, [STAR] + Digits(|argv|) + CRLF);
    assert Completes(cmd[..pos], EncodeAll(vs[0..]), all) by { CompletesTwo(cmd[..pos], EncodeAll(vs[0..])); }
    for j := 0 to |argv|
      invariant 0 <= pos <= totlen && pos + |EncodeAll(vs[j..])| == totlen
      invariant Completes(cmd[..pos], EncodeAll(vs[j..]), all)
    {
      EncodeBulks(argv, j);
      CompletesMore(cmd[..pos], BulkText(argv[j]), EncodeAll(vs[j + 1..]), all);
      pos := PutBulk(cmd, pos, argv[j]);
    }
    CommandEnds(argv);
    CompletesEnd(cmd[..pos], all);
    cmd[pos] := NUL;
  }

  /** redisFormatCommandArgv */
  method FormatCommandArgv(argv: seq<seq<Byte>>) returns (cmd: array<Byte>, len: nat)
    ensures fresh(cmd) && cmd.Length == len + 1
    ensures cmd[..len] == Command(argv) && cmd[len] == NUL
  {
    len := TotalLength(argv);
    cmd := Build(argv, len);
  }

  /**
   * Commands survive the wire: however the bytes of any sequence of commands are
   * cut into pieces, the reader yields one array of bulk strings per command,
   * equal to its arguments byte for byte, and no error.
   */
  method CommandsSurvive(commands: seq<seq<seq<Byte>>>, pieces: seq<seq<Byte>>)
      returns (heap: Heap, replies: seq<int>, err: Option<ProtocolError>)
    requires forall i :: 0 <= i < |commands| ==> Sendable(commands[i])
    requires Concat(pieces) == Concat(seq(|commands|, i requires 0 <= i < |commands| => Command(commands[i])))
    ensures err == None && |replies| == |commands|
    ensures forall i :: 0 <= i < |replies| ==> IsTree(heap, replies[i], |heap|, Array(BulkReplies(commands[i])))
  {
    ghost var vs := seq(|commands|, i requires 0 <= i < |commands| => Array(BulkReplies(commands[i])));
    ghost var texts := seq(|commands|, i requires 0 <= i < |commands| => Command(commands[i]));
    EncodeAllIsConcat(vs, texts);
    ParseStream(vs);
    heap, replies, err := ReadStream(pieces);
  }

  lemma {:induction false} EncodeAllIsConcat(vs: seq<Reply>, texts: seq<seq<Byte>>)
    requires |vs| == |texts| && forall i :: 0 <= i < |vs| ==> texts[i] == Encode(vs[i])
    ensures EncodeAll(vs) == Concat(texts)
  {
    if vs != [] {
      EncodeAllIsConcat(vs[1..], texts[1..]);
    }
  }

  // ---------------------------------------------------------------------
  // printf-like formats.

  const LOWER_B: Byte := 98
  const LOWER_S: Byte := 115
  const LOWER_H: Byte := 104
  const LOWER_L: Byte := 108
  const POINT: Byte := 46
  /** A conversion from this length on does not fit into the buffer for it. */
  const CONVERSION_LIMIT := 14

  /** The format read conversion by conversion: a literal space, or text that goes into an argument. */
  datatype Piece = Gap | Text(bytes: seq<Byte>)

  /** How reading a format ends. PastEnd: the position has gone beyond the end of the format. */
  datatype Ending = Complete | FormatError | PastEnd

  /** # 0 - + and space */
  predicate IsFlag(b: Byte) {
    b in {35, 48, 45, 43, 32}
  }

  /** d i o u x X */
  predicate IsIntConversion(b: Byte) {
    b in {100, 105, 111, 117, 120, 88}
  }

  /** e E f F g G a A */
  predicate IsDoubleConversion(b: Byte) {
    b in {101, 69, 102, 70, 103, 71, 97, 65}
  }

  function AfterFlags(s: seq<Byte>): (r: seq<Byte>)
    ensures |r| <= |s|
  {
    if s != [] && IsFlag(s[0]) then AfterFlags(s[1..]) else s
  }

  function AfterDigits(s: seq<Byte>): (r: seq<Byte>)
    ensures |r| <= |s|
  {
    if s != [] && IsDigit(s[0]) then AfterDigits(s[1..]) else s
  }

  /** What follows flags, width and precision. */
  function AfterSpec(s: seq<Byte>): (r: seq<Byte>)
    ensures |r| <= |s|
  {
    var p := AfterDigits(AfterFlags(s));
    if p != [] && p[0] == POINT then AfterDigits(p[1..]) else p
  }

  /** A conversion as printf has them: what follows it, or the end of the format comes first, or it is none. */
  datatype Conversion = Valid(rest: seq<Byte>) | CutShort | Unknown

  function Sized(p: seq<Byte>): (c: Conversion)
    ensures c.Valid? ==> |c.rest| < |p|
  {
    if p != [] && IsIntConversion(p[0]) then Valid(p[1..]) else Unknown
  }

  function ConversionOf(s: seq<Byte>): (c: Conversion)
    ensures c.Valid? ==> |c.rest| < |s|
  {
    var p := AfterSpec(s);
    if p == [] then CutShort
    else if IsIntConversion(p[0]) || IsDoubleConversion(p[0]) then Valid(p[1..])
    else if p[0] == LOWER_H then Sized(if |p| > 1 && p[1] == LOWER_H then p[2..] else p[1..])
    else if p[0] == LOWER_L then Sized(if |p| > 1 && p[1] == LOWER_L then p[2..] else p[1..])
    else Unknown
  }

  /** A conversion that takes an argument: the format goes on with rest, and the argument's text may have been used. */
  datatype Step = Takes(rest: seq<Byte>, used: bool) | Fails(end: Ending)

  predicate TakesArgument(format: seq<Byte>) {
    |format| >= 2 && format[0] == PERCENT && format[1] != PERCENT
  }

  /**
   * The end of the format is taken for an integer conversion, which leads beyond it.
   * A conversion that is too long takes its argument but adds nothing, and is then
   * read as text.
   */
  function StepOf(format: seq<Byte>): (t: Step)
    requires TakesArgument(format)
    ensures t.Takes? ==> |t.rest| < |format|
  {
    if format[1] == LOWER_S || format[1] == LOWER_B then Takes(format[2..], true)
    else
      match ConversionOf(format[1..])
      case Unknown => Fails(FormatError)
      case CutShort => if |format| + 1 < CONVERSION_LIMIT then Fails(PastEnd) else Takes(format[2..], false)
      case Valid(rest) => if |format| - |rest| < CONVERSION_LIMIT then Takes(rest, true) else Takes(format[2..], false)
  }

  /** Whether there is an argument for each conversion; each is given as the bytes that it is printed as. */
  predicate Fits(format: seq<Byte>, args: seq<seq<Byte>>)
    decreases |format|
  {
    if |format| < 2 then true
    else if format[0] != PERCENT then Fits(format[1..], args)
    else if format[1] == PERCENT then Fits(format[2..], args)
    else
      match StepOf(format)
      case Fails(end) => end == PastEnd ==> args != []
      case Takes(rest, _) => args != [] && Fits(rest, args[1..])
  }

  function Pieces(format: seq<Byte>, args: seq<seq<Byte>>): seq<Piece>
    requires Fits(format, args)
    decreases |format|
  {
    if format == [] then []
    else if format[0] != PERCENT || |format| == 1 then
      [if format[0] == SPACE then Gap else Text([format[0]])] + Pieces(format[1..], args)
    else if format[1] == PERCENT then [Text([PERCENT])] + Pieces(format[2..], args)
    else
      match StepOf(format)
      case Fails(_) => []
      case Takes(rest, used) => [Text(if used then args[0] else [])] + Pieces(rest, args[1..])
  }

  /** How reading the format ends; the arguments do not matter. */
  function EndingOf(format: seq<Byte>): Ending
    decreases |format|
  {
    if format == [] then Complete
    else if format[0] != PERCENT || |format| == 1 then EndingOf(format[1..])
    else if format[1] == PERCENT then EndingOf(format[2..])
    else
      match StepOf(format)
      case Fails(end) => end
      case Takes(rest, _) => EndingOf(rest)
  }

  /** How many pieces from the front are text. */
  function Run(ps: seq<Piece>): (n: nat)
    ensures n <= |ps| && (forall i :: 0 <= i < n ==> ps[i].Text?) && (n < |ps| ==> ps[n].Gap?)
  {
    if ps == [] || ps[0].Gap? then 0 else 1 + Run(ps[1..])
  }

  function Joined(ps: seq<Piece>): seq<Byte>
    requires forall i :: 0 <= i < |ps| ==> ps[i].Text?
  {
    if ps == [] then [] else ps[0].bytes + Joined(ps[1..])
  }

  /** The arguments of a format: its maximal runs of text between gaps, each joined up. */
  function Words(ps: seq<Piece>): seq<seq<Byte>>
    decreases |ps|
  {
    if ps == [] then []
    else if ps[0].Gap? then Words(ps[1..])
    else
      var n := Run(ps);
      [Joined(ps[..n])] + Words(ps[n..])
  }

  /** Words, when `cur` has already been collected for the argument at the front. */
  function WordsAfter(cur: seq<Byte>, touched: bool, ps: seq<Piece>): seq<seq<Byte>> {
    if touched then
      var n := Run(ps);
      [cur + Joined(ps[..n])] + Words(ps[n..])
    else Words(ps)
  }

  lemma WordsStart(ps: seq<Piece>)
    ensures WordsAfter([], false, ps) == Words(ps)
  {
  }

  lemma WordsEnd(cur: seq<Byte>, touched: bool, format: seq<Byte>, args: seq<seq<Byte>>)
    requires format == [] && Fits(format, args)
    ensures EndingOf(format) == Complete
    ensures WordsAfter(cur, touched, Pieces(format, args)) == if touched then [cur] else []
  {
    var ps := Pieces(format, args);
    assert ps[..0] == [] && cur + [] == cur;
  }

  lemma TakeText(cur: seq<Byte>, touched: bool, ps: seq<Piece>)
    requires ps != [] && ps[0].Text? && (!touched ==> cur == [])
    ensures WordsAfter(cur, touched, ps) == WordsAfter(cur + ps[0].bytes, true, ps[1..])
  {
    var n := Run(ps);
    assert n == 1 + Run(ps[1..]);
    assert ps[..n][1..] == ps[1..][..n - 1];
    assert ps[n..] == ps[1..][n - 1..];
    var later := Joined(ps[1..][..n - 1]);
    assert Joined(ps[..n]) == ps[0].bytes + later;
    assert cur + (ps[0].bytes + later) == cur + ps[0].bytes + later;
    if !touched {
      assert cur + ps[0].bytes + later == ps[0].bytes + later;
      assert Words(ps) == [ps[0].bytes + later] + Words(ps[n..]);
    }
  }

  lemma TakeGap(cur: seq<Byte>, touched: bool, ps: seq<Piece>)
    requires ps != [] && ps[0].Gap?
    ensures WordsAfter(cur, touched, ps) == (if touched then [cur] else []) + WordsAfter([], false, ps[1..])
  {
    assert ps[..0] == [] && ps[0..] == ps;
    assert cur + [] == cur;
  }

  /** The piece that begins at c, and those after it. */
  lemma PiecesAt(format: seq<Byte>, args: seq<seq<Byte>>, c: nat, ap: nat)
    requires c < |format| && ap <= |args| && Fits(format[c..], args[ap..])
    ensures var ps := Pieces(format[c..], args[ap..]);
            && (format[c] != PERCENT || c + 1 == |format| ==>
                  && Fits(format[c + 1..], args[ap..])
                  && ps == [if format[c] == SPACE then Gap else Text([format[c]])] + Pieces(format[c + 1..], args[ap..])
                  && EndingOf(format[c..]) == EndingOf(format[c + 1..]))
            && (format[c] == PERCENT && c + 1 < |format| && format[c + 1] == PERCENT ==>
                  && Fits(format[c + 2..], args[ap..])
                  && ps == [Text([PERCENT])] + Pieces(format[c + 2..], args[ap..])
                  && EndingOf(format[c..]) == EndingOf(format[c + 2..]))
            && (format[c] == PERCENT && c + 1 < |format| && format[c + 1] != PERCENT ==>
                  && TakesArgument(format[c..])
                  && match StepOf(format[c..])
                     case Fails(end) => EndingOf(format[c..]) == end
                     case Takes(rest, used) =>
                       && ap < |args| && Fits(rest, args[ap + 1..])
                       && ps == [Text(if used then args[ap] else [])] + Pieces(rest, args[ap + 1..])
                       && EndingOf(format[c..]) == EndingOf(rest))
  {
    hide StepOf;
    assert format[c..][1..] == format[c + 1..];
    if c + 1 < |format| {
      assert format[c..][2..] == format[c + 2..];
    }
    if ap < |args| {
      assert args[ap..][1..] == args[ap + 1..];
    }
  }

  /** The end of a run of digits. */
  method SkipDigits(format: seq<Byte>, from: nat) returns (p: nat)
    requires from <= |format|
    ensures from <= p <= |format| && format[p..] == AfterDigits(format[from..])
  {
    p := from;
    while p < |format| && IsDigit(format[p])
      invariant from <= p <= |format| && AfterDigits(format[from..]) == AfterDigits(format[p..])
    {
      assert format[p..][1..] == format[p + 1..];
      p := p + 1;
    }
  }

  method SkipFlags(format: seq<Byte>, from: nat) returns (p: nat)
    requires from <= |format|
    ensures from <= p <= |format| && format[p..] == AfterFlags(format[from..])
  {
    p := from;
    while p < |format| && IsFlag(format[p])
      invariant from <= p <= |format| && AfterFlags(format[from..]) == AfterFlags(format[p..])
    {
      assert format[p..][1..] == format[p + 1..];
      p := p + 1;
    }
  }

  /** Flags, width and precision. */
  method SkipSpec(format: seq<Byte>, from: nat) returns (p: nat)
    requires from <= |format|
    ensures from <= p <= |format| && format[p..] == AfterSpec(format[from..])
  {
    hide AfterFlags, AfterDigits;
    p := SkipFlags(format, from);
    p := SkipDigits(format, p);
    if p < |format| && format[p] == POINT {
      assert format[p..][1..] == format[p + 1..];
      p := SkipDigits(format, p + 1);
    }
  }

  /** The detection of printf conversions: where the conversion ends, if it is one; at the end of the format there is one, too. */
  method Detect(format: seq<Byte>, from: nat) returns (valid: bool, p: nat)
    requires from <= |format|
    ensures from <= p <= |format|
    ensures match ConversionOf(format[from..])
            case Unknown => !valid
            case CutShort => valid && p == |format|
            case Valid(rest) => valid && p < |format| && rest == format[p + 1..]
  {
    hide AfterFlags, AfterDigits, IsIntConversion, IsDoubleConversion, Sized;
    p := SkipSpec(format, from);
    ghost var spec := format[p..];
    hide AfterSpec;
    if p == |format| {
      return true, p;
    }
    assert spec[0] == format[p] && spec[1..] == format[p + 1..];
    if IsIntConversion(format[p]) || IsDoubleConversion(format[p]) {
      return true, p;
    }
    if format[p] == LOWER_H || format[p] == LOWER_L {
      var size := format[p];
      p := p + 1;
      if p < |format| && format[p] == size {
        assert spec[1] == format[p] && spec[2..] == format[p + 1..];
        p := p + 1;
      }
      assert ConversionOf(format[from..]) == Sized(format[p..]);
      hide ConversionOf;
      valid := DetectSized(format, p);
      return valid, p;
    }
    return false, p;
  }

  method DetectSized(format: seq<Byte>, p: nat) returns (valid: bool)
    requires p <= |format|
    ensures valid ==> p < |format|
    ensures Sized(format[p..]) == if valid then Valid(format[p + 1..]) else Unknown
  {
    if p < |format| && IsIntConversion(format[p]) {
      assert format[p..][0] == format[p] && format[p..][1..] == format[p + 1..];
      return true;
    }
    return false;
  }

  /** A conversion at c: the text that it adds, and where the format goes on. */
  method Convert(format: seq<Byte>, c: nat, arg: seq<Byte>) returns (end: Ending, added: seq<Byte>, c': nat)
    requires c < |format| && TakesArgument(format[c..])
    ensures match StepOf(format[c..])
            case Fails(e) => end == e != Complete
            case Takes(rest, used) =>
              end == Complete && c < c' <= |format| && rest == format[c'..] && added == if used then arg else []
  {
    hide ConversionOf;
    var tail := format[c..];
    assert tail[1] == format[c + 1] && tail[1..] == format[c + 1..] && tail[2..] == format[c + 2..];
    if format[c + 1] == LOWER_S || format[c + 1] == LOWER_B {
      return Complete, arg, c + 2;
    }
    var valid, p := Detect(format, c + 1);
    if !valid {
      return FormatError, [], c;
    }
    if p + 1 - c < CONVERSION_LIMIT {
      if p == |format| {
        return PastEnd, [], c;
      }
      return Complete, arg, p + 1;
    }
    return Complete, [], c + 2;
  }

  /** The argument vector that redisvFormatCommand collects. */
  method CollectArgv(format: seq<Byte>, args: seq<seq<Byte>>) returns (end: Ending, curargv: seq<seq<Byte>>)
    requires Fits(format, args)
    ensures end == EndingOf(format)
    ensures end == Complete ==> curargv == Words(Pieces(format, args))
  {
    hide Pieces, Fits, Words, WordsAfter, StepOf, EndingOf;
    var c, ap := 0, 0;
    var curarg: seq<Byte>, touched := [], false;
    curargv := [];
    assert format[0..] == format && args[0..] == args;
    WordsStart(Pieces(format, args));
    while c < |format|
      invariant c <= |format| && ap <= |args| && Fits(format[c..], args[ap..])
      invariant !touched ==> curarg == []
      invariant Words(Pieces(format, args)) == curargv + WordsAfter(curarg, touched, Pieces(format[c..], args[ap..]))
      invariant EndingOf(format) == EndingOf(format[c..])
    {
      ghost var ps := Pieces(format[c..], args[ap..]);
      PiecesAt(format, args, c, ap);
      if format[c] != PERCENT || c + 1 == |format| {
        assert ps[1..] == Pieces(format[c + 1..], args[ap..]);
        if format[c] == SPACE {
          TakeGap(curarg, touched, ps);
          if touched {
            curargv := curargv + [curarg];
            curarg := [];
            touched := false;
          }
        } else {
          TakeText(curarg, touched, ps);
          curarg := curarg + [format[c]];
          touched := true;
        }
        c := c + 1;
      } else if format[c + 1] == PERCENT {
        assert ps[1..] == Pieces(format[c + 2..], args[ap..]);
        TakeText(curarg, touched, ps);
        curarg := curarg + [PERCENT];
        touched := true;
        c := c + 2;
      } else {
        var arg := if ap < |args| then args[ap] else [];
        var stop, added, next := Convert(format, c, arg);
        if stop != Complete {
          return stop, [];
        }
        assert ps[1..] == Pieces(format[next..], args[ap + 1..]);
        TakeText(curarg, touched, ps);
        curarg := curarg + added;
        touched := true;
        ap := ap + 1;
        c := next;
      }
    }
    WordsEnd(curarg, touched, format[c..], args[ap..]);
    if touched {
      curargv := curargv + [curarg];
    }
    end := Complete;
  }

  /** redisvFormatCommand: the same bytes as FormatCommandArgv of the format's words, or a format error. */
  method FormatCommand(format: seq<Byte>, args: seq<seq<Byte>>) returns (end: Ending, cmd: array<Byte>, len: nat)
    requires Fits(format, args)
    ensures end == EndingOf(format)
    ensures end == Complete ==>
              fresh(cmd) && cmd.Length == len + 1 && cmd[..len] == Command(Words(Pieces(format, args))) && cmd[len] == NUL
  {
    var argv;
    end, argv := CollectArgv(format, args);
    len := TotalLength(argv);
    cmd := Build(argv, len);
  }

  /** How many per cent signs the text ends with. */
  function Percents(s: seq<Byte>): nat {
    if s == [] || s[|s| - 1] != PERCENT then 0 else 1 + Percents(s[..|s| - 1])
  }

  /** The per cent sign at k begins a conversion: it is the last of an odd number in a row, and not the last character. */
  predicate Begins(format: seq<Byte>, k: nat) {
    k + 1 < |format| && format[k] == PERCENT && format[k + 1] != PERCENT && Percents(format[..k + 1]) % 2 == 1
  }

  /** A per cent sign, not of %s, %b or %%, behind which only flags, width and precision are left; it has at most 12 characters. */
  predicate EndsInside(tail: seq<Byte>) {
    && 2 <= |tail| <= 12 && tail[0] == PERCENT && tail[1] !in {PERCENT, LOWER_S, LOWER_B}
    && AfterSpec(tail[1..]) == []
  }

  /** A per cent sign that begins no conversion. */
  predicate IsInvalid(tail: seq<Byte>) {
    && 2 <= |tail| && tail[0] == PERCENT && tail[1] !in {PERCENT, LOWER_S, LOWER_B}
    && ConversionOf(tail[1..]) == Unknown
  }

  ghost predicate HasInvalid(format: seq<Byte>) {
    exists k: nat :: Begins(format, k) && IsInvalid(format[k..])
  }

  ghost predicate HasCutShort(format: seq<Byte>) {
    exists k: nat :: Begins(format, k) && EndsInside(format[k..])
  }

  lemma {:induction false} PercentsJoin(a: seq<Byte>, b: seq<Byte>)
    ensures Percents(b) <= |b|
    ensures Percents(a + b) == if Percents(b) == |b| then Percents(a) + |b| else Percents(b)
    decreases |b|
  {
    if b == [] {
      assert a + b == a;
    } else {
      var c := b[..|b| - 1];
      PercentsJoin(a, c);
      assert (a + b)[..|a + b| - 1] == a + c;
    }
  }

  /** Behind an even number of per cent signs the rest begins its conversions on its own. */
  lemma BeginsLater(format: seq<Byte>, n: nat, k: nat)
    requires n <= k < |format| && Percents(format[..n]) % 2 == 0
    ensures Begins(format, k) <==> Begins(format[n..], k - n)
    ensures format[k..] == format[n..][k - n..]
  {
    var rest := format[n..][..k - n + 1];
    assert format[..k + 1] == format[..n] + rest;
    PercentsJoin(format[..n], rest);
    if Percents(rest) == |rest| {
      assert Percents(format[..k + 1]) % 2 == Percents(rest) % 2;
    }
  }

  lemma {:induction false} FlagsHaveNoPercent(s: seq<Byte>)
    ensures var r := AfterFlags(s); r == s[|s| - |r|..] && PERCENT !in s[..|s| - |r|]
  {
    if s != [] && IsFlag(s[0]) {
      FlagsHaveNoPercent(s[1..]);
      var n := |s| - |AfterFlags(s)|;
      assert s[..n] == [s[0]] + s[1..][..n - 1];
    }
  }

  lemma {:induction false} DigitsHaveNoPercent(s: seq<Byte>)
    ensures var r := AfterDigits(s); r == s[|s| - |r|..] && PERCENT !in s[..|s| - |r|]
  {
    if s != [] && IsDigit(s[0]) {
      DigitsHaveNoPercent(s[1..]);
      var n := |s| - |AfterDigits(s)|;
      assert s[..n] == [s[0]] + s[1..][..n - 1];
    }
  }

  /** rest is the end of s, and there is no per cent sign before it. */
  predicate Follows(s: seq<Byte>, rest: seq<Byte>) {
    |rest| <= |s| && rest == s[|s| - |rest|..] && PERCENT !in s[..|s| - |rest|]
  }

  lemma FollowsOn(s: seq<Byte>, mid: seq<Byte>, rest: seq<Byte>)
    requires Follows(s, mid) && Follows(mid, rest)
    ensures Follows(s, rest)
  {
    var n, m := |s| - |mid|, |s| - |rest|;
    assert s[..m] == s[..n] + mid[..m - n];
  }

  lemma FollowsOne(s: seq<Byte>)
    requires s != [] && s[0] != PERCENT
    ensures Follows(s, s[1..])
  {
    assert s[..1] == [s[0]];
  }

  lemma SpecHasNoPercent(s: seq<Byte>)
    ensures Follows(s, AfterSpec(s))
  {
    hide AfterFlags, AfterDigits;
    FlagsHaveNoPercent(s);
    var f := AfterFlags(s);
    DigitsHaveNoPercent(f);
    var p := AfterDigits(f);
    assert Follows(s, f) && Follows(f, p);
    FollowsOn(s, f, p);
    if p != [] && p[0] == POINT {
      FollowsOne(p);
      DigitsHaveNoPercent(p[1..]);
      FollowsOn(s, p, p[1..]);
      FollowsOn(s, p[1..], AfterDigits(p[1..]));
    }
  }

  lemma ConversionHasNoPercent(s: seq<Byte>)
    requires ConversionOf(s).Valid?
    ensures Follows(s, ConversionOf(s).rest)
  {
    hide Follows, AfterSpec;
    var p := AfterSpec(s);
    SpecHasNoPercent(s);
    FollowsOne(p);
    FollowsOn(s, p, p[1..]);
    if !(IsIntConversion(p[0]) || IsDoubleConversion(p[0])) {
      var q := if |p| > 1 && p[1] == p[0] then p[2..] else p[1..];
      if |p| > 1 && p[1] == p[0] {
        FollowsOne(p[1..]);
        assert p[1..][1..] == q;
        FollowsOn(s, p[1..], q);
      }
      FollowsOne(q);
      FollowsOn(s, q, q[1..]);
    }
  }

  lemma {:induction false} EndsWithout(s: seq<Byte>)
    requires s != [] && s[|s| - 1] != PERCENT
    ensures Percents(s) == 0
  {
  }

  /** A conversion that takes its argument begins at its per cent sign, and none begins inside it. */
  lemma StepSkips(format: seq<Byte>, k: nat)
    requires TakesArgument(format) && StepOf(format).Takes? && k < |format| - |StepOf(format).rest|
    ensures StepOf(format).rest == format[|format| - |StepOf(format).rest|..]
    ensures k > 0 ==> format[k] != PERCENT
    ensures !IsInvalid(format) && !EndsInside(format)
    ensures Percents(format[..|format| - |StepOf(format).rest|]) == 0
  {
    var rest := StepOf(format).rest;
    var n := |format| - |rest|;
    if ConversionOf(format[1..]).Valid? {
      ConversionHasNoPercent(format[1..]);
      var conversion := ConversionOf(format[1..]).rest;
      assert rest == conversion ==> forall i :: 0 < i < n ==> format[i] == format[1..][..n - 1][i - 1];
    }
    hide ConversionOf, Follows;
    assert n >= 2;
    EndsWithout(format[..n]);
  }

  /**
   * Whether the loop fails can be told from the per cent signs that begin a conversion:
   * it reports a format error exactly if one of them is followed by none, and leaves the
   * format exactly if, with none of these, one is cut off by the end of the format.
   */
  lemma {:induction false} EndingExactly(format: seq<Byte>)
    ensures EndingOf(format) == FormatError <==> HasInvalid(format)
    ensures EndingOf(format) == PastEnd <==> !HasInvalid(format) && HasCutShort(format)
    decreases |format|
  {
    if format == [] {
    } else if format[0] != PERCENT || |format| == 1 {
      assert |format| > 1 ==> Percents(format[..1]) == 0;
      EndingBehind(format, 1);
    } else if format[1] == PERCENT {
      assert format[..1] == [PERCENT] && format[..2][..1] == format[..1];
      assert Percents(format[..1]) == 1 && Percents(format[..2]) == 2;
      EndingBehind(format, 2);
    } else {
      EndingAtConversion(format);
    }
  }

  lemma {:induction false} EndingAtConversion(format: seq<Byte>)
    requires TakesArgument(format)
    ensures EndingOf(format) == FormatError <==> HasInvalid(format)
    ensures EndingOf(format) == PastEnd <==> !HasInvalid(format) && HasCutShort(format)
    decreases |format|, 1
  {
    assert format[..1] == [PERCENT] && Percents(format[..1]) == 1 && format[0..] == format;
    assert Begins(format, 0);
    if StepOf(format).Takes? {
      var n := |format| - |StepOf(format).rest|;
      StepSkips(format, 0);
      forall k: nat | k < n && Begins(format, k) ensures !IsInvalid(format[k..]) && !EndsInside(format[k..]) {
        StepSkips(format, k);
      }
      EndingBehind(format, n);
    } else if StepOf(format) == Fails(PastEnd) {
      OnlyPercent(format);
    }
  }

  /** The first n characters are read without failure, and have no conversion that fails. */
  lemma {:induction false} EndingBehind(format: seq<Byte>, n: nat)
    requires 0 < n <= |format| && EndingOf(format) == EndingOf(format[n..])
    requires n < |format| ==> Percents(format[..n]) % 2 == 0
    requires forall k: nat :: k < n && Begins(format, k) ==> !IsInvalid(format[k..]) && !EndsInside(format[k..])
    ensures EndingOf(format) == FormatError <==> HasInvalid(format)
    ensures EndingOf(format) == PastEnd <==> !HasInvalid(format) && HasCutShort(format)
    decreases |format|, 0
  {
    hide EndingOf, IsInvalid, EndsInside;
    EndingExactly(format[n..]);
    forall k: nat | n <= k < |format|
      ensures Begins(format, k) <==> Begins(format[n..], k - n)
      ensures format[k..] == format[n..][k - n..]
    {
      BeginsLater(format, n, k);
    }
    forall j: nat | Begins(format[n..], j)
      ensures Begins(format, n + j) && format[n + j..] == format[n..][j..]
    {
      assert n + j - n == j;
    }
    hide Begins;
  }

  /** A conversion that the end cuts off holds the last per cent sign. */
  lemma OnlyPercent(format: seq<Byte>)
    requires TakesArgument(format) && StepOf(format) == Fails(PastEnd)
    ensures EndsInside(format) && !HasInvalid(format)
  {
    SpecHasNoPercent(format[1..]);
    assert AfterSpec(format[1..]) == [];
    assert forall i :: 0 < i < |format| ==> format[i] == format[1..][i - 1];
    assert format[0..] == format;
  }

  /** Such a format is "%5". */
  lemma WidthAloneLeaves()
    ensures EndingOf([PERCENT, 53]) == PastEnd
  {
    var format := [PERCENT, 53];
    assert format[1..] == [53] && [53][1..] == [];
    assert AfterDigits([53]) == AfterDigits([]) == [];
    assert AfterSpec([53]) == [];
  }

  /** A word per conversion: what "%b %b ... %b" sends is its arguments, whatever bytes they hold. */
  function PerArgument(n: nat): seq<Byte> {
    if n == 0 then []
    else if n == 1 then [PERCENT, LOWER_B]
    else [PERCENT, LOWER_B, SPACE] + PerArgument(n - 1)
  }

  lemma {:induction false} ValuesAreNeverSplit(args: seq<seq<Byte>>)
    ensures Fits(PerArgument(|args|), args)
    ensures Words(Pieces(PerArgument(|args|), args)) == args
  {
    if args != [] {
      var format := PerArgument(|args|);
      assert format[0] == PERCENT && format[1] == LOWER_B;
      var after := format[2..];
      if |args| == 1 {
        assert after == [];
      } else {
        ValuesAreNeverSplit(args[1..]);
        assert after == [SPACE] + PerArgument(|args| - 1);
        assert after[1..] == PerArgument(|args| - 1);
      }
      assert Fits(after, args[1..]);
      var tail := Pieces(after, args[1..]);
      if |args| > 1 {
        assert tail == [Gap] + Pieces(after[1..], args[1..]);
        assert tail[1..] == Pieces(after[1..], args[1..]);
      }
      assert Pieces(format, args) == [Text(args[0])] + tail;
      FirstWord(args[0], tail);
      assert Words(tail) == args[1..];
      assert args == [args[0]] + args[1..];
    }
  }

  lemma FirstWord(word: seq<Byte>, tail: seq<Piece>)
    requires tail == [] || tail[0].Gap?
    ensures Words([Text(word)] + tail) == [word] + Words(tail)
  {
    var ps := [Text(word)] + tail;
    assert ps[1..] == tail;
    assert Run(ps) == 1 && ps[..1] == [Text(word)];
    assert Joined([Text(word)]) == word + Joined([]) == word;
  }

  /** The same text and gaps, whatever the texts are. */
  ghost predicate SameShape(ps: seq<Piece>, qs: seq<Piece>) {
    |ps| == |qs| && forall i :: 0 <= i < |ps| ==> ps[i].Gap? == qs[i].Gap?
  }

  lemma {:induction false} PiecesKeepShape(format: seq<Byte>, a: seq<seq<Byte>>, b: seq<seq<Byte>>)
    requires Fits(format, a) && Fits(format, b)
    ensures SameShape(Pieces(format, a), Pieces(format, b))
    decreases |format|
  {
    if format == [] {
    } else if format[0] != PERCENT || |format| == 1 {
      PiecesKeepShape(format[1..], a, b);
    } else if format[1] == PERCENT {
      PiecesKeepShape(format[2..], a, b);
    } else if StepOf(format).Takes? {
      PiecesKeepShape(StepOf(format).rest, a[1..], b[1..]);
    }
  }

  lemma {:induction false} ShapeDecidesWords(ps: seq<Piece>, qs: seq<Piece>)
    requires SameShape(ps, qs)
    ensures |Words(ps)| == |Words(qs)|
    decreases |ps|
  {
    hide Joined;
    if ps != [] {
      if ps[0].Gap? {
        ShapeDecidesWords(ps[1..], qs[1..]);
      } else {
        var n, m := Run(ps), Run(qs);
        assert n == m;
        ShapeDecidesWords(ps[n..], qs[n..]);
      }
    }
  }

  /** For every format: how many arguments a command gets does not depend on the values that are put in. */
  lemma ValuesAddNoArguments(format: seq<Byte>, a: seq<seq<Byte>>, b: seq<seq<Byte>>)
    requires Fits(format, a) && Fits(format, b)
    ensures |Words(Pieces(format, a))| == |Words(Pieces(format, b))|
  {
    PiecesKeepShape(format, a, b);
    ShapeDecidesWords(Pieces(format, a), Pieces(format, b));
  }
}
