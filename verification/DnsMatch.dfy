/**
 * Whether an answer belongs to a query: the comparison of their questions in c-ares
 * (ares_process.c: same_questions).
 */
module DnsMatch {
  import opened Bytes
  import opened Numbers
  import opened DnsName
  import opened DnsCodec

  /** A question as C sees it: its name ends at the first zero byte. */
  datatype Question = Question(name: seq<Byte>, rrtype: nat, dnsclass: nat)

  function WordOf(buf: seq<Byte>, p: nat): nat
    requires p + 2 <= |buf|
  {
    var high: int, low: int := buf[p], buf[p + 1];
    high * 256 + low
  }

  /** DNS_HEADER_QDCOUNT */
  function QdCount(buf: seq<Byte>): nat
    requires |buf| >= HEADER
  {
    WordOf(buf, 4)
  }

  /** The question at offset p, and the offset behind it. */
  function QuestionAt(buf: seq<Byte>, p: nat): (r: Option<(Question, nat)>) {
    match Expand(buf, p)
    case BadEncoding => None
    case Expansion(text, enclen) =>
      var end := p + enclen;
      if end + QFIXED > |buf| then None
      else Some((Question(CString(text), WordOf(buf, end), WordOf(buf, end + 2)), end + QFIXED))
  }

  /** strcasecmp(s, t) == 0 */
  predicate FoldEqual(s: seq<Byte>, t: seq<Byte>) {
    |s| == |t| && forall i :: 0 <= i < |s| ==> Lower(s[i]) == Lower(t[i])
  }

  predicate Agree(q: Question, a: Question) {
    FoldEqual(q.name, a.name) && q.rrtype == a.rrtype && q.dnsclass == a.dnsclass
  }

  /** The search for a question among count questions: found, not there, or one on the way cannot be decoded. */
  datatype Search = Hit | Miss | Broken

  function Find(q: Question, abuf: seq<Byte>, p: nat, count: nat): Search
    decreases count
  {
    if count == 0 then Miss
    else
      match QuestionAt(abuf, p)
      case None => Broken
      case Some((a, next)) => if Agree(q, a) then Hit else Find(q, abuf, next, count - 1)
  }

  /** Each of the count questions from p on is found in the answer. */
  predicate AllFound(qbuf: seq<Byte>, p: nat, count: nat, abuf: seq<Byte>, acount: nat)
    decreases count
  {
    count == 0 ||
    match QuestionAt(qbuf, p)
    case None => false
    case Some((q, next)) => Find(q, abuf, HEADER, acount) == Hit && AllFound(qbuf, next, count - 1, abuf, acount)
  }

  predicate SameQuestions(qbuf: seq<Byte>, abuf: seq<Byte>) {
    && |qbuf| >= HEADER && |abuf| >= HEADER && QdCount(qbuf) == QdCount(abuf)
    && AllFound(qbuf, HEADER, QdCount(qbuf), abuf, QdCount(abuf))
  }

  // ---------------------------------------------------------------------
  // The loops.

  /** Decodes one question. */
  method DecodeQuestion(buf: seq<Byte>, p: nat) returns (ok: bool, q: Question, next: nat)
    ensures ok <==> QuestionAt(buf, p).Some?
    ensures ok ==> QuestionAt(buf, p) == Some((q, next))
  {
    var r := ExpandName(buf, p);
    ok, q, next := false, Question([], 0, 0), p;
    if r.Expansion? {
      var end := p + r.enclen;
      if end + QFIXED <= |buf| {
        return true, Question(CString(r.text), WordOf(buf, end), WordOf(buf, end + 2)), end + QFIXED;
      }
    }
  }

  /** The inner loop of same_questions. */
  method SearchAnswer(q: Question, abuf: seq<Byte>, acount: nat) returns (s: Search)
    ensures s == Find(q, abuf, HEADER, acount)
  {
    hide QuestionAt, Agree;
    var p: nat := HEADER;
    for j := 0 to acount
      invariant Find(q, abuf, HEADER, acount) == Find(q, abuf, p, acount - j)
    {
      var ok, a, next := DecodeQuestion(abuf, p);
      if !ok {
        return Broken;
      }
      if Agree(q, a) {
        return Hit;
      }
      p := next;
    }
    return Miss;
  }

  /** same_questions */
  method CompareQuestions(qbuf: seq<Byte>, abuf: seq<Byte>) returns (same: bool)
    ensures same == SameQuestions(qbuf, abuf)
  {
    hide AllFound;
    if |qbuf| < HEADER || |abuf| < HEADER || QdCount(qbuf) != QdCount(abuf) {
      return false;
    }
    same := CompareAll(qbuf, QdCount(qbuf), abuf, QdCount(abuf));
  }

  /** Its outer loop. */
  method CompareAll(qbuf: seq<Byte>, count: nat, abuf: seq<Byte>, acount: nat) returns (same: bool)
    ensures same == AllFound(qbuf, HEADER, count, abuf, acount)
  {
    hide QuestionAt, Find;
    var p: nat := HEADER;
    for i := 0 to count
      invariant AllFound(qbuf, HEADER, count, abuf, acount) == AllFound(qbuf, p, count - i, abuf, acount)
    {
      var ok, q, next := DecodeQuestion(qbuf, p);
      if !ok {
        return false;
      }
      var s := SearchAnswer(q, abuf, acount);
      if s != Hit {
        return false;
      }
      p := next;
    }
    return true;
  }

  // ---------------------------------------------------------------------
  // What the comparison decides.

  /** The count questions from p on, None if one of them cannot be decoded. */
  function Questions(buf: seq<Byte>, p: nat, count: nat): (r: Option<seq<Question>>)
    ensures r.Some? ==> |r.value| == count
    decreases count
  {
    if count == 0 then Some([])
    else
      match QuestionAt(buf, p)
      case None => None
      case Some((q, next)) =>
        match Questions(buf, next, count - 1)
        case None => None
        case Some(qs) => Some([q] + qs)
  }

  /** Question j of the answer and those before it can be decoded, and it agrees with q. */
  predicate HitAt(q: Question, abuf: seq<Byte>, p: nat, j: nat) {
    var r := Questions(abuf, p, j + 1);
    r.Some? && Agree(q, r.value[j])
  }

  /** The question is among the first count of the answer, as far as they can be decoded. */
  ghost predicate Occurs(q: Question, abuf: seq<Byte>, p: nat, count: nat) {
    exists j: nat :: j < count && HitAt(q, abuf, p, j)
  }

  lemma {:induction false} FindExactly(q: Question, abuf: seq<Byte>, p: nat, count: nat)
    ensures Find(q, abuf, p, count) == Hit <==> Occurs(q, abuf, p, count)
    decreases count
  {
    hide QuestionAt, Agree;
    if count > 0 && QuestionAt(abuf, p).Some? {
      var (a, next) := QuestionAt(abuf, p).value;
      FindExactly(q, abuf, next, count - 1);
      HitHere(q, abuf, p);
      forall j: nat ensures HitAt(q, abuf, p, j + 1) <==> HitAt(q, abuf, next, j) {
        assert Questions(abuf, p, j + 2).Some? <==> Questions(abuf, next, j + 1).Some?;
      }
      if Find(q, abuf, p, count) == Hit && !Agree(q, a) {
        var j: nat :| j < count - 1 && HitAt(q, abuf, next, j);
        assert HitAt(q, abuf, p, j + 1);
      }
      forall j: nat | 0 < j < count && HitAt(q, abuf, p, j) ensures HitAt(q, abuf, next, j - 1) {
        assert j == j - 1 + 1;
      }
    } else {
      forall j: nat | j < count ensures !HitAt(q, abuf, p, j) {
      }
    }
  }

  lemma HitHere(q: Question, abuf: seq<Byte>, p: nat)
    ensures HitAt(q, abuf, p, 0) <==> QuestionAt(abuf, p).Some? && Agree(q, QuestionAt(abuf, p).value.0)
  {
    hide QuestionAt, Agree;
    if QuestionAt(abuf, p).Some? {
      var (a, next) := QuestionAt(abuf, p).value;
      assert Questions(abuf, next, 0) == Some([]);
    }
  }

  lemma {:induction false} AllFoundExactly(qbuf: seq<Byte>, p: nat, count: nat, abuf: seq<Byte>, acount: nat)
    ensures AllFound(qbuf, p, count, abuf, acount) <==>
              Questions(qbuf, p, count).Some?
              && forall q <- Questions(qbuf, p, count).value :: Occurs(q, abuf, HEADER, acount)
    decreases count
  {
    hide QuestionAt, Occurs, Find;
    if count > 0 && QuestionAt(qbuf, p).Some? {
      var (q, next) := QuestionAt(qbuf, p).value;
      FindExactly(q, abuf, HEADER, acount);
      AllFoundExactly(qbuf, next, count - 1, abuf, acount);
      if Questions(qbuf, next, count - 1).Some? {
        var rest := Questions(qbuf, next, count - 1).value;
        assert Questions(qbuf, p, count).value == [q] + rest;
        assert forall x :: x in [q] + rest <==> x == q || x in rest;
      }
    }
  }

  /**
   * An answer is taken for a query exactly if they announce equally many questions,
   * those of the query can be decoded, and each of them agrees with one of the answer
   * before which all can be decoded.
   */
  lemma SameQuestionsExactly(qbuf: seq<Byte>, abuf: seq<Byte>)
    requires |qbuf| >= HEADER && |abuf| >= HEADER
    ensures SameQuestions(qbuf, abuf) <==>
              && QdCount(qbuf) == QdCount(abuf)
              && Questions(qbuf, HEADER, QdCount(qbuf)).Some?
              && forall q <- Questions(qbuf, HEADER, QdCount(qbuf)).value :: Occurs(q, abuf, HEADER, QdCount(abuf))
  {
    hide Occurs, Questions, AllFound;
    AllFoundExactly(qbuf, HEADER, QdCount(qbuf), abuf, QdCount(abuf));
  }

  // ---------------------------------------------------------------------
  // Answers to the queries of c-ares, which ask one question.

  /** One question behind a header. */
  ghost predicate Asks(buf: seq<Byte>, ls: seq<Label>, rrtype: nat, dnsclass: nat) {
    && |buf| >= HEADER && QdCount(buf) == 1
    && (forall i :: 0 <= i < |ls| ==> 1 <= |ls[i]| <= MAX_LABEL)
    && Wire(ls) + (Word(rrtype) + Word(dnsclass)) <= buf[HEADER..]
  }

  lemma WordIs(v: nat, s: seq<Byte>, p: nat)
    requires p + 2 <= |s| && s[p..p + 2] == Word(v)
    ensures WordOf(s, p) == v % 65536
  {
    assert s[p] == s[p..p + 2][0] && s[p + 1] == s[p..p + 2][1];
  }

  lemma AskedQuestion(buf: seq<Byte>, ls: seq<Label>, rrtype: nat, dnsclass: nat)
    requires Asks(buf, ls, rrtype, dnsclass)
    ensures Questions(buf, HEADER, 1) == Some([Question(CString(Text(ls)), rrtype % 65536, dnsclass % 65536)])
  {
    AskedName(buf, ls, Word(rrtype) + Word(dnsclass));
    AskedWords(buf, Wire(ls), rrtype, dnsclass);
    var n := |Wire(ls)|;
    hide Text, CString, Expand, Wire, Word, WordOf;
    var q := Question(CString(Text(ls)), rrtype % 65536, dnsclass % 65536);
    assert QuestionAt(buf, HEADER) == Some((q, HEADER + n + QFIXED));
    hide QuestionAt;
    assert Questions(buf, HEADER + n + QFIXED, 0) == Some([]);
    assert [q] + [] == [q];
  }

  lemma AskedName(buf: seq<Byte>, ls: seq<Label>, words: seq<Byte>)
    requires |buf| >= HEADER && forall i :: 0 <= i < |ls| ==> 1 <= |ls[i]| <= MAX_LABEL
    requires Wire(ls) + words <= buf[HEADER..]
    ensures Expand(buf, HEADER) == Expansion(Text(ls), |Wire(ls)|)
  {
    hide Text, Wire, Walk, EncodedLength;
    var rest := buf[HEADER..];
    var tail := rest[|Wire(ls)|..];
    assert rest == Wire(ls) + tail;
    WalkWire(buf, HEADER, ls, tail);
  }

  lemma AskedWords(buf: seq<Byte>, wire: seq<Byte>, rrtype: nat, dnsclass: nat)
    requires |buf| >= HEADER && wire + (Word(rrtype) + Word(dnsclass)) <= buf[HEADER..]
    ensures var end := HEADER + |wire|;
            end + QFIXED <= |buf| && WordOf(buf, end) == rrtype % 65536 && WordOf(buf, end + 2) == dnsclass % 65536
  {
    var end := HEADER + |wire|;
    var all := wire + (Word(rrtype) + Word(dnsclass));
    assert forall i :: 0 <= i < |all| ==> buf[HEADER + i] == buf[HEADER..][i] == all[i];
    assert buf[end..end + 2] == Word(rrtype);
    assert buf[end + 2..end + 4] == Word(dnsclass);
    WordIs(rrtype, buf, end);
    WordIs(dnsclass, buf, end + 2);
  }

  /** What CreateQuery makes asks its question. */
  lemma QueryAsks(ls: seq<Label>, dnsclass: nat, rrtype: nat, id: nat, rd: bool, udpSize: nat)
    requires forall i :: 0 <= i < |ls| ==> 1 <= |ls[i]| <= MAX_LABEL
    ensures Asks(Query(ls, dnsclass, rrtype, id, rd, udpSize), ls, rrtype, dnsclass)
  {
    hide Wire, Word, OptRecord;
    var opt := if udpSize != 0 then OptRecord(udpSize) else [];
    OneAnnounced(id, rd, udpSize != 0);
    hide Header;
    BehindHeader(Header(id, rd, udpSize != 0), Wire(ls), Trailer(dnsclass, rrtype, udpSize));
    assert Trailer(dnsclass, rrtype, udpSize) == Word(rrtype) + Word(dnsclass) + opt;
    Begins(Wire(ls), Word(rrtype) + Word(dnsclass), opt);
  }

  lemma Begins(a: seq<Byte>, b: seq<Byte>, c: seq<Byte>)
    ensures a + b <= a + (b + c)
  {
  }

  lemma OneAnnounced(id: nat, rd: bool, edns: bool)
    ensures Header(id, rd, edns)[4] == 0 && Header(id, rd, edns)[5] == 1
  {
  }

  /** Between packets with one question each, it is the names up to case and up to a zero byte, the type and the class that count. */
  lemma OneQuestionExactly(qbuf: seq<Byte>, abuf: seq<Byte>, ls: seq<Label>, rrtype: nat, dnsclass: nat,
                           ls': seq<Label>, rrtype': nat, dnsclass': nat)
    requires Asks(qbuf, ls, rrtype, dnsclass) && Asks(abuf, ls', rrtype', dnsclass')
    ensures SameQuestions(qbuf, abuf) <==>
              FoldEqual(CString(Text(ls)), CString(Text(ls'))) && rrtype % 65536 == rrtype' % 65536 && dnsclass % 65536 == dnsclass' % 65536
  {
    hide SameQuestions;
    AskedQuestion(qbuf, ls, rrtype, dnsclass);
    AskedQuestion(abuf, ls', rrtype', dnsclass');
    SameQuestionsExactly(qbuf, abuf);
    hide Text, CString, Wire, Word, FoldEqual;
    var q := Question(CString(Text(ls)), rrtype % 65536, dnsclass % 65536);
    hide Questions;
    assert q in [q];
    assert HitAt(q, abuf, HEADER, 0) <==> Occurs(q, abuf, HEADER, 1);
  }

  // ---------------------------------------------------------------------
  // Names up to case.

  function LowerAll(s: seq<Byte>): (t: seq<Byte>)
    ensures |t| == |s|
  {
    seq(|s|, i requires 0 <= i < |s| => Lower(s[i]))
  }

  function LowerLabels(ls: seq<Label>): (r: seq<Label>)
    ensures |r| == |ls|
  {
    seq(|ls|, i requires 0 <= i < |ls| => LowerAll(ls[i]))
  }

  lemma FoldIsLower(s: seq<Byte>, t: seq<Byte>)
    ensures FoldEqual(s, t) <==> LowerAll(s) == LowerAll(t)
  {
    if LowerAll(s) == LowerAll(t) {
      assert forall i :: 0 <= i < |s| ==> LowerAll(s)[i] == Lower(s[i]) && LowerAll(t)[i] == Lower(t[i]);
    }
  }

  lemma LowerAppend(s: seq<Byte>, t: seq<Byte>)
    ensures LowerAll(s + t) == LowerAll(s) + LowerAll(t)
  {
  }

  lemma {:induction false} EscapeLower(l: Label)
    ensures LowerAll(Escape(l)) == Escape(LowerAll(l))
  {
    if l != [] {
      EscapeLower(l[1..]);
      LowerAppend(EscapeByte(l[0]), Escape(l[1..]));
      assert LowerAll(l)[1..] == LowerAll(l[1..]);
      assert LowerAll(EscapeByte(l[0])) == EscapeByte(Lower(l[0]));
    }
  }

  lemma {:induction false} DottedLower(ls: seq<Label>)
    ensures LowerAll(Dotted(ls)) == Dotted(LowerLabels(ls))
  {
    if ls != [] {
      DottedLower(ls[1..]);
      EscapeLower(ls[0]);
      LowerAppend(Escape(ls[0]), [DOT]);
      LowerAppend(Escape(ls[0]) + [DOT], Dotted(ls[1..]));
      assert LowerLabels(ls)[1..] == LowerLabels(ls[1..]);
      assert LowerAll([DOT]) == [DOT];
    }
  }

  lemma TextLower(ls: seq<Label>)
    ensures LowerAll(Text(ls)) == Text(LowerLabels(ls))
  {
    DottedLower(ls);
    var s := Dotted(ls);
    if s != [] {
      assert LowerAll(s)[..|s| - 1] == LowerAll(s[..|s| - 1]);
    }
  }

  /** The texts of two names are equal up to case exactly if their labels are. */
  lemma FoldLabels(ls: seq<Label>, ls': seq<Label>)
    requires forall i :: 0 <= i < |ls| ==> 1 <= |ls[i]| <= MAX_LABEL
    requires forall i :: 0 <= i < |ls'| ==> 1 <= |ls'[i]| <= MAX_LABEL
    ensures FoldEqual(Text(ls), Text(ls')) <==> LowerLabels(ls) == LowerLabels(ls')
  {
    hide Text, ParseLabels, LabelsOf;
    FoldIsLower(Text(ls), Text(ls'));
    TextLower(ls);
    TextLower(ls');
    ParseText(LowerLabels(ls));
    ParseText(LowerLabels(ls'));
  }

  lemma {:induction false} TakenIsNulFree(s: seq<Byte>)
    requires NUL !in s
    ensures NUL !in TakeLabel(s).0 && NUL !in TakeLabel(s).1
  {
    if s == [] || s[0] == DOT {
    } else if s[0] == BACKSLASH && |s| >= 2 {
      assert s[1] in s && forall b <- s[2..] :: b in s;
      TakenIsNulFree(s[2..]);
    } else {
      assert s[0] in s && forall b <- s[1..] :: b in s;
      TakenIsNulFree(s[1..]);
    }
  }

  lemma {:induction false} ParsedIsNulFree(s: seq<Byte>)
    requires NUL !in s && ParseLabels(s).Some?
    ensures NulFree(ParseLabels(s).value)
    decreases |s|
  {
    if s != [] {
      var (l, rest) := TakeLabel(s);
      TakenIsNulFree(s);
      if rest != [] {
        assert forall b <- rest[1..] :: b in rest;
        ParsedIsNulFree(rest[1..]);
      }
    }
  }

  /** The labels of a C string hold no zero bytes. */
  lemma NamesAreNulFree(name: seq<Byte>)
    requires NUL !in name && LabelsOf(name).Some?
    ensures NulFree(LabelsOf(name).value)
  {
    ParsedIsNulFree(if name == [DOT] then [] else name);
  }

  /**
   * A query that was created from a C string and an answer with one question: what
   * counts is the name asked for and the name in the answer up to its first zero byte,
   * both up to case, and the type and the class.
   */
  lemma CreatedMatchesExactly(name: seq<Byte>, dnsclass: nat, rrtype: nat, id: nat, rd: bool, udpSize: nat,
                              abuf: seq<Byte>, ls': seq<Label>, rrtype': nat, dnsclass': nat)
    requires NUL !in name && LabelsOf(name).Some? && Asks(abuf, ls', rrtype', dnsclass')
    ensures var ls := LabelsOf(name).value;
            SameQuestions(Query(ls, dnsclass, rrtype, id, rd, udpSize), abuf) <==>
              FoldEqual(Text(ls), CString(Text(ls'))) && rrtype % 65536 == rrtype' % 65536 && dnsclass % 65536 == dnsclass' % 65536
  {
    NamesAreNulFree(name);
    var ls := LabelsOf(name).value;
    hide SameQuestions, Text, Query, Wire, Word, LabelsOf;
    QueryAsks(ls, dnsclass, rrtype, id, rd, udpSize);
    OneQuestionExactly(Query(ls, dnsclass, rrtype, id, rd, udpSize), abuf, ls, rrtype, dnsclass, ls', rrtype', dnsclass');
    TextNul(ls);
  }

  /** Without zero bytes in the answer's name, its question has the same labels up to case. */
  lemma AnswerMatchesExactly(name: seq<Byte>, dnsclass: nat, rrtype: nat, id: nat, rd: bool, udpSize: nat,
                             abuf: seq<Byte>, ls': seq<Label>, rrtype': nat, dnsclass': nat)
    requires NUL !in name && LabelsOf(name).Some? && Asks(abuf, ls', rrtype', dnsclass') && NulFree(ls')
    ensures var ls := LabelsOf(name).value;
            SameQuestions(Query(ls, dnsclass, rrtype, id, rd, udpSize), abuf) <==>
              LowerLabels(ls) == LowerLabels(ls') && rrtype % 65536 == rrtype' % 65536 && dnsclass % 65536 == dnsclass' % 65536
  {
    var ls := LabelsOf(name).value;
    assert forall i :: 0 <= i < |ls| ==> 1 <= |ls[i]| <= MAX_LABEL;
    hide SameQuestions, Text, Query, Wire, Word, LabelsOf;
    CreatedMatchesExactly(name, dnsclass, rrtype, id, rd, udpSize, abuf, ls', rrtype', dnsclass');
    TextNul(ls');
    FoldLabels(ls, ls');
  }

  /** With a zero byte another name passes for the same: an answer for "a" NUL "c" is taken for a query for "a". */
  lemma ZeroBytesHide(dnsclass: nat, rrtype: nat, id: nat, rd: bool, udpSize: nat, abuf: seq<Byte>)
    requires Asks(abuf, [[97, NUL, 99]], rrtype, dnsclass)
    ensures LabelsOf([97]) == Some([[97]]) && SameQuestions(Query([[97]], dnsclass, rrtype, id, rd, udpSize), abuf)
  {
    NameOfOneLetter();
    CutAtNul(99);
    hide SameQuestions, Wire, Word, Query, Text, LabelsOf;
    CreatedMatchesExactly([97], dnsclass, rrtype, id, rd, udpSize, abuf, [[97, NUL, 99]], rrtype, dnsclass);
  }

  lemma NameOfOneLetter()
    ensures LabelsOf([97]) == Some([[97]]) && Text([[97]]) == [97]
  {
    assert [97][1..] == [];
    assert Escape([97]) == EscapeByte(97) + Escape([]) == [97];
    assert [[97]][1..] == [];
    assert Dotted([[97]]) == [97] + [DOT] + Dotted([]) == [97, DOT];
    ParseText([[97]]);
  }

  lemma CutAtNul(b: Byte)
    requires !NeedsEscape(b)
    ensures CString(Text([[97, NUL, b]])) == [97]
  {
    var l := [97, NUL, b];
    assert l[1..] == [NUL, b] && [NUL, b][1..] == [b] && [b][1..] == [];
    assert !NeedsEscape(NUL) && !NeedsEscape(97);
    assert Escape([b]) == EscapeByte(b) + Escape([]) == [b];
    assert Escape([NUL, b]) == EscapeByte(NUL) + Escape([b]) == [NUL, b];
    assert Escape(l) == EscapeByte(97) + Escape([NUL, b]) == l;
    assert Dotted([l]) == l + [DOT] + Dotted([]);
    assert Text([l]) == l;
    assert CString(l[1..]) == [];
  }
}
