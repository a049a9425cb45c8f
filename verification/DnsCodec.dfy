/**
 * Writing DNS queries (ares_create_query.c) and expanding the names in DNS
 * messages (ares_expand_name.c), with every access to a buffer in bounds.
 */
module DnsCodec {
  import opened Bytes
  import opened DnsName

  const HEADER := 12
  const QFIXED := 4
  const EDNS_FIXED := 11

  // ---------------------------------------------------------------------
  // Queries.

  /** Two bytes in network order. */
  function Word(v: nat): seq<Byte> {
    [v / 256 % 256, v % 256]
  }

  function Header(id: nat, rd: bool, edns: bool): (h: seq<Byte>)
    ensures |h| == HEADER
  {
    Word(id) + [if rd then 1 else 0, 0] + Word(1) + Word(0) + Word(0) + Word(if edns then 1 else 0)
  }

  /** The OPT pseudo record: a root name, type 41, and the payload size as its class. */
  function OptRecord(udpSize: nat): (r: seq<Byte>)
    ensures |r| == EDNS_FIXED
  {
    [0] + Word(41) + Word(udpSize) + [0, 0, 0, 0, 0, 0]
  }

  /** What follows the name: type, class and perhaps the OPT record. */
  function Trailer(dnsclass: nat, rrtype: nat, udpSize: nat): seq<Byte> {
    Word(rrtype) + Word(dnsclass) + if udpSize != 0 then OptRecord(udpSize) else []
  }

  /** A query for one name. */
  function Query(ls: seq<Label>, dnsclass: nat, rrtype: nat, id: nat, rd: bool, udpSize: nat): seq<Byte>
    requires forall i :: 0 <= i < |ls| ==> |ls[i]| <= MAX_LABEL
  {
    Header(id, rd, udpSize != 0) + Wire(ls) + Trailer(dnsclass, rrtype, udpSize)
  }

  method Put(buf: array<Byte>, q: nat, text: seq<Byte>) returns (q': nat)
    requires q + |text| <= buf.Length
    modifies buf
    ensures q' == q + |text| && buf[..q'] == old(buf[..q]) + text
  {
    forall i | 0 <= i < |text| {
      buf[q + i] := text[i];
    }
    q' := q + |text|;
  }

  method PutByte(buf: array<Byte>, q: nat, b: Byte) returns (q': nat)
    requires q < buf.Length
    modifies buf
    ensures q' == q + 1 && buf[..q'] == old(buf[..q]) + [b]
  {
    buf[q] := b;
    q' := q + 1;
  }

  /** A label in front of the labels that are still to be found. */
  function Cons(lab: Label, later: Option<seq<Label>>): Option<seq<Label>> {
    match later
    case None => None
    case Some(ls) => Some([lab] + ls)
  }

  lemma LabelsFrom(name: seq<Byte>, n: nat)
    requires n < |name| && name[n] != DOT
    ensures var (l, rest) := TakeLabel(name[n..]);
            && l != [] && |rest| < |name| - n
            && (|l| > MAX_LABEL ==> ParseLabels(name[n..]) == None)
            && (|l| <= MAX_LABEL && rest == [] ==> ParseLabels(name[n..]) == Some([l]))
            && (|l| <= MAX_LABEL && rest != [] ==>
                  ParseLabels(name[n..]) == Cons(l, ParseLabels(rest[1..])))
  {
  }

  /** One step of the loop over the characters of a label. */
  lemma TakeStep(name: seq<Byte>, p: nat)
    requires p <= |name|
    ensures p == |name| || name[p] == DOT ==> TakeLabel(name[p..]) == ([], name[p..])
    ensures p < |name| && name[p] != DOT ==>
              var p' := if name[p] == BACKSLASH && p + 1 < |name| then p + 1 else p;
              var (l, rest) := TakeLabel(name[p' + 1..]);
              TakeLabel(name[p..]) == ([name[p']] + l, rest)
  {
    if p < |name| && name[p] != DOT {
      assert name[p..][1..] == name[p + 1..];
      if p + 1 < |name| {
        assert name[p..][2..] == name[p + 2..];
      }
    }
  }

  /** The number of bytes in the label at n, escapes counted once. */
  method CountLabel(name: seq<Byte>, n: nat) returns (len: nat, p: nat)
    requires n <= |name|
    ensures len == |TakeLabel(name[n..]).0|
  {
    len := 0;
    p := n;
    while p < |name| && name[p] != DOT
      invariant n <= p <= |name|
      invariant len + |TakeLabel(name[p..]).0| == |TakeLabel(name[n..]).0|
    {
      TakeStep(name, p);
      if name[p] == BACKSLASH && p + 1 < |name| {
        p := p + 1;
      }
      len := len + 1;
      p := p + 1;
    }
    TakeStep(name, p);
  }

  /** Copies the label at n behind its length byte. */
  method CopyLabel(name: seq<Byte>, n: nat, len: nat, buf: array<Byte>, q: nat) returns (p: nat, q': nat)
    requires n <= |name| && len == |TakeLabel(name[n..]).0| <= MAX_LABEL
    requires q + 1 + (|name| - n) <= buf.Length
    modifies buf
    ensures n <= p <= |name| && name[p..] == TakeLabel(name[n..]).1
    ensures q' == q + 1 + len && q' <= q + 1 + (p - n)
    ensures buf[..q'] == old(buf[..q]) + [len] + TakeLabel(name[n..]).0
  {
    hide TakeLabel, Completes;
    ghost var lab := TakeLabel(name[n..]).0;
    q' := PutByte(buf, q, len);
    p := n;
    ghost var whole := buf[..q'] + lab;
    assert Completes(buf[..q'], lab, whole) by { CompletesTwo(buf[..q'], lab); }
    while p < |name| && name[p] != DOT
      invariant n <= p <= |name| && q + 1 <= q' <= q + 1 + (p - n)
      invariant TakeLabel(name[p..]).1 == TakeLabel(name[n..]).1
      invariant q' + |TakeLabel(name[p..]).0| == q + 1 + len
      invariant Completes(buf[..q'], TakeLabel(name[p..]).0, whole)
    {
      TakeStep(name, p);
      if name[p] == BACKSLASH && p + 1 < |name| {
        p := p + 1;
      }
      CompletesMore(buf[..q'], [name[p]], TakeLabel(name[p + 1..]).0, whole);
      q' := PutByte(buf, q', name[p]);
      p := p + 1;
    }
    TakeStep(name, p);
    CompletesEnd(buf[..q'], whole);
  }

  datatype Created = Ok(packet: seq<Byte>) | Refused(why: Encoding)

  /**
   * ares_create_query. The buffer has room for the name's characters plus two
   * bytes, and no write goes beyond it.
   */
  method CreateQuery(name: seq<Byte>, dnsclass: nat, rrtype: nat, id: nat, rd: bool, maxUdpSize: nat) returns (r: Created)
    ensures match Encode(name)
            case Encoded(_) => r == Ok(Query(LabelsOf(name).value, dnsclass, rrtype, id, rd, maxUdpSize))
            case why => r == Refused(why)
  {
    hide ParseLabels, Header, Trailer, WireLabels, IsOnion;
    if IsOnion(name) {
      return Refused(NotFound);
    }
    var optLen := if maxUdpSize != 0 then EDNS_FIXED else 0;
    var buf := new Byte[|name| + 2 + HEADER + QFIXED + optLen];
    var q := Put(buf, 0, Header(id, rd, maxUdpSize != 0));
    ghost var head := buf[..q];
    assert head == Header(id, rd, maxUdpSize != 0);
    var text := if name == [DOT] then [] else name;
    var ok: bool;
    ok, q := WriteName(text, buf, q);
    if !ok {
      return Refused(BadName);
    }
    ghost var ls := ParseLabels(text).value;
    q := PutByte(buf, q, NUL);
    assert head + WireLabels(ls) + [NUL] == head + Wire(ls);
    q := WriteTrailer(buf, q, dnsclass, rrtype, maxUdpSize);
    assert buf[..q] == Query(ls, dnsclass, rrtype, id, rd, maxUdpSize);
    if q > MAX_NAME + HEADER + QFIXED + optLen {
      return Refused(BadName);
    }
    return Ok(buf[..q]);
  }

  method WriteTrailer(buf: array<Byte>, start: nat, dnsclass: nat, rrtype: nat, maxUdpSize: nat) returns (q: nat)
    requires start + QFIXED + (if maxUdpSize != 0 then EDNS_FIXED else 0) <= buf.Length
    modifies buf
    ensures q == start + QFIXED + if maxUdpSize != 0 then EDNS_FIXED else 0
    ensures buf[..q] == old(buf[..start]) + Trailer(dnsclass, rrtype, maxUdpSize)
  {
    q := Put(buf, start, Word(rrtype) + Word(dnsclass));
    if maxUdpSize != 0 {
      q := Put(buf, q, OptRecord(maxUdpSize));
    }
  }

  /** The loop of ares_create_query over the labels of a name. */
  method WriteName(name: seq<Byte>, buf: array<Byte>, start: nat) returns (ok: bool, q: nat)
    requires start + |name| + 1 <= buf.Length
    modifies buf
    ensures ok <==> ParseLabels(name).Some?
    ensures ok ==> start <= q <= start + |name| + 1 && buf[..q] == old(buf[..start]) + WireLabels(ParseLabels(name).value)
  {
    hide ParseLabels, TakeLabel, WireLabels;
    q := start;
    var n := 0;
    ghost var head, all := buf[..start], ParseLabels(name);
    assert name[0..] == name;
    while n < |name|
      invariant n <= |name| && start <= q <= start + n
      invariant all.Some? <==> ParseLabels(name[n..]).Some?
      invariant all.Some? ==> buf[..q] + WireLabels(ParseLabels(name[n..]).value) == head + WireLabels(all.value)
    {
      if name[n] == DOT {
        LeadingDot(name[n..]);
        return false, q;
      }
      LabelsFrom(name, n);
      ghost var lab, rest := TakeLabel(name[n..]).0, TakeLabel(name[n..]).1;
      var len, p := CountLabel(name, n);
      if len > MAX_LABEL {
        return false, q;
      }
      ghost var before := buf[..q];
      p, q := CopyLabel(name, n, len, buf, q);
      if p == |name| {
        WireFirst(before, lab, []);
        WireNone(buf[..q]);
        return true, q;
      }
      assert rest[1..] == name[p + 1..];
      if all.Some? {
        WireFirst(before, lab, ParseLabels(name[p + 1..]).value);
      }
      n := p + 1;
    }
    assert name[n..] == [];
    WireNone(buf[..q]);
    return true, q;
  }

  lemma WireFirst(head: seq<Byte>, lab: Label, later: seq<Label>)
    requires |lab| <= MAX_LABEL && forall i :: 0 <= i < |later| ==> |later[i]| <= MAX_LABEL
    ensures head + WireLabels([lab] + later) == head + [|lab|] + lab + WireLabels(later)
    ensures [lab] + [] == [lab]
  {
    assert ([lab] + later)[1..] == later;
  }

  lemma WireNone(head: seq<Byte>)
    ensures head + WireLabels([]) == head
    ensures ParseLabels([]) == Some([])
  {
  }

  lemma LeadingDot(s: seq<Byte>)
    requires s != [] && s[0] == DOT
    ensures ParseLabels(s) == None
  {
  }

  /** Encoding limits: what is sent obeys RFC 1035, and the encoder's own limits are those. */
  lemma AcceptedIsWellFormed(name: seq<Byte>)
    requires Encode(name).Encoded?
    ensures LabelsOf(name).Some? && WellFormed(LabelsOf(name).value) && Encode(name).wire == Wire(LabelsOf(name).value)
  {
  }

  // ---------------------------------------------------------------------
  // Expansion.

  // The branches of a walk.

  lemma WalkEnd(msg: seq<Byte>, o: nat, indir: nat)
    requires indir <= MAX_INDIRS && o < |msg| && msg[o] == 0
    ensures Walk(msg, o, indir) == Some([]) && EncodedLength(msg, o, indir) == 1
  {
  }

  lemma WalkPointer(msg: seq<Byte>, o: nat, indir: nat)
    requires indir <= MAX_INDIRS && o < |msg| && IsPointer(msg[o])
    ensures o + 1 >= |msg| ==> Walk(msg, o, indir) == None
    ensures o + 1 < |msg| ==>
              var target := PointerTarget(msg[o], msg[o + 1]);
              Walk(msg, o, indir)
              == if target >= |msg| || indir + 1 > |msg| || indir + 1 > MAX_INDIRS then None else Walk(msg, target, indir + 1)
    ensures Walk(msg, o, indir).Some? ==> EncodedLength(msg, o, indir) == 2
  {
  }

  lemma WalkLabel(msg: seq<Byte>, o: nat, indir: nat)
    requires indir <= MAX_INDIRS && o < |msg| && 0 < msg[o] < 64
    ensures o + msg[o] + 1 >= |msg| ==> Walk(msg, o, indir) == None
    ensures o + msg[o] + 1 < |msg| ==>
              Walk(msg, o, indir) == Cons(msg[o + 1..o + 1 + msg[o]], Walk(msg, o + 1 + msg[o], indir))
    ensures Walk(msg, o, indir).Some? ==>
              && Walk(msg, o + 1 + msg[o], indir).Some?
              && EncodedLength(msg, o, indir) == 1 + msg[o] + EncodedLength(msg, o + 1 + msg[o], indir)
  {
  }

  lemma WalkReserved(msg: seq<Byte>, o: nat, indir: nat)
    requires indir <= MAX_INDIRS && o < |msg| && 64 <= msg[o] && !IsPointer(msg[o])
    ensures Walk(msg, o, indir) == None
  {
  }

  lemma {:induction false} EscapeAppend(l: Label, b: Byte)
    ensures Escape(l + [b]) == Escape(l) + EscapeByte(b)
  {
    if l == [] {
      assert l + [b] == [b] && Escape([b]) == EscapeByte(b) + Escape([]);
    } else {
      assert (l + [b])[1..] == l[1..] + [b];
      EscapeAppend(l[1..], b);
    }
  }

  lemma DottedFirst(lab: Label, later: seq<Label>)
    ensures Dotted([lab] + later) == Escape(lab) + [DOT] + Dotted(later)
    ensures Dotted([]) == []
  {
    assert ([lab] + later)[1..] == later;
  }

  lemma TextLength(ls: seq<Label>)
    ensures |Text(ls)| == if Dotted(ls) == [] then 0 else |Dotted(ls)| - 1
  {
  }

  /** The measuring pass at encoded: the rest of the walk decides, and n counts what has been passed. */
  ghost predicate Measuring(msg: seq<Byte>, start: nat, encoded: nat, indir: nat, n: nat) {
    && encoded < |msg| && indir <= MAX_INDIRS
    && var all, rest := Walk(msg, start, 0), Walk(msg, encoded, indir);
       && (all.Some? <==> rest.Some?)
       && (all.Some? ==> n + |Dotted(rest.value)| == |Dotted(all.value)|)
  }

  lemma MeasureStart(msg: seq<Byte>, start: nat)
    requires start < |msg|
    ensures Measuring(msg, start, start, 0, 0)
  {
    hide Walk, Dotted;
  }

  lemma MeasurePointer(msg: seq<Byte>, start: nat, encoded: nat, indir: nat, n: nat)
    requires Measuring(msg, start, encoded, indir, n) && IsPointer(msg[encoded])
    ensures encoded + 1 >= |msg| ==> Walk(msg, start, 0) == None
    ensures encoded + 1 < |msg| ==>
              var offset := PointerTarget(msg[encoded], msg[encoded + 1]);
              if offset >= |msg| || indir + 1 > |msg| || indir + 1 > MAX_INDIRS then Walk(msg, start, 0) == None
              else Measuring(msg, start, offset, indir + 1, n)
  {
    hide Walk, Dotted, Escape, PointerTarget, Text;
    WalkPointer(msg, encoded, indir);
  }

  lemma MeasureLabel(msg: seq<Byte>, start: nat, encoded: nat, indir: nat, n: nat)
    requires Measuring(msg, start, encoded, indir, n) && 0 < msg[encoded] < 64
    ensures var p := encoded + 1 + msg[encoded];
            if p >= |msg| then Walk(msg, start, 0) == None
            else Measuring(msg, start, p, indir, n + |Escape(msg[encoded + 1..p])| + 1)
  {
    hide Walk, Dotted, Escape, PointerTarget, Text;
    WalkLabel(msg, encoded, indir);
    var p := encoded + 1 + msg[encoded];
    if p < |msg| && Walk(msg, start, 0).Some? {
      DottedFirst(msg[encoded + 1..p], Walk(msg, p, indir).value);
    }
  }

  lemma MeasureReserved(msg: seq<Byte>, start: nat, encoded: nat, indir: nat, n: nat)
    requires Measuring(msg, start, encoded, indir, n) && msg[encoded] >= 64 && !IsPointer(msg[encoded])
    ensures Walk(msg, start, 0) == None
  {
    hide Walk, Dotted;
    WalkReserved(msg, encoded, indir);
  }

  lemma MeasureEnd(msg: seq<Byte>, start: nat, encoded: nat, indir: nat, n: nat)
    requires Measuring(msg, start, encoded, indir, n) && msg[encoded] == 0
    ensures Walk(msg, start, 0).Some? && |Text(Walk(msg, start, 0).value)| == if n != 0 then n - 1 else n
  {
    hide Walk, Dotted, Escape, PointerTarget, Text;
    WalkEnd(msg, encoded, indir);
    DottedFirst([], []);
    TextLength(Walk(msg, start, 0).value);
  }

  /** name_length: the length of the expansion, or -1; reads nothing outside the message. */
  method NameLength(msg: seq<Byte>, start: nat) returns (r: int)
    ensures r == match Walk(msg, start, 0) case None => -1 case Some(ls) => |Text(ls)|
  {
    if start >= |msg| {
      return -1;
    }
    var n: nat, indir: nat, encoded: nat := 0, 0, start;
    hide Walk, Dotted, Escape, PointerTarget, Text, Measuring;
    assert Measuring(msg, start, encoded, indir, n) by { MeasureStart(msg, start); }
    while msg[encoded] != 0
      invariant encoded < |msg| && 0 <= indir <= MAX_INDIRS
      invariant Measuring(msg, start, encoded, indir, n)
      decreases MAX_INDIRS - indir, |msg| - encoded
    {
      if IsPointer(msg[encoded]) {
        MeasurePointer(msg, start, encoded, indir, n);
        if encoded + 1 >= |msg| {
          return -1;
        }
        var offset := PointerTarget(msg[encoded], msg[encoded + 1]);
        if offset >= |msg| {
          return -1;
        }
        indir := indir + 1;
        if indir > |msg| || indir > MAX_INDIRS {
          return -1;
        }
        encoded := offset;
      } else if msg[encoded] < 64 {
        MeasureLabel(msg, start, encoded, indir, n);
        var offset: int := msg[encoded];
        if encoded + offset + 1 >= |msg| {
          return -1;
        }
        var add := EscapedSize(msg, encoded + 1, offset);
        n := n + add + 1;
        encoded := encoded + 1 + offset;
      } else {
        MeasureReserved(msg, start, encoded, indir, n);
        return -1;
      }
    }
    MeasureEnd(msg, start, encoded, indir, n);
    return if n != 0 then n - 1 else n;
  }

  /** The inner loop of name_length: two bytes for each dot or backslash, one for any other byte. */
  method EscapedSize(msg: seq<Byte>, from: nat, count: nat) returns (n: nat)
    requires from + count <= |msg|
    ensures n == |Escape(msg[from..from + count])|
  {
    n := 0;
    for k := 0 to count
      invariant n == |Escape(msg[from..from + k])|
    {
      assert msg[from..from + k + 1] == msg[from..from + k] + [msg[from + k]];
      EscapeAppend(msg[from..from + k], msg[from + k]);
      n := n + if NeedsEscape(msg[from + k]) then 2 else 1;
    }
  }

  datatype Expanded = Expansion(text: seq<Byte>, enclen: nat) | BadEncoding

  /** What ares_expand_name yields for the name at an offset of a message. */
  function Expand(msg: seq<Byte>, o: nat): Expanded {
    match Walk(msg, o, 0)
    case None => BadEncoding
    case Some(ls) => Expansion(Text(ls), EncodedLength(msg, o, 0))
  }

  /**
   * ares_expand_name. The second pass checks nothing, yet it stays inside the
   * message and fills exactly the buffer that the first pass sized.
   */
  method ExpandName(msg: seq<Byte>, start: nat) returns (r: Expanded)
    ensures r == Expand(msg, start)
  {
    var nlen := NameLength(msg, start);
    if nlen < 0 {
      return BadEncoding;
    }
    ghost var all := Walk(msg, start, 0).value;
    var s := new Byte[nlen + 1];
    if nlen == 0 {
      s[0] := NUL;
      EmptyText(all);
      RootLength(msg, start);
      return Expansion([], if IsPointer(msg[start]) then 2 else 1);
    }
    assert Dotted(all) != [];
    var enclen := FillName(msg, start, s, all);
    assert s[..nlen + 1] == Dotted(all);
    s[nlen] := NUL;
    assert s[..nlen] == Text(all);
    return Expansion(s[..nlen], enclen);
  }

  lemma EmptyText(ls: seq<Label>)
    requires forall i :: 0 <= i < |ls| ==> 1 <= |ls[i]|
    ensures Text(ls) == [] ==> ls == []
  {
  }

  lemma RootLength(msg: seq<Byte>, o: nat)
    requires Walk(msg, o, 0) == Some([])
    ensures EncodedLength(msg, o, 0) == if IsPointer(msg[o]) then 2 else 1
  {
    if 0 < msg[o] < 64 {
      WalkLabel(msg, o, 0);
    }
  }

  /** The copying pass at p: the text so far and the rest of the name make up the whole, and enclen is on its way. */
  ghost predicate Filling(msg: seq<Byte>, start: nat, p: nat, jumps: nat, indir: bool, enclen: nat, soFar: seq<Byte>, whole: seq<Byte>) {
    && p < |msg| && jumps <= MAX_INDIRS && Walk(msg, p, jumps).Some? && Walk(msg, start, 0).Some?
    && Completes(soFar, Dotted(Walk(msg, p, jumps).value), whole)
    && (indir ==> enclen == EncodedLength(msg, start, 0))
    && (!indir ==> jumps == 0 && start <= p && (p - start) + EncodedLength(msg, p, 0) == EncodedLength(msg, start, 0))
  }

  lemma FillPointer(msg: seq<Byte>, start: nat, p: nat, jumps: nat, indir: bool, enclen: nat, soFar: seq<Byte>, whole: seq<Byte>)
    requires Filling(msg, start, p, jumps, indir, enclen, soFar, whole) && IsPointer(msg[p])
    ensures jumps < MAX_INDIRS && p + 1 < |msg|
    ensures !indir ==> start <= p
    ensures PointerTarget(msg[p], msg[p + 1]) < |msg|
    ensures Filling(msg, start, PointerTarget(msg[p], msg[p + 1]), jumps + 1, true, if indir then enclen else p + 2 - start, soFar, whole)
  {
    hide Walk, Dotted, Escape, PointerTarget, EncodedLength, Completes;
    WalkPointer(msg, p, jumps);
  }

  lemma FillLabel(msg: seq<Byte>, start: nat, p: nat, jumps: nat, indir: bool, enclen: nat, soFar: seq<Byte>, whole: seq<Byte>)
      returns (later: seq<Label>)
    requires Filling(msg, start, p, jumps, indir, enclen, soFar, whole) && msg[p] != 0 && !IsPointer(msg[p])
    ensures p + 1 + msg[p] < |msg| && Walk(msg, p + 1 + msg[p], jumps) == Some(later)
    ensures Completes(soFar, Dotted([msg[p + 1..p + 1 + msg[p]]] + later), whole)
    ensures forall soFar' :: Completes(soFar', Dotted(later), whole) ==>
              Filling(msg, start, p + 1 + msg[p], jumps, indir, enclen, soFar', whole)
  {
    hide Walk, Dotted, Escape, PointerTarget, EncodedLength, Completes;
    if msg[p] >= 64 { WalkReserved(msg, p, jumps); }
    WalkLabel(msg, p, jumps);
    later := Walk(msg, p + 1 + msg[p], jumps).value;
  }

  lemma FillEnd(msg: seq<Byte>, start: nat, p: nat, jumps: nat, indir: bool, enclen: nat, soFar: seq<Byte>, whole: seq<Byte>)
    requires Filling(msg, start, p, jumps, indir, enclen, soFar, whole) && msg[p] == 0
    ensures soFar == whole && (!indir ==> start <= p) && Walk(msg, start, 0).Some?
    ensures EncodedLength(msg, start, 0) == if indir then enclen else p + 1 - start
  {
    hide Walk, Dotted, Escape, PointerTarget, EncodedLength, Completes;
    WalkEnd(msg, p, jumps);
    DottedFirst([], []);
    CompletesEnd(soFar, whole);
  }

  /** One round of the copying loop: a pointer is followed, or a label copied. */
  method FillStep(msg: seq<Byte>, start: nat, s: array<Byte>, p: nat, q: nat, indir: bool, enclen: nat, ghost jumps: nat, ghost whole: seq<Byte>)
      returns (p': nat, q': nat, indir': bool, enclen': nat, ghost jumps': nat)
    requires p < |msg| && msg[p] != 0 && q <= s.Length == |whole| && jumps <= MAX_INDIRS
    requires Filling(msg, start, p, jumps, indir, enclen, s[..q], whole)
    modifies s
    ensures p' < |msg| && q' <= s.Length && jumps <= jumps' <= MAX_INDIRS && (jumps' == jumps ==> p < p')
    ensures Filling(msg, start, p', jumps', indir', enclen', s[..q'], whole)
  {
    hide Walk, Dotted, Escape, PointerTarget, EncodedLength, Completes, Filling;
    p', q', indir', enclen', jumps' := p, q, indir, enclen, jumps;
    if IsPointer(msg[p]) {
      FillPointer(msg, start, p, jumps, indir, enclen, s[..q], whole);
      if !indir {
        enclen' := p + 2 - start;
        indir' := true;
      }
      p' := PointerTarget(msg[p], msg[p + 1]);
      jumps' := jumps + 1;
    } else {
      ghost var later := FillLabel(msg, start, p, jumps, indir, enclen, s[..q], whole);
      p', q' := CopyLabelText(msg, p, s, q, later, whole);
    }
  }

  /** The copying loop of ares_expand_name. */
  method FillName(msg: seq<Byte>, start: nat, s: array<Byte>, ghost all: seq<Label>) returns (enclen: nat)
    requires Walk(msg, start, 0) == Some(all) && s.Length == |Dotted(all)|
    modifies s
    ensures s[..] == Dotted(all)
    ensures enclen == EncodedLength(msg, start, 0)
  {
    var indir := false;
    var p: nat, q: nat := start, 0;
    enclen := 0;
    ghost var jumps: nat, whole := 0, Dotted(all);
    assert start < |msg|;
    CompletesStart(whole);
    assert s[..q] == [];
    assert Filling(msg, start, p, jumps, indir, enclen, s[..q], whole);
    hide Walk, Dotted, Escape, PointerTarget, EncodedLength, Completes, Filling;
    while msg[p] != 0
      invariant p < |msg| && jumps <= MAX_INDIRS && 0 <= q <= s.Length
      invariant Filling(msg, start, p, jumps, indir, enclen, s[..q], whole)
      decreases MAX_INDIRS - jumps, |msg| - p
    {
      p, q, indir, enclen, jumps := FillStep(msg, start, s, p, q, indir, enclen, jumps, whole);
    }
    FillEnd(msg, start, p, jumps, indir, enclen, s[..q], whole);
    assert s[..q] == s[..];
    if !indir {
      enclen := p + 1 - start;
    }
  }

  /** One round of the copying loop: a label, and the dot behind it. */
  method CopyLabelText(msg: seq<Byte>, from: nat, s: array<Byte>, at: nat, ghost later: seq<Label>, ghost whole: seq<Byte>)
      returns (p: nat, q: nat)
    requires from < |msg| && from + 1 + msg[from] <= |msg| && at <= s.Length == |whole|
    requires Completes(s[..at], Dotted([msg[from + 1..from + 1 + msg[from]]] + later), whole)
    modifies s
    ensures p == from + 1 + msg[from] && at < q <= s.Length
    ensures Completes(s[..q], Dotted(later), whole)
  {
    hide Dotted, Escape, Completes;
    ghost var lab := msg[from + 1..from + 1 + msg[from]];
    DottedFirst(lab, later);
    CompletesMore(s[..at], Escape(lab) + [DOT], Dotted(later), whole);
    ghost var before := s[..at];
    p, q := CopyEscaped(msg, from + 1, msg[from], s, at);
    q := PutByte(s, q, DOT);
    Assoc(before, Escape(lab), [DOT]);
  }

  /** The innermost loop of ares_expand_name: one label, escaped. */
  method CopyEscaped(msg: seq<Byte>, from: nat, len: nat, s: array<Byte>, at: nat) returns (p: nat, q: nat)
    requires from + len <= |msg| && at + |Escape(msg[from..from + len])| <= s.Length
    modifies s
    ensures p == from + len && q == at + |Escape(msg[from..from + len])|
    ensures s[..q] == old(s[..at]) + Escape(msg[from..from + len])
  {
    hide Escape;
    p, q := from, at;
    assert Escape([]) == [] by { EscapeNothing(); }
    assert s[..q] == s[..at] + [];
    ghost var lab := msg[from..from + len];
    while p < from + len
      invariant from <= p <= from + len && at <= q <= s.Length
      invariant s[..q] == old(s[..at]) + Escape(lab[..p - from])
    {
      ghost var k := p - from;
      assert lab[..k + 1] == lab[..k] + [msg[p]];
      EscapeAppend(lab[..k], msg[p]);
      assert lab == lab[..k + 1] + lab[k + 1..];
      EscapePrefix(lab[..k + 1], lab[k + 1..]);
      if msg[p] == DOT || msg[p] == BACKSLASH {
        q := PutByte(s, q, BACKSLASH);
      }
      q := PutByte(s, q, msg[p]);
      p := p + 1;
    }
    assert lab[..len] == lab;
  }

  lemma EscapeNothing()
    ensures Escape([]) == []
  {
  }

  lemma {:induction false} EscapePrefix(a: Label, b: Label)
    ensures Escape(a + b) == Escape(a) + Escape(b)
  {
    if a == [] {
      assert a + b == b;
    } else {
      assert (a + b)[1..] == a[1..] + b;
      EscapePrefix(a[1..], b);
    }
  }

  lemma BehindHeader(header: seq<Byte>, wire: seq<Byte>, tail: seq<Byte>)
    requires |header| == HEADER
    ensures var packet := header + wire + tail;
            packet[HEADER..] == wire + tail && packet[4] == header[4] && packet[5] == header[5]
  {
  }

  /**
   * What is created can be read back: expanding the name of an accepted query
   * gives the name in normal form, and its length is the number of bytes encoded.
   */
  lemma CreatedExpands(name: seq<Byte>, dnsclass: nat, rrtype: nat, id: nat, rd: bool, udpSize: nat)
    requires Encode(name).Encoded?
    ensures var ls := LabelsOf(name).value;
            var packet := Query(ls, dnsclass, rrtype, id, rd, udpSize);
            && Expand(packet, HEADER) == Expansion(Text(ls), |Wire(ls)|)
            && Normal(Text(ls)) && LabelsOf(Text(ls)) == Some(ls)
            && (Normal(name) && name != [DOT] ==> Text(ls) == name)
  {
    var ls := LabelsOf(name).value;
    var packet := Query(ls, dnsclass, rrtype, id, rd, udpSize);
    var tail := Trailer(dnsclass, rrtype, udpSize);
    BehindHeader(Header(id, rd, udpSize != 0), Wire(ls), tail);
    hide Query, Wire, Encode, Text, Header, Trailer, Normal, LabelsOf;
    WalkWire(packet, HEADER, ls, tail);
    ExpansionIsNormal(ls);
    ParseText(ls);
    if Normal(name) && name != [DOT] {
      NormalIsFixed(name);
    }
  }
}
