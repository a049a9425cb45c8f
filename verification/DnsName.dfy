/**
 * Domain names in text and on the wire: the specification that the encoder
 * (ares_create_query.c) and the decoder (ares_expand_name.c) are proved against,
 * and the laws that relate the two.
 *
 * A name is a list of labels. On the wire (RFC 1035, section 3.1) each label
 * follows its length and a zero length ends the name; in text, labels are
 * separated by dots and a backslash takes the next character literally.
 */
module DnsName {
  import opened Bytes

  type Label = seq<Byte>

  const MAX_LABEL := 63
  const MAX_NAME := 255
  /** Maximum number of indirections allowed for a name. */
  const MAX_INDIRS := 50

  // ---------------------------------------------------------------------
  // Text.

  /** The label at the front of s with its escapes resolved, and what follows it: nothing, or a dot. */
  function TakeLabel(s: seq<Byte>): (r: (Label, seq<Byte>))
    ensures |r.0| + |r.1| <= |s| && (r.1 == [] || r.1[0] == DOT)
    ensures s != [] && s[0] != DOT ==> r.0 != []
  {
    if s == [] || s[0] == DOT then ([], s)
    else if s[0] == BACKSLASH && |s| >= 2 then
      var (l, rest) := TakeLabel(s[2..]);
      ([s[1]] + l, rest)
    else
      var (l, rest) := TakeLabel(s[1..]);
      ([s[0]] + l, rest)
  }

  /** The labels of a name in text, None if one is empty or too long; a dot may end the name. */
  function ParseLabels(s: seq<Byte>): (r: Option<seq<Label>>)
    ensures r.Some? ==> forall i :: 0 <= i < |r.value| ==> 1 <= |r.value[i]| <= MAX_LABEL
    decreases |s|
  {
    if s == [] then Some([])
    else if s[0] == DOT then None
    else
      var (l, rest) := TakeLabel(s);
      if |l| > MAX_LABEL then None
      else if rest == [] then Some([l])
      else
        match ParseLabels(rest[1..])
        case None => None
        case Some(ls) => Some([l] + ls)
  }

  /** The root may be written as a single dot. */
  function LabelsOf(name: seq<Byte>): Option<seq<Label>> {
    ParseLabels(if name == [DOT] then [] else name)
  }

  predicate NeedsEscape(b: Byte) {
    b == DOT || b == BACKSLASH
  }

  function EscapeByte(b: Byte): (s: seq<Byte>)
    ensures 1 <= |s|
  {
    if NeedsEscape(b) then [BACKSLASH, b] else [b]
  }

  function Escape(l: Label): (s: seq<Byte>)
    ensures |l| <= |s|
  {
    if l == [] then [] else EscapeByte(l[0]) + Escape(l[1..])
  }

  /** The labels, each followed by a dot. */
  function Dotted(ls: seq<Label>): seq<Byte> {
    if ls == [] then [] else Escape(ls[0]) + [DOT] + Dotted(ls[1..])
  }

  /** The text that a name expands to: dots between the labels, none at the end. */
  function Text(ls: seq<Label>): seq<Byte> {
    var s := Dotted(ls);
    if s == [] then [] else s[..|s| - 1]
  }

  // ---------------------------------------------------------------------
  // Wire.

  function WireLabels(ls: seq<Label>): seq<Byte>
    requires forall i :: 0 <= i < |ls| ==> |ls[i]| <= MAX_LABEL
  {
    if ls == [] then [] else [|ls[0]|] + ls[0] + WireLabels(ls[1..])
  }

  function Wire(ls: seq<Label>): seq<Byte>
    requires forall i :: 0 <= i < |ls| ==> |ls[i]| <= MAX_LABEL
  {
    WireLabels(ls) + [NUL]
  }

  /** A name as RFC 1035 allows it (sections 2.3.4 and 3.1). */
  predicate WellFormed(ls: seq<Label>) {
    (forall i :: 0 <= i < |ls| ==> 1 <= |ls[i]| <= MAX_LABEL) && |Wire(ls)| <= MAX_NAME
  }

  /**
   * The labels of the compressed name at offset o of a message (RFC 1035, section
   * 4.1.4), reached after `indir` jumps; None if the name is malformed, leaves the
   * message or jumps too often.
   */
  function Walk(msg: seq<Byte>, o: nat, indir: nat): (r: Option<seq<Label>>)
    requires indir <= MAX_INDIRS
    ensures r.Some? ==> o < |msg| && forall i :: 0 <= i < |r.value| ==> 1 <= |r.value[i]| <= MAX_LABEL
    decreases MAX_INDIRS - indir, |msg| - o
  {
    if o >= |msg| then None
    else if msg[o] == 0 then Some([])
    else if IsPointer(msg[o]) then
      if o + 1 >= |msg| then None
      else
        var target := PointerTarget(msg[o], msg[o + 1]);
        if target >= |msg| || indir + 1 > |msg| || indir + 1 > MAX_INDIRS then None
        else Walk(msg, target, indir + 1)
    else if msg[o] <= MAX_LABEL then
      var end := o + 1 + msg[o];
      if end >= |msg| then None
      else
        match Walk(msg, end, indir)
        case None => None
        case Some(ls) => Some([msg[o + 1..end]] + ls)
    else None
  }

  /** The two top bits are set. */
  predicate IsPointer(b: Byte) {
    b >= 192
  }

  function PointerTarget(high: Byte, low: Byte): nat
    requires IsPointer(high)
  {
    var h: int, l: int := high, low;
    (h - 192) * 256 + l
  }

  /** From offset o to just behind the first pointer or the end of the name. */
  function EncodedLength(msg: seq<Byte>, o: nat, indir: nat): (n: nat)
    requires indir <= MAX_INDIRS && Walk(msg, o, indir).Some?
    ensures n >= 1 && o + n <= |msg|
    decreases |msg| - o
  {
    if msg[o] == 0 then 1
    else if IsPointer(msg[o]) then 2
    else 1 + msg[o] + EncodedLength(msg, o + 1 + msg[o], indir)
  }

  // ---------------------------------------------------------------------
  // Laws.

  lemma TakeByte(b: Byte, s: seq<Byte>)
    ensures TakeLabel(EscapeByte(b) + s) == ([b] + TakeLabel(s).0, TakeLabel(s).1)
    ensures (EscapeByte(b) + s)[0] != DOT
  {
    var t := EscapeByte(b) + s;
    if NeedsEscape(b) {
      assert t[0] == BACKSLASH && t[1] == b && t[2..] == s;
    } else {
      assert t[0] == b && t[1..] == s;
    }
  }

  lemma {:induction false} TakeEscaped(l: Label, rest: seq<Byte>)
    requires rest == [] || rest[0] == DOT
    ensures TakeLabel(Escape(l) + rest) == (l, rest)
    ensures l != [] ==> Escape(l) + rest != [] && (Escape(l) + rest)[0] != DOT
  {
    if l == [] {
      assert Escape(l) + rest == rest;
    } else {
      hide TakeLabel, EscapeByte;
      var tail := Escape(l[1..]) + rest;
      Assoc(EscapeByte(l[0]), Escape(l[1..]), rest);
      hide Escape;
      TakeEscaped(l[1..], rest);
      TakeByte(l[0], tail);
      assert l == [l[0]] + l[1..];
    }
  }

  lemma ParseFirst(l: Label, tail: seq<Byte>)
    requires 1 <= |l| <= MAX_LABEL && ParseLabels(tail).Some?
    ensures ParseLabels(Escape(l) + [DOT] + tail) == Some([l] + ParseLabels(tail).value)
  {
    assert Escape(l) + [DOT] + tail == Escape(l) + ([DOT] + tail);
    TakeEscaped(l, [DOT] + tail);
    assert ([DOT] + tail)[1..] == tail;
  }

  lemma ParseLast(l: Label)
    requires |l| <= MAX_LABEL
    ensures ParseLabels(Escape(l)) == Some(if l == [] then [] else [l])
  {
    if l != [] {
      assert Escape(l) + [] == Escape(l);
      TakeEscaped(l, []);
    }
  }

  /** The labels of a text that is put together from labels; the last one may still be empty. */
  lemma DottedFirst(ls: seq<Label>, tail: seq<Byte>)
    requires ls != []
    ensures Dotted(ls) + tail == Escape(ls[0]) + [DOT] + (Dotted(ls[1..]) + tail)
  {
    hide Escape;
  }

  lemma {:induction false} ParseDotted(ls: seq<Label>, last: Label)
    requires forall i :: 0 <= i < |ls| ==> 1 <= |ls[i]| <= MAX_LABEL
    requires |last| <= MAX_LABEL
    ensures ParseLabels(Dotted(ls) + Escape(last)) == Some(if last == [] then ls else ls + [last])
  {
    hide ParseLabels, Escape, TakeLabel;
    if ls == [] {
      assert Dotted(ls) + Escape(last) == Escape(last) && ls + [last] == [last];
      ParseLast(last);
    } else {
      var tail := Dotted(ls[1..]) + Escape(last);
      ParseDotted(ls[1..], last);
      DottedFirst(ls, Escape(last));
      hide Dotted;
      ParseFirst(ls[0], tail);
      assert ls == [ls[0]] + ls[1..];
      assert ls + [last] == [ls[0]] + (ls[1..] + [last]);
    }
  }

  lemma {:induction false} DottedAppend(ls: seq<Label>, last: Label)
    ensures Dotted(ls + [last]) == Dotted(ls) + Escape(last) + [DOT]
  {
    if ls == [] {
      assert ls + [last] == [last];
      assert Dotted([last]) == Escape(last) + [DOT] + Dotted([]);
    } else {
      assert (ls + [last])[1..] == ls[1..] + [last];
      DottedAppend(ls[1..], last);
    }
  }

  lemma TextAppend(ls: seq<Label>, last: Label)
    ensures Text(ls + [last]) == Dotted(ls) + Escape(last)
  {
    DottedAppend(ls, last);
  }

  /** Expanding and parsing again loses nothing. */
  lemma ParseText(ls: seq<Label>)
    requires forall i :: 0 <= i < |ls| ==> 1 <= |ls[i]| <= MAX_LABEL
    ensures ParseLabels(Text(ls)) == Some(ls) && LabelsOf(Text(ls)) == Some(ls)
  {
    if ls != [] {
      var front, last := ls[..|ls| - 1], ls[|ls| - 1];
      assert ls == front + [last];
      TextAppend(front, last);
      ParseDotted(front, last);
      assert ParseLabels([DOT]) == None;
    }
  }

  /** Labels with a dot (byte 46) between any two. */
  function Joined(ls: seq<Label>): seq<Byte> {
    if ls == [] then [] else if |ls| == 1 then ls[0] else ls[0] + [46] + Joined(ls[1..])
  }

  /** Neither a dot nor a backslash. */
  predicate Plain(l: Label) {
    46 !in l && 92 !in l
  }

  lemma {:induction false} PlainLabel(l: Label)
    requires Plain(l)
    ensures Escape(l) == l
  {
    if l != [] {
      assert l == [l[0]] + l[1..];
      assert Plain(l[1..]);
      PlainLabel(l[1..]);
    }
  }

  lemma {:induction false} PlainDotted(ls: seq<Label>)
    requires ls != [] && forall i :: 0 <= i < |ls| ==> Plain(ls[i])
    ensures Dotted(ls) == Joined(ls) + [46]
  {
    hide Plain, Escape;
    PlainLabel(ls[0]);
    if |ls| == 1 {
      assert Dotted(ls) == Escape(ls[0]) + [DOT] + Dotted([]);
    } else {
      PlainDotted(ls[1..]);
      assert Dotted(ls) == ls[0] + [DOT] + (Joined(ls[1..]) + [46]);
    }
  }

  /** Without dots and backslashes in them, the labels of a name are joined by dots. */
  lemma PlainText(ls: seq<Label>)
    requires forall i :: 0 <= i < |ls| ==> Plain(ls[i])
    ensures Text(ls) == Joined(ls)
  {
    if ls != [] {
      PlainDotted(ls);
      assert (Joined(ls) + [46])[..|Joined(ls)|] == Joined(ls);
    }
  }

  /** A dot or a backslash inside a label has a backslash (byte 92) before it. */
  lemma EscapeOfTwo(b: Byte)
    ensures Escape([b]) == if b == 46 || b == 92 then [92, b] else [b]
  {
    assert [b][1..] == [];
  }

  /** A text that carries no escape it does not need and no final dot. */
  predicate Normal(s: seq<Byte>) {
    if s == [] then true
    else if s[0] == BACKSLASH then |s| >= 2 && NeedsEscape(s[1]) && Normal(s[2..])
    else if s[0] == DOT then |s| >= 2 && Normal(s[1..])
    else Normal(s[1..])
  }

  lemma EscapeMore(b: Byte, l: Label, rest: seq<Byte>)
    ensures Escape([b] + l) + rest == EscapeByte(b) + (Escape(l) + rest)
  {
    assert ([b] + l)[1..] == l;
  }

  lemma {:induction false} NormalLabel(s: seq<Byte>)
    requires Normal(s)
    ensures var (l, rest) := TakeLabel(s);
            s == Escape(l) + rest && Normal(rest)
    decreases |s|
  {
    if s != [] && s[0] != DOT {
      var k := if s[0] == BACKSLASH then 2 else 1;
      var b, t := s[k - 1], s[k..];
      NormalLabel(t);
      assert s == EscapeByte(b) + t;
      TakeByte(b, t);
      EscapeMore(b, TakeLabel(t).0, TakeLabel(t).1);
    }
  }

  /** A normal text is its own expansion, so the expansion of an accepted name is that name made normal. */
  lemma {:induction false} NormalIsFixed(s: seq<Byte>)
    requires Normal(s) && ParseLabels(s).Some?
    ensures Text(ParseLabels(s).value) == s
    decreases |s|
  {
    if s != [] {
      NormalLabel(s);
      var (l, rest) := TakeLabel(s);
      var ls := ParseLabels(s).value;
      hide TakeLabel, Escape;
      if rest == [] {
        assert ls == [l];
        assert Dotted([l]) == Escape(l) + [DOT] + Dotted([]);
        assert s == Escape(l) + [] == Escape(l);
      } else {
        NormalIsFixed(rest[1..]);
        var inner := ParseLabels(rest[1..]).value;
        assert ls == [l] + inner && ls[1..] == inner && inner != [];
        hide ParseLabels, Normal;
        OneMoreLabel(l, inner);
        assert rest == [DOT] + rest[1..];
        Assoc(Escape(l), [DOT], rest[1..]);
      }
    }
  }

  lemma OneMoreLabel(l: Label, inner: seq<Label>)
    requires inner != []
    ensures Text([l] + inner) == Escape(l) + [DOT] + Text(inner)
  {
    hide Escape;
    assert ([l] + inner)[1..] == inner;
    var front, tail := Escape(l) + [DOT], Dotted(inner);
    assert Dotted([l] + inner) == front + tail && tail != [];
    assert (front + tail)[..|front + tail| - 1] == front + tail[..|tail| - 1];
  }

  lemma {:induction false} EscapeNormal(l: Label, rest: seq<Byte>)
    requires Normal(rest)
    ensures Normal(Escape(l) + rest)
  {
    if l == [] {
      assert Escape(l) + rest == rest;
    } else {
      EscapeNormal(l[1..], rest);
      hide Normal, EscapeByte;
      Assoc(EscapeByte(l[0]), Escape(l[1..]), rest);
      NormalByte(l[0], Escape(l[1..]) + rest);
    }
  }

  lemma NormalByte(b: Byte, s: seq<Byte>)
    requires Normal(s)
    ensures Normal(EscapeByte(b) + s)
  {
    var t := EscapeByte(b) + s;
    if NeedsEscape(b) {
      assert t[0] == BACKSLASH && t[1] == b && t[2..] == s;
    } else {
      assert t[0] == b && t[1..] == s;
    }
  }

  lemma {:induction false} ExpansionIsNormal(ls: seq<Label>)
    requires forall i :: 0 <= i < |ls| ==> 1 <= |ls[i]|
    ensures Normal(Text(ls)) && (ls != [] ==> Text(ls) != [])
  {
    hide Escape, Normal;
    if |ls| == 1 {
      TextAppend([], ls[0]);
      assert [] + [ls[0]] == ls;
      assert Text(ls) == Escape(ls[0]) + [];
      assert Normal([]) by { NormalEmpty(); }
      EscapeNormal(ls[0], []);
    } else if |ls| > 1 {
      ExpansionIsNormal(ls[1..]);
      var tail := Text(ls[1..]);
      assert Text(ls) == Escape(ls[0]) + ([DOT] + tail);
      NormalDot(tail);
      EscapeNormal(ls[0], [DOT] + tail);
    } else {
      NormalEmpty();
    }
  }

  lemma NormalEmpty()
    ensures Normal([])
  {
  }

  lemma NormalDot(tail: seq<Byte>)
    requires Normal(tail) && tail != []
    ensures Normal([DOT] + tail)
  {
    assert ([DOT] + tail)[1..] == tail;
  }

  // The wire form.

  lemma {:induction false} WireAppend(a: seq<Label>, b: seq<Label>)
    requires forall i :: 0 <= i < |a| ==> |a[i]| <= MAX_LABEL
    requires forall i :: 0 <= i < |b| ==> |b[i]| <= MAX_LABEL
    ensures WireLabels(a + b) == WireLabels(a) + WireLabels(b)
  {
    if a == [] {
      assert a + b == b;
    } else {
      assert (a + b)[1..] == a[1..] + b;
      WireAppend(a[1..], b);
    }
  }

  /** Walking a name that sits uncompressed in a message. */
  lemma {:induction false} WalkWire(msg: seq<Byte>, o: nat, ls: seq<Label>, tail: seq<Byte>)
    requires forall i :: 0 <= i < |ls| ==> 1 <= |ls[i]| <= MAX_LABEL
    requires o <= |msg| && msg[o..] == Wire(ls) + tail
    ensures Walk(msg, o, 0) == Some(ls)
    ensures EncodedLength(msg, o, 0) == |Wire(ls)|
    decreases |ls|
  {
    if ls != [] {
      var l, more := ls[0], Wire(ls[1..]) + tail;
      WireFirst(ls, tail);
      LabelHere(msg, o, l, more);
      hide Wire;
      WalkWire(msg, o + 1 + |l|, ls[1..], tail);
      assert ls == [l] + ls[1..];
    } else {
      assert msg[o] == msg[o..][0] == NUL;
    }
  }

  lemma WireFirst(ls: seq<Label>, tail: seq<Byte>)
    requires ls != [] && forall i :: 0 <= i < |ls| ==> 1 <= |ls[i]| <= MAX_LABEL
    ensures Wire(ls) + tail == [|ls[0]|] + ls[0] + (Wire(ls[1..]) + tail)
    ensures |Wire(ls)| == 1 + |ls[0]| + |Wire(ls[1..])|
  {
  }

  /** A label at offset o of a message, and more behind it. */
  lemma LabelHere(msg: seq<Byte>, o: nat, l: Label, more: seq<Byte>)
    requires o <= |msg| && |l| <= MAX_LABEL && msg[o..] == [|l|] + l + more
    ensures o < |msg| && msg[o] == |l| && o + 1 + |l| <= |msg|
    ensures msg[o + 1..o + 1 + |l|] == l && msg[o + 1 + |l|..] == more
  {
    var s := msg[o..];
    assert s[0] == msg[o];
    assert msg[o + 1..o + 1 + |l|] == s[1..1 + |l|] == l;
    assert msg[o + 1 + |l|..] == s[1 + |l|..] == more;
  }

  /** Different names have different wire forms. */
  lemma {:induction false} WireInjective(a: seq<Label>, b: seq<Label>)
    requires forall i :: 0 <= i < |a| ==> 1 <= |a[i]| <= MAX_LABEL
    requires forall i :: 0 <= i < |b| ==> 1 <= |b[i]| <= MAX_LABEL
    requires Wire(a) == Wire(b)
    ensures a == b
  {
    WalkWire(Wire(a), 0, a, []);
    assert Wire(a)[0..] == Wire(a) + [] == Wire(b) + [];
    WalkWire(Wire(a), 0, b, []);
  }

  // ---------------------------------------------------------------------
  // The names that are refused on sight, and C strings.

  function Lower(b: Byte): Byte {
    if 65 <= b <= 90 then b + 32 else b
  }

  /** ares_striendstr: does s end with suffix, ignoring case? */
  predicate EndsWithFold(s: seq<Byte>, suffix: seq<Byte>) {
    |suffix| <= |s| && forall i :: 0 <= i < |suffix| ==> Lower(s[|s| - |suffix| + i]) == Lower(suffix[i])
  }

  const ONION: seq<Byte> := [46, 111, 110, 105, 111, 110]

  /** ares__is_onion_domain */
  predicate IsOnion(name: seq<Byte>) {
    EndsWithFold(name, ONION) || EndsWithFold(name, ONION + [DOT])
  }

  lemma {:induction false} JoinedLast(ls: seq<Label>)
    requires |ls| >= 2
    ensures Joined(ls) == Joined(ls[..|ls| - 1]) + [46] + ls[|ls| - 1]
  {
    var front, last := ls[..|ls| - 1], ls[|ls| - 1];
    if |ls| == 2 {
      assert ls[1..] == [last] && front == [ls[0]];
    } else {
      JoinedLast(ls[1..]);
      assert ls[1..][..|ls| - 2] == front[1..];
      assert Joined(ls) == ls[0] + [46] + (Joined(front[1..]) + [46] + last);
    }
  }

  /** The label "onion" in any case. */
  predicate SaysOnion(l: Label) {
    && |l| == 5 && l[0] in {79, 111} && l[1] in {78, 110} && l[2] in {73, 105} && l[3] in {79, 111} && l[4] in {78, 110}
  }

  lemma EndIs(s: seq<Byte>, suffix: seq<Byte>, t: seq<Byte>)
    requires |t| == |suffix| <= |s| && s[|s| - |t|..] == t
    ensures EndsWithFold(s, suffix) <==> forall i :: 0 <= i < |t| ==> Lower(t[i]) == Lower(suffix[i])
  {
    assert forall i :: 0 <= i < |t| ==> s[|s| - |suffix| + i] == t[i];
    if EndsWithFold(s, suffix) {
      forall i | 0 <= i < |t| ensures Lower(t[i]) == Lower(suffix[i]) {
        assert Lower(s[|s| - |suffix| + i]) == Lower(suffix[i]);
      }
    }
  }

  lemma OnionBehind(front: seq<Byte>, last: Label)
    requires Plain(last)
    ensures EndsWithFold(front + [46] + last, ONION) <==> SaysOnion(last)
  {
    var s := front + [46] + last;
    if |s| >= 6 {
      var t := s[|s| - 6..];
      EndIs(s, ONION, t);
      hide EndsWithFold;
      if |last| < 5 {
        assert t[5 - |last|] == 46 && Lower(t[5 - |last|]) != Lower(ONION[5 - |last|]);
      } else if |last| > 5 {
        assert t[0] == last[|last| - 6] && t[0] in last;
        assert Lower(t[0]) != Lower(ONION[0]);
      } else {
        assert t == [46] + last;
        assert t[1] == last[0] && t[2] == last[1] && t[3] == last[2] && t[4] == last[3] && t[5] == last[4];
      }
    }
  }

  lemma OnionDot(s: seq<Byte>)
    ensures EndsWithFold(s + [46], ONION + [DOT]) <==> EndsWithFold(s, ONION)
    ensures !EndsWithFold(s + [46], ONION)
    ensures s != [] && s[|s| - 1] != 46 ==> !EndsWithFold(s, ONION + [DOT])
    ensures 46 !in s ==> !EndsWithFold(s, ONION)
  {
    var t, suffix := s + [46], ONION + [DOT];
    if EndsWithFold(t, suffix) {
      forall i | 0 <= i < 6 ensures Lower(s[|s| - 6 + i]) == Lower(ONION[i]) {
        assert Lower(t[|t| - 7 + i]) == Lower(suffix[i]);
      }
    }
    if EndsWithFold(s, ONION) {
      assert Lower(s[|s| - 6]) == Lower(ONION[0]);
      forall i | 0 <= i < 7 ensures Lower(t[|t| - 7 + i]) == Lower(suffix[i]) {
        assert i < 6 ==> Lower(s[|s| - 6 + i]) == Lower(ONION[i]);
      }
    }
    assert |t| >= 6 ==> Lower(t[|t| - 6 + 5]) != Lower(ONION[5]);
    assert |s| >= 7 && s[|s| - 1] != 46 ==> Lower(s[|s| - 7 + 6]) != Lower(suffix[6]);
  }

  /**
   * A name of labels without dots, with or without a final dot, is refused exactly if it
   * has at least two labels, of which the last is "onion" in any case.
   */
  lemma OnionExactly(ls: seq<Label>, final: bool)
    requires ls != [] && forall i :: 0 <= i < |ls| ==> ls[i] != [] && Plain(ls[i])
    ensures IsOnion(Text(ls) + if final then [46] else []) <==> |ls| >= 2 && SaysOnion(ls[|ls| - 1])
  {
    PlainText(ls);
    var s, last := Joined(ls), ls[|ls| - 1];
    assert last[|last| - 1] in last;
    hide EndsWithFold, SaysOnion, Text;
    OnionDot(s);
    if |ls| >= 2 {
      JoinedLast(ls);
      OnionBehind(Joined(ls[..|ls| - 1]), last);
    }
    assert s + [] == s;
  }

  /** What a C function sees of bytes that may contain a NUL. */
  function CString(s: seq<Byte>): (c: seq<Byte>)
    ensures NUL !in c && c <= s
    ensures NUL !in s ==> c == s
  {
    if s == [] || s[0] == NUL then [] else [s[0]] + CString(s[1..])
  }

  datatype Encoding = Encoded(wire: seq<Byte>) | BadName | NotFound

  /** What the encoder makes of a name. */
  function Encode(name: seq<Byte>): Encoding {
    if IsOnion(name) then NotFound
    else match LabelsOf(name)
      case None => BadName
      case Some(ls) => if |Wire(ls)| > MAX_NAME then BadName else Encoded(Wire(ls))
  }

  /** Expanding an encoded name and encoding it again. */
  function Reencode(ls: seq<Label>): Encoding {
    Encode(CString(Text(ls)))
  }

  predicate NulFree(ls: seq<Label>) {
    forall i :: 0 <= i < |ls| ==> NUL !in ls[i]
  }

  lemma {:induction false} EscapeNul(l: Label)
    ensures NUL in Escape(l) <==> NUL in l
  {
    if l != [] {
      EscapeNul(l[1..]);
      assert l == [l[0]] + l[1..];
    }
  }

  lemma {:induction false} DottedNul(ls: seq<Label>)
    ensures NUL in Dotted(ls) <==> !NulFree(ls)
  {
    if ls != [] {
      EscapeNul(ls[0]);
      DottedNul(ls[1..]);
      assert ls == [ls[0]] + ls[1..];
    }
  }

  lemma TextNul(ls: seq<Label>)
    ensures NUL in Text(ls) <==> !NulFree(ls)
  {
    DottedNul(ls);
    if ls != [] {
      var front, last := ls[..|ls| - 1], ls[|ls| - 1];
      assert ls == front + [last];
      TextAppend(front, last);
      DottedAppend(front, last);
    }
  }

  lemma CStringByte(b: Byte, s: seq<Byte>)
    ensures CString(EscapeByte(b) + s) == if b == NUL then [] else EscapeByte(b) + CString(s)
  {
    var t := EscapeByte(b) + s;
    if NeedsEscape(b) {
      assert t[1..] == [b] + s && t[1..][1..] == s;
    } else {
      assert t[1..] == s;
    }
  }

  lemma {:induction false} CStringPast(l: Label, rest: seq<Byte>)
    requires NUL !in l
    ensures CString(Escape(l) + rest) == Escape(l) + CString(rest)
  {
    if l == [] {
      assert Escape(l) + rest == rest;
    } else {
      var tail := Escape(l[1..]) + rest;
      assert Escape(l) + rest == EscapeByte(l[0]) + tail;
      CStringPast(l[1..], rest);
      CStringByte(l[0], tail);
    }
  }

  /** A NUL inside a label cuts the text off in the middle of that label. */
  lemma {:induction false} CStringInside(l: Label, rest: seq<Byte>) returns (k: nat)
    requires NUL in l
    ensures k < |l| && CString(Escape(l) + rest) == Escape(l[..k])
  {
    var tail := Escape(l[1..]) + rest;
    EscapeFirst(l, rest);
    CStringByte(l[0], tail);
    if l[0] == NUL {
      k := 0;
    } else {
      assert l == [l[0]] + l[1..];
      k := CStringInside(l[1..], rest);
      assert l[..k + 1][1..] == l[1..][..k] && l[..k + 1][0] == l[0];
      EscapeFirst(l[..k + 1], []);
      hide Escape, CString, EscapeByte;
      k := k + 1;
    }
  }

  lemma EscapeFirst(l: Label, rest: seq<Byte>)
    requires l != []
    ensures Escape(l) == EscapeByte(l[0]) + Escape(l[1..])
    ensures Escape(l) + rest == EscapeByte(l[0]) + (Escape(l[1..]) + rest)
  {
  }

  lemma {:induction false} CStringCuts(ls: seq<Label>) returns (j: nat, k: nat)
    requires !NulFree(ls)
    ensures j < |ls| && k < |ls[j]| && CString(Text(ls)) == Dotted(ls[..j]) + Escape(ls[j][..k])
  {
    hide Escape, CString, Text;
    if NUL in ls[0] {
      assert exists rest :: Text(ls) == Escape(ls[0]) + rest by { TextFirst(ls); }
      var rest :| Text(ls) == Escape(ls[0]) + rest;
      k := CStringInside(ls[0], rest);
      j := 0;
      assert Dotted(ls[..0]) + Escape(ls[0][..k]) == Escape(ls[0][..k]);
    } else {
      assert ls == [ls[0]] + ls[1..];
      j, k := CStringCuts(ls[1..]);
      var tail := Text(ls[1..]);
      assert Text(ls) == Escape(ls[0]) + ([DOT] + tail) by { TextRest(ls); }
      CStringPast(ls[0], [DOT] + tail);
      CStringDot(tail);
      assert ls[..j + 1] == [ls[0]] + ls[1..][..j];
      assert Dotted(ls[..j + 1]) == Escape(ls[0]) + [DOT] + Dotted(ls[1..][..j]);
      j := j + 1;
    }
  }

  lemma TextFirst(ls: seq<Label>)
    requires ls != []
    ensures exists rest :: Text(ls) == Escape(ls[0]) + rest
  {
    var tail := Dotted(ls[1..]);
    var rest := ([DOT] + tail)[..|tail|];
    assert Dotted(ls) == Escape(ls[0]) + ([DOT] + tail);
    assert Text(ls) == Escape(ls[0]) + rest;
  }

  lemma TextRest(ls: seq<Label>)
    requires |ls| >= 2
    ensures Text(ls) == Escape(ls[0]) + ([DOT] + Text(ls[1..]))
  {
    hide Escape;
    var later := Dotted(ls[1..]);
    assert later != [];
    Assoc(Escape(ls[0]), [DOT], later);
    FrontOf(Escape(ls[0]), [DOT], later);
  }

  lemma FrontOf(a: seq<Byte>, b: seq<Byte>, c: seq<Byte>)
    requires c != []
    ensures (a + b + c)[..|a + b + c| - 1] == a + (b + c[..|c| - 1])
  {
  }

  lemma CStringDot(tail: seq<Byte>)
    ensures CString([DOT] + tail) == [DOT] + CString(tail)
  {
    assert ([DOT] + tail)[1..] == tail;
  }

  /**
   * Re-encoding the expansion of a well-formed name gives the same bytes exactly
   * if no label contains a zero byte and the text is not refused as an onion name.
   */
  lemma ReencodeExactly(ls: seq<Label>)
    requires WellFormed(ls)
    ensures Reencode(ls) == Encoded(Wire(ls)) <==> NulFree(ls) && !IsOnion(Text(ls))
  {
    TextNul(ls);
    if NulFree(ls) {
      ParseText(ls);
    } else {
      var j, k := CStringCuts(ls);
      CutNameDiffers(ls, j, k);
    }
  }

  lemma CutNameDiffers(ls: seq<Label>, j: nat, k: nat)
    requires WellFormed(ls) && j < |ls| && k < |ls[j]|
    ensures Encode(Dotted(ls[..j]) + Escape(ls[j][..k])) != Encoded(Wire(ls))
  {
    hide IsOnion, Escape, Dotted, ParseLabels, WireLabels;
    var cut := ls[j][..k];
    var short := if cut == [] then ls[..j] else ls[..j] + [cut];
    ParseDotted(ls[..j], cut);
    assert short != ls by {
      assert |short| == |ls| ==> short[j] == cut != ls[j];
    }
    if Wire(short) == Wire(ls) {
      WireInjective(short, ls);
    }
    var s := Dotted(ls[..j]) + Escape(cut);
    DotIsNoName();
    assert ParseLabels(s) == Some(short);
  }

  lemma DotIsNoName()
    ensures ParseLabels([DOT]) == None
  {
  }
}
