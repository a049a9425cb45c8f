/**
 * What a compressed name spells (section 4.1.4 of RFC 1035): the names that
 * ares_expand_name.c decodes are exactly the chains of labels and pointers.
 */
module DnsChain {
  import opened Bytes
  import opened DnsName
  import opened DnsCodec

  /** The two bytes of a pointer to offset t. */
  function PointerTo(t: nat): (p: seq<Byte>)
    requires t < 16384
    ensures |p| == 2
  {
    [192 + t / 256, t % 256]
  }

  predicate Holds(msg: seq<Byte>, p: nat, text: seq<Byte>) {
    p + |text| <= |msg| && msg[p..p + |text|] == text
  }

  /** Labels that stand in a row from some offset on. */
  datatype Segment = Segment(at: nat, labels: seq<Label>)

  predicate Proper(ls: seq<Label>) {
    forall i :: 0 <= i < |ls| ==> 1 <= |ls[i]| <= 63
  }

  /** Each segment ends with a pointer to the next one, and the last with the zero byte. */
  predicate IsChain(msg: seq<Byte>, segs: seq<Segment>)
    decreases |segs|
  {
    && segs != [] && Proper(segs[0].labels)
    && if |segs| == 1 then
         Holds(msg, segs[0].at, WireLabels(segs[0].labels) + [NUL])
       else
         && segs[1].at < 16384
         && Holds(msg, segs[0].at, WireLabels(segs[0].labels) + PointerTo(segs[1].at))
         && IsChain(msg, segs[1..])
  }

  function Spelled(segs: seq<Segment>): seq<Label> {
    if segs == [] then [] else segs[0].labels + Spelled(segs[1..])
  }

  /** How many bytes the first segment takes, with its end. */
  function Taken(segs: seq<Segment>): nat
    requires segs != [] && Proper(segs[0].labels)
  {
    |WireLabels(segs[0].labels)| + if |segs| == 1 then 1 else 2
  }

  lemma PointerLeads(t: nat)
    requires t < 16384
    ensures IsPointer(PointerTo(t)[0]) && PointerTarget(PointerTo(t)[0], PointerTo(t)[1]) == t
  {
  }

  lemma PointerComesFrom(high: Byte, low: Byte)
    requires IsPointer(high)
    ensures PointerTarget(high, low) < 16384 && PointerTo(PointerTarget(high, low)) == [high, low]
  {
  }

  lemma HoldsFront(msg: seq<Byte>, p: nat, a: seq<Byte>, b: seq<Byte>)
    ensures Holds(msg, p, a + b) <==> Holds(msg, p, a) && Holds(msg, p + |a|, b)
  {
    if Holds(msg, p, a + b) {
      var s := msg[p..p + |a + b|];
      assert msg[p..p + |a|] == s[..|a|] == a;
      assert msg[p + |a|..p + |a| + |b|] == s[|a|..] == b;
    }
    if Holds(msg, p, a) && Holds(msg, p + |a|, b) {
      assert msg[p..p + |a + b|] == msg[p..p + |a|] + msg[p + |a|..p + |a| + |b|];
    }
  }

  /** One label in front of whatever can be walked. */
  lemma LabelWalks(msg: seq<Byte>, o: nat, l: Label, indir: nat)
    requires indir <= MAX_INDIRS && 1 <= |l| <= MAX_LABEL
    requires Holds(msg, o, [|l|] + l) && Walk(msg, o + 1 + |l|, indir).Some?
    ensures Walk(msg, o, indir) == Some([l] + Walk(msg, o + 1 + |l|, indir).value)
    ensures EncodedLength(msg, o, indir) == 1 + |l| + EncodedLength(msg, o + 1 + |l|, indir)
  {
    HoldsFront(msg, o, [|l|], l);
    assert msg[o] == msg[o..o + 1][0];
  }

  lemma LabelsSplit(msg: seq<Byte>, o: nat, ls: seq<Label>)
    requires ls != [] && Proper(ls) && Holds(msg, o, WireLabels(ls))
    ensures Holds(msg, o, [|ls[0]|] + ls[0]) && Holds(msg, o + 1 + |ls[0]|, WireLabels(ls[1..]))
    ensures |WireLabels(ls)| == 1 + |ls[0]| + |WireLabels(ls[1..])|
  {
    hide Holds;
    var first, rest := [|ls[0]|] + ls[0], WireLabels(ls[1..]);
    assert WireLabels(ls) == first + rest;
    hide WireLabels;
    HoldsFront(msg, o, first, rest);
  }

  /** Labels in front of whatever can be walked. */
  lemma {:induction false} LabelsWalk(msg: seq<Byte>, o: nat, ls: seq<Label>, indir: nat)
    requires indir <= MAX_INDIRS && Proper(ls)
    requires Holds(msg, o, WireLabels(ls)) && Walk(msg, o + |WireLabels(ls)|, indir).Some?
    ensures var p := o + |WireLabels(ls)|;
            && Walk(msg, o, indir) == Some(ls + Walk(msg, p, indir).value)
            && EncodedLength(msg, o, indir) == |WireLabels(ls)| + EncodedLength(msg, p, indir)
    decreases |ls|
  {
    hide Walk, EncodedLength, Holds;
    var later := Walk(msg, o + |WireLabels(ls)|, indir).value;
    if ls == [] {
      assert [] + later == later;
    } else {
      LabelsSplit(msg, o, ls);
      hide WireLabels;
      LabelsWalk(msg, o + 1 + |ls[0]|, ls[1..], indir);
      LabelWalks(msg, o, ls[0], indir);
      assert ls + later == [ls[0]] + (ls[1..] + later);
    }
  }

  /** A chain with not too many jumps is decoded to its labels, and its encoded length is that of its first segment. */
  lemma {:induction false} ChainWalks(msg: seq<Byte>, segs: seq<Segment>, indir: nat)
    requires IsChain(msg, segs) && indir + |segs| - 1 <= MAX_INDIRS && indir + |segs| - 1 <= |msg|
    ensures Walk(msg, segs[0].at, indir) == Some(Spelled(segs))
    ensures EncodedLength(msg, segs[0].at, indir) == Taken(segs)
    decreases |segs|
  {
    hide Walk, EncodedLength;
    var o, ls := segs[0].at, segs[0].labels;
    var p := o + |WireLabels(ls)|;
    if |segs| == 1 {
      HoldsFront(msg, o, WireLabels(ls), [NUL]);
      assert msg[p] == msg[p..p + 1][0];
      EndWalks(msg, p, indir);
      assert segs[1..] == [] && ls + [] == ls;
    } else {
      var t := segs[1].at;
      HoldsFront(msg, o, WireLabels(ls), PointerTo(t));
      assert msg[p] == msg[p..p + 2][0] && msg[p + 1] == msg[p..p + 2][1];
      ChainWalks(msg, segs[1..], indir + 1);
      PointerLeads(t);
      PointerWalks(msg, p, indir, t);
    }
    LabelsWalk(msg, o, ls, indir);
  }

  lemma EndWalks(msg: seq<Byte>, p: nat, indir: nat)
    requires indir <= MAX_INDIRS && p < |msg| && msg[p] == NUL
    ensures Walk(msg, p, indir) == Some([]) && EncodedLength(msg, p, indir) == 1
  {
  }

  lemma PointerWalks(msg: seq<Byte>, p: nat, indir: nat, t: nat)
    requires indir + 1 <= MAX_INDIRS && indir + 1 <= |msg| && p + 1 < |msg|
    requires IsPointer(msg[p]) && PointerTarget(msg[p], msg[p + 1]) == t && Walk(msg, t, indir + 1).Some?
    ensures Walk(msg, p, indir) == Walk(msg, t, indir + 1) && EncodedLength(msg, p, indir) == 2
  {
  }

  /** And what is decoded is a chain. */
  lemma {:induction false} WalkIsChain(msg: seq<Byte>, o: nat, indir: nat) returns (segs: seq<Segment>)
    requires indir <= MAX_INDIRS && Walk(msg, o, indir).Some?
    ensures IsChain(msg, segs) && segs[0].at == o && Spelled(segs) == Walk(msg, o, indir).value
    ensures indir + |segs| - 1 <= MAX_INDIRS && (|segs| > 1 ==> indir + |segs| - 1 <= |msg|)
    decreases MAX_INDIRS - indir, |msg| - o
  {
    hide IsChain, Spelled;
    if msg[o] == NUL {
      segs := EndAlone(msg, o);
    } else if IsPointer(msg[o]) {
      var later := WalkIsChain(msg, PointerTarget(msg[o], msg[o + 1]), indir + 1);
      segs := PointerAhead(msg, o, later);
    } else {
      var end := o + 1 + msg[o];
      var l := msg[o + 1..end];
      var later := WalkIsChain(msg, end, indir);
      segs := LabelAhead(msg, o, l, later);
    }
  }

  lemma EndAlone(msg: seq<Byte>, o: nat) returns (segs: seq<Segment>)
    requires o < |msg| && msg[o] == NUL
    ensures IsChain(msg, segs) && |segs| == 1 && segs[0].at == o && Spelled(segs) == []
  {
    segs := [Segment(o, [])];
    assert msg[o..o + 1] == [NUL] && WireLabels([]) + [NUL] == [NUL];
    assert segs[1..] == [];
  }

  lemma PointerAhead(msg: seq<Byte>, o: nat, later: seq<Segment>) returns (segs: seq<Segment>)
    requires o + 1 < |msg| && IsPointer(msg[o])
    requires IsChain(msg, later) && later[0].at == PointerTarget(msg[o], msg[o + 1])
    ensures IsChain(msg, segs) && |segs| == 1 + |later| && segs[0].at == o && Spelled(segs) == Spelled(later)
  {
    PointerHeld(msg, o);
    hide PointerTo, Holds, WireLabels, PointerTarget;
    segs := [Segment(o, [])] + later;
    assert segs[1..] == later && segs[1] == later[0];
    assert [] + Spelled(later) == Spelled(later);
  }

  lemma PointerHeld(msg: seq<Byte>, o: nat)
    requires o + 1 < |msg| && IsPointer(msg[o])
    ensures var t := PointerTarget(msg[o], msg[o + 1]); t < 16384 && Holds(msg, o, WireLabels([]) + PointerTo(t))
  {
    PointerComesFrom(msg[o], msg[o + 1]);
    hide PointerTo, PointerTarget;
    var t := PointerTarget(msg[o], msg[o + 1]);
    assert msg[o..o + 2] == [msg[o], msg[o + 1]];
    assert WireLabels([]) + PointerTo(t) == PointerTo(t);
  }

  /** The bytes that end the first segment. */
  function Ending(segs: seq<Segment>): (e: seq<Byte>)
    requires |segs| > 1 ==> segs[1].at < 16384
  {
    if |segs| <= 1 then [NUL] else PointerTo(segs[1].at)
  }

  lemma WireAhead(l: Label, ls: seq<Label>)
    requires |l| <= MAX_LABEL && Proper(ls)
    ensures forall i :: 0 <= i < |[l] + ls| ==> |([l] + ls)[i]| <= MAX_LABEL
    ensures WireLabels([l] + ls) == [|l|] + l + WireLabels(ls)
  {
    assert ([l] + ls)[1..] == ls;
  }

  lemma HoldsAhead(msg: seq<Byte>, o: nat, l: Label, ls: seq<Label>, last: seq<Byte>)
    requires 1 <= |l| <= MAX_LABEL && Proper(ls)
    requires o + 1 + |l| <= |msg| && msg[o] == |l| && msg[o + 1..o + 1 + |l|] == l
    requires Holds(msg, o + 1 + |l|, WireLabels(ls) + last)
    ensures Proper([l] + ls) && Holds(msg, o, WireLabels([l] + ls) + last)
  {
    WireAhead(l, ls);
    hide WireLabels;
    assert msg[o..o + 1] == [|l|];
    HoldsFront(msg, o, [|l|], l);
    HoldsFront(msg, o, [|l|] + l, WireLabels(ls) + last);
    assert WireLabels([l] + ls) + last == ([|l|] + l) + (WireLabels(ls) + last);
  }

  lemma LabelAhead(msg: seq<Byte>, o: nat, l: Label, later: seq<Segment>) returns (segs: seq<Segment>)
    requires IsChain(msg, later) && later[0].at == o + 1 + |l| && 1 <= |l| <= MAX_LABEL
    requires o + 1 + |l| <= |msg| && msg[o] == |l| && msg[o + 1..o + 1 + |l|] == l
    ensures IsChain(msg, segs) && segs[0].at == o && Spelled(segs) == [l] + Spelled(later) && |segs| == |later|
  {
    hide WireLabels, Holds, PointerTo;
    var ls := later[0].labels;
    segs := [Segment(o, [l] + ls)] + later[1..];
    assert segs[1..] == later[1..];
    HoldsAhead(msg, o, l, ls, Ending(later));
    hide Proper;
    Assoc([l], ls, Spelled(later[1..]));
  }

  /** A chain of segments from offset o on, with at most fifty jumps and no more than the message has bytes. */
  predicate Reaches(msg: seq<Byte>, o: nat, segs: seq<Segment>)
    ensures Reaches(msg, o, segs) ==> segs != [] && Proper(segs[0].labels)
  {
    && IsChain(msg, segs) && segs[0].at == o
    && |segs| - 1 <= 50 && |segs| - 1 <= |msg|
  }

  /** The names that are decoded are the chains, and no others. */
  lemma WalkExactly(msg: seq<Byte>, o: nat, ls: seq<Label>)
    ensures Walk(msg, o, 0) == Some(ls) <==> exists segs :: Reaches(msg, o, segs) && Spelled(segs) == ls
  {
    hide Walk, IsChain, Spelled;
    if Walk(msg, o, 0) == Some(ls) {
      var segs := WalkIsChain(msg, o, 0);
      assert Reaches(msg, o, segs);
    }
    forall segs | Reaches(msg, o, segs) ensures Walk(msg, o, 0) == Some(Spelled(segs)) {
      ChainWalks(msg, segs, 0);
    }
  }

  /** Expanding gives the text of the chain's labels, and the encoded length ends behind the first pointer. */
  lemma ExpandExactly(msg: seq<Byte>, o: nat, text: seq<Byte>, enclen: nat)
    ensures Expand(msg, o) == Expansion(text, enclen) <==>
              exists segs :: Reaches(msg, o, segs) && Text(Spelled(segs)) == text && Taken(segs) == enclen
  {
    hide Walk, IsChain, Spelled, Text, Taken, EncodedLength;
    if Walk(msg, o, 0).Some? {
      var segs := WalkIsChain(msg, o, 0);
      assert Reaches(msg, o, segs);
      ChainWalks(msg, segs, 0);
    }
    forall segs | Reaches(msg, o, segs)
      ensures Walk(msg, o, 0) == Some(Spelled(segs)) && EncodedLength(msg, o, 0) == Taken(segs)
    {
      ChainWalks(msg, segs, 0);
    }
  }

  /** The pointer C0 0C of nearly every answer: the name of the first question, behind the header. */
  lemma PointerToQuestion(msg: seq<Byte>, o: nat, ls: seq<Label>)
    requires Proper(ls) && Holds(msg, HEADER, Wire(ls)) && Holds(msg, o, [192, 12])
    ensures Expand(msg, o) == Expansion(Text(ls), 2)
  {
    var segs := [Segment(o, []), Segment(HEADER, ls)];
    assert segs[1..] == [segs[1]] && [segs[1]][1..] == [];
    assert WireLabels([]) + PointerTo(HEADER) == [192, 12];
    hide Text, Walk, EncodedLength;
    assert IsChain(msg, [segs[1]]);
    assert Spelled([segs[1]]) == ls + [] == ls;
    assert Spelled(segs) == [] + ls == ls;
    ChainWalks(msg, segs, 0);
  }

  /** A pointer to itself is refused. */
  lemma {:induction false} LoopIsRefused(msg: seq<Byte>, o: nat, indir: nat)
    requires o < 16384 && indir <= MAX_INDIRS && Holds(msg, o, PointerTo(o))
    ensures Walk(msg, o, indir) == None
    decreases MAX_INDIRS - indir
  {
    PointerLeads(o);
    assert msg[o] == msg[o..o + 2][0] && msg[o + 1] == msg[o..o + 2][1];
    if indir < MAX_INDIRS {
      LoopIsRefused(msg, o, indir + 1);
    }
  }
}
