/**
 * IPv6 addresses as people write them (section 2.2 of RFC 4291): groups of one to four
 * hexadecimal digits of either case, perhaps with "::" and a prefix length, and the bytes
 * that the reader (inet_net_pton.c) makes of them. Byte values are written out here.
 */
module Ipv6Groups {
  import opened Bytes
  import opened Numbers
  import opened Ipv6Text
  import opened Ipv6Read

  /** The value of a hexadecimal digit, -1 for any other character. */
  function DigitValue(b: Byte): int {
    if 48 <= b <= 57 then b - 48 else if 97 <= b <= 102 then b - 87 else if 65 <= b <= 70 then b - 55 else -1
  }

  predicate AllHex(g: seq<Byte>) {
    forall i :: 0 <= i < |g| ==> DigitValue(g[i]) >= 0
  }

  predicate IsGroup(g: seq<Byte>) {
    1 <= |g| <= 4 && AllHex(g)
  }

  /** Most significant digit first. */
  function GroupValue(g: seq<Byte>): (v: nat)
    requires AllHex(g)
  {
    if g == [] then 0 else 16 * GroupValue(g[..|g| - 1]) + DigitValue(g[|g| - 1])
  }

  lemma {:induction false} GroupFits(g: seq<Byte>)
    requires AllHex(g) && |g| <= 4
    ensures |g| == 0 ==> GroupValue(g) < 1
    ensures |g| == 1 ==> GroupValue(g) < 16
    ensures |g| == 2 ==> GroupValue(g) < 256
    ensures |g| == 3 ==> GroupValue(g) < 4096
    ensures GroupValue(g) < 65536
  {
    if g != [] {
      GroupFits(g[..|g| - 1]);
    }
  }

  predicate AreGroups(gs: seq<seq<Byte>>) {
    forall i :: 0 <= i < |gs| ==> IsGroup(gs[i])
  }

  /** Two bytes for each group, in network order. */
  function Octets(gs: seq<seq<Byte>>): (s: seq<Byte>)
    requires AreGroups(gs)
    ensures |s| == 2 * |gs|
  {
    if gs == [] then []
    else
      GroupFits(gs[0]);
      [GroupValue(gs[0]) / 256, GroupValue(gs[0]) % 256] + Octets(gs[1..])
  }

  /** Groups with a colon (byte 58) behind each. */
  function Closed(gs: seq<seq<Byte>>): seq<Byte> {
    if gs == [] then [] else gs[0] + [58] + Closed(gs[1..])
  }

  /** Groups with a colon between any two. */
  function Joined(gs: seq<seq<Byte>>): seq<Byte> {
    if gs == [] then [] else Closed(gs[..|gs| - 1]) + gs[|gs| - 1]
  }

  /** The prefix length behind a slash (byte 47), if there is one. */
  function Suffix(bits: Option<nat>): seq<Byte> {
    if bits.Some? then [47] + Digits(bits.value) else []
  }

  /** The bits that are meant, and the words that the reader wants for them. */
  function Wanted(bits: Option<nat>): nat {
    if bits.Some? then bits.value else 128
  }

  /** How the reader notes the bits. */
  function Code(bits: Option<nat>): int {
    if bits.Some? then bits.value else -1
  }

  function WordsFor(b: nat): nat {
    if b <= 32 then 2 else (b + 15) / 16
  }

  function ZeroBytes(n: nat): (s: seq<Byte>)
    ensures |s| == n
  {
    seq(n, _ => 0)
  }

  // ---------------------------------------------------------------------
  // The character loop.

  lemma HexValueIs(b: Byte)
    ensures HexValue(b) == if DigitValue(b) >= 0 then Some(DigitValue(b)) else None
  {
  }

  lemma ScanDigit(b: Byte, rest: seq<Byte>, tok: seq<Byte>, tp: seq<Byte>, colon: Option<nat>, saw: bool, val: nat, digits: nat)
    requires DigitValue(b) >= 0 && |tp| <= 16 && digits < 4
    ensures Scan([b] + rest, tok, tp, colon, saw, val, digits)
         == Scan(rest, tok, tp, colon, true, val * 16 + DigitValue(b), digits + 1)
  {
    assert ([b] + rest)[1..] == rest;
  }

  lemma {:induction false} ScanGroup(g: seq<Byte>, rest: seq<Byte>, tok: seq<Byte>, tp: seq<Byte>, colon: Option<nat>)
    requires AllHex(g) && |g| <= 4 && |tp| <= 16
    ensures Scan(g + rest, tok, tp, colon, false, 0, 0) == Scan(rest, tok, tp, colon, g != [], GroupValue(g), |g|)
    decreases |g|
  {
    hide Scan;
    if g == [] {
      assert g + rest == rest;
    } else {
      var front, b := g[..|g| - 1], g[|g| - 1];
      ScanGroup(front, [b] + rest, tok, tp, colon);
      assert front + ([b] + rest) == g + rest;
      ScanDigit(b, rest, tok, tp, colon, front != [], GroupValue(front), |front|);
    }
  }

  lemma ClosedStep(gs: seq<seq<Byte>>, rest: seq<Byte>)
    requires gs != []
    ensures Closed(gs) + rest == gs[0] + ([58] + (Closed(gs[1..]) + rest))
  {
    Regather(gs[0], Closed(gs[1..]), rest);
  }

  lemma OctetsStep(gs: seq<seq<Byte>>, tp: seq<Byte>)
    requires gs != [] && AreGroups(gs)
    ensures GroupValue(gs[0]) < 65536
    ensures tp + [HighByte(GroupValue(gs[0])), LowByte(GroupValue(gs[0]))] + Octets(gs[1..]) == tp + Octets(gs)
  {
    GroupFits(gs[0]);
  }

  lemma {:induction false} ScanClosed(gs: seq<seq<Byte>>, rest: seq<Byte>, tp: seq<Byte>, colon: Option<nat>)
    requires AreGroups(gs) && |tp| + 2 * |gs| <= 16 && rest != []
    ensures Scan(Closed(gs) + rest, Closed(gs) + rest, tp, colon, false, 0, 0)
         == Scan(rest, rest, tp + Octets(gs), colon, false, 0, 0)
    decreases |gs|
  {
    if gs == [] {
      assert Closed(gs) + rest == rest && tp + Octets(gs) == tp;
    } else {
      hide Scan, HighByte, LowByte, Closed, Octets, GroupValue;
      var s := Closed(gs) + rest;
      var later := Closed(gs[1..]) + rest;
      var v := GroupValue(gs[0]);
      ClosedStep(gs, rest);
      ScanGroup(gs[0], [58] + later, s, tp, colon);
      LaterIsThere(gs[1..], rest);
      ScanColon(later, s, tp, colon, v, |gs[0]|);
      ScanClosed(gs[1..], rest, tp + [HighByte(v), LowByte(v)], colon);
      OctetsStep(gs, tp);
    }
  }

  lemma LaterIsThere(gs: seq<seq<Byte>>, rest: seq<Byte>)
    requires rest != []
    ensures Closed(gs) + rest != []
  {
  }

  /** Where the loop stops. */
  lemma ScanSuffix(bits: Option<nat>, tok: seq<Byte>, tp: seq<Byte>, colon: Option<nat>, saw: bool, val: nat, digits: nat)
    requires |tp| <= 16 && digits <= 4 && (bits.Some? ==> bits.value <= 128)
    ensures Scan(Suffix(bits), tok, tp, colon, saw, val, digits)
         == Stop(tp, colon, saw, val, Code(bits), false)
  {
    if bits.Some? {
      var s := Suffix(bits);
      assert s[0] == 47 && s[1..] == Digits(bits.value);
      BitsExact(Digits(bits.value), bits.value);
      hide BitsFrom, Digits;
    }
  }

  /** The groups at the end, with the prefix length. */
  lemma ScanJoined(gs: seq<seq<Byte>>, bits: Option<nat>, tp: seq<Byte>, colon: Option<nat>)
    requires AreGroups(gs) && |tp| + 2 * |gs| <= 16 && (bits.Some? ==> bits.value <= 128)
    ensures var s := Joined(gs) + Suffix(bits);
            Scan(s, s, tp, colon, false, 0, 0) ==
              if gs == [] then Stop(tp, colon, false, 0, Code(bits), false)
              else Stop(tp + Octets(gs[..|gs| - 1]), colon, true, GroupValue(gs[|gs| - 1]), Code(bits), false)
  {
    hide Scan, Suffix;
    var s := Joined(gs) + Suffix(bits);
    if gs == [] {
      assert s == Suffix(bits);
      ScanSuffix(bits, s, tp, colon, false, 0, 0);
    } else {
      var front, last := gs[..|gs| - 1], gs[|gs| - 1];
      Assoc(Closed(front), last, Suffix(bits));
      ScanClosed(front, last + Suffix(bits), tp, colon);
      ScanGroup(last, Suffix(bits), last + Suffix(bits), tp + Octets(front), colon);
      ScanSuffix(bits, last + Suffix(bits), tp + Octets(front), colon, true, GroupValue(last), |last|);
    }
  }

  lemma OctetsOne(g: seq<Byte>)
    requires IsGroup(g)
    ensures AreGroups([g]) && Octets([g]) == [HighByte(GroupValue(g)), LowByte(GroupValue(g))]
  {
    GroupFits(g);
    assert [g][1..] == [];
  }

  lemma {:induction false} OctetsLast(gs: seq<seq<Byte>>)
    requires gs != [] && AreGroups(gs)
    ensures var v := GroupValue(gs[|gs| - 1]);
            Octets(gs) == Octets(gs[..|gs| - 1]) + [HighByte(v), LowByte(v)]
    decreases |gs|
  {
    var front, last := gs[..|gs| - 1], gs[|gs| - 1];
    hide GroupValue, HighByte, LowByte, AllHex;
    if |gs| == 1 {
      OctetsOne(last);
      assert front == [] && gs == [last];
    } else {
      OctetsLast(gs[1..]);
      assert gs[1..][..|gs| - 2] == front[1..];
    }
  }

  lemma GroupsStart(gs: seq<seq<Byte>>, rest: seq<Byte>)
    requires gs != [] && AreGroups(gs)
    ensures Joined(gs) + rest != [] && (Joined(gs) + rest)[0] != COLON
  {
    assert DigitValue(gs[0][0]) >= 0;
    if |gs| > 1 {
      var front := gs[..|gs| - 1];
      assert front[0] == gs[0] && Closed(front)[0] == gs[0][0];
    } else {
      assert Joined(gs)[0] == gs[0][0];
    }
  }

  // ---------------------------------------------------------------------
  // Without "::".

  lemma WordsAgree(bits: Option<nat>)
    requires bits.Some? ==> bits.value <= 128
    ensures EndWord(Wanted(bits), false) == WordsFor(Wanted(bits)) && 2 <= WordsFor(Wanted(bits)) <= 8
    ensures (Wanted(bits) + 7) / 8 <= 2 * WordsFor(Wanted(bits))
  {
  }

  /** What the loop has stored in all. */
  predicate StoredIs(tp: seq<Byte>, saw: bool, val: nat, all: seq<Byte>) {
    |tp| <= |all| <= 16 && all == if saw then tp + [HighByte(val), LowByte(val)] else tp
  }

  lemma FinishPlain(tp: seq<Byte>, saw: bool, val: nat, bits: Option<nat>, all: seq<Byte>)
    requires StoredIs(tp, saw, val, all) && (bits.Some? ==> bits.value <= 128)
    ensures (Wanted(bits) + 7) / 8 <= 16
    ensures Finish(Stop(tp, None, saw, val, Code(bits), false)) ==
              if |all| == 2 * WordsFor(Wanted(bits)) then Accepted(Wanted(bits), Zeroed(all)[..(Wanted(bits) + 7) / 8]) else Rejected
  {
    WordsAgree(bits);
    CodeIs(bits);
    hide EndWord, WordsFor, Wanted, Code, Zeroed, HighByte, LowByte;
  }

  /** The arithmetic of the words is kept apart. */
  lemma FinishIs(tp: seq<Byte>, colon: nat, saw: bool, val: nat, code: int, all: seq<Byte>)
    requires StoredIs(tp, saw, val, all) && colon <= |tp| && -1 <= code <= MAX_BITS
    ensures var b: nat := if code == -1 then 128 else code;
            var end := 2 * EndWord(b, false);
            |all| - colon <= end ==>
              Finish(Stop(tp, Some(colon), saw, val, code, false)) ==
                if |all| == end then Rejected else Accepted(b, Shift(Zeroed(all), colon, |all| - colon, end, 1)[..(b + 7) / 8])
  {
    hide EndWord, Zeroed, HighByte, LowByte, Shift;
  }

  lemma FinishWithGap(tp: seq<Byte>, colon: nat, saw: bool, val: nat, bits: Option<nat>, all: seq<Byte>)
    requires StoredIs(tp, saw, val, all) && (bits.Some? ==> bits.value <= 128) && colon <= |tp|
    requires |all| <= 2 * WordsFor(Wanted(bits))
    ensures var end := 2 * WordsFor(Wanted(bits));
            && end <= 16 && (Wanted(bits) + 7) / 8 <= 16
            && Finish(Stop(tp, Some(colon), saw, val, Code(bits), false)) ==
                 if |all| == end then Rejected
                 else Accepted(Wanted(bits), Shift(Zeroed(all), colon, |all| - colon, end, 1)[..(Wanted(bits) + 7) / 8])
  {
    WordsAgree(bits);
    CodeIs(bits);
    FinishIs(tp, colon, saw, val, Code(bits), all);
    hide EndWord, WordsFor, Wanted, Code, Zeroed, Shift, Finish, StoredIs;
  }

  lemma CodeIs(bits: Option<nat>)
    requires bits.Some? ==> bits.value <= 128
    ensures Wanted(bits) == (if Code(bits) == -1 then 128 else Code(bits)) <= 128 && -1 <= Code(bits) <= MAX_BITS
  {
  }

  /** The last group is still to be stored when the loop stops. */
  lemma AllStored(before: seq<Byte>, gs: seq<seq<Byte>>)
    requires gs != [] && AreGroups(gs) && |before| + 2 * |gs| <= 16
    ensures StoredIs(before + Octets(gs[..|gs| - 1]), true, GroupValue(gs[|gs| - 1]), before + Octets(gs))
  {
    hide Octets, GroupValue, HighByte, LowByte, AllHex;
    OctetsLast(gs);
    var v := GroupValue(gs[|gs| - 1]);
    Assoc(before, Octets(gs[..|gs| - 1]), [HighByte(v), LowByte(v)]);
  }

  /** As many groups as the prefix length wants words are read as their bytes; fewer or more are refused. */
  lemma GroupsAreRead(gs: seq<seq<Byte>>, bits: Option<nat>)
    requires AreGroups(gs) && 1 <= |gs| <= 8 && (bits.Some? ==> bits.value <= 128)
    ensures var n := (Wanted(bits) + 7) / 8;
            n <= 16 &&
            Read(Joined(gs) + Suffix(bits)) ==
              if |gs| == WordsFor(Wanted(bits)) then Accepted(Wanted(bits), (Octets(gs) + ZeroBytes(16 - 2 * |gs|))[..n]) else Rejected
  {
    var src := Joined(gs) + Suffix(bits);
    hide Scan, Suffix, Joined, Octets, GroupValue, Finish, WordsFor;
    GroupsStart(gs, Suffix(bits));
    ScanJoined(gs, bits, [], None);
    var none: seq<Byte>, v := [], GroupValue(gs[|gs| - 1]);
    AllStored(none, gs);
    assert none + Octets(gs) == Octets(gs);
    FinishPlain(none + Octets(gs[..|gs| - 1]), true, v, bits, Octets(gs));
    assert Zeroed(Octets(gs)) == Octets(gs) + ZeroBytes(16 - 2 * |gs|);
    hide Zeroed;
  }

  // ---------------------------------------------------------------------
  // With "::".

  /** t with its last k bytes moved to the end of the first `end` bytes, and zeros elsewhere. */
  function Layout(t: seq<Byte>, k: nat, end: nat): (s: seq<Byte>)
    requires k <= |t| <= end <= 16
    ensures |s| == 16
  {
    t[..|t| - k] + ZeroBytes(end - |t|) + t[|t| - k..] + ZeroBytes(16 - end)
  }

  lemma LayoutStep(t: seq<Byte>, k: nat, end: nat)
    requires k < |t| < end <= 16
    ensures var tmp, i := Layout(t, k, end), k + 1;
            tmp[end - i := tmp[|t| - i]][|t| - i := 0] == Layout(t, k + 1, end)
  {
    var tmp, i := Layout(t, k, end), k + 1;
    assert tmp[|t| - i] == t[|t| - i];
    var next := tmp[end - i := tmp[|t| - i]][|t| - i := 0];
    forall j | 0 <= j < 16 ensures next[j] == Layout(t, k + 1, end)[j] {
    }
  }

  lemma {:induction false} ShiftMakesRoom(t: seq<Byte>, colon: nat, k: nat, end: nat)
    requires colon + k <= |t| < end <= 16
    ensures Shift(Layout(t, k, end), colon, |t| - colon, end, k + 1) == Layout(t, |t| - colon, end)
    decreases |t| - colon - k
  {
    if colon + k < |t| {
      LayoutStep(t, k, end);
      ShiftMakesRoom(t, colon, k + 1, end);
      hide Layout;
    }
  }

  lemma LayoutOfParts(pre: seq<Byte>, post: seq<Byte>, end: nat)
    requires |pre| + |post| <= end <= 16
    ensures Layout(pre + post, |post|, end) == pre + ZeroBytes(end - |pre| - |post|) + post + ZeroBytes(16 - end)
    ensures Zeroed(pre + post) == Layout(pre + post, 0, end)
  {
    var t := pre + post;
    assert t[..|pre|] == pre && t[|pre|..] == post;
  }

  /** From the loop's end to the result. */
  lemma FinishParts(pre: seq<Byte>, post: seq<Byte>, tp: seq<Byte>, saw: bool, val: nat, bits: Option<nat>)
    requires (bits.Some? ==> bits.value <= 128) && StoredIs(tp, saw, val, pre + post)
    requires |pre| + |post| <= 2 * WordsFor(Wanted(bits)) && |pre| <= |tp|
    ensures var end, n := 2 * WordsFor(Wanted(bits)), (Wanted(bits) + 7) / 8;
            end <= 16 && n <= 16 &&
            Finish(Stop(tp, Some(|pre|), saw, val, Code(bits), false)) ==
              if |pre| + |post| == end then Rejected
              else Accepted(Wanted(bits), (pre + ZeroBytes(end - |pre| - |post|) + post + ZeroBytes(16 - end))[..n])
  {
    var end := 2 * WordsFor(Wanted(bits));
    hide Layout, Shift, WordsFor, Zeroed, Finish, StoredIs;
    FinishWithGap(tp, |pre|, saw, val, bits, pre + post);
    LayoutOfParts(pre, post, end);
    if |pre| + |post| < end {
      ShiftMakesRoom(pre + post, |pre|, 0, end);
    }
  }

  /** Up to and including "::". */
  lemma StartWithGap(pre: seq<seq<Byte>>, rest: seq<Byte>)
    requires AreGroups(pre) && |pre| <= 8
    ensures Start(Joined(pre) + [58, 58] + rest) == Scan(rest, rest, Octets(pre), Some(2 * |pre|), false, 0, 0)
  {
    hide Scan, Closed;
    var tail := [58] + rest;
    TwoColons(Joined(pre), rest);
    if pre == [] {
      assert ([58, 58] + rest)[1..] == tail;
      assert Joined(pre) + ([58, 58] + rest) == [58, 58] + rest;
      ScanDouble(rest, []);
    } else {
      GroupsStart(pre, [58, 58] + rest);
      ClosedIsJoined(pre);
      ScanClosed(pre, tail, [], None);
      assert [] + Octets(pre) == Octets(pre);
      ScanDouble(rest, Octets(pre));
    }
  }

  lemma FourParts(a: seq<Byte>, b: seq<Byte>, c: seq<Byte>)
    ensures a + [58] + (b + c + [58]) == a + [58] + b + c + [58]
  {
  }

  lemma {:induction false} ClosedIsJoined(gs: seq<seq<Byte>>)
    requires gs != []
    ensures Closed(gs) == Joined(gs) + [58]
    decreases |gs|
  {
    var front, last := gs[..|gs| - 1], gs[|gs| - 1];
    if |gs| == 1 {
      assert gs[1..] == [] && front == [];
      assert Closed(gs) == gs[0] + [58] + [];
    } else {
      ClosedIsJoined(gs[1..]);
      assert gs[1..][..|gs| - 2] == front[1..];
      FourParts(gs[0], Closed(front[1..]), last);
    }
  }

  /** Groups on both sides of "::", fewer than there are words, are read with zeros between them; as many as there are words are refused. */
  lemma GapIsRead(pre: seq<seq<Byte>>, post: seq<seq<Byte>>, bits: Option<nat>)
    requires AreGroups(pre) && AreGroups(post) && (bits.Some? ==> bits.value <= 128)
    requires |pre| + |post| <= WordsFor(Wanted(bits))
    ensures var words, n := WordsFor(Wanted(bits)), (Wanted(bits) + 7) / 8;
            words <= 8 && n <= 16 &&
            Read(Joined(pre) + [58, 58] + (Joined(post) + Suffix(bits))) ==
              if |pre| + |post| == words then Rejected
              else Accepted(Wanted(bits), (Octets(pre) + ZeroBytes(2 * (words - |pre| - |post|)) + Octets(post) + ZeroBytes(16 - 2 * words))[..n])
  {
    var rest := Joined(post) + Suffix(bits);
    WordsAgree(bits);
    hide Scan, Joined, Suffix, Finish, Start, WordsFor, EndWord, Octets, GroupValue, StoredIs;
    StartWithGap(pre, rest);
    ScanJoined(post, bits, Octets(pre), Some(2 * |pre|));
    GapEnds(pre, post, bits);
    hide ZeroBytes;
  }

  lemma GapEnds(pre: seq<seq<Byte>>, post: seq<seq<Byte>>, bits: Option<nat>)
    requires AreGroups(pre) && AreGroups(post) && (bits.Some? ==> bits.value <= 128)
    requires |pre| + |post| <= WordsFor(Wanted(bits)) <= 8
    ensures var end, n := 2 * WordsFor(Wanted(bits)), (Wanted(bits) + 7) / 8;
            var r := if post == [] then Stop(Octets(pre), Some(2 * |pre|), false, 0, Code(bits), false)
                     else Stop(Octets(pre) + Octets(post[..|post| - 1]), Some(2 * |pre|), true, GroupValue(post[|post| - 1]), Code(bits), false);
            && n <= 16 && |r.tp| <= 16 && 2 * |pre| <= |r.tp| && -1 <= Code(bits) <= MAX_BITS
            && Finish(r) ==
                 if |pre| + |post| == WordsFor(Wanted(bits)) then Rejected
                 else Accepted(Wanted(bits), (Octets(pre) + ZeroBytes(2 * (WordsFor(Wanted(bits)) - |pre| - |post|)) + Octets(post) + ZeroBytes(16 - end))[..n])
  {
    hide Finish, WordsFor, Octets, GroupValue, StoredIs, AllHex;
    var words := WordsFor(Wanted(bits));
    assert 2 * words - |Octets(pre)| - |Octets(post)| == 2 * (words - |pre| - |post|);
    if post == [] {
      JustBefore(Octets(pre));
      assert Octets(post) == [];
      FinishParts(Octets(pre), Octets(post), Octets(pre), false, 0, bits);
    } else {
      AllStored(Octets(pre), post);
      FinishParts(Octets(pre), Octets(post), Octets(pre) + Octets(post[..|post| - 1]), true, GroupValue(post[|post| - 1]), bits);
    }
  }

  lemma JustBefore(tp: seq<Byte>)
    requires |tp| <= 16
    ensures StoredIs(tp, false, 0, tp + [])
  {
    assert tp + [] == tp;
  }
}
