/**
 * Where the reader of IPv6 addresses (inet_net_pton.c: inet_net_pton_ipv6 and the
 * built-in ares_inet_pton) falls short of storing an address, in terms of the
 * characters of the text.
 */
module Ipv6Limits {
  import opened Bytes
  import opened Numbers
  import opened Ipv6Text
  import opened Ipv6Read

  // ---------------------------------------------------------------------
  // Texts of groups.

  predicate IsHex(b: Byte) {
    HexValue(b).Some?
  }

  /** How many hexadecimal digits the text ends with. */
  function Run(x: seq<Byte>): nat {
    if x == [] || !IsHex(x[|x| - 1]) then 0 else 1 + Run(x[..|x| - 1])
  }

  /** How many groups of digits are followed by a colon. */
  function Ended(x: seq<Byte>): nat {
    if x == [] then 0
    else Ended(x[..|x| - 1]) + if x[|x| - 1] == COLON && Run(x[..|x| - 1]) > 0 then 1 else 0
  }

  /** The second colon of a "::". */
  predicate IsGap(x: seq<Byte>, i: nat) {
    0 < i < |x| && x[i - 1] == COLON && x[i] == COLON
  }

  /** How many groups come before the last "::". */
  function GapAt(x: seq<Byte>): Option<nat> {
    if |x| < 2 then None
    else if IsGap(x, |x| - 1) then Some(Ended(x[..|x| - 1]))
    else GapAt(x[..|x| - 1])
  }

  /** Digits and colons, no more than four digits in a row and no second "::". */
  ghost predicate Loose(x: seq<Byte>) {
    && (forall i :: 0 <= i < |x| ==> IsHex(x[i]) || x[i] == COLON)
    && (forall i :: 0 <= i <= |x| ==> Run(x[..i]) <= 4)
    && (forall i: nat, j: nat :: IsGap(x, i) && IsGap(x, j) ==> i == j)
  }

  /** A colon at the beginning belongs to a "::". */
  predicate Headed(x: seq<Byte>) {
    x != [] && x[0] == COLON ==> |x| >= 2 && x[1] == COLON
  }

  /** What the reader takes without complaint, but for the number of groups. */
  ghost predicate Groupy(x: seq<Byte>) {
    Loose(x) && Headed(x)
  }

  // ---------------------------------------------------------------------
  // The character loop, position by position.

  /** Having read k characters, the loop is in the given state. */
  ghost predicate At(src: seq<Byte>, k: nat, tok: seq<Byte>, tp: seq<Byte>, colon: Option<nat>, val: nat) {
    && k <= |src| && |tp| == 2 * Ended(src[..k]) <= 16 && Run(src[..k]) <= 4
    && colon == (match GapAt(src[..k]) case None => None case Some(g) => Some(2 * g))
    && Start(src) == Scan(src[k..], tok, tp, colon, Run(src[..k]) > 0, val, Run(src[..k]))
  }

  /** Where the loop begins. */
  function First(src: seq<Byte>): nat {
    if src != [] && src[0] == COLON then 1 else 0
  }

  lemma AtFirst(src: seq<Byte>)
    requires Headed(src)
    ensures var k := First(src); k <= |src| && Loose(src[..k]) && At(src, k, src[k..], [], None, 0)
  {
    var x := src[..First(src)];
    assert Run(x) == 0 && Ended(x) == 0;
    assert forall i :: 0 <= i <= |x| ==> Run(x[..i]) == 0;
    assert src[0..] == src;
  }

  /** The loop goes on from k. */
  predicate Passes(src: seq<Byte>, k: nat)
    requires k < |src|
  {
    var x := src[..k];
    if IsHex(src[k]) then Run(x) < 4
    else src[k] == COLON && if Run(x) == 0 then GapAt(x) == None else k + 1 < |src| && Ended(x) < 8
  }

  lemma Onward(src: seq<Byte>, k: nat, tok: seq<Byte>, tp: seq<Byte>, colon: Option<nat>, val: nat)
      returns (tok': seq<Byte>, tp': seq<Byte>, colon': Option<nat>, val': nat)
    requires First(src) <= k < |src| && Loose(src[..k]) && At(src, k, tok, tp, colon, val) && Passes(src, k)
    ensures At(src, k + 1, tok', tp', colon', val') && Loose(src[..k + 1])
  {
    var x, y := src[..k], src[..k + 1];
    assert y[..k] == x && y[k] == src[k];
    assert src[k..][0] == src[k] && src[k..][1..] == src[k + 1..];
    LooseGrows(src, k);
    OnwardGap(src, k);
    tok', tp', colon', val' := tok, tp, colon, val;
    if IsHex(src[k]) {
      val' := val * 16 + HexValue(src[k]).value;
    } else if Run(x) > 0 {
      tok', tp', val' := src[k + 1..], tp + [HighByte(val), LowByte(val)], 0;
    } else {
      tok', colon' := src[k + 1..], Some(|tp|);
    }
  }

  /** A colon that follows no digit completes a "::". */
  lemma OnwardGap(src: seq<Byte>, k: nat)
    requires First(src) <= k < |src| && Loose(src[..k])
    ensures var x, y := src[..k], src[..k + 1];
            GapAt(y) == if src[k] == COLON && Run(x) == 0 then Some(Ended(x)) else GapAt(x)
  {
    var x, y := src[..k], src[..k + 1];
    assert y[..k] == x;
    if k > 0 {
      assert x[k - 1] == y[k - 1] == src[k - 1];
      assert IsHex(x[k - 1]) || x[k - 1] == COLON;
    }
  }

  lemma LooseGrows(src: seq<Byte>, k: nat)
    requires First(src) <= k < |src| && Loose(src[..k]) && Passes(src, k)
    ensures Loose(src[..k + 1])
  {
    var x, y := src[..k], src[..k + 1];
    assert y[..k] == x;
    forall i | 0 <= i <= |y| ensures Run(y[..i]) <= 4 {
      if i <= k {
        assert y[..i] == x[..i];
      } else {
        assert y[..i] == y;
      }
    }
    forall i: nat, j: nat | IsGap(y, i) && IsGap(y, j) ensures i == j {
      if i < k && j < k {
        assert IsGap(x, i) && IsGap(x, j);
      } else if i != j {
        var g := if i < k then i else j;
        assert IsGap(x, g);
        assert src[k] == COLON && src[k - 1] == COLON && Run(x) == 0;
        SomeGap(x, g);
      }
    }
  }

  lemma {:induction false} SomeGap(x: seq<Byte>, i: nat)
    requires IsGap(x, i)
    ensures GapAt(x).Some?
  {
    if i < |x| - 1 {
      SomeGap(x[..|x| - 1], i);
    }
  }

  lemma {:induction false} GapIsSome(x: seq<Byte>) returns (i: nat)
    requires GapAt(x).Some?
    ensures IsGap(x, i)
  {
    if IsGap(x, |x| - 1) {
      i := |x| - 1;
    } else {
      i := GapIsSome(x[..|x| - 1]);
    }
  }

  /** The loop reaches the end of every text of groups that is not too long and goes on. */
  lemma {:induction false} Reaches(src: seq<Byte>, k: nat)
      returns (tok: seq<Byte>, tp: seq<Byte>, colon: Option<nat>, val: nat)
    requires First(src) <= k < |src| && Headed(src) && Loose(src[..k]) && Ended(src[..k]) <= 8
    ensures At(src, k, tok, tp, colon, val)
  {
    hide At;
    if k == First(src) {
      AtFirst(src);
      tok, tp, colon, val := src[k..], [], None, 0;
    } else {
      var x, y := src[..k - 1], src[..k];
      assert y[..k - 1] == x && y[k - 1] == src[k - 1];
      LooseShrinks(src, k);
      tok, tp, colon, val := Reaches(src, k - 1);
      tok, tp, colon, val := Onward(src, k - 1, tok, tp, colon, val);
    }
  }

  lemma LooseShrinks(src: seq<Byte>, k: nat)
    requires First(src) < k <= |src| && Loose(src[..k]) && Ended(src[..k]) <= 8
    ensures Loose(src[..k - 1]) && Ended(src[..k - 1]) <= 8
    ensures k < |src| ==> Passes(src, k - 1)
  {
    var x, y := src[..k - 1], src[..k];
    assert y[..k - 1] == x && y[k - 1] == src[k - 1] && y[..k] == y;
    forall i | 0 <= i <= |x| ensures Run(x[..i]) <= 4 {
      assert x[..i] == y[..i];
    }
    assert forall i :: 0 <= i < |x| ==> x[i] == y[i];
    forall i: nat, j: nat | IsGap(x, i) && IsGap(x, j) ensures i == j {
      assert IsGap(y, i) && IsGap(y, j);
    }
    if src[k - 1] == COLON && Run(x) == 0 && GapAt(x).Some? {
      var i := GapIsSome(x);
      assert x[k - 2] == y[k - 2] == src[k - 2];
      assert IsGap(y, i) && IsGap(y, k - 1);
    }
    assert Run(y) == Run(y[..k]) <= 4;
  }

  /** Where the loop stops. */
  lemma {:induction false} Halts(src: seq<Byte>, from: nat, tok0: seq<Byte>, tp0: seq<Byte>, colon0: Option<nat>, val0: nat)
      returns (k: nat, tok: seq<Byte>, tp: seq<Byte>, colon: Option<nat>, val: nat)
    requires First(src) <= from <= |src| && Loose(src[..from]) && At(src, from, tok0, tp0, colon0, val0)
    ensures First(src) <= k <= |src| && Loose(src[..k]) && At(src, k, tok, tp, colon, val)
    ensures k < |src| ==> !Passes(src, k)
    decreases |src| - from
  {
    hide At, Loose, Passes;
    if from < |src| && Passes(src, from) {
      tok, tp, colon, val := Onward(src, from, tok0, tp0, colon0, val0);
      k, tok, tp, colon, val := Halts(src, from + 1, tok, tp, colon, val);
    } else {
      return from, tok0, tp0, colon0, val0;
    }
  }

  // ---------------------------------------------------------------------
  // A ninth group.

  /** Eight groups have ended before k, and there a ninth ends with a colon that is not the last character. */
  ghost predicate NinthEnds(src: seq<Byte>, k: nat) {
    k + 1 < |src| && src[k] == COLON && Run(src[..k]) > 0 && Groupy(src[..k]) && Ended(src[..k]) == 8
  }

  lemma {:induction false} NinthExactly(src: seq<Byte>)
    ensures Start(src) == TooManyGroups <==> exists k: nat :: NinthEnds(src, k)
  {
    if Start(src) == TooManyGroups {
      assert Headed(src);
      var k, tok, tp, colon, val := HaltsAt(src);
      assert k < |src| && src[k..][0] == src[k];
      assert src[k] == COLON && Run(src[..k]) > 0;
      HeadedPrefix(src, k);
      assert NinthEnds(src, k);
    }
    forall k: nat | NinthEnds(src, k) ensures Start(src) == TooManyGroups {
      HeadedPrefix(src, k);
      var tok, tp, colon, val := Reaches(src, k);
      assert src[k..][0] == src[k];
    }
  }

  lemma HaltsAt(src: seq<Byte>) returns (k: nat, tok: seq<Byte>, tp: seq<Byte>, colon: Option<nat>, val: nat)
    requires Headed(src)
    ensures First(src) <= k <= |src| && Loose(src[..k]) && At(src, k, tok, tp, colon, val)
    ensures k < |src| ==> !Passes(src, k)
  {
    AtFirst(src);
    k, tok, tp, colon, val := Halts(src, First(src), src[First(src)..], [], None, 0);
  }

  /** A prefix with a group or a gap in it begins like the whole text. */
  lemma HeadedPrefix(src: seq<Byte>, k: nat)
    requires k <= |src| && (Ended(src[..k]) > 0 || GapAt(src[..k]).Some?)
    ensures Headed(src) <==> Headed(src[..k])
    ensures Headed(src) ==> First(src) <= k
  {
    TwoCharacters(src[..k]);
  }

  lemma TwoCharacters(x: seq<Byte>)
    ensures Ended(x) > 0 || GapAt(x).Some? ==> |x| >= 2
  {
  }

  // ---------------------------------------------------------------------
  // The prefix length.

  function BeforeSlash(src: seq<Byte>): seq<Byte> {
    if src == [] || src[0] == SLASH then [] else [src[0]] + BeforeSlash(src[1..])
  }

  function AfterSlash(src: seq<Byte>): Option<seq<Byte>> {
    if src == [] then None else if src[0] == SLASH then Some(src[1..]) else AfterSlash(src[1..])
  }

  /** bits is what stands behind the first slash, and -1 without a slash. */
  predicate SaysBits(src: seq<Byte>, bits: int) {
    match AfterSlash(src)
    case None => bits == -1
    case Some(y) => BitsFrom(y, 0, 0).Some? && bits == BitsFrom(y, 0, 0).value
  }

  lemma {:induction false} ScanSaysBits(s: seq<Byte>, tok: seq<Byte>, tp: seq<Byte>, colon: Option<nat>, saw: bool, val: nat, digits: nat)
    requires |tp| <= 16 && digits <= 4 && AfterSlash(tok) == AfterSlash(s)
    ensures var r := Scan(s, tok, tp, colon, saw, val, digits); r.Stop? ==> SaysBits(s, r.bits)
    decreases |s|
  {
    if s != [] {
      if HexValue(s[0]).Some? {
        if digits < 4 {
          ScanSaysBits(s[1..], tok, tp, colon, true, val * 16 + HexValue(s[0]).value, digits + 1);
        }
      } else if s[0] == COLON && !saw {
        ScanSaysBits(s[1..], s[1..], tp, Some(|tp|), false, val, digits);
      } else if s[0] == COLON && |tp| + 2 <= 16 {
        ScanSaysBits(s[1..], s[1..], tp + [HighByte(val), LowByte(val)], colon, false, 0, 0);
      } else if s[0] == DOT {
        V4SaysBits(tok, [], 0, 0);
      }
    }
  }

  lemma {:induction false} V4SaysBits(s: seq<Byte>, octets: seq<Byte>, n: nat, val: nat)
    requires val <= 255 && |octets| <= 4
    ensures var r := V4From(s, octets, n, val); r.V4? ==> SaysBits(s, r.bits)
    decreases |s|
  {
    if s != [] && IsDigit(s[0]) {
      if !((n != 0 && val == 0) || val * 10 + (s[0] - ZERO) > 255) {
        V4SaysBits(s[1..], octets, n + 1, val * 10 + (s[0] - ZERO));
      }
    } else if s != [] && s[0] == DOT && |octets| <= 3 {
      V4SaysBits(s[1..], octets + [val], 0, 0);
    }
  }

  lemma StartSaysBits(src: seq<Byte>)
    ensures Start(src).Stop? ==> SaysBits(src, Start(src).bits)
  {
    if src != [] && src[0] == COLON {
      ScanSaysBits(src[1..], src[1..], [], None, false, 0, 0);
    } else {
      ScanSaysBits(src, src, [], None, false, 0, 0);
    }
  }

  /** The text says "/b" with a canonical decimal b of at most MAX_BITS. */
  predicate HasPrefix(src: seq<Byte>, b: nat) {
    AfterSlash(src) == Some(Digits(b)) && b <= MAX_BITS
  }

  lemma PrefixExactly(src: seq<Byte>, bits: int)
    requires SaysBits(src, bits)
    ensures bits == -1 <==> AfterSlash(src) == None
    ensures forall b: nat :: bits == b <==> HasPrefix(src, b)
  {
    forall b: nat ensures bits == b <==> HasPrefix(src, b) {
      if AfterSlash(src).Some? {
        BitsExact(AfterSlash(src).value, b);
      }
    }
  }

  // ---------------------------------------------------------------------
  // What is reported and what is stored.

  /** What ares_inet_pton returns, if the reader does not leave its scratch array. */
  function Reported(r: Result): Option<int> {
    match r
    case Overrun => None
    case Rejected => Some(0)
    case _ => Some(1)
  }

  /** The bytes that have been stored then. */
  function Stored(r: Result): seq<Byte> {
    if r.Accepted? then r.bytes else []
  }

  /**
   * Success is reported with less than an address stored exactly if a ninth group ends
   * with a colon, or the text has a prefix length of at most 120; and with nothing
   * stored at all exactly if a ninth group does, or the prefix length is 0.
   */
  lemma {:induction false} SuccessStoresTheAddressUnless(src: seq<Byte>)
    ensures Reported(Read(src)) == Some(1) ==>
              (|Stored(Read(src))| < 16 <==> (exists k: nat :: NinthEnds(src, k)) || exists b: nat :: HasPrefix(src, b) && b <= 120)
    ensures Reported(Read(src)) == Some(1) ==>
              (Stored(Read(src)) == [] <==> (exists k: nat :: NinthEnds(src, k)) || HasPrefix(src, 0))
  {
    StartKeeps(src);
    NinthExactly(src);
    StartSaysBits(src);
    hide NinthEnds, HasPrefix, SaysBits;
    if Start(src).Stop? {
      var bits := Start(src).bits;
      PrefixExactly(src, bits);
      assert HasPrefix(src, 0) ==> 0 <= 120;
      if bits >= 0 {
        assert HasPrefix(src, bits);
      }
      hide Shift, Zeroed;
    }
  }

  // ---------------------------------------------------------------------
  // The shift out of the scratch array.

  /** The words that a prefix of b bits needs; there are at least two. */
  function WordsOf(b: nat): nat {
    if b <= 32 then 2 else (b + 15) / 16
  }

  /** The groups of a text, the one at its end included. */
  function GroupsIn(x: seq<Byte>): nat {
    Ended(x) + if Run(x) > 0 then 1 else 0
  }

  /** More groups follow "::" than the prefix has words, and all groups together are not as many as it has. */
  ghost predicate TooManyBehindGap(x: seq<Byte>, b: nat) {
    && Groupy(x) && GapAt(x).Some? && GroupsIn(x) <= 8
    && GroupsIn(x) != WordsOf(b) && GroupsIn(x) - GapAt(x).value > WordsOf(b)
  }

  lemma {:induction false} OverrunExactly(src: seq<Byte>)
    ensures Read(src) == Overrun <==> exists b: nat :: HasPrefix(src, b) && TooManyBehindGap(BeforeSlash(src), b)
  {
    StartKeeps(src);
    StartSaysBits(src);
    if Read(src) == Overrun {
      var bits := Start(src).bits;
      PrefixExactly(src, bits);
      var k, tok, tp, colon, val := HaltsAt(src);
      StopsAtSlash(src, k, tok, tp, colon, val);
      GroupsBeforeSlash(src, k);
      HeadedPrefix(src, k);
      assert HasPrefix(src, bits) && TooManyBehindGap(BeforeSlash(src), bits);
    }
    forall b: nat | HasPrefix(src, b) && TooManyBehindGap(BeforeSlash(src), b) ensures Read(src) == Overrun {
      TooManyOverruns(src, b);
    }
  }

  lemma TooManyOverruns(src: seq<Byte>, b: nat)
    requires HasPrefix(src, b) && TooManyBehindGap(BeforeSlash(src), b)
    ensures Read(src) == Overrun
  {
    var k := SlashAt(src);
    HeadedPrefix(src, k);
    var tok, tp, colon, val := Reaches(src, k);
    assert src[k..][0] == SLASH && src[k..][1..] == src[k + 1..];
    BitsExact(src[k + 1..], b);
    assert Start(src) == Stop(tp, colon, Run(src[..k]) > 0, val, b, false);
  }

  lemma StopsAtSlash(src: seq<Byte>, k: nat, tok: seq<Byte>, tp: seq<Byte>, colon: Option<nat>, val: nat)
    requires At(src, k, tok, tp, colon, val) && Loose(src[..k]) && (k < |src| ==> !Passes(src, k))
    requires Read(src) == Overrun
    ensures k < |src| && src[k] == SLASH && Start(src) == Stop(tp, colon, Run(src[..k]) > 0, val, Start(src).bits, false)
  {
    hide Shift;
    if k < |src| {
      assert src[k..][0] == src[k];
      V4KeepsBits(tok);
    }
  }

  lemma V4KeepsBits(tok: seq<Byte>)
    ensures V4From(tok, [], 0, 0).V4? ==> -1 <= V4From(tok, [], 0, 0).bits <= MAX_BITS
  {
  }

  lemma {:induction false} GroupsBeforeSlash(src: seq<Byte>, k: nat)
    requires k < |src| && src[k] == SLASH && forall i :: 0 <= i < k ==> src[i] != SLASH
    ensures BeforeSlash(src) == src[..k]
  {
    if k > 0 {
      GroupsBeforeSlash(src[1..], k - 1);
      assert src[..k] == [src[0]] + src[1..][..k - 1];
    }
  }

  lemma {:induction false} SlashAt(src: seq<Byte>) returns (k: nat)
    requires AfterSlash(src).Some?
    ensures k < |src| && src[k] == SLASH && AfterSlash(src) == Some(src[k + 1..]) && BeforeSlash(src) == src[..k]
  {
    if src[0] == SLASH {
      k := 0;
    } else {
      k := SlashAt(src[1..]);
      k := k + 1;
      assert src[..k] == [src[0]] + src[1..][..k - 1];
      assert src[1..][k..] == src[k + 1..];
    }
  }

  /** Without a prefix length the shift stays inside the scratch array. */
  lemma NoSlashNoOverrun(src: seq<Byte>)
    requires SLASH !in src
    ensures Read(src) != Overrun
  {
    NoSlashAfter(src);
    OverrunExactly(src);
  }

  lemma {:induction false} NoSlashAfter(src: seq<Byte>)
    requires SLASH !in src
    ensures AfterSlash(src) == None
  {
    if src != [] {
      NoSlashAfter(src[1..]);
    }
  }

  // ---------------------------------------------------------------------
  // Texts of each kind.

  /** Nine groups and anything behind the colon of the ninth. */
  lemma NothingForNineGroups(ws: seq<int>, rest: seq<Byte>)
    requires |ws| == 9 && (forall i :: 0 <= i < 9 ==> 0 <= ws[i] < 65536) && rest != []
    ensures Read(Groups(ws) + [COLON] + rest) == NothingWritten
  {
    hide Scan, Hex, HighByte, LowByte, Colons, BytesOf;
    var front, last := ws[..8], ws[8];
    var end := Hex(last) + ([COLON] + rest);
    var src := Colons(front) + end;
    assert Groups(ws) + [COLON] + rest == src;
    assert Groups(ws) + ([COLON] + rest) == src;
    GroupStarts(ws, [COLON] + rest);
    ScanColons(front, end, [], None);
    HexFits(last);
    ScanHex(last, [COLON] + rest, end, [] + BytesOf(front), None, false);
    NinthColon(rest, end, [] + BytesOf(front), last, |Hex(last)|);
  }

  lemma NinthColon(rest: seq<Byte>, tok: seq<Byte>, tp: seq<Byte>, val: nat, digits: nat)
    requires |tp| == 16 && rest != [] && digits <= 4
    ensures Scan([COLON] + rest, tok, tp, None, true, val, digits) == TooManyGroups
  {
  }

  /** "::/0": success, and nothing is stored. */
  lemma NothingForZeroBits()
    ensures Read([COLON, COLON, SLASH, ZERO]) == Accepted(0, [])
  {
    var src := [COLON, COLON, SLASH, ZERO];
    assert src[1..] == [COLON, SLASH, ZERO] && src[1..][1..] == [SLASH, ZERO] && [SLASH, ZERO][1..] == [ZERO] && [ZERO][1..] == [];
    assert BitsFrom([ZERO], 0, 0) == Some(0);
    assert Scan([SLASH, ZERO], [SLASH, ZERO], [], Some(0), false, 0, 0) == Stop([], Some(0), false, 0, 0, false);
    assert Start(src) == Stop([], Some(0), false, 0, 0, false);
  }

  /** "1::/16": success, and two bytes are stored. */
  lemma TwoBytesForSixteenBits()
    ensures Read([49, COLON, COLON, SLASH, 49, 54]) == Accepted(16, [0, 1])
  {
    var src := [49, COLON, COLON, SLASH, 49, 54];
    assert src[1..] == [COLON, COLON, SLASH, 49, 54] && src[1..][1..] == [COLON, SLASH, 49, 54];
    assert [COLON, SLASH, 49, 54][1..] == [SLASH, 49, 54] && [SLASH, 49, 54][1..] == [49, 54] && [49, 54][1..] == [54] && [54][1..] == [];
    assert BitsFrom([49, 54], 0, 0) == BitsFrom([54], 1, 1) == Some(16);
    assert Scan([SLASH, 49, 54], [SLASH, 49, 54], [0, 1], Some(2), false, 0, 0) == Stop([0, 1], Some(2), false, 0, 16, false);
    assert Scan([COLON, SLASH, 49, 54], [COLON, SLASH, 49, 54], [0, 1], None, false, 0, 0) == Stop([0, 1], Some(2), false, 0, 16, false);
    assert [] + [HighByte(1), LowByte(1)] == [0, 1];
    assert Scan(src[1..], src, [], None, true, 1, 1) == Stop([0, 1], Some(2), false, 0, 16, false);
    assert Start(src) == Stop([0, 1], Some(2), false, 0, 16, false);
    var tmp := Zeroed([0, 1]);
    assert Shift(tmp, 2, 0, 4, 1) == tmp && tmp[..2] == [0, 1];
  }

  /** "::0:0:0/2": three groups behind "::" do not fit into two words. */
  lemma ThreeGroupsForTwoBits()
    ensures Read([COLON, COLON, ZERO, COLON, ZERO, COLON, ZERO, SLASH, 50]) == Overrun
  {
    var src := [COLON, COLON, ZERO, COLON, ZERO, COLON, ZERO, SLASH, 50];
    var x := [COLON, COLON, ZERO, COLON, ZERO, COLON, ZERO];
    assert src == x + [SLASH] + [50];
    SlashHere(x, [50]);
    assert Digits(2) == [50];
    assert HasPrefix(src, 2);
    ThreeGroups(x);
    OverrunExactly(src);
  }

  lemma {:induction false} SlashHere(x: seq<Byte>, y: seq<Byte>)
    requires SLASH !in x
    ensures BeforeSlash(x + [SLASH] + y) == x && AfterSlash(x + [SLASH] + y) == Some(y)
  {
    if x == [] {
      assert x + [SLASH] + y == [SLASH] + y;
    } else {
      assert (x + [SLASH] + y)[1..] == x[1..] + [SLASH] + y;
      SlashHere(x[1..], y);
    }
  }

  lemma ThreeGroups(x: seq<Byte>)
    requires x == [COLON, COLON, ZERO, COLON, ZERO, COLON, ZERO]
    ensures TooManyBehindGap(x, 2)
  {
    ThreeCounted(x);
    hide Run, Ended, GapAt;
    assert x[..7] == x;
    assert IsHex(ZERO);
    forall i | 0 <= i <= |x| ensures Run(x[..i]) <= 4 {
      assert i == 0 || i == 1 || i == 2 || i == 3 || i == 4 || i == 5 || i == 6 || i == 7;
    }
    assert GroupsIn(x) == 3;
  }

  lemma ThreeCounted(x: seq<Byte>)
    requires x == [COLON, COLON, ZERO, COLON, ZERO, COLON, ZERO]
    ensures Run(x[..0]) == 0 && Run(x[..1]) == 0 && Run(x[..2]) == 0 && Run(x[..3]) == 1
    ensures Run(x[..4]) == 0 && Run(x[..5]) == 1 && Run(x[..6]) == 0 && Run(x[..7]) == 1
    ensures Ended(x[..7]) == 2 && GapAt(x[..7]) == Some(0)
  {
    FirstCounted(x);
    assert HexValue(ZERO).Some? && HexValue(COLON) == None;
    hide Run, Ended, GapAt, HexValue;
    OneCharacter(x, 3);
    OneCharacter(x, 4);
    OneCharacter(x, 5);
    OneCharacter(x, 6);
  }

  lemma FirstCounted(x: seq<Byte>)
    requires x == [COLON, COLON, ZERO, COLON, ZERO, COLON, ZERO]
    ensures Run(x[..0]) == 0 && Run(x[..1]) == 0 && Run(x[..2]) == 0 && Run(x[..3]) == 1
    ensures Ended(x[..3]) == 0 && GapAt(x[..3]) == Some(0)
  {
    var y := x[..0];
    assert y == [] && Run(y) == 0 && Ended(y) == 0 && GapAt(y) == None;
    assert HexValue(ZERO).Some? && HexValue(COLON) == None;
    hide Run, Ended, GapAt, HexValue;
    OneCharacter(x, 0);
    OneCharacter(x, 1);
    OneCharacter(x, 2);
  }

  lemma OneCharacter(x: seq<Byte>, i: nat)
    requires i < |x|
    ensures Run(x[..i + 1]) == if IsHex(x[i]) then 1 + Run(x[..i]) else 0
    ensures Ended(x[..i + 1]) == Ended(x[..i]) + if x[i] == COLON && Run(x[..i]) > 0 then 1 else 0
    ensures GapAt(x[..i + 1]) == if i > 0 && x[i - 1] == COLON && x[i] == COLON then Some(Ended(x[..i])) else GapAt(x[..i])
  {
    var y := x[..i + 1];
    assert y[..|y| - 1] == x[..i] && y[i] == x[i];
    assert i > 0 ==> y[i - 1] == x[i - 1];
  }
}
