/**
 * IPv6 addresses as text (section 2.2 of RFC 4291): the printer of c-ares
 * (inet_ntop.c), its reader (inet_net_pton.c), and that the reader undoes the
 * printer for every address.
 */
module Ipv6Text {
  import opened Bytes
  import opened Numbers

  const SLASH: Byte := 47
  /** Room for the longest text and its NUL. */
  const TEXT_MAX := 46

  type Address = a: seq<Byte> | |a| == 16 witness seq(16, _ => 0)
  type Words = w: seq<int> | |w| == 8 && forall i :: 0 <= i < 8 ==> 0 <= w[i] < 65536 witness seq(8, _ => 0)

  function HighByte(w: int): Byte {
    w / 256 % 256
  }

  function LowByte(w: int): Byte {
    w % 256
  }

  function BytesOf(ws: seq<int>): (s: seq<Byte>)
    ensures |s| == 2 * |ws|
  {
    if ws == [] then [] else [HighByte(ws[0]), LowByte(ws[0])] + BytesOf(ws[1..])
  }

  function Number(b: Byte): int {
    b
  }

  function WordAt(a: Address, i: nat): int
    requires i < 8
  {
    256 * Number(a[2 * i]) + Number(a[2 * i + 1])
  }

  // ---------------------------------------------------------------------
  // The text of an address.

  function HexDigit(d: nat): Byte
    requires d < 16
  {
    if d < 10 then ZERO + d else 97 + (d - 10)
  }

  /** What printf writes for %x. */
  function Hex(w: nat): (s: seq<Byte>)
    ensures |s| >= 1
  {
    if w < 16 then [HexDigit(w)] else Hex(w / 16) + [HexDigit(w % 16)]
  }

  /** The groups, each followed by a colon. */
  function Colons(ws: seq<int>): seq<Byte>
    requires forall i :: 0 <= i < |ws| ==> 0 <= ws[i] < 65536
  {
    if ws == [] then [] else Hex(ws[0]) + [COLON] + Colons(ws[1..])
  }

  /** The groups, separated by colons. */
  function Groups(ws: seq<int>): seq<Byte>
    requires forall i :: 0 <= i < |ws| ==> 0 <= ws[i] < 65536
  {
    if ws == [] then [] else Colons(ws[..|ws| - 1]) + Hex(ws[|ws| - 1])
  }

  /** inet_ntop4 */
  function Dotted4(a: seq<Byte>): seq<Byte>
    requires |a| == 4
  {
    Digits(a[0]) + [DOT] + Digits(a[1]) + [DOT] + Digits(a[2]) + [DOT] + Digits(a[3])
  }

  predicate Zeros(ws: seq<int>, from: int, to: int)
    requires 0 <= from <= to <= |ws|
  {
    forall i :: from <= i < to ==> ws[i] == 0
  }

  /** base is where the first longest run of at least two zero words begins, -1 if there is none. */
  ghost predicate IsBest(ws: Words, base: int, len: int) {
    if base == -1 then
      forall from, to :: 0 <= from && from + 2 <= to <= 8 ==> !Zeros(ws, from, to)
    else
      && 0 <= base && 2 <= len && base + len <= 8 && Zeros(ws, base, base + len)
      && forall from, to :: 0 <= from < to <= 8 && Zeros(ws, from, to) ==>
           to - from < len || (to - from == len && base <= from)
  }

  /** Does the address carry an IPv4 address in its last four bytes? */
  predicate Embeds4(ws: Words, base: int, len: int) {
    base == 0 && (len == 6 || (len == 5 && ws[5] == 0xffff))
  }

  /** The text, given the run that "::" stands for. */
  function TextOf(a: Address, ws: Words, base: int, len: int): seq<Byte>
    requires base == -1 || (0 <= base && 0 <= len && base + len <= 8)
  {
    if base == -1 then Groups(ws)
    else if Embeds4(ws, base, len) then
      [COLON, COLON] + Colons(ws[len..6]) + Dotted4(a[12..])
    else
      Groups(ws[..base]) + [COLON, COLON] + Groups(ws[base + len..])
  }

  // ---------------------------------------------------------------------
  // The printer.

  method WordsOf(a: Address) returns (words: array<int>)
    ensures fresh(words) && words.Length == 8
    ensures forall i :: 0 <= i < 8 ==> words[i] == WordAt(a, i)
  {
    words := new int[8](_ => 0);
    for i := 0 to 16
      invariant forall j :: 0 <= j < i / 2 ==> words[j] == WordAt(a, j)
      invariant i % 2 == 1 ==> words[i / 2] == 256 * Number(a[i - 1])
      invariant forall j :: (i + 1) / 2 <= j < 8 ==> words[j] == 0
    {
      words[i / 2] := words[i / 2] + if i % 2 == 0 then 256 * Number(a[i]) else Number(a[i]);
    }
  }

  datatype Run = Run(base: int, len: int)

  ghost predicate BestSoFar(ws: Words, limit: int, best: Run) {
    && limit <= 8
    && (best.base != -1 ==> 0 <= best.base && 1 <= best.len && best.base + best.len <= limit && Zeros(ws, best.base, best.base + best.len))
    && forall from, to :: 0 <= from < to <= limit <= 8 && Zeros(ws, from, to) ==>
         best.base != -1 && (to - from < best.len || (to - from == best.len && best.base <= from))
  }

  /** The run that is still open at i is exactly [cur.base, i). */
  ghost predicate Current(ws: Words, i: int, cur: Run)
    requires 0 <= i <= 8
  {
    if cur.base == -1 then i == 0 || ws[i - 1] != 0
    else
      && 0 <= cur.base < i && cur.len == i - cur.base && Zeros(ws, cur.base, i)
      && (cur.base == 0 || ws[cur.base - 1] != 0)
  }

  lemma RunEnds(ws: Words, i: int, cur: Run, best: Run)
    requires 0 <= i <= 8 && cur.base != -1 && Current(ws, i, cur) && BestSoFar(ws, cur.base, best)
    ensures BestSoFar(ws, i, if best.base == -1 || cur.len > best.len then cur else best)
  {
    forall from, to | 0 <= from < to <= i && Zeros(ws, from, to)
      ensures to <= cur.base || cur.base <= from
    {
      if cur.base > 0 {
        assert !(from <= cur.base - 1 < to);
      }
    }
  }

  /** The loop that looks for the longest run of zero words. */
  method FindBest(ws: Words) returns (best: Run)
    ensures IsBest(ws, best.base, best.len)
  {
    best := Run(-1, 0);
    var cur := Run(-1, 0);
    for i := 0 to 8
      invariant Current(ws, i, cur)
      invariant BestSoFar(ws, if cur.base == -1 then i else cur.base, best)
    {
      if ws[i] == 0 {
        if cur.base == -1 {
          cur := Run(i, 1);
        } else {
          cur := cur.(len := cur.len + 1);
        }
      } else {
        if cur.base != -1 {
          RunEnds(ws, i, cur, best);
          if best.base == -1 || cur.len > best.len {
            best := cur;
          }
          cur := cur.(base := -1);
        }
        NonZeroEnds(ws, i, best);
      }
    }
    if cur.base != -1 {
      RunEnds(ws, 8, cur, best);
      if best.base == -1 || cur.len > best.len {
        best := cur;
      }
    }
    if best.base != -1 && best.len < 2 {
      best := best.(base := -1);
    }
  }

  lemma NonZeroEnds(ws: Words, i: int, best: Run)
    requires 0 <= i < 8 && ws[i] != 0 && BestSoFar(ws, i, best)
    ensures BestSoFar(ws, i + 1, best)
  {
    forall from, to | 0 <= from < to <= i + 1 && Zeros(ws, from, to)
      ensures to <= i
    {
      assert !(from <= i < to);
    }
  }

  /** inet_ntop6: None if the text and its NUL do not fit into size bytes; best is the run that "::" stands for. */
  method Ntop6(a: Address, size: nat) returns (r: Option<seq<Byte>>, best: Run)
    ensures var ws := seq(8, i requires 0 <= i < 8 => WordAt(a, i));
            && IsBest(ws, best.base, best.len)
            && var t := TextOf(a, ws, best.base, best.len);
               |t| < TEXT_MAX && r == if |t| + 1 > size then None else Some(t)
  {
    var words := WordsOf(a);
    var ws: Words := words[..];
    assert ws == seq(8, i requires 0 <= i < 8 => WordAt(a, i));
    best := FindBest(ws);
    var tmp := Format(a, ws, best);
    TextFits(a, ws, best.base, best.len);
    if |tmp| + 1 > size {
      return None, best;
    }
    return Some(tmp), best;
  }

  /** What has been written before word i. */
  function Partial(a: Address, ws: Words, base: int, len: int, i: nat): seq<Byte>
    requires base == -1 || (0 <= base && 0 < len && base + len <= 8)
    requires i <= 8
  {
    if base == -1 || i <= base then Groups(ws[..i])
    else if i < base + len then Groups(ws[..base]) + [COLON]
    else if i == base + len then Groups(ws[..base]) + [COLON]
    else Groups(ws[..base]) + [COLON, COLON] + Groups(ws[base + len..i])
  }

  lemma GroupsStep(ws: seq<int>, from: nat, i: nat)
    requires forall k :: 0 <= k < |ws| ==> 0 <= ws[k] < 65536
    requires from <= i < |ws|
    ensures Groups(ws[from..i + 1]) == (if i == from then [] else Groups(ws[from..i]) + [COLON]) + Hex(ws[i])
  {
    var before, after := ws[from..i], ws[from..i + 1];
    assert after[..|after| - 1] == before;
    if before != [] {
      ColonsEnd(before);
    }
  }

  lemma {:induction false} ColonsEnd(ws: seq<int>)
    requires ws != [] && forall k :: 0 <= k < |ws| ==> 0 <= ws[k] < 65536
    ensures Colons(ws) == Groups(ws) + [COLON]
  {
    hide Hex;
    if |ws| == 1 {
      assert Colons(ws) == Hex(ws[0]) + [COLON] + Colons(ws[1..]);
    } else {
      var front, last := ws[..|ws| - 1], ws[|ws| - 1];
      ColonsEnd(ws[1..]);
      assert ws[1..][..|ws| - 2] == front[1..] && ws[1..][|ws| - 2] == last;
      assert Colons(front) == Hex(ws[0]) + [COLON] + Colons(front[1..]);
      Regroup(Hex(ws[0]) + [COLON], Colons(front[1..]), Hex(last));
    }
  }

  lemma Regroup(a: seq<Byte>, b: seq<Byte>, c: seq<Byte>)
    ensures a + (b + c + [COLON]) == a + b + c + [COLON]
  {
  }

  /** The formatting loop of inet_ntop6. */
  method Format(a: Address, ws: Words, best: Run) returns (tmp: seq<Byte>)
    requires best.base == -1 || (0 <= best.base && 2 <= best.len && best.base + best.len <= 8)
    ensures tmp == TextOf(a, ws, best.base, best.len)
  {
    hide Partial, TextOf, Groups, Hex, Dotted4;
    tmp := [];
    var i, last := 0, ws[7];
    PartialStart(a, ws, best);
    while i < 8
      invariant 0 <= i <= 8 && tmp == Partial(a, ws, best.base, best.len, i)
      invariant Embeds4(ws, best.base, best.len) ==> i <= 6
      decreases 8 - i
    {
      if best.base != -1 && best.base <= i < best.base + best.len {
        PartialInside(a, ws, best, i);
        if i == best.base {
          tmp := tmp + [COLON];
        }
        i := i + 1;
        continue;
      }
      PartialGroup(a, ws, best, i);
      if i != 0 {
        tmp := tmp + [COLON];
      }
      if i == 6 && best.base == 0
         && (best.len == 6 || (best.len == 7 && last != 1) || (best.len == 5 && ws[5] == 0xffff))
      {
        tmp := tmp + Dotted4(a[12..]);
        EmbeddedText(a, ws, best);
        return;
      }
      tmp := tmp + Hex(ws[i]);
      i := i + 1;
    }
    PartialEnd(a, ws, best);
    if best.base != -1 && best.base + best.len == 8 {
      tmp := tmp + [COLON];
    }
  }

  lemma PartialStart(a: Address, ws: Words, best: Run)
    requires best.base == -1 || (0 <= best.base && 2 <= best.len && best.base + best.len <= 8)
    ensures Partial(a, ws, best.base, best.len, 0) == []
  {
    assert ws[..0] == [];
  }

  lemma PartialInside(a: Address, ws: Words, best: Run, i: nat)
    requires best.base != -1 && 0 <= best.base && 2 <= best.len && best.base + best.len <= 8
    requires best.base <= i < best.base + best.len
    ensures Partial(a, ws, best.base, best.len, i + 1)
         == Partial(a, ws, best.base, best.len, i) + if i == best.base then [COLON] else []
  {
  }

  lemma PartialGroup(a: Address, ws: Words, best: Run, i: nat)
    requires best.base == -1 || (0 <= best.base && 2 <= best.len && best.base + best.len <= 8)
    requires i < 8 && !(best.base != -1 && best.base <= i < best.base + best.len)
    ensures Partial(a, ws, best.base, best.len, i + 1)
         == Partial(a, ws, best.base, best.len, i) + (if i == 0 then [] else [COLON]) + Hex(ws[i])
  {
    if best.base == -1 || i < best.base {
      assert ws[0..i + 1] == ws[..i + 1] && ws[0..i] == ws[..i];
      GroupsStep(ws, 0, i);
      assert Groups(ws[..0]) == [];
    } else {
      PartialAfter(a, ws, best, i);
    }
  }

  lemma PartialAfter(a: Address, ws: Words, best: Run, i: nat)
    requires 0 <= best.base && 2 <= best.len && best.base + best.len <= i < 8
    ensures Partial(a, ws, best.base, best.len, i + 1) == Partial(a, ws, best.base, best.len, i) + [COLON] + Hex(ws[i])
  {
    hide Hex, Groups;
    var from := best.base + best.len;
    GroupsStep(ws, from, i);
    AfterGap(Groups(ws[..best.base]), Groups(ws[from..i]), Hex(ws[i]));
  }

  lemma AfterGap(pre: seq<Byte>, later: seq<Byte>, group: seq<Byte>)
    ensures pre + [COLON] + [COLON] + group == pre + [COLON, COLON] + ([] + group)
    ensures pre + [COLON, COLON] + later + [COLON] + group == pre + [COLON, COLON] + (later + [COLON] + group)
  {
  }

  lemma PartialEnd(a: Address, ws: Words, best: Run)
    requires best.base == -1 || (0 <= best.base && 2 <= best.len && best.base + best.len <= 8)
    requires !Embeds4(ws, best.base, best.len)
    ensures TextOf(a, ws, best.base, best.len)
         == Partial(a, ws, best.base, best.len, 8) + if best.base != -1 && best.base + best.len == 8 then [COLON] else []
  {
    assert ws[..8] == ws;
    if best.base != -1 {
      assert ws[best.base + best.len..8] == ws[best.base + best.len..];
    }
  }

  lemma EmbeddedText(a: Address, ws: Words, best: Run)
    requires Embeds4(ws, best.base, best.len)
    ensures Partial(a, ws, best.base, best.len, 6) + [COLON] + Dotted4(a[12..]) == TextOf(a, ws, best.base, best.len)
  {
    if best.len == 5 {
      assert ws[5..6] == [ws[5]];
      assert Colons([ws[5]]) == Hex(ws[5]) + [COLON] + Colons([]);
      assert Groups([ws[5]]) == Colons([]) + Hex(ws[5]);
    }
  }

  lemma TextFits(a: Address, ws: Words, base: int, len: int)
    requires base == -1 || (0 <= base && 2 <= len && base + len <= 8)
    ensures |TextOf(a, ws, base, len)| < TEXT_MAX
  {
    GroupsFit(ws);
    if base != -1 {
      GroupsFit(ws[..base]);
      GroupsFit(ws[base + len..]);
      if Embeds4(ws, base, len) {
        ColonsFit(ws[len..6]);
        Dotted4Fits(a[12..]);
      }
    }
  }

  lemma Dotted4Fits(a: seq<Byte>)
    requires |a| == 4
    ensures |Dotted4(a)| <= 15
  {
    forall b: Byte ensures |Digits(b)| <= 3 {
      DigitsFit(b);
    }
  }

  lemma DigitsFit(n: nat)
    requires n < 256
    ensures |Digits(n)| <= 3
  {
    assert n / 10 / 10 < 10;
    assert |Digits(n / 10 / 10)| == 1;
    assert |Digits(n / 10)| <= 2;
  }

  lemma HexFits(w: nat)
    requires w < 65536
    ensures |Hex(w)| <= 4
  {
    assert w / 16 < 4096 && w / 16 / 16 < 256 && w / 16 / 16 / 16 < 16;
    assert |Hex(w / 16 / 16 / 16)| == 1;
    assert |Hex(w / 16 / 16)| <= 2;
    assert |Hex(w / 16)| <= 3;
  }

  lemma {:induction false} ColonsFit(ws: seq<int>)
    requires forall k :: 0 <= k < |ws| ==> 0 <= ws[k] < 65536
    ensures |Colons(ws)| <= 5 * |ws|
  {
    if ws != [] {
      HexFits(ws[0]);
      ColonsFit(ws[1..]);
    }
  }

  lemma GroupsFit(ws: seq<int>)
    requires forall k :: 0 <= k < |ws| ==> 0 <= ws[k] < 65536
    ensures |Groups(ws)| <= 5 * |ws|
  {
    if ws != [] {
      ColonsFit(ws[..|ws| - 1]);
      HexFits(ws[|ws| - 1]);
    }
  }

  // ---------------------------------------------------------------------
  // The characters of the text.

  /** Digits, the letters from a to f in lower case, colons and dots. */
  predicate Printable(s: seq<Byte>) {
    forall i :: 0 <= i < |s| ==> 48 <= s[i] <= 57 || 97 <= s[i] <= 102 || s[i] == 58 || s[i] == 46
  }

  /** A group is written in lower case, without leading zeros. */
  lemma {:induction false} HexIsShortest(w: nat)
    ensures forall i :: 0 <= i < |Hex(w)| ==> 48 <= Hex(w)[i] <= 57 || 97 <= Hex(w)[i] <= 102
    ensures w == 0 ==> Hex(w) == [48]
    ensures w > 0 ==> Hex(w)[0] != 48
  {
    if w >= 16 {
      HexIsShortest(w / 16);
    }
  }

  lemma {:induction false} ColonsPrintable(ws: seq<int>)
    requires forall k :: 0 <= k < |ws| ==> 0 <= ws[k] < 65536
    ensures Printable(Colons(ws)) && DOT !in Colons(ws)
  {
    if ws != [] {
      HexIsShortest(ws[0]);
      hide Hex;
      ColonsPrintable(ws[1..]);
      assert DOT !in Hex(ws[0]) + [COLON];
    }
  }

  lemma GroupsPrintable(ws: seq<int>)
    requires forall k :: 0 <= k < |ws| ==> 0 <= ws[k] < 65536
    ensures Printable(Groups(ws)) && DOT !in Groups(ws)
  {
    if ws != [] {
      ColonsPrintable(ws[..|ws| - 1]);
      HexIsShortest(ws[|ws| - 1]);
      hide Hex, Colons;
    }
  }

  lemma DottedPrintable(a: seq<Byte>)
    requires |a| == 4
    ensures Printable(Dotted4(a)) && DOT in Dotted4(a)
  {
    forall n: nat ensures Printable(Digits(n)) {
      DigitsAreCanonical(n);
    }
    hide Digits;
    assert Dotted4(a)[|Digits(a[0])|] == DOT;
  }

  /** Words 0 to 4 are zero, and word 5 is ffff, or zero before a word 6 that is not. */
  predicate HoldsV4(ws: Words) {
    Zeros(ws, 0, 5) && (ws[5] == 0xffff || (ws[5] == 0 && ws[6] != 0))
  }

  lemma Joined(s: seq<Byte>, t: seq<Byte>)
    requires Printable(s) && Printable(t)
    ensures Printable(s + t) && (DOT in s + t <==> DOT in s || DOT in t)
  {
  }

  /** The text is in lower case, and has a dotted tail exactly for the addresses ::ffff:a.b.c.d, and ::a.b.c.d with a.b not 0.0. */
  lemma DottedExactly(a: Address, ws: Words, base: int, len: int)
    requires IsBest(ws, base, len)
    ensures Printable(TextOf(a, ws, base, len))
    ensures DOT in TextOf(a, ws, base, len) <==> HoldsV4(ws)
  {
    EmbedsExactly(ws, base, len);
    hide IsBest, HoldsV4, Groups, Colons, Dotted4;
    GroupsPrintable(ws);
    if base != -1 {
      var gap := [COLON, COLON];
      assert Printable(gap) && DOT !in gap;
      hide Printable;
      if Embeds4(ws, base, len) {
        ColonsPrintable(ws[len..6]);
        DottedPrintable(a[12..]);
        Joined(gap, Colons(ws[len..6]));
        Joined(gap + Colons(ws[len..6]), Dotted4(a[12..]));
      } else {
        GroupsPrintable(ws[..base]);
        GroupsPrintable(ws[base + len..]);
        Joined(Groups(ws[..base]), gap);
        Joined(Groups(ws[..base]) + gap, Groups(ws[base + len..]));
      }
    }
  }

  lemma EmbedsExactly(ws: Words, base: int, len: int)
    requires IsBest(ws, base, len)
    ensures base != -1 ==> 0 <= base && 2 <= len && base + len <= 8
    ensures HoldsV4(ws) <==> base != -1 && Embeds4(ws, base, len)
  {
    if HoldsV4(ws) {
      assert Zeros(ws, 0, 5);
      assert ws[5] == 0 ==> Zeros(ws, 0, 6);
    }
    if base == 0 && len == 6 {
      assert ws[6] == 0 ==> Zeros(ws, 0, 7);
    }
  }
}
