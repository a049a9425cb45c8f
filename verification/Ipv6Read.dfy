/**
 * Reading IPv6 addresses from text (inet_net_pton.c: inet_net_pton_ipv6, getv4,
 * getbits and the built-in ares_inet_pton), and the round trip with the printer.
 */
module Ipv6Read {
  import opened Bytes
  import opened Numbers
  import opened Ipv6Text

  const MAX_BITS := 128

  /** The value of a hexadecimal digit of either case. */
  function HexValue(b: Byte): Option<nat> {
    if ZERO <= b <= NINE then Some(b - ZERO)
    else if 97 <= b <= 102 then Some(b - 97 + 10)
    else if 65 <= b <= 70 then Some(b - 65 + 10)
    else None
  }

  // ---------------------------------------------------------------------
  // Prefix lengths and embedded IPv4 addresses.

  /** getbits, after n digits worth val. */
  function BitsFrom(s: seq<Byte>, n: nat, val: nat): Option<nat> {
    if s == [] then if n == 0 then None else Some(val)
    else if !IsDigit(s[0]) || (n != 0 && val == 0) || val * 10 + (s[0] - ZERO) > MAX_BITS then None
    else BitsFrom(s[1..], n + 1, val * 10 + (s[0] - ZERO))
  }

  method GetBits(src: seq<Byte>) returns (r: Option<nat>)
    ensures r == BitsFrom(src, 0, 0)
  {
    var n, val: nat := 0, 0;
    assert src[0..] == src;
    while n < |src|
      invariant 0 <= n <= |src| && BitsFrom(src, 0, 0) == BitsFrom(src[n..], n, val)
    {
      if !IsDigit(src[n]) {
        return None;
      }
      if n != 0 && val == 0 {
        return None;
      }
      val := val * 10 + (src[n] - ZERO);
      if val > MAX_BITS {
        return None;
      }
      n := n + 1;
    }
    return if n == 0 then None else Some(val);
  }

  /** getbits accepts the canonical decimal text of 0 to 128 and nothing else. */
  lemma {:induction false} BitsExact(s: seq<Byte>, v: nat)
    ensures BitsFrom(s, 0, 0) == Some(v) <==> s == Digits(v) && v <= MAX_BITS
  {
    BitsOfPrefix(s, 0, v);
    assert s[0..] == s && s[..0] == [];
    DigitsAreCanonical(v);
    if Canonical(s) && Value(s) == v {
      CanonicalAreDigits(s);
    }
  }

  /** The digits read so far are canonical, and the rest decides. */
  lemma {:induction false} BitsOfPrefix(s: seq<Byte>, k: nat, v: nat)
    requires k <= |s| && AllDigits(s[..k]) && Value(s[..k]) <= MAX_BITS && (k > 0 ==> Canonical(s[..k]))
    ensures BitsFrom(s[k..], k, Value(s[..k])) == Some(v) <==> Canonical(s) && Value(s) == v && v <= MAX_BITS
    decreases |s| - k
  {
    if k == |s| {
      assert s[..k] == s;
    } else {
      var val := Value(s[..k]);
      assert s[k..][0] == s[k] && s[k..][1..] == s[k + 1..];
      hide Value;
      if IsDigit(s[k]) {
        ValueStep(s, k);
        if k != 0 && val == 0 {
          NothingAfterZero(s, k);
        } else if val * 10 + (s[k] - ZERO) > MAX_BITS {
          if AllDigits(s) {
            ValueGrows(s, k + 1);
          }
        } else {
          NextIsCanonical(s, k);
          BitsOfPrefix(s, k + 1, v);
        }
      }
    }
  }

  lemma NothingAfterZero(s: seq<Byte>, k: nat)
    requires 0 < k < |s| && Canonical(s[..k]) && Value(s[..k]) == 0
    ensures !Canonical(s)
  {
    CanonicalAreDigits(s[..k]);
    assert s[0] == s[..k][0] == Digits(0)[0];
  }

  lemma NextIsCanonical(s: seq<Byte>, k: nat)
    requires k < |s| && IsDigit(s[k]) && (k > 0 ==> Canonical(s[..k]) && Value(s[..k]) > 0)
    ensures Canonical(s[..k + 1])
  {
    assert s[..k + 1] == s[..k] + [s[k]];
  }

  /** bits is -1 when no prefix length was given. */
  datatype V4 = NoV4 | V4(octets: seq<Byte>, bits: int)

  /** getv4: octets so far, and n digits worth val of the next one. */
  function V4From(s: seq<Byte>, octets: seq<Byte>, n: nat, val: nat): (r: V4)
    requires val <= 255 && |octets| <= 4
    ensures r.V4? ==> |r.octets| <= 4 && -1 <= r.bits <= MAX_BITS
    decreases |s|
  {
    if s == [] then
      if n == 0 || |octets| > 3 then NoV4 else V4(octets + [val], -1)
    else if IsDigit(s[0]) then
      if (n != 0 && val == 0) || val * 10 + (s[0] - ZERO) > 255 then NoV4
      else V4From(s[1..], octets, n + 1, val * 10 + (s[0] - ZERO))
    else if s[0] == DOT || s[0] == SLASH then
      if |octets| > 3 then NoV4
      else if s[0] == DOT then V4From(s[1..], octets + [val], 0, 0)
      else
        match BitsFrom(s[1..], 0, 0)
        case None => NoV4
        case Some(b) => if b <= MAX_BITS then V4(octets + [val], b) else NoV4
    else NoV4
  }

  method GetV4(src: seq<Byte>) returns (r: V4)
    ensures r == V4From(src, [], 0, 0)
  {
    var p, n, val: nat := 0, 0, 0;
    var dst: seq<Byte> := [];
    assert src[0..] == src;
    while p < |src|
      invariant 0 <= p <= |src| && 0 <= n && val <= 255 && |dst| <= 4
      invariant V4From(src, [], 0, 0) == V4From(src[p..], dst, n, val)
    {
      var ch := src[p];
      assert src[p..][0] == ch && src[p..][1..] == src[p + 1..];
      p := p + 1;
      if IsDigit(ch) {
        if n != 0 && val == 0 {
          return NoV4;
        }
        n := n + 1;
        val := val * 10 + (ch - ZERO);
        if val > 255 {
          return NoV4;
        }
      } else if ch == DOT || ch == SLASH {
        if |dst| > 3 {
          return NoV4;
        }
        dst := dst + [val];
        if ch == SLASH {
          var bits := GetBits(src[p..]);
          BitsBounded(src[p..]);
          return if bits == None then NoV4 else V4(dst, bits.value);
        }
        val := 0;
        n := 0;
      } else {
        return NoV4;
      }
    }
    if n == 0 {
      return NoV4;
    }
    if |dst| > 3 {
      return NoV4;
    }
    return V4(dst + [val], -1);
  }

  lemma BitsBounded(s: seq<Byte>)
    ensures BitsFrom(s, 0, 0).Some? ==> BitsFrom(s, 0, 0).value <= MAX_BITS
  {
    if BitsFrom(s, 0, 0).Some? {
      BitsExact(s, BitsFrom(s, 0, 0).value);
    }
  }

  // ---------------------------------------------------------------------
  // The reader.

  /**
   * What reading comes to. NothingWritten is the early return that reports zero
   * bits without having stored an address; Overrun is a shift for "::" that would
   * leave the scratch buffer.
   */
  datatype Result = Accepted(bits: nat, bytes: seq<Byte>) | Rejected | NothingWritten | Overrun

  /** The state at the end of the character loop. */
  datatype Scanned =
    | Stop(tp: seq<Byte>, colon: Option<nat>, sawDigit: bool, val: nat, bits: int, ipv4: bool)
    | NoEntry
    | TooManyGroups

  function Padded(octets: seq<Byte>): (s: seq<Byte>)
    requires |octets| <= 4
    ensures |s| == 4
  {
    octets + seq(4 - |octets|, _ => 0)
  }

  /**
   * The character loop on the rest s of the text; tok is the text from the last
   * colon on, tp what has been stored, colon where "::" was seen.
   */
  function Scan(s: seq<Byte>, tok: seq<Byte>, tp: seq<Byte>, colon: Option<nat>, saw: bool, val: nat, digits: nat): Scanned
    requires |tp| <= 16 && digits <= 4
  {
    if s == [] then Stop(tp, colon, saw, val, -1, false)
    else if HexValue(s[0]).Some? then
      if digits == 4 then NoEntry
      else Scan(s[1..], tok, tp, colon, true, val * 16 + HexValue(s[0]).value, digits + 1)
    else if s[0] == COLON then
      if !saw then
        if colon.Some? then NoEntry
        else Scan(s[1..], s[1..], tp, Some(|tp|), false, val, digits)
      else if |s| == 1 then NoEntry
      else if |tp| + 2 > 16 then TooManyGroups
      else Scan(s[1..], s[1..], tp + [HighByte(val), LowByte(val)], colon, false, 0, 0)
    else if s[0] == DOT && |tp| + 4 <= 16 && V4From(tok, [], 0, 0).V4? then
      var v4 := V4From(tok, [], 0, 0);
      Stop(tp + Padded(v4.octets), colon, false, val, v4.bits, true)
    else if s[0] == SLASH && BitsFrom(s[1..], 0, 0).Some? then
      Stop(tp, colon, saw, val, BitsFrom(s[1..], 0, 0).value, false)
    else NoEntry
  }

  /** Step i and the later ones of the shift that opens the gap of "::". */
  function Shift(tmp: seq<Byte>, colon: nat, n: nat, end: nat, i: nat): (t: seq<Byte>)
    requires |tmp| == 16 && colon + n <= 16 && n <= end <= 16 && 1 <= i
    ensures |t| == 16
    decreases n + 1 - i
  {
    if i > n then tmp
    else Shift(tmp[end - i := tmp[colon + n - i]][colon + n - i := 0], colon, n, end, i + 1)
  }

  function Zeroed(tp: seq<Byte>): (s: seq<Byte>)
    requires |tp| <= 16
    ensures |s| == 16
  {
    tp + seq(16 - |tp|, _ => 0)
  }

  /** From the end of the character loop to the result. */
  function Finish(r: Scanned): Result
    requires r.Stop? ==> |r.tp| <= 16 && (r.colon.Some? ==> r.colon.value <= |r.tp|) && -1 <= r.bits <= MAX_BITS
  {
    match r
    case NoEntry => Rejected
    case TooManyGroups => NothingWritten
    case Stop(tp0, colon, saw, val, bits0, ipv4) =>
      if saw && |tp0| + 2 > 16 then Rejected
      else
        var tp := if saw then tp0 + [HighByte(val), LowByte(val)] else tp0;
        var bits: nat := if bits0 == -1 then 128 else bits0;
        var end := 2 * EndWord(bits, ipv4);
        var tmp := Zeroed(tp);
        match colon
        case None => if |tp| != end then Rejected else Accepted(bits, tmp[..(bits + 7) / 8])
        case Some(c) =>
          if |tp| == end then Rejected
          else if |tp| - c > end then Overrun
          else Accepted(bits, Shift(tmp, c, |tp| - c, end, 1)[..(bits + 7) / 8])
  }

  function EndWord(bits: nat, ipv4: bool): (w: nat)
    requires bits <= MAX_BITS
    ensures 2 <= w <= 8
  {
    var words := (bits + 15) / 16;
    if ipv4 then 8 else if words < 2 then 2 else words
  }

  lemma {:induction false} ScanKeeps(s: seq<Byte>, tok: seq<Byte>, tp: seq<Byte>, colon: Option<nat>, saw: bool, val: nat, digits: nat)
    requires |tp| <= 16 && digits <= 4 && (colon.Some? ==> colon.value <= |tp|)
    ensures var r := Scan(s, tok, tp, colon, saw, val, digits);
            r.Stop? ==> |r.tp| <= 16 && (r.colon.Some? ==> r.colon.value <= |r.tp|) && -1 <= r.bits <= MAX_BITS
    decreases |s|
  {
    if s != [] {
      if HexValue(s[0]).Some? {
        if digits < 4 {
          ScanKeeps(s[1..], tok, tp, colon, true, val * 16 + HexValue(s[0]).value, digits + 1);
        }
      } else if s[0] == COLON {
        if !saw {
          if colon == None {
            ScanKeeps(s[1..], s[1..], tp, Some(|tp|), false, val, digits);
          }
        } else if |s| > 1 && |tp| + 2 <= 16 {
          ScanKeeps(s[1..], s[1..], tp + [HighByte(val), LowByte(val)], colon, false, 0, 0);
        }
      } else if s[0] == SLASH {
        BitsBounded(s[1..]);
      }
    }
  }

  /** The text without a leading colon, which must be followed by another. */
  function Start(src: seq<Byte>): Scanned {
    if src != [] && src[0] == COLON then
      if |src| >= 2 && src[1] == COLON then Scan(src[1..], src[1..], [], None, false, 0, 0) else NoEntry
    else Scan(src, src, [], None, false, 0, 0)
  }

  lemma StartKeeps(src: seq<Byte>)
    ensures var r := Start(src);
            r.Stop? ==> |r.tp| <= 16 && (r.colon.Some? ==> r.colon.value <= |r.tp|) && -1 <= r.bits <= MAX_BITS
  {
    if src != [] && src[0] == COLON {
      ScanKeeps(src[1..], src[1..], [], None, false, 0, 0);
    } else {
      ScanKeeps(src, src, [], None, false, 0, 0);
    }
  }

  function Read(src: seq<Byte>): Result {
    StartKeeps(src);
    Finish(Start(src))
  }

  // ---------------------------------------------------------------------
  // What the printer writes is read back.

  lemma HexDigitValue(d: nat)
    requires d < 16
    ensures HexValue(HexDigit(d)) == Some(d)
  {
  }

  /** A group in hexadecimal. */
  lemma {:induction false} ScanHex(w: nat, rest: seq<Byte>, tok: seq<Byte>, tp: seq<Byte>, colon: Option<nat>, saw: bool)
    requires |tp| <= 16 && |Hex(w)| <= 4
    ensures Scan(Hex(w) + rest, tok, tp, colon, saw, 0, 0) == Scan(rest, tok, tp, colon, true, w, |Hex(w)|)
    decreases w
  {
    HexDigitValue(w % 16);
    var last := [HexDigit(w % 16)];
    assert (last + rest)[1..] == rest;
    if w >= 16 {
      assert Hex(w) + rest == Hex(w / 16) + (last + rest);
      ScanHex(w / 16, last + rest, tok, tp, colon, saw);
    }
  }

  lemma ScanColon(rest: seq<Byte>, tok: seq<Byte>, tp: seq<Byte>, colon: Option<nat>, w: nat, digits: nat)
    requires |tp| + 2 <= 16 && rest != [] && digits <= 4
    ensures Scan([COLON] + rest, tok, tp, colon, true, w, digits)
         == Scan(rest, rest, tp + [HighByte(w), LowByte(w)], colon, false, 0, 0)
  {
    assert ([COLON] + rest)[1..] == rest;
  }

  /** Groups, each followed by a colon. */
  lemma {:induction false} ScanColons(ws: seq<int>, rest: seq<Byte>, tp: seq<Byte>, colon: Option<nat>)
    requires forall i :: 0 <= i < |ws| ==> 0 <= ws[i] < 65536
    requires |tp| + 2 * |ws| <= 16 && rest != []
    ensures Scan(Colons(ws) + rest, Colons(ws) + rest, tp, colon, false, 0, 0)
         == Scan(rest, rest, tp + BytesOf(ws), colon, false, 0, 0)
    decreases |ws|
  {
    if ws == [] {
      assert Colons(ws) + rest == rest && tp + BytesOf(ws) == tp;
    } else {
      hide Scan, Hex, HighByte, LowByte, Colons, BytesOf;
      var s := Colons(ws) + rest;
      var later := Colons(ws[1..]) + rest;
      ColonsStep(ws, rest);
      HexFits(ws[0]);
      ScanHex(ws[0], [COLON] + later, s, tp, colon, false);
      ScanColon(later, s, tp, colon, ws[0], |Hex(ws[0])|);
      ScanColons(ws[1..], rest, tp + [HighByte(ws[0]), LowByte(ws[0])], colon);
      BytesStep(ws, tp);
    }
  }

  lemma ColonsStep(ws: seq<int>, rest: seq<Byte>)
    requires ws != [] && forall i :: 0 <= i < |ws| ==> 0 <= ws[i] < 65536
    ensures Colons(ws) + rest == Hex(ws[0]) + ([COLON] + (Colons(ws[1..]) + rest))
  {
    hide Hex;
    Regather(Hex(ws[0]), Colons(ws[1..]), rest);
  }

  lemma Regather(a: seq<Byte>, b: seq<Byte>, c: seq<Byte>)
    ensures a + [COLON] + b + c == a + ([COLON] + (b + c))
  {
  }

  lemma BytesStep(ws: seq<int>, tp: seq<Byte>)
    requires ws != []
    ensures tp + [HighByte(ws[0]), LowByte(ws[0])] + BytesOf(ws[1..]) == tp + BytesOf(ws)
  {
  }

  /** The groups at the end of a text. */
  lemma ScanGroups(ws: seq<int>, tp: seq<Byte>, colon: Option<nat>)
    requires forall i :: 0 <= i < |ws| ==> 0 <= ws[i] < 65536
    requires |tp| + 2 * |ws| <= 16
    ensures ws == [] ==> Scan(Groups(ws), Groups(ws), tp, colon, false, 0, 0) == Stop(tp, colon, false, 0, -1, false)
    ensures ws != [] ==>
              var front, last := ws[..|ws| - 1], ws[|ws| - 1];
              Scan(Groups(ws), Groups(ws), tp, colon, false, 0, 0) == Stop(tp + BytesOf(front), colon, true, last, -1, false)
  {
    if ws != [] {
      var front, last := ws[..|ws| - 1], ws[|ws| - 1];
      HexFits(last);
      ScanColons(front, Hex(last), tp, colon);
      assert Hex(last) + [] == Hex(last);
      ScanHex(last, [], Hex(last), tp + BytesOf(front), colon, false);
    }
  }

  lemma {:induction false} BytesAppend(a: seq<int>, b: seq<int>)
    ensures BytesOf(a + b) == BytesOf(a) + BytesOf(b)
  {
    if a == [] {
      assert a + b == b;
    } else {
      assert (a + b)[1..] == a[1..] + b;
      BytesAppend(a[1..], b);
    }
  }

  lemma BytesSplit(ws: seq<int>, k: nat)
    requires k <= |ws|
    ensures BytesOf(ws) == BytesOf(ws[..k]) + BytesOf(ws[k..])
  {
    assert ws == ws[..k] + ws[k..];
    BytesAppend(ws[..k], ws[k..]);
    hide BytesOf;
  }

  /** Decimal digits are hexadecimal digits: an octet passes through the loop as if it were a group. */
  lemma {:induction false} ScanDecimal(n: nat, rest: seq<Byte>, tok: seq<Byte>, tp: seq<Byte>, colon: Option<nat>, saw: bool)
      returns (val: nat)
    requires |tp| <= 16 && |Digits(n)| <= 4
    ensures Scan(Digits(n) + rest, tok, tp, colon, saw, 0, 0) == Scan(rest, tok, tp, colon, true, val, |Digits(n)|)
    decreases n
  {
    var last := [ZERO + n % 10];
    assert (last + rest)[1..] == rest;
    if n < 10 {
      val := n;
    } else {
      assert Digits(n) + rest == Digits(n / 10) + (last + rest);
      val := ScanDecimal(n / 10, last + rest, tok, tp, colon, saw);
      val := val * 16 + n % 10;
    }
  }

  /** One octet of an IPv4 address. */
  lemma {:induction false} V4Octet(n: nat, rest: seq<Byte>, octets: seq<Byte>)
    requires n <= 255 && |octets| <= 4
    ensures V4From(Digits(n) + rest, octets, 0, 0) == V4From(rest, octets, |Digits(n)|, n)
    ensures n > 0 || |Digits(n)| == 1
    decreases n
  {
    var last := [ZERO + n % 10];
    assert (last + rest)[1..] == rest;
    if n >= 10 {
      assert Digits(n) + rest == Digits(n / 10) + (last + rest);
      V4Octet(n / 10, last + rest, octets);
    }
  }

  lemma V4Dot(rest: seq<Byte>, octets: seq<Byte>, n: nat, val: nat)
    requires val <= 255 && |octets| <= 3
    ensures V4From([DOT] + rest, octets, n, val) == V4From(rest, octets + [val], 0, 0)
  {
    assert ([DOT] + rest)[1..] == rest;
  }

  lemma V4Dotted(a: seq<Byte>)
    requires |a| == 4
    ensures V4From(Dotted4(a), [], 0, 0) == V4(a, -1)
  {
    hide Digits;
    var d3 := Digits(a[3]);
    var d2 := Digits(a[2]) + ([DOT] + d3);
    var d1 := Digits(a[1]) + ([DOT] + d2);
    assert Dotted4(a) == Digits(a[0]) + ([DOT] + d1);
    hide V4From;
    V4Octet(a[0], [DOT] + d1, []);
    V4Dot(d1, [], |Digits(a[0])|, a[0]);
    assert [] + [a[0]] == a[..1];
    V4Octet(a[1], [DOT] + d2, a[..1]);
    V4Dot(d2, a[..1], |Digits(a[1])|, a[1]);
    assert a[..1] + [a[1]] == a[..2];
    V4Octet(a[2], [DOT] + d3, a[..2]);
    V4Dot(d3, a[..2], |Digits(a[2])|, a[2]);
    assert a[..2] + [a[2]] == a[..3];
    assert d3 + [] == d3;
    V4Octet(a[3], [], a[..3]);
    V4End(a[..3], |d3|, a[3]);
    assert a[..3] + [a[3]] == a;
  }

  lemma V4End(octets: seq<Byte>, n: nat, val: nat)
    requires val <= 255 && |octets| == 3 && n > 0
    ensures V4From([], octets, n, val) == V4(octets + [val], -1)
  {
  }

  lemma ScanDotted(a: seq<Byte>, tp: seq<Byte>, colon: Option<nat>)
    requires |a| == 4 && |tp| <= 12
    ensures var r := Scan(Dotted4(a), Dotted4(a), tp, colon, false, 0, 0);
            r.Stop? && r == Stop(tp + a, colon, false, r.val, -1, true)
  {
    var t := Dotted4(a);
    var rest := [DOT] + Digits(a[1]) + [DOT] + Digits(a[2]) + [DOT] + Digits(a[3]);
    assert t == Digits(a[0]) + rest;
    DigitsFit(a[0]);
    var val := ScanDecimal(a[0], rest, t, tp, colon, false);
    V4Dotted(a);
    assert rest[0] == DOT;
    assert Padded(a) == a;
  }

  /** The layout after k steps of the shift: k bytes have moved to the end. */
  function Spread(t: seq<Byte>, k: nat): (s: seq<Byte>)
    requires k <= |t| <= 16
    ensures |s| == 16
  {
    t[..|t| - k] + seq(16 - |t|, _ => 0) + t[|t| - k..]
  }

  lemma {:induction false} ShiftSpreads(t: seq<Byte>, colon: nat, k: nat)
    requires colon + k <= |t| < 16
    ensures Shift(Spread(t, k), colon, |t| - colon, 16, k + 1) == Spread(t, |t| - colon)
    decreases |t| - colon - k
  {
    var n := |t| - colon;
    if k < n {
      var i := k + 1;
      var tmp := Spread(t, k);
      assert tmp[16 - i := tmp[colon + n - i]][colon + n - i := 0] == Spread(t, k + 1);
      ShiftSpreads(t, colon, k + 1);
    }
  }

  /** A full address with a gap: the bytes before it, zeros, and the bytes after it. */
  lemma FinishGap(tp: seq<Byte>, colon: nat, saw: bool, val: nat, ipv4: bool)
    requires colon <= |tp| && |tp| + (if saw then 2 else 0) < 16
    ensures var all := if saw then tp + [HighByte(val), LowByte(val)] else tp;
            Finish(Stop(tp, Some(colon), saw, val, -1, ipv4)) == Accepted(128, Spread(all, |all| - colon))
  {
    var all := if saw then tp + [HighByte(val), LowByte(val)] else tp;
    assert Zeroed(all) == Spread(all, 0);
    assert EndWord(128, ipv4) == 8;
    hide Shift, Spread, Zeroed, HighByte, LowByte, EndWord;
    ShiftSpreads(all, colon, 0);
    var s := Spread(all, |all| - colon);
    assert s[..16] == s;
  }

  lemma AddressBytes(a: Address, ws: Words)
    requires forall i :: 0 <= i < 8 ==> ws[i] == WordAt(a, i)
    ensures BytesOf(ws) == a
    ensures forall i :: 0 <= i < 8 ==> HighByte(ws[i]) == a[2 * i] && LowByte(ws[i]) == a[2 * i + 1]
  {
    BytesOfRest(a, ws, 0);
    assert ws[0..] == ws && a[0..] == a;
  }

  lemma {:induction false} BytesOfRest(a: Address, ws: Words, k: nat)
    requires k <= 8 && forall i :: 0 <= i < 8 ==> ws[i] == WordAt(a, i)
    ensures BytesOf(ws[k..]) == a[2 * k..]
    decreases 8 - k
  {
    if k < 8 {
      BytesOfRest(a, ws, k + 1);
      assert ws[k..][1..] == ws[k + 1..];
      assert HighByte(ws[k]) == a[2 * k] && LowByte(ws[k]) == a[2 * k + 1];
      assert a[2 * k..] == [a[2 * k], a[2 * k + 1]] + a[2 * (k + 1)..];
    }
  }

  lemma {:induction false} BytesOfZeros(ws: seq<int>)
    requires Zeros(ws, 0, |ws|)
    ensures BytesOf(ws) == seq(2 * |ws|, _ => 0)
  {
    if ws != [] {
      BytesOfZeros(ws[1..]);
      assert ws[0] == 0;
    }
  }

  lemma ReadPlain(a: Address, ws: Words)
    requires forall i :: 0 <= i < 8 ==> ws[i] == WordAt(a, i)
    ensures Read(Groups(ws)) == Accepted(128, a)
  {
    var front, last := ws[..7], ws[7];
    var src := Groups(ws);
    GroupStarts(ws, []);
    ScanGroups(ws, [], None);
    AddressBytes(a, ws);
    BytesAppend(front, [last]);
    assert ws == front + [last];
    assert BytesOf([last]) == [HighByte(last), LowByte(last)] + BytesOf([]);
    assert [] + BytesOf(front) == BytesOf(front);
    assert Start(src) == Stop(BytesOf(front), None, true, last, -1, false);
    assert BytesOf(front) + [HighByte(last), LowByte(last)] == a;
    assert Zeroed(a)[..16] == a;
  }

  /** A group does not begin with a colon. */
  lemma GroupStarts(ws: seq<int>, rest: seq<Byte>)
    requires ws != [] && forall i :: 0 <= i < |ws| ==> 0 <= ws[i] < 65536
    ensures Groups(ws) + rest != [] && (Groups(ws) + rest)[0] != COLON
  {
    HexStarts(ws[0]);
    if |ws| > 1 {
      assert Groups(ws)[0] == Colons(ws[..|ws| - 1])[0] == Hex(ws[0])[0];
    }
  }

  lemma {:induction false} HexStarts(w: nat)
    ensures Hex(w)[0] != COLON
  {
    if w >= 16 {
      HexStarts(w / 16);
    }
  }

  /** Up to and including "::". */
  lemma StartGap(pre: seq<int>, rest: seq<Byte>)
    requires |pre| <= 6 && forall i :: 0 <= i < |pre| ==> 0 <= pre[i] < 65536
    ensures Start(Groups(pre) + [COLON, COLON] + rest) == Scan(rest, rest, BytesOf(pre), Some(2 * |pre|), false, 0, 0)
  {
    hide Scan, Groups, Colons, Hex;
    var tail := [COLON] + rest;
    assert tail[1..] == rest;
    if pre == [] {
      StartColon(rest);
    } else {
      StartGroups(pre, rest);
      ScanColons(pre, tail, [], None);
      assert [] + BytesOf(pre) == BytesOf(pre);
      ScanDouble(rest, BytesOf(pre));
    }
  }

  lemma StartColon(rest: seq<Byte>)
    ensures Start(Groups([]) + [COLON, COLON] + rest) == Scan(rest, rest, BytesOf([]), Some(0), false, 0, 0)
  {
    var src := Groups([]) + [COLON, COLON] + rest;
    assert src[1..] == [COLON] + rest;
    ScanDouble(rest, []);
  }

  lemma StartGroups(pre: seq<int>, rest: seq<Byte>)
    requires pre != [] && forall i :: 0 <= i < |pre| ==> 0 <= pre[i] < 65536
    ensures var src := Colons(pre) + ([COLON] + rest);
            Start(Groups(pre) + [COLON, COLON] + rest) == Scan(src, src, [], None, false, 0, 0)
  {
    hide Scan, Groups, Colons, Hex;
    GroupStarts(pre, [COLON, COLON] + rest);
    ColonsEnd(pre);
    TwoColons(Groups(pre), rest);
  }

  lemma TwoColons(a: seq<Byte>, rest: seq<Byte>)
    ensures a + [COLON, COLON] + rest == a + ([COLON, COLON] + rest)
    ensures a + [COLON, COLON] + rest == a + [COLON] + ([COLON] + rest)
  {
  }

  /** The second colon of "::". */
  lemma ScanDouble(rest: seq<Byte>, tp: seq<Byte>)
    requires |tp| <= 16
    ensures Scan([COLON] + rest, [COLON] + rest, tp, None, false, 0, 0) == Scan(rest, rest, tp, Some(|tp|), false, 0, 0)
  {
    assert ([COLON] + rest)[1..] == rest;
  }

  lemma ReadGap(a: Address, ws: Words, base: nat, len: nat)
    requires forall i :: 0 <= i < 8 ==> ws[i] == WordAt(a, i)
    requires 2 <= len && base + len <= 8 && Zeros(ws, base, base + len)
    ensures Read(Groups(ws[..base]) + [COLON, COLON] + Groups(ws[base + len..])) == Accepted(128, a)
  {
    hide Scan, Start, Groups, Finish, Spread, WordAt, HighByte, LowByte;
    var pre, post := ws[..base], ws[base + len..];
    StartGap(pre, Groups(post));
    ScanGroups(post, BytesOf(pre), Some(2 * base));
    SplitAddress(a, ws, base, len);
    if post == [] {
      FinishGap(BytesOf(pre), 2 * base, false, 0, false);
      assert BytesOf(pre) + BytesOf(post) == BytesOf(pre);
    } else {
      var front, last := post[..|post| - 1], post[|post| - 1];
      LastGroup(BytesOf(pre), post);
      FinishGap(BytesOf(pre) + BytesOf(front), 2 * base, true, last, false);
    }
  }

  lemma LastGroup(tp: seq<Byte>, ws: seq<int>)
    requires ws != []
    ensures var last := ws[|ws| - 1];
            tp + BytesOf(ws[..|ws| - 1]) + [HighByte(last), LowByte(last)] == tp + BytesOf(ws)
  {
    var front, last := ws[..|ws| - 1], ws[|ws| - 1];
    assert ws[|ws| - 1..] == [last];
    BytesOne(last);
    hide BytesOf;
    BytesSplit(ws, |ws| - 1);
    Assoc(tp, BytesOf(front), BytesOf([last]));
  }

  lemma BytesOne(w: int)
    ensures BytesOf([w]) == [HighByte(w), LowByte(w)]
  {
    assert [w][1..] == [];
  }

  /** The address is what the groups around the gap spell, with zeros between. */
  lemma SplitAddress(a: Address, ws: Words, base: nat, len: nat)
    requires forall i :: 0 <= i < 8 ==> ws[i] == WordAt(a, i)
    requires base + len <= 8 && Zeros(ws, base, base + len)
    ensures var t := BytesOf(ws[..base]) + BytesOf(ws[base + len..]);
            |t| == 16 - 2 * len && Spread(t, |t| - 2 * base) == a
  {
    SplitBytes(ws, base, len);
    AddressBytes(a, ws);
    hide BytesOf, WordAt, Zeros;
    SpreadOfParts(BytesOf(ws[..base]), BytesOf(ws[base + len..]));
  }

  lemma SplitBytes(ws: seq<int>, base: nat, len: nat)
    requires base + len <= |ws| && Zeros(ws, base, base + len)
    ensures BytesOf(ws) == BytesOf(ws[..base]) + seq(2 * len, _ => 0) + BytesOf(ws[base + len..])
  {
    hide BytesOf;
    var later := ws[base..];
    assert later[len..] == ws[base + len..];
    BytesOfZeros(later[..len]);
    hide Zeros;
    BytesSplit(ws, base);
    BytesSplit(later, len);
    Assoc(BytesOf(ws[..base]), BytesOf(later[..len]), BytesOf(later[len..]));
  }

  lemma SpreadOfParts(pre: seq<Byte>, post: seq<Byte>)
    requires |pre| + |post| <= 16
    ensures Spread(pre + post, |post|) == pre + seq(16 - |pre| - |post|, _ => 0) + post
  {
    var t := pre + post;
    assert t[..|pre|] == pre && t[|pre|..] == post;
  }

  /** "::", the groups of mid, and an IPv4 address. */
  lemma StartEmbedded(mid: seq<int>, v4: seq<Byte>)
    requires |mid| <= 1 && (forall i :: 0 <= i < |mid| ==> 0 <= mid[i] < 65536) && |v4| == 4
    ensures var r := Start([COLON, COLON] + Colons(mid) + Dotted4(v4));
            r.Stop? && r == Stop(BytesOf(mid) + v4, Some(0), false, r.val, -1, true)
  {
    hide Scan, Dotted4, Start, BytesOf, Colons, Groups;
    var rest := Colons(mid) + Dotted4(v4);
    StartNothing(rest);
    Assoc([COLON, COLON], Colons(mid), Dotted4(v4));
    Dotted4Starts(v4);
    ScanColons(mid, Dotted4(v4), [], Some(0));
    assert [] + BytesOf(mid) == BytesOf(mid);
    ScanDotted(v4, BytesOf(mid), Some(0));
  }

  lemma StartNothing(rest: seq<Byte>)
    ensures Start([COLON, COLON] + rest) == Scan(rest, rest, [], Some(0), false, 0, 0)
  {
    hide Scan, Start;
    assert Groups([]) == [] && BytesOf([]) == [];
    assert [] + [COLON, COLON] == [COLON, COLON];
    StartGap([], rest);
  }

  lemma Dotted4Starts(v4: seq<Byte>)
    requires |v4| == 4
    ensures Dotted4(v4) != []
  {
  }

  lemma ReadEmbedded(a: Address, ws: Words, len: nat)
    requires forall i :: 0 <= i < 8 ==> ws[i] == WordAt(a, i)
    requires Embeds4(ws, 0, len) && Zeros(ws, 0, len)
    ensures Read([COLON, COLON] + Colons(ws[len..6]) + Dotted4(a[12..])) == Accepted(128, a)
  {
    var v4, mid := a[12..], ws[len..6];
    StartEmbedded(mid, v4);
    hide Start, Finish, Spread, Dotted4, Colons, WordAt;
    var r := Start([COLON, COLON] + Colons(mid) + Dotted4(v4));
    FinishGap(BytesOf(mid) + v4, 0, false, r.val, true);
    SplitAddress(a, ws, 0, len);
    EmbeddedBytes(a, ws, len);
  }

  lemma EmbeddedBytes(a: Address, ws: Words, len: nat)
    requires len <= 6 && forall i :: 0 <= i < 8 ==> ws[i] == WordAt(a, i)
    ensures BytesOf(ws[..0]) + BytesOf(ws[len..]) == BytesOf(ws[len..6]) + a[12..]
  {
    BytesAppend(ws[len..6], ws[6..]);
    assert ws[len..] == ws[len..6] + ws[6..];
    BytesOfRest(a, ws, 6);
    assert a[12..] == a[2 * 6..];
    assert ws[..0] == [] && BytesOf(ws[..0]) == [];
    hide BytesOf;
    assert BytesOf(ws[..0]) + BytesOf(ws[len..]) == BytesOf(ws[len..]);
  }

  /** Whatever run the printer abbreviates, reading its text gives the address back. */
  lemma ReadPrinted(a: Address, ws: Words, base: int, len: int)
    requires forall i :: 0 <= i < 8 ==> ws[i] == WordAt(a, i)
    requires IsBest(ws, base, len)
    ensures Read(TextOf(a, ws, base, len)) == Accepted(128, a)
  {
    if base == -1 {
      ReadPlain(a, ws);
    } else if Embeds4(ws, base, len) {
      ReadEmbedded(a, ws, len);
    } else {
      ReadGap(a, ws, base, len);
    }
  }

  // ---------------------------------------------------------------------
  // The imperative reader.

  /** The character loop of inet_net_pton_ipv6, from index start on; tmp receives the bytes. */
  method ReadGroups(src: seq<Byte>, start: nat, tmp: array<Byte>) returns (out: Scanned)
    requires start <= |src| && tmp.Length == 16 && tmp[..] == Zeroed([])
    modifies tmp
    ensures out == Scan(src[start..], src[start..], [], None, false, 0, 0)
    ensures out.Stop? ==> |out.tp| <= 16 && tmp[..] == Zeroed(out.tp)
  {
    hide V4From, BitsFrom;
    var p, curtok, tp: nat := start, start, 0;
    var colonp: Option<nat> := None;
    var saw, val: nat, digits: nat := false, 0, 0;
    assert tmp[..0] == [];
    ghost var result := Scan(src[start..], src[start..], [], None, false, 0, 0);
    while p < |src|
      invariant start <= p <= |src| && start <= curtok <= |src| && tp <= 16 && digits <= 4
      invariant tmp[..] == Zeroed(tmp[..tp])
      invariant result == Scan(src[p..], src[curtok..], tmp[..tp], colonp, saw, val, digits)
    {
      var ch := src[p];
      assert src[p..][0] == ch && src[p..][1..] == src[p + 1..];
      p := p + 1;
      var pch := HexValue(ch);
      if pch.Some? {
        val := val * 16 + pch.value;
        digits := digits + 1;
        if digits > 4 {
          return NoEntry;
        }
        saw := true;
        continue;
      }
      if ch == COLON {
        curtok := p;
        if !saw {
          if colonp.Some? {
            return NoEntry;
          }
          colonp := Some(tp);
          continue;
        } else if p == |src| {
          return NoEntry;
        }
        if tp + 2 > 16 {
          return TooManyGroups;
        }
        tp := Store(tmp, tp, val);
        saw, digits, val := false, 0, 0;
        continue;
      }
      if ch == DOT && tp + 4 <= 16 {
        var v4 := GetV4(src[curtok..]);
        if v4.V4? {
          tp := StoreOctets(tmp, tp, v4.octets);
          return Stop(tmp[..tp], colonp, false, val, v4.bits, true);
        }
      }
      if ch == SLASH {
        var bits := GetBits(src[p..]);
        if bits.Some? {
          return Stop(tmp[..tp], colonp, saw, val, bits.value, false);
        }
      }
      return NoEntry;
    }
    assert src[p..] == [];
    return Stop(tmp[..tp], colonp, saw, val, -1, false);
  }

  /** A group goes to tmp in network order. */
  method Store(tmp: array<Byte>, tp: nat, val: nat) returns (next: nat)
    requires tmp.Length == 16 && tp + 2 <= 16 && tmp[..] == Zeroed(tmp[..tp])
    modifies tmp
    ensures next == tp + 2
    ensures tmp[..next] == old(tmp[..tp]) + [HighByte(val), LowByte(val)]
    ensures tmp[..] == Zeroed(tmp[..next])
  {
    hide HighByte, LowByte;
    tmp[tp] := HighByte(val);
    tmp[tp + 1] := LowByte(val);
    next := tp + 2;
  }

  method StoreOctets(tmp: array<Byte>, tp: nat, octets: seq<Byte>) returns (next: nat)
    requires tmp.Length == 16 && tp + 4 <= 16 && |octets| <= 4 && tmp[..] == Zeroed(tmp[..tp])
    modifies tmp
    ensures next == tp + 4
    ensures tmp[..next] == old(tmp[..tp]) + Padded(octets)
    ensures tmp[..] == Zeroed(tmp[..next])
  {
    for i := 0 to |octets|
      invariant forall k :: 0 <= k < i ==> tmp[tp + k] == octets[k]
      invariant forall k :: 0 <= k < 16 && !(tp <= k < tp + i) ==> tmp[k] == old(tmp[k])
    {
      tmp[tp + i] := octets[i];
    }
    next := tp + 4;
    assert forall k :: tp <= k < 16 ==> old(tmp[..])[k] == 0;
  }

  /** The shift by hand that opens the gap of "::". */
  method OpenGap(tmp: array<Byte>, colon: nat, n: nat, end: nat)
    requires tmp.Length == 16 && colon + n <= 16 && n <= end <= 16
    modifies tmp
    ensures tmp[..] == Shift(old(tmp[..]), colon, n, end, 1)
  {
    var i := 1;
    while i <= n
      invariant 1 <= i <= n + 1
      invariant Shift(old(tmp[..]), colon, n, end, 1) == Shift(tmp[..], colon, n, end, i)
    {
      ghost var before := tmp[..];
      tmp[end - i] := tmp[colon + n - i];
      tmp[colon + n - i] := 0;
      assert tmp[..] == before[end - i := before[colon + n - i]][colon + n - i := 0];
      i := i + 1;
    }
  }

  /** inet_net_pton_ipv6 with room for 16 bytes; src is the text before its NUL. */
  method Pton6(src: seq<Byte>) returns (r: Result)
    ensures r == Read(src)
  {
    hide Scan;
    StartKeeps(src);
    var tmp := new Byte[16](_ => 0);
    var start := 0;
    if |src| > 0 && src[0] == COLON {
      start := 1;
      if !(start < |src| && src[start] == COLON) {
        return Rejected;
      }
    }
    assert tmp[..] == Zeroed([]);
    assert src[0..] == src;
    var out := ReadGroups(src, start, tmp);
    if out.NoEntry? {
      return Rejected;
    }
    if out.TooManyGroups? {
      return NothingWritten;
    }
    r := Conclude(tmp, out);
  }

  /** The part of inet_net_pton_ipv6 after the character loop. */
  method Conclude(tmp: array<Byte>, out: Scanned) returns (r: Result)
    requires tmp.Length == 16 && out.Stop?
    requires |out.tp| <= 16 && (out.colon.Some? ==> out.colon.value <= |out.tp|) && -1 <= out.bits <= MAX_BITS
    requires tmp[..] == Zeroed(out.tp)
    modifies tmp
    ensures r == Finish(out)
  {
    hide Shift, HighByte, LowByte;
    var tp := |out.tp|;
    assert tmp[..tp] == out.tp;
    if out.sawDigit {
      if tp + 2 > 16 {
        return Rejected;
      }
      tp := Store(tmp, tp, out.val);
    }
    var bits: nat := if out.bits == -1 then 128 else out.bits;
    var end := 2 * EndWord(bits, out.ipv4);
    if out.colon.Some? {
      var n := tp - out.colon.value;
      if tp == end {
        return Rejected;
      }
      if n > end {
        return Overrun;
      }
      OpenGap(tmp, out.colon.value, n, end);
      tp := end;
    }
    if tp != end {
      return Rejected;
    }
    return Accepted(bits, tmp[..(bits + 7) / 8]);
  }

  /**
   * For every address: what inet_ntop6 prints into a buffer of TEXT_MAX bytes, the
   * reader turns back into the same sixteen bytes.
   */
  method PrintAndRead(a: Address) returns (r: Result)
    ensures r == Accepted(128, a)
  {
    var text, best := Ntop6(a, TEXT_MAX);
    ghost var ws: Words := seq(8, i requires 0 <= i < 8 => WordAt(a, i));
    ReadPrinted(a, ws, best.base, best.len);
    r := Pton6(text.value);
  }
}
