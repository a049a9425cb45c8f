/**
 * Decimal text of integers, and the strict reader of signed 64-bit numbers of
 * hiredis (read.c, string2ll).
 */
module Numbers {
  import opened Bytes

  const ULLONG_MAX := 0xFFFF_FFFF_FFFF_FFFF
  const LLONG_MAX := 0x7FFF_FFFF_FFFF_FFFF
  const LLONG_MIN := -0x8000_0000_0000_0000
  const INT_MAX := 0x7FFF_FFFF

  /** The bitwise & of unsigned numbers. */
  function And(a: nat, b: nat): (r: nat)
    ensures r <= b
  {
    if a == 0 || b == 0 then 0 else 2 * And(a / 2, b / 2) + if a % 2 == 1 && b % 2 == 1 then 1 else 0
  }

  /** What printf writes for %u: no leading zeros. */
  function Digits(n: nat): (s: seq<Byte>)
    ensures |s| >= 1
  {
    if n < 10 then [ZERO + n] else Digits(n / 10) + [ZERO + n % 10]
  }

  /** What printf writes for %d. */
  function Decimal(v: int): seq<Byte> {
    if v < 0 then [MINUS] + Digits(-v) else Digits(v)
  }

  predicate IsDigit(b: Byte) {
    ZERO <= b <= NINE
  }

  predicate AllDigits(s: seq<Byte>) {
    forall i :: 0 <= i < |s| ==> IsDigit(s[i])
  }

  /** The number a row of digits denotes, most significant digit first. */
  function Value(s: seq<Byte>): nat
    requires AllDigits(s)
  {
    if s == [] then 0 else Value(s[..|s| - 1]) * 10 + (s[|s| - 1] - ZERO)
  }

  /** A row of digits without redundant leading zeros. */
  predicate Canonical(s: seq<Byte>) {
    s != [] && AllDigits(s) && (s[0] == ZERO ==> |s| == 1)
  }

  predicate InRange(v: int) {
    LLONG_MIN <= v <= LLONG_MAX
  }

  lemma {:induction false} DigitsAreCanonical(n: nat)
    ensures Canonical(Digits(n)) && Value(Digits(n)) == n
    ensures n > 0 ==> Digits(n)[0] != ZERO
  {
    if n < 10 {
      assert Digits(n)[..0] == [];
    } else {
      DigitsAreCanonical(n / 10);
      assert Digits(n)[..|Digits(n)| - 1] == Digits(n / 10);
    }
  }

  lemma {:induction false} CanonicalAreDigits(s: seq<Byte>)
    requires Canonical(s)
    ensures Digits(Value(s)) == s
    ensures s[0] != ZERO ==> Value(s) > 0
  {
    var front := s[..|s| - 1];
    if |s| == 1 {
      assert front == [];
    } else {
      CanonicalAreDigits(front);
      assert s == front + [s[|s| - 1]];
    }
  }

  lemma DecimalInjective(v: int, w: int)
    requires Decimal(v) == Decimal(w)
    ensures v == w
  {
    var a, b := if v < 0 then -v else v, if w < 0 then -w else w;
    DigitsAreCanonical(a);
    DigitsAreCanonical(b);
    assert IsDigit(Digits(a)[0]) && IsDigit(Digits(b)[0]);
    assert v < 0 ==> Decimal(v)[1..] == Digits(a);
    assert w < 0 ==> Decimal(w)[1..] == Digits(b);
  }

  lemma {:induction false} ValueGrows(s: seq<Byte>, k: nat)
    requires AllDigits(s) && k <= |s|
    ensures Value(s[..k]) <= Value(s)
    ensures k < |s| ==> Value(s[..k]) * 10 + (s[k] - ZERO) <= Value(s)
    decreases |s|
  {
    if k == |s| {
      assert s[..k] == s;
    } else {
      var front := s[..|s| - 1];
      ValueGrows(front, k);
      assert front[..k] == s[..k];
    }
  }

  /** The number whose canonical decimal text is s, if it is one that fits a signed 64-bit word. */
  ghost function Int64Of(s: seq<Byte>): (r: Option<int>)
  {
    if exists v :: InRange(v) && Decimal(v) == s then
      var v :| InRange(v) && Decimal(v) == s; Some(v)
    else
      None
  }

  lemma Int64OfDecimal(v: int)
    ensures Int64Of(Decimal(v)) == if InRange(v) then Some(v) else None
  {
    forall w | Decimal(w) == Decimal(v)
      ensures w == v
    {
      DecimalInjective(w, v);
    }
  }

  /** The canonical texts of the signed 64-bit numbers, and no others. */
  lemma Int64OfExactly(s: seq<Byte>, v: int)
    ensures Int64Of(s) == Some(v) <==> -0x8000_0000_0000_0000 <= v <= 0x7FFF_FFFF_FFFF_FFFF && s == Decimal(v)
  {
    if InRange(v) && s == Decimal(v) {
      Int64OfDecimal(v);
    }
  }

  /** Int64Of of an optionally signed row of digits. */
  lemma Int64OfSigned(s: seq<Byte>, negative: bool, d: seq<Byte>)
    requires Canonical(d) && (d[0] == ZERO ==> !negative)
    requires s == if negative then [MINUS] + d else d
    ensures Int64Of(s) == var v: int := if negative then 0 - Value(d) else Value(d);
                          if InRange(v) then Some(v) else None
  {
    CanonicalAreDigits(d);
    var v: int := if negative then 0 - Value(d) else Value(d);
    Int64OfDecimal(v);
  }

  /** Text that is no number at all. */
  lemma Int64OfJunk(s: seq<Byte>)
    requires forall d :: s == d || s == [MINUS] + d ==> !Canonical(d) || (s != d && d[0] == ZERO)
    ensures Int64Of(s) == None
  {
    forall v | Decimal(v) == s
      ensures false
    {
      DigitsAreCanonical(if v < 0 then -v else v);
    }
  }

  /**
   * string2ll, with the unsigned accumulator made explicit: every intermediate
   * value is shown to fit in 64 bits before it is formed.
   */
  method String2ll(s: seq<Byte>) returns (r: Option<int>)
    ensures r == Int64Of(s)
  {
    hide Int64Of;
    if |s| == 0 {
      Int64OfJunk(s);
      return None;
    }
    if |s| == 1 && s[0] == ZERO {
      assert s == Decimal(0);
      Int64OfDecimal(0);
      return Some(0);
    }
    var negative := false;
    var plen := 0;
    if s[0] == MINUS {
      negative := true;
      plen := 1;
      if plen == |s| {
        assert s[0] == MINUS;
        Int64OfJunk(s);
        return None;
      }
    }
    r := ReadDigits(s, plen, negative);
  }

  /** The digits behind the sign. */
  method ReadDigits(s: seq<Byte>, start: nat, negative: bool) returns (r: Option<int>)
    requires start < |s| && s == if negative then [MINUS] + s[start..] else s[start..]
    requires s != [ZERO] && (!negative ==> s[0] != MINUS)
    ensures r == Int64Of(s)
  {
    hide Int64Of, Value, Canonical, AllDigits;
    var plen: nat := start;
    ghost var d := s[plen..];
    assert d[0] == s[start];
    if !(ZERO < s[plen] <= NINE) {
      BadStart(s, negative, d);
      NotCanonicalIsJunk(s, negative, d);
      return None;
    }
    var v := s[plen] - ZERO;
    plen := plen + 1;
    ValueStart(d);
    while plen < |s| && IsDigit(s[plen])
      invariant start + 1 <= plen <= |s|
      invariant AllDigits(d[..plen - start])
      invariant v == Value(d[..plen - start]) && 0 <= v <= ULLONG_MAX
    {
      ghost var k := plen - start;
      assert d[k] == s[plen];
      ValueStep(d, k);
      var over, more := OneMoreDigit(v, s[plen] - ZERO);
      if over {
        TooBig(s, negative, d, k + 1);
        return None;
      }
      v := more;
      plen := plen + 1;
    }
    if plen < |s| {
      BadDigit(d, plen - start);
      NotCanonicalIsJunk(s, negative, d);
      return None;
    }
    assert d[..plen - start] == d;
    AllCanonical(d);
    Int64OfSigned(s, negative, d);
    r := Signed(v, negative);
  }

  /** The body of the loop: v * 10 + digit, unless that does not fit. */
  method OneMoreDigit(v: nat, digit: nat) returns (over: bool, more: nat)
    requires v <= ULLONG_MAX && digit < 10
    ensures over <==> v * 10 + digit > ULLONG_MAX
    ensures !over ==> more == v * 10 + digit
  {
    if v > ULLONG_MAX / 10 {
      return true, 0;
    }
    more := v * 10;
    assert more <= ULLONG_MAX;
    if more > ULLONG_MAX - digit {
      return true, 0;
    }
    return false, more + digit;
  }

  /** The sign, and the last tests. */
  method Signed(v: int, negative: bool) returns (r: Option<int>)
    requires 0 <= v
    ensures var w: int := if negative then 0 - v else v; r == if InRange(w) then Some(w) else None
  {
    if negative {
      if v > -(LLONG_MIN + 1) + 1 {
        return None;
      }
      return Some(-v);
    } else {
      if v > LLONG_MAX {
        return None;
      }
      return Some(v);
    }
  }

  lemma BadStart(s: seq<Byte>, negative: bool, d: seq<Byte>)
    requires s == (if negative then [MINUS] + d else d) && s != [ZERO]
    requires d != [] && !(ZERO < d[0] <= NINE)
    ensures !Canonical(d) || (negative && d[0] == ZERO)
  {
    assert |d| == 1 ==> d == [d[0]];
  }

  lemma BadDigit(d: seq<Byte>, k: nat)
    requires k < |d| && !IsDigit(d[k])
    ensures !Canonical(d)
  {
  }

  lemma AllCanonical(d: seq<Byte>)
    requires d != [] && AllDigits(d) && d[0] != ZERO
    ensures Canonical(d)
  {
  }

  lemma ValueStart(d: seq<Byte>)
    requires d != [] && IsDigit(d[0])
    ensures AllDigits(d[..1]) && Value(d[..1]) == d[0] - ZERO
  {
    assert d[..0] == [];
    ValueStep(d, 0);
  }

  lemma ValueStep(d: seq<Byte>, k: nat)
    requires k < |d| && AllDigits(d[..k]) && IsDigit(d[k])
    ensures AllDigits(d[..k + 1]) && Value(d[..k + 1]) == Value(d[..k]) * 10 + (d[k] - ZERO)
  {
    assert d[..k + 1] == d[..k] + [d[k]];
    assert d[..k + 1][..k] == d[..k];
  }

  lemma NotCanonicalIsJunk(s: seq<Byte>, negative: bool, d: seq<Byte>)
    requires s == if negative then [MINUS] + d else d
    requires d != [] && (!negative ==> s[0] != MINUS)
    requires !Canonical(d) || (negative && d[0] == ZERO)
    ensures Int64Of(s) == None
  {
    forall e | s == e || s == [MINUS] + e
      ensures !Canonical(e) || (s != e && e[0] == ZERO)
    {
      if s == [MINUS] + e {
        assert s[0] == MINUS;
        assert s[1..] == e && s[1..] == d;
      }
    }
    Int64OfJunk(s);
  }

  lemma TooBig(s: seq<Byte>, negative: bool, d: seq<Byte>, k: nat)
    requires s == if negative then [MINUS] + d else d
    requires d != [] && (!negative ==> s[0] != MINUS) && d[0] != ZERO
    requires k <= |d| && AllDigits(d[..k]) && Value(d[..k]) > ULLONG_MAX
    ensures Int64Of(s) == None
  {
    if AllDigits(d) {
      ValueGrows(d, k);
      Int64OfSigned(s, negative, d);
    } else {
      NotCanonicalIsJunk(s, negative, d);
    }
  }

  /**
   * countDigits (hiredis.c): the length of the decimal text, found four digits
   * at a time.
   */
  method CountDigits(n: nat) returns (result: nat)
    ensures result == |Digits(n)|
  {
    result := 1;
    var v := n;
    while true
      invariant result + |Digits(v)| == |Digits(n)| + 1
      decreases v
    {
      if v < 10 { return; }
      assert |Digits(v)| == 1 + |Digits(v / 10)|;
      if v < 100 { return result + 1; }
      assert |Digits(v / 10)| == 1 + |Digits(v / 10 / 10)|;
      if v < 1000 { return result + 2; }
      assert |Digits(v / 10 / 10)| == 1 + |Digits(v / 10 / 10 / 10)|;
      if v < 10000 { return result + 3; }
      assert |Digits(v / 10 / 10 / 10)| == 1 + |Digits(v / 10 / 10 / 10 / 10)|;
      assert v / 10 / 10 / 10 / 10 == v / 10000;
      v := v / 10000;
      result := result + 4;
    }
  }
}
