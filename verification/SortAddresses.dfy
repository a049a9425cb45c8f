/**
 * Address sorting in c-ares: the comparison of bit prefixes (bitncmp.c), the search
 * of the sort list and the insertion sort (ares_gethostbyname.c:429-529).
 */
module SortAddresses {
  import opened Bytes
  import opened Numbers

  // ---------------------------------------------------------------------
  // Comparing the first bits of two addresses.

  /** b << k */
  function Shifted(b: nat, k: nat): nat {
    if k == 0 then b else Shifted(b, k - 1) * 2
  }

  /** Bit j of a byte, counted from the most significant one. */
  predicate BitOf(b: Byte, j: nat)
    requires j < 8
  {
    Shifted(b, j) / 128 % 2 == 1
  }

  /** Bit i of a row of bytes in network order. */
  predicate Bit(s: seq<Byte>, i: nat)
    requires i < 8 * |s|
  {
    BitOf(s[i / 8], i % 8)
  }

  /** The lexicographic comparison of the bits from i to n. */
  function CompareBits(l: seq<Byte>, r: seq<Byte>, i: nat, n: nat): (c: int)
    requires i <= n <= 8 * |l| && n <= 8 * |r|
    ensures -1 <= c <= 1
    decreases n - i
  {
    if i == n then 0
    else if Bit(l, i) == Bit(r, i) then CompareBits(l, r, i + 1, n)
    else if Bit(l, i) then 1
    else -1
  }

  /** Up to bit k the rows agree, and there l has 0 and r has 1. */
  ghost predicate LessAt(l: seq<Byte>, r: seq<Byte>, i: nat, k: nat)
    requires i <= k < 8 * |l| && k < 8 * |r|
  {
    Agree(l, r, i, k) && !Bit(l, k) && Bit(r, k)
  }

  ghost predicate Agree(l: seq<Byte>, r: seq<Byte>, i: nat, n: nat)
    requires i <= n <= 8 * |l| && n <= 8 * |r|
  {
    forall k :: i <= k < n ==> Bit(l, k) == Bit(r, k)
  }

  lemma AgreeStep(l: seq<Byte>, r: seq<Byte>, i: nat, n: nat)
    requires i < n <= 8 * |l| && n <= 8 * |r|
    ensures Agree(l, r, i, n) <==> Bit(l, i) == Bit(r, i) && Agree(l, r, i + 1, n)
  {
    hide Bit;
  }

  ghost predicate Less(l: seq<Byte>, r: seq<Byte>, i: nat, n: nat)
    requires i <= n <= 8 * |l| && n <= 8 * |r|
  {
    exists k: nat :: i <= k < n && LessAt(l, r, i, k)
  }

  lemma LessStep(l: seq<Byte>, r: seq<Byte>, i: nat, n: nat)
    requires i < n <= 8 * |l| && n <= 8 * |r|
    ensures Less(l, r, i, n) <==> if Bit(l, i) == Bit(r, i) then Less(l, r, i + 1, n) else Bit(r, i)
  {
    hide Bit;
    if Bit(l, i) != Bit(r, i) && Bit(r, i) {
      assert LessAt(l, r, i, i);
    }
    if k: nat :| i <= k < n && LessAt(l, r, i, k) {
      if k > i {
        AgreeStep(l, r, i, k);
        assert LessAt(l, r, i + 1, k);
      }
    }
    if Bit(l, i) == Bit(r, i) && Less(l, r, i + 1, n) {
      var k: nat :| i + 1 <= k < n && LessAt(l, r, i + 1, k);
      if k > i {
        AgreeStep(l, r, i, k);
        assert LessAt(l, r, i, k);
      }
    }
  }

  /** Zero means equal bits; otherwise the first bits that differ decide. */
  lemma {:induction false} CompareBitsIsLexicographic(l: seq<Byte>, r: seq<Byte>, i: nat, n: nat)
    requires i <= n <= 8 * |l| && n <= 8 * |r|
    ensures CompareBits(l, r, i, n) == 0 <==> Agree(l, r, i, n)
    ensures CompareBits(l, r, i, n) < 0 <==> Less(l, r, i, n)
    ensures CompareBits(l, r, i, n) > 0 <==> Less(r, l, i, n)
    decreases n - i
  {
    hide Bit;
    if i < n {
      AgreeStep(l, r, i, n);
      LessStep(l, r, i, n);
      LessStep(r, l, i, n);
      CompareBitsIsLexicographic(l, r, i + 1, n);
    }
  }

  function Sign(x: int): int {
    if x < 0 then -1 else if x > 0 then 1 else 0
  }

  /** The bits of byte b come before the later ones. */
  lemma WholeByte(l: seq<Byte>, r: seq<Byte>, b: nat, n: nat)
    requires b < n <= |l| && n <= |r|
    ensures var x: int, y: int := l[b], r[b];
            CompareBits(l, r, 8 * b, 8 * n) == if x == y then CompareBits(l, r, 8 * (b + 1), 8 * n) else Sign(x - y)
  {
    NothingGone(l[b]);
    NothingGone(r[b]);
    hide CompareBits, Left;
    CompareByte(l, r, b, n, 0);
    assert 8 * b + 0 == 8 * b;
  }

  lemma NothingGone(b: Byte)
    ensures Left(b, 0) == b
  {
  }

  /** memcmp, of whose result only the sign is known. */
  method Memcmp(l: seq<Byte>, r: seq<Byte>, n: nat) returns (x: int)
    requires n <= |l| && n <= |r|
    ensures x == CompareBits(l, r, 0, 8 * n)
  {
    for b := 0 to n
      invariant CompareBits(l, r, 0, 8 * n) == CompareBits(l, r, 8 * b, 8 * n)
    {
      hide CompareBits;
      WholeByte(l, r, b, n);
      if l[b] != r[b] {
        return if l[b] < r[b] then -1 else 1;
      }
    }
    return 0;
  }

  /** What is left of a byte, in place, when its first j bits have gone. */
  function Left(b: Byte, j: nat): (v: nat)
    ensures v < 256
  {
    Shifted(b, j) % 256
  }

  lemma LeftStep(b: Byte, j: nat)
    requires j < 8
    ensures Left(b, j) == (if BitOf(b, j) then 128 else 0) + Left(b, j + 1) / 2
    ensures Left(b, j + 1) / 2 < 128 && Left(b, j + 1) % 2 == 0
  {
    TopBit(Shifted(b, j));
    assert Shifted(b, j + 1) == Shifted(b, j) * 2;
    hide Shifted;
  }

  lemma TopBit(v: nat)
    ensures v % 256 == (if v / 128 % 2 == 1 then 128 else 0) + v % 128
    ensures (v * 2) % 256 == 2 * (v % 128)
  {
    var k, r := v / 128, v % 128;
    assert v == 256 * (k / 2) + (128 * (k % 2) + r);
    assert v * 2 == 256 * k + 2 * r;
  }

  lemma NothingLeft(b: Byte)
    ensures Left(b, 8) == 0
  {
    assert Shifted(b, 1) == 2 * b;
    assert Shifted(b, 2) == 4 * b;
    assert Shifted(b, 3) == 8 * b;
    assert Shifted(b, 4) == 16 * b;
    assert Shifted(b, 5) == 32 * b;
    assert Shifted(b, 6) == 64 * b;
    assert Shifted(b, 7) == 128 * b;
  }

  /** Within one byte the numbers compare as their bits do. */
  lemma {:induction false} CompareByte(l: seq<Byte>, r: seq<Byte>, b: nat, n: nat, j: nat)
    requires b < n <= |l| && n <= |r| && j <= 8
    ensures var x, y := Left(l[b], j), Left(r[b], j);
            CompareBits(l, r, 8 * b + j, 8 * n) == if x == y then CompareBits(l, r, 8 * (b + 1), 8 * n) else Sign(x - y)
    decreases 8 - j
  {
    if j == 8 {
      NothingLeft(l[b]);
      NothingLeft(r[b]);
    } else {
      CompareByte(l, r, b, n, j + 1);
      LeftStep(l[b], j);
      LeftStep(r[b], j);
      hide Left, BitOf;
      assert (8 * b + j) / 8 == b && (8 * b + j) % 8 == j;
    }
  }

  /** ares__bitncmp */
  method Bitncmp(l: seq<Byte>, r: seq<Byte>, n: nat) returns (x: int)
    requires n <= 8 * |l| && n <= 8 * |r|
    ensures x == CompareBits(l, r, 0, n)
  {
    var b := n / 8;
    x := Memcmp(l, r, b);
    PrefixFirst(l, r, 0, 8 * b, n);
    if x != 0 || n % 8 == 0 {
      return x;
    }
    var lb: nat, rb: nat := l[b], r[b];
    for k := 0 to n % 8
      invariant lb == Shifted(l[b], k) && rb == Shifted(r[b], k)
      invariant CompareBits(l, r, 0, n) == CompareBits(l, r, 8 * b + k, n)
    {
      assert (8 * b + k) / 8 == b && (8 * b + k) % 8 == k;
      if (lb / 128 % 2 == 1) != (rb / 128 % 2 == 1) {
        if lb / 128 % 2 == 1 {
          return 1;
        }
        return -1;
      }
      lb := lb * 2;
      rb := rb * 2;
    }
    return 0;
  }

  lemma {:induction false} PrefixFirst(l: seq<Byte>, r: seq<Byte>, i: nat, m: nat, n: nat)
    requires i <= m <= n <= 8 * |l| && n <= 8 * |r|
    ensures CompareBits(l, r, i, n) == if CompareBits(l, r, i, m) != 0 then CompareBits(l, r, i, m) else CompareBits(l, r, m, n)
    decreases m - i
  {
    if i < m {
      PrefixFirst(l, r, i + 1, m, n);
    }
  }

  // ---------------------------------------------------------------------
  // The sort list.

  /** An entry of the sort list; v6 tells the family, and only AF_INET has masks. */
  datatype Pattern =
    | Mask(mask: seq<Byte>, addr: seq<Byte>)
    | Prefix(v6: bool, addr: seq<Byte>, bits: nat)

  predicate Usable(p: Pattern) {
    match p
    case Mask(mask, addr) => |mask| == 4 && |addr| == 4
    case Prefix(v6, addr, bits) => |addr| == (if v6 then 16 else 4) && bits <= 8 * |addr|
  }

  /** An address in network order: four bytes, or sixteen. */
  datatype Address = Address(bytes: seq<Byte>)

  predicate Matches(p: Pattern, a: Address)
    requires Usable(p)
  {
    match p
    case Mask(mask, addr) => |a.bytes| == 4 && forall i :: 0 <= i < 4 ==> And(a.bytes[i], mask[i]) == addr[i]
    case Prefix(v6, addr, bits) => |a.bytes| == |addr| && CompareBits(a.bytes, addr, 0, bits) == 0
  }

  /** Bit k of a number, counted from the least significant one. */
  predicate BitSet(n: nat, k: nat) {
    if k == 0 then n % 2 == 1 else BitSet(n / 2, k - 1)
  }

  lemma {:induction false} AndIsBitwise(a: nat, b: nat, k: nat)
    ensures BitSet(And(a, b), k) <==> BitSet(a, k) && BitSet(b, k)
    decreases k
  {
    if a == 0 || b == 0 {
      NoBits(k);
    } else if k > 0 {
      AndIsBitwise(a / 2, b / 2, k - 1);
      assert And(a, b) / 2 == And(a / 2, b / 2);
    }
  }

  lemma {:induction false} NoBits(k: nat)
    ensures !BitSet(0, k)
  {
    if k > 0 {
      NoBits(k - 1);
    }
  }

  function Pow2(n: nat): nat {
    if n == 0 then 1 else 2 * Pow2(n - 1)
  }

  /** Two numbers of at most n bits are equal if these are. */
  lemma {:induction false} BitsDecide(a: nat, b: nat, n: nat)
    requires forall k: nat :: k < n ==> (BitSet(a, k) <==> BitSet(b, k))
    requires a < Pow2(n) && b < Pow2(n)
    ensures a == b
    decreases n
  {
    if n > 0 {
      assert BitSet(a, 0) <==> BitSet(b, 0);
      forall k: nat | k < n - 1 ensures BitSet(a / 2, k) <==> BitSet(b / 2, k) {
        assert BitSet(a, k + 1) <==> BitSet(b, k + 1);
      }
      BitsDecide(a / 2, b / 2, n - 1);
    }
  }

  /** addr has exactly the bits of byte at which mask has ones. */
  predicate BitsChosen(byte: Byte, mask: Byte, addr: Byte) {
    forall k: nat :: k < 8 ==> (BitSet(addr, k) <==> BitSet(byte, k) && BitSet(mask, k))
  }

  lemma ByteMatches(byte: Byte, mask: Byte, addr: Byte)
    ensures And(byte, mask) == addr <==> BitsChosen(byte, mask, addr)
  {
    forall k: nat ensures BitSet(And(byte, mask), k) <==> BitSet(byte, k) && BitSet(mask, k) {
      AndIsBitwise(byte, mask, k);
    }
    hide BitSet, And;
    assert Pow2(8) == 256;
    if BitsChosen(byte, mask, addr) {
      BitsDecide(And(byte, mask), addr, 8);
    }
  }

  /** A pattern with a mask takes the IPv4 addresses that have exactly the bits of the pattern where the mask has ones. */
  lemma MaskIsBitwise(mask: seq<Byte>, addr: seq<Byte>, a: Address)
    requires Usable(Mask(mask, addr))
    ensures Matches(Mask(mask, addr), a) <==>
              |a.bytes| == 4 && forall i: nat :: i < 4 ==> BitsChosen(a.bytes[i], mask[i], addr[i])
  {
    hide BitsChosen, And;
    if |a.bytes| == 4 {
      forall i: nat | i < 4 ensures And(a.bytes[i], mask[i]) == addr[i] <==> BitsChosen(a.bytes[i], mask[i], addr[i]) {
        ByteMatches(a.bytes[i], mask[i], addr[i]);
      }
    }
  }

  /** The first entry that matches, or the number of entries. */
  function FirstMatch(a: Address, sortlist: seq<Pattern>): (i: nat)
    requires forall p <- sortlist :: Usable(p)
    ensures i <= |sortlist|
  {
    if sortlist == [] || Matches(sortlist[0], a) then 0 else 1 + FirstMatch(a, sortlist[1..])
  }

  lemma {:induction false} FirstMatchIsFirst(a: Address, sortlist: seq<Pattern>)
    requires forall p <- sortlist :: Usable(p)
    ensures var i := FirstMatch(a, sortlist);
            && (i < |sortlist| ==> Matches(sortlist[i], a))
            && forall j :: 0 <= j < i ==> !Matches(sortlist[j], a)
  {
    hide Matches;
    if sortlist != [] && !Matches(sortlist[0], a) {
      FirstMatchIsFirst(a, sortlist[1..]);
      var i := FirstMatch(a, sortlist);
      forall j | 0 <= j < i ensures !Matches(sortlist[j], a) {
        assert j > 0 ==> sortlist[j] == sortlist[1..][j - 1];
      }
    }
  }

  /** get_address_index and get6_address_index */
  method GetAddressIndex(a: Address, sortlist: seq<Pattern>) returns (i: nat)
    requires forall p <- sortlist :: Usable(p)
    ensures i == FirstMatch(a, sortlist)
  {
    i := 0;
    while i < |sortlist|
      invariant 0 <= i <= |sortlist| && forall j :: 0 <= j < i ==> !Matches(sortlist[j], a)
    {
      var p := sortlist[i];
      assert p in sortlist;
      if p.Mask? {
        if |a.bytes| == 4
           && And(a.bytes[0], p.mask[0]) == p.addr[0] && And(a.bytes[1], p.mask[1]) == p.addr[1]
           && And(a.bytes[2], p.mask[2]) == p.addr[2] && And(a.bytes[3], p.mask[3]) == p.addr[3] {
          break;
        }
      } else if |a.bytes| == |p.addr| {
        var x := Bitncmp(a.bytes, p.addr, p.bits);
        if x == 0 {
          break;
        }
      }
      i := i + 1;
    }
    OnlyFirst(a, sortlist, i);
  }

  lemma OnlyFirst(a: Address, sortlist: seq<Pattern>, i: nat)
    requires forall p <- sortlist :: Usable(p)
    requires i <= |sortlist| && (i < |sortlist| ==> Matches(sortlist[i], a))
    requires forall j :: 0 <= j < i ==> !Matches(sortlist[j], a)
    ensures i == FirstMatch(a, sortlist)
  {
    hide Matches;
    FirstMatchIsFirst(a, sortlist);
  }

  // ---------------------------------------------------------------------
  // The sort.

  /** The sort looks at addresses only through their index in the sort list. */
  ghost function KeyOf(sortlist: seq<Pattern>): Address -> nat
    requires forall p <- sortlist :: Usable(p)
  {
    a => if forall p <- sortlist :: Usable(p) then FirstMatch(a, sortlist) else 0
  }

  ghost predicate Sorted(s: seq<Address>, key: Address -> nat) {
    forall i, j :: 0 <= i < j < |s| ==> key(s[i]) <= key(s[j])
  }

  /** The addresses of s with key k, in order. */
  ghost function WithKey(s: seq<Address>, key: Address -> nat, k: nat): seq<Address> {
    if s == [] then []
    else
      var last := s[|s| - 1];
      WithKey(s[..|s| - 1], key, k) + if key(last) == k then [last] else []
  }

  /** x goes in behind the last address whose key is not greater. */
  ghost function Insert(s: seq<Address>, x: Address, key: Address -> nat): (t: seq<Address>)
    ensures |t| == |s| + 1
  {
    if s == [] || key(s[|s| - 1]) <= key(x) then s + [x]
    else Insert(s[..|s| - 1], x, key) + [s[|s| - 1]]
  }

  ghost function SortedBy(s: seq<Address>, key: Address -> nat): (t: seq<Address>)
    ensures |t| == |s|
  {
    if s == [] then [] else Insert(SortedBy(s[..|s| - 1], key), s[|s| - 1], key)
  }

  lemma {:induction false} InsertMembers(s: seq<Address>, x: Address, key: Address -> nat, i: nat)
    requires i <= |s|
    ensures Insert(s, x, key)[i] in s || Insert(s, x, key)[i] == x
  {
    if s != [] && key(s[|s| - 1]) > key(x) && i < |s| {
      InsertMembers(s[..|s| - 1], x, key, i);
    }
  }

  lemma {:induction false} InsertSorts(s: seq<Address>, x: Address, key: Address -> nat)
    requires Sorted(s, key)
    ensures Sorted(Insert(s, x, key), key)
  {
    if s != [] && key(s[|s| - 1]) > key(x) {
      var front, last := s[..|s| - 1], s[|s| - 1];
      InsertSorts(front, x, key);
      var t := Insert(front, x, key);
      forall i | 0 <= i < |t| ensures key(t[i]) <= key(last) {
        InsertMembers(front, x, key, i);
      }
    }
  }

  lemma {:induction false} InsertIsStable(s: seq<Address>, x: Address, key: Address -> nat, k: nat)
    ensures WithKey(Insert(s, x, key), key, k) == WithKey(s + [x], key, k)
  {
    assert (s + [x])[..|s|] == s;
    if s != [] && key(s[|s| - 1]) > key(x) {
      var front, last := s[..|s| - 1], s[|s| - 1];
      InsertIsStable(front, x, key, k);
      assert (front + [x])[..|front|] == front;
      assert Insert(s, x, key)[..|s|] == Insert(front, x, key);
    }
  }

  lemma {:induction false} InsertPermutes(s: seq<Address>, x: Address, key: Address -> nat)
    ensures multiset(Insert(s, x, key)) == multiset(s) + multiset{x}
  {
    if s != [] && key(s[|s| - 1]) > key(x) {
      var front, last := s[..|s| - 1], s[|s| - 1];
      InsertPermutes(front, x, key);
      assert s == front + [last];
    }
  }

  /** The result is in order, a permutation, and the addresses of each key come in their old order. */
  lemma {:induction false} SortIsStable(s: seq<Address>, key: Address -> nat)
    ensures Sorted(SortedBy(s, key), key)
    ensures multiset(SortedBy(s, key)) == multiset(s)
    ensures forall k: nat :: WithKey(SortedBy(s, key), key, k) == WithKey(s, key, k)
  {
    if s != [] {
      var front, last := s[..|s| - 1], s[|s| - 1];
      SortIsStable(front, key);
      var t := SortedBy(front, key);
      InsertSorts(t, last, key);
      InsertPermutes(t, last, key);
      assert s == front + [last];
      assert SortedBy(s, key) == Insert(t, last, key);
      hide Insert, WithKey, Sorted, SortedBy;
      forall k: nat ensures WithKey(Insert(t, last, key), key, k) == WithKey(s, key, k) {
        InsertIsStable(t, last, key, k);
        WithKeyLast(t, last, key, k);
        WithKeyLast(front, last, key, k);
      }
    }
  }

  lemma WithKeyLast(s: seq<Address>, x: Address, key: Address -> nat, k: nat)
    ensures WithKey(s + [x], key, k) == WithKey(s, key, k) + if key(x) == k then [x] else []
  {
    assert (s + [x])[..|s|] == s;
  }

  /** sort_addresses and sort6_addresses */
  method SortAddresses(a: array<Address>, sortlist: seq<Pattern>)
    requires forall p <- sortlist :: Usable(p)
    modifies a
    ensures a[..] == SortedBy(old(a[..]), KeyOf(sortlist))
  {
    ghost var was := a[..];
    for i1 := 0 to a.Length
      invariant a[..i1] == SortedBy(was[..i1], KeyOf(sortlist)) && a[i1..] == was[i1..]
    {
      hide FirstMatch, Usable, Insert, KeyOf;
      assert was[..i1 + 1][..i1] == was[..i1];
      MoveBack(a, i1, sortlist);
    }
    assert was[..a.Length] == was && a[..a.Length] == a[..];
  }

  /** From i on the values before i1 have moved up by one, and the others are in place; i itself is free. */
  ghost predicate Shifting(t: seq<Address>, was: seq<Address>, i: nat, i1: nat)
    requires i <= i1 < |t| == |was|
  {
    && (forall k :: 0 <= k < i ==> t[k] == was[k])
    && (forall k :: i <= k < i1 ==> t[k + 1] == was[k])
    && (forall k :: i1 < k < |t| ==> t[k] == was[k])
  }

  lemma ShiftingStep(t: seq<Address>, was: seq<Address>, i: nat, i1: nat)
    requires i < i1 < |t| == |was| && Shifting(t, was, i + 1, i1)
    ensures t[i] == was[i] && Shifting(t[i + 1 := t[i]], was, i, i1)
  {
  }

  lemma Spliced(t: seq<Address>, was: seq<Address>, i: nat, i1: nat, x: Address)
    requires i <= i1 < |t| == |was| && Shifting(t, was, i, i1)
    ensures t[i := x][..i1 + 1] == was[..i] + [x] + was[i..i1]
    ensures t[i := x][i1 + 1..] == was[i1 + 1..]
  {
  }

  /** The inner loop: the values with greater indices before i1 move up, and i is free for the value from there. */
  method ShiftUp(a: array<Address>, i1: nat, a1: Address, sortlist: seq<Pattern>) returns (i: nat)
    requires i1 < a.Length && a1 == a[i1] && forall p <- sortlist :: Usable(p)
    modifies a
    ensures i <= i1 && Shifting(a[..], old(a[..]), i, i1)
    ensures Insert(old(a[..i1]), a1, KeyOf(sortlist)) == old(a[..i]) + [a1] + old(a[i..i1])
  {
    ghost var was, key := a[..], KeyOf(sortlist);
    ghost var s := was[..i1];
    var ind1 := GetAddressIndex(a1, sortlist);
    KeyIs(a1, sortlist);
    InsertStart(s, a1, key);
    assert Shifting(was, was, i1, i1);
    hide Shifting, Insert, KeyOf, FirstMatch, Usable, Inserting;
    i := i1;
    while i > 0
      invariant 0 <= i <= i1
      invariant Shifting(a[..], was, i, i1)
      invariant Inserting(s, a1, key, i)
    {
      var moved := MoveUp(a, was, i1, i - 1, ind1, sortlist);
      if !moved {
        break;
      }
      InsertBefore(s, a1, key, i - 1);
      i := i - 1;
    }
    InsertHere(s, a1, key, i);
    Slices(was, i, i1);
  }

  /** The body of the inner loop: the value at i2 moves up if its index is greater. */
  method MoveUp(a: array<Address>, ghost was: seq<Address>, i1: nat, i2: nat, ind1: nat, sortlist: seq<Pattern>) returns (moved: bool)
    requires i2 < i1 < a.Length == |was| && forall p <- sortlist :: Usable(p)
    requires Shifting(a[..], was, i2 + 1, i1)
    modifies a
    ensures moved <==> KeyOf(sortlist)(was[i2]) > ind1
    ensures Shifting(a[..], was, if moved then i2 else i2 + 1, i1)
  {
    var a2 := a[i2];
    var ind2 := GetAddressIndex(a2, sortlist);
    KeyIs(a2, sortlist);
    ShiftingStep(a[..], was, i2, i1);
    hide Shifting, KeyOf, FirstMatch, Usable;
    assert was[i2] == a2;
    if ind2 <= ind1 {
      return false;
    }
    ghost var t := a[..];
    a[i2 + 1] := a2;
    assert a[..] == t[i2 + 1 := a2];
    return true;
  }

  lemma KeyIs(a: Address, sortlist: seq<Pattern>)
    requires forall p <- sortlist :: Usable(p)
    ensures KeyOf(sortlist)(a) == FirstMatch(a, sortlist)
  {
  }

  lemma Slices(s: seq<Address>, i: nat, n: nat)
    requires i <= n <= |s|
    ensures s[..n][..i] == s[..i] && s[..n][i..] == s[i..n]
  {
  }

  /** x still has to go in somewhere before i, and the rest of s comes after it. */
  ghost predicate Inserting(s: seq<Address>, x: Address, key: Address -> nat, i: nat)
    requires i <= |s|
  {
    Insert(s, x, key) == Insert(s[..i], x, key) + s[i..]
  }

  lemma InsertStart(s: seq<Address>, x: Address, key: Address -> nat)
    ensures Inserting(s, x, key, |s|)
  {
    hide Insert;
    assert s[..|s|] == s;
  }

  /** One round of the outer loop: the value at i1 moves back to its place. */
  method MoveBack(a: array<Address>, i1: nat, sortlist: seq<Pattern>)
    requires i1 < a.Length && forall p <- sortlist :: Usable(p)
    modifies a
    ensures a[..i1 + 1] == Insert(old(a[..i1]), old(a[i1]), KeyOf(sortlist))
    ensures a[i1 + 1..] == old(a[i1 + 1..])
  {
    hide Insert, KeyOf, FirstMatch, Usable, Shifting;
    ghost var was := a[..];
    var a1 := a[i1];
    var i := ShiftUp(a, i1, a1, sortlist);
    ghost var t := a[..];
    a[i] := a1;
    assert a[..] == t[i := a1];
    Spliced(t, was, i, i1, a1);
  }

  lemma InsertBefore(s: seq<Address>, x: Address, key: Address -> nat, i: nat)
    requires i < |s| && key(s[i]) > key(x) && Inserting(s, x, key, i + 1)
    ensures Inserting(s, x, key, i)
  {
    assert s[..i + 1][..i] == s[..i];
    assert Insert(s[..i + 1], x, key) == Insert(s[..i], x, key) + [s[i]];
    hide Insert;
    assert s[i..] == [s[i]] + s[i + 1..];
  }

  lemma InsertHere(s: seq<Address>, x: Address, key: Address -> nat, i: nat)
    requires i <= |s| && (i > 0 ==> key(s[i - 1]) <= key(x)) && Inserting(s, x, key, i)
    ensures Insert(s, x, key) == s[..i] + [x] + s[i..]
  {
  }
}
