/**
 * The chained hash table of hiredis (dict.c), with its entries and their next
 * pointers. It is a finite map under every sequence of operations, through growth
 * and rehashing, and its iterator survives the deletion of what it returns.
 */
module HashTable {
  import opened Bytes
  import opened Numbers

  const INITIAL_SIZE := 4
  const LONG_MAX := 0x7FFF_FFFF_FFFF_FFFF
  /** A bucket index is a C int. */
  const INDEX_LIMIT := 0x8000_0000

  type Word = n: nat | n < 0x1_0000_0000

  predicate IsPower(n: nat) {
    n == 1 || (n > 1 && n % 2 == 0 && IsPower(n / 2))
  }

  /** The bucket of a hash value: the value masked with size - 1. */
  function Slot(h: nat, size: nat): (i: nat)
    requires size > 0
    ensures i < size
  {
    And(h, size - 1)
  }

  /** For a power of two the mask takes the remainder, so every bucket is in use. */
  lemma {:induction false} MaskIsRemainder(h: nat, size: nat)
    requires IsPower(size)
    ensures Slot(h, size) == h % size
    decreases size
  {
    if size == 1 {
      assert And(h, 0) == 0;
    } else {
      var m := size / 2;
      MaskIsRemainder(h / 2, m);
      MaskStep(h, m);
    }
  }

  lemma MaskStep(h: nat, m: nat)
    requires m > 0 && Slot(h / 2, m) == h / 2 % m
    ensures Slot(h, 2 * m) == h % (2 * m)
  {
    AndHalf(h, m);
    HalfRemainder(h, m);
  }

  lemma AndHalf(h: nat, m: nat)
    requires m > 0
    ensures And(h, 2 * m - 1) == 2 * And(h / 2, m - 1) + h % 2
  {
    assert (2 * m - 1) / 2 == m - 1 && (2 * m - 1) % 2 == 1;
  }

  lemma HalfRemainder(h: nat, m: nat)
    requires m > 0
    ensures 2 * (h / 2 % m) + h % 2 == h % (2 * m)
  {
    var q, r := h / 2 / m, 2 * (h / 2 % m) + h % 2;
    DivMod(h / 2, m);
    var mq := m * q;
    assert (2 * m) * q == 2 * mq by {
      assert (2 * m) * q == 2 * (m * q);
    }
    assert h == (2 * m) * q + r;
    RemainderIs(h, 2 * m, q, r);
  }

  lemma DivMod(a: nat, b: nat)
    requires b > 0
    ensures a == b * (a / b) + a % b
  {
  }

  lemma RemainderIs(h: nat, size: nat, q: nat, r: nat)
    requires r < size && h == size * q + r
    ensures h % size == r
  {
    DivMod(h, size);
    var q', r' := h / size, h % size;
    Apart(size, q, r, q', r');
  }

  lemma Apart(size: nat, q: nat, r: nat, q': nat, r': nat)
    requires r < size && r' < size && size * q + r == size * q' + r'
    ensures r == r'
  {
    if q < q' {
      Scaled(size, q, q');
    } else if q' < q {
      Scaled(size, q', q);
    }
  }

  lemma {:induction false} Scaled(size: nat, a: nat, b: nat)
    requires a < b
    ensures size * b >= size * a + size
  {
    if a + 1 < b {
      Scaled(size, a, b - 1);
    }
    assert size * b == size * (b - 1) + size;
  }

  class DictEntry<K, V> {
    const key: K
    var val: V
    var next: DictEntry?<K, V>

    constructor (key: K, val: V, next: DictEntry?<K, V>)
      ensures this.key == key && this.val == val && this.next == next
    {
      this.key, this.val, this.next := key, val, next;
    }
  }

  // ---------------------------------------------------------------------
  // Chains.

  ghost function At<K, V>(chain: seq<DictEntry<K, V>>, j: nat): DictEntry?<K, V> {
    if j < |chain| then chain[j] else null
  }

  /** The pointers from first on spell chain. */
  ghost predicate Linked<K, V>(first: DictEntry?<K, V>, chain: seq<DictEntry<K, V>>)
    reads chain
  {
    && first == At(chain, 0)
    && forall j :: 0 <= j < |chain| ==> chain[j].next == At(chain, j + 1)
  }

  /** The buckets from index from on hold their chains. */
  ghost predicate AllLinked<K, V>(table: array<DictEntry?<K, V>>, chains: seq<seq<DictEntry<K, V>>>, from: nat)
    requires table.Length == |chains|
    reads table, EntriesOf(chains)
  {
    forall b :: from <= b < |chains| ==> Linked(table[b], chains[b])
  }

  ghost predicate Distinct<K, V>(chain: seq<DictEntry<K, V>>) {
    forall j, k :: 0 <= j < k < |chain| ==> chain[j].key != chain[k].key
  }

  /** Every entry is in the bucket that its key hashes to. */
  ghost predicate Placed<K, V>(hash: K -> Word, chains: seq<seq<DictEntry<K, V>>>) {
    forall i, j :: 0 <= i < |chains| && 0 <= j < |chains[i]| ==> Slot(hash(chains[i][j].key), |chains|) == i
  }

  ghost function EntriesOf<K, V>(chains: seq<seq<DictEntry<K, V>>>): set<DictEntry<K, V>> {
    set i, j | 0 <= i < |chains| && 0 <= j < |chains[i]| :: chains[i][j]
  }

  function Total<T>(chains: seq<seq<T>>): nat {
    |Concat(chains)|
  }

  lemma {:induction false} TotalUpdate<T>(chains: seq<seq<T>>, b: nat, chain: seq<T>)
    requires b < |chains|
    ensures Total(chains[b := chain]) == Total(chains) - |chains[b]| + |chain|
  {
    if b == 0 {
      assert chains[b := chain][1..] == chains[1..];
    } else {
      assert chains[b := chain][1..] == chains[1..][b - 1 := chain];
      TotalUpdate(chains[1..], b - 1, chain);
    }
  }

  lemma {:induction false} TotalSplit<T>(chains: seq<seq<T>>, i: nat)
    requires i <= |chains|
    ensures Total(chains) == Total(chains[..i]) + Total(chains[i..])
  {
    if i > 0 {
      TotalSplit(chains[1..], i - 1);
      assert chains[..i][1..] == chains[1..][..i - 1] && chains[i..] == chains[1..][i - 1..];
    } else {
      assert chains[..0] == [] && chains[0..] == chains;
    }
  }

  lemma TotalNext<T>(chains: seq<seq<T>>, i: nat)
    requires i < |chains|
    ensures Total(chains[..i + 1]) == Total(chains[..i]) + |chains[i]|
  {
    TotalSplit(chains[..i + 1], i);
    assert chains[..i + 1][..i] == chains[..i] && chains[..i + 1][i..] == [chains[i]];
    assert Total([chains[i]]) == |chains[i]| + Total([chains[i]][1..]);
  }

  lemma {:induction false} TotalZero<T>(chains: seq<seq<T>>)
    ensures Total(chains) == 0 <==> forall i :: 0 <= i < |chains| ==> chains[i] == []
  {
    if chains != [] {
      TotalZero(chains[1..]);
      if forall i :: 0 <= i < |chains| ==> chains[i] == [] {
        assert forall i :: 0 <= i < |chains[1..]| ==> chains[1..][i] == chains[i + 1];
      }
      if Total(chains) == 0 {
        forall i | 0 <= i < |chains| ensures chains[i] == [] {
          if i > 0 {
            assert chains[i] == chains[1..][i - 1];
          }
        }
      }
    }
  }

  // ---------------------------------------------------------------------
  // Rehashing.

  ghost function Chain<T>(chains: seq<seq<T>>, i: nat): seq<T> {
    if i < |chains| then chains[i] else []
  }

  /** e is one of the first entries in the order of the old table: before bucket i, or among the first p there. */
  ghost predicate Done<K, V>(hash: K -> Word, before: seq<seq<DictEntry<K, V>>>, i: nat, p: nat, e: DictEntry<K, V>)
    requires i <= |before| && p <= |Chain(before, i)|
  {
    |before| > 0 &&
    var s := Slot(hash(e.key), |before|);
    (s < i && e in before[s]) || (s == i && e in before[i][..p])
  }

  /** The state of dictExpand's loops: p entries of bucket i, and all of the buckets before it, have moved. */
  ghost predicate Moving<K, V>(hash: K -> Word, table: array<DictEntry?<K, V>>, before: seq<seq<DictEntry<K, V>>>,
                               fresher: array<DictEntry?<K, V>>, after: seq<seq<DictEntry<K, V>>>, i: nat, p: nat)
    reads table, fresher, EntriesOf(before), EntriesOf(after)
  {
    && i <= |before| == table.Length && p <= |Chain(before, i)| && |after| == fresher.Length > 0
    && Placed(hash, after)
    && (forall b :: 0 <= b < |after| ==> Distinct(after[b]))
    && AllLinked(fresher, after, 0) && AllLinked(table, before, i + 1)
    && (i < |before| ==> Linked(At(before[i], p), before[i][p..]))
    && (forall e <- EntriesOf(after) :: Done(hash, before, i, p, e))
    && (forall e <- EntriesOf(before) :: Done(hash, before, i, p, e) ==> e in EntriesOf(after))
  }

  /** The entry that moves is not in the new table yet, and neither is its key. */
  lemma MoverIsNew<K, V>(hash: K -> Word, before: seq<seq<DictEntry<K, V>>>, after: seq<seq<DictEntry<K, V>>>, i: nat, p: nat)
    requires i < |before| && p < |before[i]| && Placed(hash, before) && Distinct(before[i])
    requires forall e <- EntriesOf(after) :: Done(hash, before, i, p, e)
    ensures forall e <- EntriesOf(after) :: e.key != before[i][p].key
  {
  }

  /** The middle of dictExpand: one entry goes to the head of its new chain. */
  method Move<K, V>(hash: K -> Word, ghost table: array<DictEntry?<K, V>>, ghost before: seq<seq<DictEntry<K, V>>>,
                    fresher: array<DictEntry?<K, V>>, ghost after: seq<seq<DictEntry<K, V>>>, ghost i: nat, ghost p: nat,
                    he: DictEntry<K, V>) returns (nextHe: DictEntry?<K, V>, ghost after': seq<seq<DictEntry<K, V>>>)
    requires Moving(hash, table, before, fresher, after, i, p) && table != fresher
    requires i < |before| && p < |before[i]| && he == before[i][p]
    requires Placed(hash, before) && Distinct(before[i])
    modifies fresher, he`next
    ensures Moving(hash, table, before, fresher, after', i, p + 1)
    ensures nextHe == At(before[i], p + 1)
    ensures |after'| == |after| && Total(after') == Total(after) + 1
  {
    hide Slot, At, Linked, AllLinked;
    MoverIsNew(hash, before, after, i, p);
    var h := Slot(hash(he.key), fresher.Length);
    after' := after[h := [he] + after[h]];
    TotalUpdate(after, h, [he] + after[h]);
    Grown(hash, before, after, after', i, p, h);
    OnlyHere(hash, before, after, i, p);
    hide EntriesOf, Done, Placed, Distinct, Total;
    nextHe := Relink(table, before, fresher, after, i, p, he, h);
  }

  /** he is in the old table once, and not in the new one. */
  ghost predicate Alone<K, V>(before: seq<seq<DictEntry<K, V>>>, after: seq<seq<DictEntry<K, V>>>, i: nat, p: nat)
    requires i < |before| && p < |before[i]|
  {
    && (forall b, j :: 0 <= b < |after| && 0 <= j < |after[b]| ==> after[b][j] != before[i][p])
    && (forall k, j :: i < k < |before| && 0 <= j < |before[k]| ==> before[k][j] != before[i][p])
    && (forall j :: 0 <= j < |before[i]| && j != p ==> before[i][j] != before[i][p])
  }

  lemma OnlyHere<K, V>(hash: K -> Word, before: seq<seq<DictEntry<K, V>>>, after: seq<seq<DictEntry<K, V>>>, i: nat, p: nat)
    requires i < |before| && p < |before[i]| && Placed(hash, before) && Distinct(before[i])
    requires forall e <- EntriesOf(after) :: e.key != before[i][p].key
    ensures Alone(before, after, i, p)
  {
    hide Slot;
    forall b, j | 0 <= b < |after| && 0 <= j < |after[b]| ensures after[b][j] != before[i][p] {
      assert after[b][j] in EntriesOf(after);
    }
    assert forall k, j :: i < k < |before| && 0 <= j < |before[k]| ==> Slot(hash(before[k][j].key), |before|) == k;
  }

  method Relink<K, V>(ghost table: array<DictEntry?<K, V>>, ghost before: seq<seq<DictEntry<K, V>>>,
                      fresher: array<DictEntry?<K, V>>, ghost after: seq<seq<DictEntry<K, V>>>, ghost i: nat, ghost p: nat,
                      he: DictEntry<K, V>, h: nat) returns (nextHe: DictEntry?<K, V>)
    requires i < |before| == table.Length && p < |before[i]| && he == before[i][p] && table != fresher
    requires h < |after| == fresher.Length && Alone(before, after, i, p)
    requires AllLinked(fresher, after, 0) && AllLinked(table, before, i + 1) && Linked(At(before[i], p), before[i][p..])
    modifies fresher, he`next
    ensures nextHe == At(before[i], p + 1)
    ensures AllLinked(fresher, after[h := [he] + after[h]], 0) && AllLinked(table, before, i + 1)
    ensures Linked(At(before[i], p + 1), before[i][p + 1..])
  {
    assert he == before[i][p..][0];
    nextHe := he.next;
    assert nextHe == At(before[i], p + 1);
    he.next := fresher[h];
    fresher[h] := he;
    forall j | 0 <= j < |after[h]| + 1 ensures ([he] + after[h])[j].next == At([he] + after[h], j + 1) {
      if j > 0 {
        assert ([he] + after[h])[j] == after[h][j - 1];
      }
    }
    var rest := before[i][p + 1..];
    forall j | 0 <= j < |rest| ensures rest[j].next == At(rest, j + 1) {
      assert rest[j] == before[i][p..][j + 1] == before[i][p + 1 + j];
    }
  }

  lemma Grown<K, V>(hash: K -> Word, before: seq<seq<DictEntry<K, V>>>, after: seq<seq<DictEntry<K, V>>>,
                    after': seq<seq<DictEntry<K, V>>>, i: nat, p: nat, h: nat)
    requires i < |before| && p < |before[i]| && Placed(hash, before) && Distinct(before[i])
    requires Placed(hash, after) && (forall b :: 0 <= b < |after| ==> Distinct(after[b]))
    requires h < |after| && h == Slot(hash(before[i][p].key), |after|)
    requires forall e <- EntriesOf(after) :: Done(hash, before, i, p, e)
    requires forall e <- EntriesOf(before) :: Done(hash, before, i, p, e) ==> e in EntriesOf(after)
    requires after' == after[h := [before[i][p]] + after[h]]
    ensures Placed(hash, after') && EntriesOf(after') == EntriesOf(after) + {before[i][p]}
    ensures forall b :: 0 <= b < |after'| ==> Distinct(after'[b])
    ensures forall e <- EntriesOf(after') :: Done(hash, before, i, p + 1, e)
    ensures forall e <- EntriesOf(before) :: Done(hash, before, i, p + 1, e) ==> e in EntriesOf(after')
  {
    hide Slot;
    var he := before[i][p];
    MoverIsNew(hash, before, after, i, p);
    DistinctGrows(he, after[h]) by {
      assert forall e <- after[h] :: e in EntriesOf(after);
    }
    hide Distinct;
    assert before[i][..p + 1] == before[i][..p] + [he];
    assert he == after'[h][0];
    forall e ensures e in EntriesOf(after') <==> e in EntriesOf(after) || e == he {
      if e in EntriesOf(after) {
        var b, j :| 0 <= b < |after| && 0 <= j < |after[b]| && e == after[b][j];
        assert e == after'[b][if b == h then j + 1 else j];
      }
    }
  }

  lemma DistinctGrows<K, V>(he: DictEntry<K, V>, chain: seq<DictEntry<K, V>>)
    requires Distinct(chain) && forall e <- chain :: e.key != he.key
    ensures Distinct([he] + chain)
  {
  }

  /** The inner loop of dictExpand, with left entries still to move. */
  method MoveBucket<K, V>(hash: K -> Word, table: array<DictEntry?<K, V>>, ghost before: seq<seq<DictEntry<K, V>>>,
                          fresher: array<DictEntry?<K, V>>, ghost after: seq<seq<DictEntry<K, V>>>, i: nat, left: nat)
      returns (left': nat, ghost after': seq<seq<DictEntry<K, V>>>)
    requires i < |before| == table.Length && table != fresher && |before[i]| <= left
    requires Placed(hash, before) && Distinct(before[i])
    requires Linked(table[i], before[i])
    requires Moving(hash, table, before, fresher, after, i, 0)
    modifies EntriesOf(before)`next, fresher
    ensures Moving(hash, table, before, fresher, after', i, |before[i]|)
    ensures |after'| == |after| && Total(after') == Total(after) + |before[i]|
    ensures left' == left - |before[i]|
  {
    hide Moving, Placed, Distinct, AllLinked, Total, Slot;
    var he := table[i];
    ghost var p := 0;
    left', after' := left, after;
    while he != null
      invariant 0 <= p <= |before[i]| && he == At(before[i], p)
      invariant Moving(hash, table, before, fresher, after', i, p)
      invariant |after'| == |after| && Total(after') == Total(after) + p && left' == left - p
      decreases |before[i]| - p
    {
      assert he == before[i][p] && he in EntriesOf(before);
      he, after' := Move(hash, table, before, fresher, after', i, p, he);
      left' := left' - 1;
      p := p + 1;
    }
  }

  /** From the end of one bucket to the next one. */
  lemma NextBucket<K, V>(hash: K -> Word, table: array<DictEntry?<K, V>>, before: seq<seq<DictEntry<K, V>>>,
                         fresher: array<DictEntry?<K, V>>, after: seq<seq<DictEntry<K, V>>>, i: nat)
    requires i < |before| && Moving(hash, table, before, fresher, after, i, |before[i]|)
    ensures Moving(hash, table, before, fresher, after, i + 1, 0)
  {
    hide Slot;
    assert before[i][..|before[i]|] == before[i];
    if i + 1 < |before| {
      assert before[i + 1][0..] == before[i + 1] && before[i + 1][..0] == [];
    }
  }

  lemma FirstBucket<K, V>(hash: K -> Word, table: array<DictEntry?<K, V>>, before: seq<seq<DictEntry<K, V>>>,
                          fresher: array<DictEntry?<K, V>>, after: seq<seq<DictEntry<K, V>>>)
    requires |before| == table.Length && |after| == fresher.Length > 0 && AllLinked(table, before, 0)
    requires forall b :: 0 <= b < |after| ==> after[b] == [] && fresher[b] == null
    ensures Moving(hash, table, before, fresher, after, 0, 0) && Total(after) == 0
  {
    hide Slot;
    TotalZero(after);
    if |before| > 0 {
      assert before[0][0..] == before[0] && before[0][..0] == [];
    }
  }

  /** When as many entries have moved as there were, all of them have. */
  lemma AllMoved<K, V>(hash: K -> Word, table: array<DictEntry?<K, V>>, before: seq<seq<DictEntry<K, V>>>,
                       fresher: array<DictEntry?<K, V>>, after: seq<seq<DictEntry<K, V>>>, i: nat)
    requires Moving(hash, table, before, fresher, after, i, 0) && Placed(hash, before)
    requires i == |before| || Total(before[..i]) == Total(before)
    ensures EntriesOf(after) == EntriesOf(before)
  {
    hide Slot;
    TotalSplit(before, i);
    TotalZero(before[i..]);
    forall e <- EntriesOf(before) ensures e in EntriesOf(after) {
      var k, j :| 0 <= k < |before| && 0 <= j < |before[k]| && e == before[k][j];
      assert k < i by {
        assert forall b :: i <= b < |before| ==> before[b] == before[i..][b - i];
      }
      assert Slot(hash(e.key), |before|) == k;
    }
    forall e <- EntriesOf(after) ensures e in EntriesOf(before) {
      assert Done(hash, before, i, 0, e);
      var s := Slot(hash(e.key), |before|);
      var j :| 0 <= j < |before[s]| && e == before[s][j];
    }
  }

  /** What the loops of dictExpand start from. */
  lemma Setup<K, V>(table: array<DictEntry?<K, V>>, before: seq<seq<DictEntry<K, V>>>)
    requires |before| == table.Length && AllLinked(table, before, 0)
    ensures forall b :: 0 <= b < |before| ==> table[b] == At(before[b], 0)
  {
  }

  lemma HeadLinked<K, V>(hash: K -> Word, table: array<DictEntry?<K, V>>, before: seq<seq<DictEntry<K, V>>>,
                         fresher: array<DictEntry?<K, V>>, after: seq<seq<DictEntry<K, V>>>, i: nat)
    requires Moving(hash, table, before, fresher, after, i, 0) && i < |before|
    ensures Linked(At(before[i], 0), before[i])
  {
    assert before[i][0..] == before[i];
  }

  lemma Counted<T>(chains: seq<seq<T>>, i: nat)
    requires i < |chains|
    ensures Total(chains[..i + 1]) == Total(chains[..i]) + |chains[i]| <= Total(chains)
  {
    TotalNext(chains, i);
    TotalSplit(chains, i + 1);
  }

  lemma Finished<K, V>(hash: K -> Word, table: array<DictEntry?<K, V>>, before: seq<seq<DictEntry<K, V>>>,
                       fresher: array<DictEntry?<K, V>>, after: seq<seq<DictEntry<K, V>>>, i: nat)
    requires Moving(hash, table, before, fresher, after, i, 0) && Placed(hash, before)
    requires i == |before| || Total(before[..i]) == Total(before)
    ensures Placed(hash, after) && (forall b :: 0 <= b < |after| ==> Distinct(after[b]))
    ensures AllLinked(fresher, after, 0) && EntriesOf(after) == EntriesOf(before)
  {
    AllMoved(hash, table, before, fresher, after, i);
  }

  /** The loops of dictExpand: left runs down to zero while the entries move, which is what the source asserts. */
  method Rehash<K, V>(hash: K -> Word, table: array<DictEntry?<K, V>>, ghost before: seq<seq<DictEntry<K, V>>>,
                      fresher: array<DictEntry?<K, V>>, left: nat) returns (ghost after: seq<seq<DictEntry<K, V>>>)
    requires |before| == table.Length && fresher != table && fresher.Length > 0 && left == Total(before)
    requires Placed(hash, before) && (forall b :: 0 <= b < |before| ==> Distinct(before[b])) && AllLinked(table, before, 0)
    requires forall b :: 0 <= b < fresher.Length ==> fresher[b] == null
    modifies EntriesOf(before)`next, fresher
    ensures |after| == fresher.Length && Placed(hash, after) && (forall b :: 0 <= b < |after| ==> Distinct(after[b]))
    ensures AllLinked(fresher, after, 0) && Total(after) == left && EntriesOf(after) == EntriesOf(before)
  {
    hide Placed, AllLinked, Moving, EntriesOf, Total, Distinct, At, Linked, Slot;
    after := seq(fresher.Length, _ => []);
    FirstBucket(hash, table, before, fresher, after);
    Setup(table, before);
    var i: nat, left': nat := 0, left;
    assert before[..0] == [] && Total(before[..0]) == 0 by {
      TotalZero(before[..0]);
    }
    while i < table.Length && left' > 0
      invariant 0 <= i <= |before| && |after| == fresher.Length
      invariant Moving(hash, table, before, fresher, after, i, 0)
      invariant Total(after) == Total(before[..i]) && left' + Total(after) == left
    {
      Counted(before, i);
      HeadLinked(hash, table, before, fresher, after, i);
      left', after := MoveBucket(hash, table, before, fresher, after, i, left');
      NextBucket(hash, table, before, fresher, after, i);
      i := i + 1;
    }
    if i == |before| {
      assert before[..i] == before;
    }
    assert left' == 0;
    Finished(hash, table, before, fresher, after, i);
  }

  // ---------------------------------------------------------------------
  // The table.

  ghost predicate HasKey<K, V>(hash: K -> Word, chains: seq<seq<DictEntry<K, V>>>, k: K) {
    |chains| > 0 &&
    var chain := chains[Slot(hash(k), |chains|)];
    exists j :: 0 <= j < |chain| && chain[j].key == k
  }

  lemma KeysStay<K, V>(hash: K -> Word, before: seq<seq<DictEntry<K, V>>>, after: seq<seq<DictEntry<K, V>>>, contents: map<K, V>)
    requires EntriesOf(before) == EntriesOf(after) && Placed(hash, after) && |after| > 0
    requires forall k <- contents :: HasKey(hash, before, k)
    ensures forall k <- contents :: HasKey(hash, after, k)
  {
    hide Slot;
    forall k <- contents ensures HasKey(hash, after, k) {
      var chain := before[Slot(hash(k), |before|)];
      var j :| 0 <= j < |chain| && chain[j].key == k;
      assert chain[j] in EntriesOf(after);
    }
  }

  method NextPower(size: nat) returns (r: nat)
    ensures size >= LONG_MAX ==> r == LONG_MAX
    ensures size < LONG_MAX ==> IsPower(r) && INITIAL_SIZE <= r && size <= r && (r == INITIAL_SIZE || r / 2 < size)
  {
    if size >= LONG_MAX {
      return LONG_MAX;
    }
    r := INITIAL_SIZE;
    assert IsPower(2);
    while r < size
      invariant IsPower(r) && INITIAL_SIZE <= r && (r == INITIAL_SIZE || r / 2 < size)
      decreases size - r
    {
      r := r * 2;
    }
  }

  /** Powers of two are at least a factor of two apart. */
  lemma {:induction false} PowersApart(a: nat, b: nat)
    requires IsPower(a) && IsPower(b) && a < b
    ensures 2 * a <= b
  {
    if a > 1 {
      PowersApart(a / 2, b / 2);
    }
  }

  lemma LimitIsPower()
    ensures IsPower(INDEX_LIMIT)
  {
    PowerUp(0x8000, 0x1_0000);
  }

  lemma PowerUp(a: nat, b: nat)
    requires a == 0x8000 && b == 0x1_0000
    ensures IsPower(a * b)
  {
    assert IsPower(0x100);
    assert IsPower(0x1_0000);
    assert IsPower(0x100_0000);
    assert IsPower(0x8000_0000);
  }

  /** The walk along a chain that _dictKeyIndex, dictFind and dictDelete make. */
  method Search<K(==), V>(first: DictEntry?<K, V>, ghost chain: seq<DictEntry<K, V>>, key: K) returns (he: DictEntry?<K, V>)
    requires Linked(first, chain)
    ensures he == null <==> forall j :: 0 <= j < |chain| ==> chain[j].key != key
    ensures he != null ==> he in chain && he.key == key
  {
    he := first;
    ghost var j := 0;
    while he != null && he.key != key
      invariant 0 <= j <= |chain| && he == At(chain, j)
      invariant forall k :: 0 <= k < j ==> chain[k].key != key
      decreases |chain| - j
    {
      he := he.next;
      j := j + 1;
    }
  }

  /** A new entry at the head of its chain. */
  lemma Inserted<K, V>(hash: K -> Word, chains: seq<seq<DictEntry<K, V>>>, chains': seq<seq<DictEntry<K, V>>>,
                       h: nat, e: DictEntry<K, V>, contents: map<K, V>)
    requires Placed(hash, chains) && (forall b :: 0 <= b < |chains| ==> Distinct(chains[b]))
    requires h < |chains| && h == Slot(hash(e.key), |chains|) && chains' == chains[h := [e] + chains[h]]
    requires forall f <- EntriesOf(chains) :: f.key != e.key
    requires forall k <- contents :: HasKey(hash, chains, k)
    ensures Placed(hash, chains') && (forall b :: 0 <= b < |chains'| ==> Distinct(chains'[b]))
    ensures EntriesOf(chains') == EntriesOf(chains) + {e} && Total(chains') == Total(chains) + 1
    ensures HasKey(hash, chains', e.key) && forall k <- contents :: HasKey(hash, chains', k)
  {
    hide Slot;
    TotalUpdate(chains, h, [e] + chains[h]);
    DistinctGrows(e, chains[h]) by {
      assert forall f <- chains[h] :: f in EntriesOf(chains);
    }
    hide Distinct, Total;
    assert chains'[h][0] == e;
    forall f ensures f in EntriesOf(chains') <==> f in EntriesOf(chains) || f == e {
      if f in EntriesOf(chains) {
        var b, j :| 0 <= b < |chains| && 0 <= j < |chains[b]| && f == chains[b][j];
        assert f == chains'[b][if b == h then j + 1 else j];
      }
    }
    forall k <- contents ensures HasKey(hash, chains', k) {
      var b := Slot(hash(k), |chains|);
      var j :| 0 <= j < |chains[b]| && chains[b][j].key == k;
      assert chains'[b][if b == h then j + 1 else j].key == k;
    }
  }

  lemma OneEntry<K, V>(hash: K -> Word, chains: seq<seq<DictEntry<K, V>>>, e: DictEntry<K, V>, f: DictEntry<K, V>)
    requires Placed(hash, chains) && (forall b :: 0 <= b < |chains| ==> Distinct(chains[b]))
    requires e in EntriesOf(chains) && f in EntriesOf(chains) && e.key == f.key
    ensures e == f
  {
    hide Slot;
  }

  function Without<T>(s: seq<T>, j: nat): (r: seq<T>)
    requires j < |s|
    ensures |r| == |s| - 1
    ensures forall k :: 0 <= k < |r| ==> r[k] == s[if k < j then k else k + 1]
  {
    s[..j] + s[j + 1..]
  }

  /** The same walk, with the entry before the one that is found. */
  method SearchWithPrevious<K(==), V>(first: DictEntry?<K, V>, ghost chain: seq<DictEntry<K, V>>, key: K)
      returns (prevde: DictEntry?<K, V>, de: DictEntry?<K, V>, ghost j: nat)
    requires Linked(first, chain)
    ensures de == null <==> forall k :: 0 <= k < |chain| ==> chain[k].key != key
    ensures de != null ==> j < |chain| && de == chain[j] && de.key == key
    ensures de != null ==> prevde == if j == 0 then null else chain[j - 1]
  {
    prevde, de, j := null, first, 0;
    while de != null && de.key != key
      invariant 0 <= j <= |chain| && de == At(chain, j)
      invariant j < |chain| ==> prevde == if j == 0 then null else chain[j - 1]
      invariant forall k :: 0 <= k < j ==> chain[k].key != key
      decreases |chain| - j
    {
      prevde := de;
      de := de.next;
      j := j + 1;
    }
  }

  lemma Removed<K, V>(hash: K -> Word, chains: seq<seq<DictEntry<K, V>>>, chains': seq<seq<DictEntry<K, V>>>,
                      h: nat, j: nat, contents: map<K, V>)
    requires Placed(hash, chains) && (forall b :: 0 <= b < |chains| ==> Distinct(chains[b]))
    requires h < |chains| && j < |chains[h]| && chains' == chains[h := Without(chains[h], j)]
    requires forall k <- contents :: HasKey(hash, chains, k)
    ensures Placed(hash, chains') && (forall b :: 0 <= b < |chains'| ==> Distinct(chains'[b]))
    ensures EntriesOf(chains') == EntriesOf(chains) - {chains[h][j]} && Total(chains') == Total(chains) - 1
    ensures forall f <- EntriesOf(chains') :: f.key != chains[h][j].key
    ensures forall k <- contents :: k != chains[h][j].key ==> HasKey(hash, chains', k)
  {
    hide Slot, Without;
    TotalUpdate(chains, h, Without(chains[h], j));
    hide Total;
    var e := chains[h][j];
    var rest := Without(chains[h], j);
    forall f ensures f in EntriesOf(chains') <==> f in EntriesOf(chains) && f != e {
      if f in EntriesOf(chains) && f != e {
        var b, k :| 0 <= b < |chains| && 0 <= k < |chains[b]| && f == chains[b][k];
        assert f == chains'[b][if b == h && j < k then k - 1 else k];
      }
    }
    forall k <- contents | k != e.key ensures HasKey(hash, chains', k) {
      var b := Slot(hash(k), |chains|);
      var i :| 0 <= i < |chains[b]| && chains[b][i].key == k;
      assert chains'[b][if b == h && j < i then i - 1 else i].key == k;
    }
  }

  /** Everything but chains[h][j] keeps its place on its chain when the pointer to that entry goes past it. */
  method Bypass<K, V>(ghost hash: K -> Word, table: array<DictEntry?<K, V>>, ghost chains: seq<seq<DictEntry<K, V>>>,
                      h: nat, ghost j: nat, prevde: DictEntry?<K, V>, de: DictEntry<K, V>)
    requires h < |chains| == table.Length && j < |chains[h]| && de == chains[h][j]
    requires Placed(hash, chains) && Distinct(chains[h]) && AllLinked(table, chains, 0)
    requires prevde == if j == 0 then null else chains[h][j - 1]
    modifies table, (if prevde == null then {} else {prevde})`next
    ensures AllLinked(table, chains[h := Without(chains[h], j)], 0)
  {
    ghost var chain, rest := chains[h], Without(chains[h], j);
    Elsewhere(hash, chains, h, prevde);
    assert forall k :: 0 <= k < |chain| && k != j - 1 ==> chain[k] != prevde;
    hide Placed, Distinct, Without;
    assert Linked(table[h], chain) && de.next == At(chain, j + 1);
    if prevde != null {
      prevde.next := de.next;
    } else {
      table[h] := de.next;
    }
    assert Linked(table[h], rest);
  }

  lemma Elsewhere<K, V>(hash: K -> Word, chains: seq<seq<DictEntry<K, V>>>, h: nat, e: DictEntry?<K, V>)
    requires Placed(hash, chains) && h < |chains| && (e != null ==> e in chains[h])
    ensures forall b, k :: 0 <= b < |chains| && b != h && 0 <= k < |chains[b]| ==> chains[b][k] != e
  {
    hide Slot;
  }

  /** The size of a table that has room for one more entry. */
  function Grows(size: nat, used: nat): nat {
    if size == 0 then INITIAL_SIZE else if used == size then size * 2 else size
  }

  class Dict<K(==), V> {
    const hash: K -> Word
    /** The buckets; its length is the table's size. */
    var table: array<DictEntry?<K, V>>
    var used: nat
    ghost var chains: seq<seq<DictEntry<K, V>>>
    /** The finite map that the table stands for. */
    ghost var contents: map<K, V>

    ghost predicate Shaped()
      reads this, table, EntriesOf(chains)
    {
      && |chains| == table.Length <= INDEX_LIMIT
      && (|chains| == 0 || (IsPower(|chains|) && |chains| >= INITIAL_SIZE))
      && Placed(hash, chains) && (forall b :: 0 <= b < |chains| ==> Distinct(chains[b]))
      && AllLinked(table, chains, 0)
      && used == Total(chains) <= |chains|
    }

    ghost predicate Valid()
      reads this, table, EntriesOf(chains)
    {
      && Shaped() && |contents| == used
      && (forall e <- EntriesOf(chains) :: e.key in contents && contents[e.key] == e.val)
      && (forall k <- contents :: HasKey(hash, chains, k))
    }

    constructor (hash: K -> Word)
      ensures Valid() && contents == map[] && this.hash == hash && fresh(table) && chains == []
    {
      this.hash := hash;
      table := new DictEntry?<K, V>[0];
      used, chains, contents := 0, [], map[];
    }

    /** dictExpand: ok unless there are more than n entries. The map stays the same, and the source's assertion holds. */
    method Expand(n: nat) returns (ok: bool)
      requires Valid() && n <= INDEX_LIMIT
      modifies this, EntriesOf(chains)`next
      ensures Valid() && contents == old(contents) && used == old(used)
      ensures EntriesOf(chains) == old(EntriesOf(chains))
      ensures ok <==> used <= n
      ensures !ok ==> table == old(table) && chains == old(chains)
      ensures ok ==> fresh(table) && INITIAL_SIZE <= table.Length && n <= table.Length
      ensures ok ==> table.Length == INITIAL_SIZE || table.Length / 2 < n
    {
      hide IsPower, Slot, Placed, Distinct, HasKey, Total, At;
      var realsize := NextPower(n);
      if used > n {
        return false;
      }
      Fits(realsize, n);
      Remap(realsize);
      return true;
    }

    /** The entries move to a table of the given size. */
    method Remap(realsize: nat)
      requires Valid() && IsPower(realsize) && used <= realsize && INITIAL_SIZE <= realsize <= INDEX_LIMIT
      modifies this, EntriesOf(chains)`next
      ensures Valid() && contents == old(contents) && used == old(used)
      ensures EntriesOf(chains) == old(EntriesOf(chains))
      ensures fresh(table) && table.Length == realsize
    {
      hide IsPower, Slot, Placed, Distinct, HasKey, Total, At;
      var fresher := new DictEntry?<K, V>[realsize](_ => null);
      ghost var after := Rehash(hash, table, chains, fresher, used);
      KeysStay(hash, chains, after, contents);
      table, chains := fresher, after;
    }

    /** _dictExpandIfNeeded */
    method ExpandIfNeeded() returns (ok: bool)
      requires Valid() && used < INDEX_LIMIT
      modifies this, EntriesOf(chains)`next
      ensures Valid() && contents == old(contents) && used == old(used)
      ensures EntriesOf(chains) == old(EntriesOf(chains)) && (table == old(table) || fresh(table))
      ensures ok && used < table.Length == Grows(old(table.Length), old(used))
      ensures old(table.Length) == 0 ==> table.Length == 4
      ensures old(table.Length) > 0 ==> table.Length == if used == old(table.Length) then 2 * old(table.Length) else old(table.Length)
    {
      hide Slot, Placed, Distinct, HasKey, Total, At, AllLinked, EntriesOf;
      if table.Length == 0 {
        ok := Expand(INITIAL_SIZE);
        Exactly(table.Length, INITIAL_SIZE);
      } else if used == table.Length {
        LimitIsPower();
        PowersApart(table.Length, INDEX_LIMIT);
        ghost var size := table.Length;
        ok := Expand(table.Length * 2);
        Exactly(table.Length, size * 2);
      } else {
        ok := true;
      }
    }

    /** A power of two from n on, and less than twice n, is n if n is one itself. */
    lemma Exactly(r: nat, n: nat)
      requires IsPower(r) && IsPower(n) && n <= r && INITIAL_SIZE <= n && (r == INITIAL_SIZE || r / 2 < n)
      ensures r == n
    {
      if n < r {
        PowersApart(n, r);
      }
    }

    /** _dictKeyIndex: -1 if the key is there already. */
    method KeyIndex(key: K) returns (index: int)
      requires Valid() && used < INDEX_LIMIT
      modifies this, EntriesOf(chains)`next
      ensures Valid() && contents == old(contents) && used == old(used)
      ensures EntriesOf(chains) == old(EntriesOf(chains)) && (table == old(table) || fresh(table))
      ensures used < table.Length == Grows(old(table.Length), old(used))
      ensures index == -1 <==> key in contents
      ensures index != -1 ==> index == Slot(hash(key), table.Length)
    {
      var ok := ExpandIfNeeded();
      var he := Find(key);
      return if he != null then -1 else Slot(hash(key), table.Length);
    }

    method Find(key: K) returns (he: DictEntry?<K, V>)
      requires Valid()
      ensures Valid()
      ensures he != null <==> key in contents
      ensures he != null ==> he in EntriesOf(chains) && he.key == key && he.val == contents[key]
    {
      hide Slot, Placed, Distinct, Total, IsPower, At;
      if table.Length == 0 {
        return null;
      }
      var h := Slot(hash(key), table.Length);
      ghost var chain := chains[h];
      assert forall j :: 0 <= j < |chain| ==> chain[j] in EntriesOf(chains);
      assert HasKey(hash, chains, key) <==> exists j :: 0 <= j < |chain| && chain[j].key == key;
      he := Search(table[h], chain, key);
      hide AllLinked, Linked, EntriesOf;
      if he != null {
        assert HasKey(hash, chains, key);
      }
    }

    /** dictAdd: ok unless the key is there already. */
    method Add(key: K, val: V) returns (ok: bool)
      requires Valid() && used < INDEX_LIMIT
      modifies this, table, EntriesOf(chains)`next
      ensures Valid() && (table == old(table) || fresh(table))
      ensures ok <==> key !in old(contents)
      ensures contents == if ok then old(contents)[key := val] else old(contents)
      ensures table.Length == Grows(old(table.Length), old(used))
      ensures forall e <- EntriesOf(chains) :: e in old(EntriesOf(chains)) || fresh(e)
    {
      var index := KeyIndex(key);
      if index == -1 {
        return false;
      }
      hide *;
      Insert(index, key, val);
      return true;
    }

    /** The new entry becomes the head of its chain. */
    method Insert(index: nat, key: K, val: V)
      requires Valid() && key !in contents && used < table.Length && index == Slot(hash(key), table.Length)
      modifies this, table
      ensures Valid() && contents == old(contents)[key := val] && table == old(table)
      ensures forall e <- EntriesOf(chains) :: e in old(EntriesOf(chains)) || fresh(e)
    {
      hide Slot, Placed, Distinct, HasKey, Total, At, IsPower;
      var entry := new DictEntry(key, val, table[index]);
      ghost var chains' := chains[index := [entry] + chains[index]];
      Inserted(hash, chains, chains', index, entry, contents);
      HeadInserted(table, chains, index, entry);
      table[index] := entry;
      used := used + 1;
      chains, contents := chains', contents[key := val];
    }

    lemma HeadInserted(table: array<DictEntry?<K, V>>, chains: seq<seq<DictEntry<K, V>>>, index: nat, e: DictEntry<K, V>)
      requires table.Length == |chains| && index < |chains| && AllLinked(table, chains, 0) && e.next == table[index]
      ensures Linked(e, [e] + chains[index])
    {
      var chain := [e] + chains[index];
      forall j | 0 <= j < |chain| ensures chain[j].next == At(chain, j + 1) {
        assert j > 0 ==> chain[j] == chains[index][j - 1];
      }
    }

    /** dictReplace: tells whether the key was new. */
    method Replace(key: K, val: V) returns (added: bool)
      requires Valid() && used < INDEX_LIMIT
      modifies this, table, EntriesOf(chains)
      ensures Valid() && (table == old(table) || fresh(table))
      ensures added <==> key !in old(contents)
      ensures contents == old(contents)[key := val]
      ensures forall e <- EntriesOf(chains) :: e in old(EntriesOf(chains)) || fresh(e)
    {
      hide *;
      added := Add(key, val);
      if added {
        return;
      }
      var entry := Find(key);
      Overwrite(entry, val);
    }

    method Overwrite(entry: DictEntry<K, V>, val: V)
      requires Valid() && entry in EntriesOf(chains)
      modifies entry`val, this`contents
      ensures Valid() && contents == old(contents)[entry.key := val]
    {
      hide Slot, Placed, Distinct, HasKey, Total, At, IsPower;
      forall e <- EntriesOf(chains) | e.key == entry.key ensures e == entry {
        OneEntry(hash, chains, e, entry);
      }
      entry.val := val;
      contents := contents[entry.key := val];
    }

    /** dictDelete: when ok, the j-th entry of its chain is gone. */
    method Delete(key: K) returns (ok: bool, ghost j: nat)
      requires Valid()
      modifies this, table, EntriesOf(chains)`next
      ensures Valid() && table == old(table)
      ensures ok <==> key in old(contents)
      ensures contents == old(contents) - {key}
      ensures !ok ==> chains == old(chains)
      ensures ok ==> var h := Slot(hash(key), |old(chains)|);
                     && j < |old(chains)[h]| && old(chains)[h][j].key == key
                     && chains == old(chains)[h := Without(old(chains)[h], j)]
    {
      hide Slot, Placed, Distinct, Total, IsPower, At;
      if table.Length == 0 {
        return false, 0;
      }
      var h := Slot(hash(key), table.Length);
      assert HasKey(hash, chains, key) <==> exists j :: 0 <= j < |chains[h]| && chains[h][j].key == key;
      assert forall j :: 0 <= j < |chains[h]| ==> chains[h][j] in EntriesOf(chains);
      var prevde, de;
      prevde, de, j := SearchWithPrevious(table[h], chains[h], key);
      if de == null {
        assert !HasKey(hash, chains, key);
        return false, 0;
      }
      hide *;
      Unlink(h, j, prevde, de);
      return true, j;
    }

    /** The entry after prevde, or the head if there is none, leaves its chain. */
    method Unlink(h: nat, ghost j: nat, prevde: DictEntry?<K, V>, de: DictEntry<K, V>)
      requires Valid() && h < |chains| && j < |chains[h]| && de == chains[h][j]
      requires prevde == if j == 0 then null else chains[h][j - 1]
      modifies this, table, EntriesOf(chains)`next
      ensures Valid() && table == old(table)
      ensures contents == old(contents) - {de.key} && de.key in old(contents)
      ensures chains == old(chains)[h := Without(old(chains)[h], j)]
    {
      hide Slot, Placed, Distinct, HasKey, Total, At, IsPower, Without;
      assert de in EntriesOf(chains);
      ghost var chains' := chains[h := Without(chains[h], j)];
      Removed(hash, chains, chains', h, j, contents);
      Bypass(hash, table, chains, h, j, prevde, de);
      used := used - 1;
      chains, contents := chains', contents - {de.key};
    }

    lemma Fits(r: nat, n: nat)
      requires IsPower(r) && n <= INDEX_LIMIT && (r == INITIAL_SIZE || r / 2 < n)
      ensures r <= INDEX_LIMIT
    {
      LimitIsPower();
      if INDEX_LIMIT < r {
        PowersApart(INDEX_LIMIT, r);
      }
    }
  }
}
