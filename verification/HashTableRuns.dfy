/**
 * Whole runs of the hash table of hiredis (dict.c): its iterator, also under the
 * deletion of every entry that it returns, and sequences of operations.
 */
module HashTableRuns {
  import opened Bytes
  import opened HashTable

  /** (signed) of an unsigned long on a machine with 32-bit ints. */
  function AsInt(size: nat): int {
    (size + 0x8000_0000) % 0x1_0000_0000 - 0x8000_0000
  }

  /** A size that Valid allows keeps its value, except the largest one. */
  lemma AsIntIsExact(size: nat)
    requires size <= INDEX_LIMIT
    ensures AsInt(size) == if size < INDEX_LIMIT then size else -INDEX_LIMIT
  {
  }

  ghost function From<T>(chains: seq<seq<T>>, i: int): seq<seq<T>>
    requires 0 <= i
  {
    if i <= |chains| then chains[i..] else []
  }

  lemma ConcatFrom<T>(chains: seq<seq<T>>, i: nat)
    requires i < |chains|
    ensures Concat(From(chains, i)) == chains[i] + Concat(From(chains, i + 1))
  {
    assert chains[i..][1..] == chains[i + 1..];
  }

  /** An iterator between two calls; tail is what follows the current entry on its chain. */
  ghost predicate Between<K, V>(chains: seq<seq<DictEntry<K, V>>>, index: int, entry: DictEntry?<K, V>,
                                nextEntry: DictEntry?<K, V>, tail: seq<DictEntry<K, V>>)
  {
    && -1 <= index
    && (entry == null ==> tail == [])
    && (entry != null ==> 0 <= index < |chains| && Ends(chains[index], tail) && nextEntry == At(tail, 0))
  }

  ghost predicate Ends<T>(s: seq<T>, tail: seq<T>) {
    |tail| <= |s| && tail == s[|s| - |tail|..]
  }

  /** The entries still to come: the largest table ends the iteration at the next bucket. */
  ghost function Coming<K, V>(chains: seq<seq<DictEntry<K, V>>>, index: int, tail: seq<DictEntry<K, V>>): seq<DictEntry<K, V>>
    requires -1 <= index
  {
    tail + if |chains| < INDEX_LIMIT then Concat(From(chains, index + 1)) else []
  }

  ghost predicate AtHeads<K, V>(table: array<DictEntry?<K, V>>, chains: seq<seq<DictEntry<K, V>>>)
    reads table
  {
    |chains| == table.Length && forall b :: 0 <= b < |chains| ==> table[b] == At(chains[b], 0)
  }

  /** The loop of dictNext up to the next entry, or to the end of the table. */
  method Advance<K, V>(table: array<DictEntry?<K, V>>, ghost chains: seq<seq<DictEntry<K, V>>>, index: int,
                       entry: DictEntry?<K, V>, nextEntry: DictEntry?<K, V>, ghost tail: seq<DictEntry<K, V>>)
      returns (index': int, entry': DictEntry?<K, V>, ghost whole: seq<DictEntry<K, V>>)
    requires AtHeads(table, chains) && table.Length <= INDEX_LIMIT
    requires Between(chains, index, entry, nextEntry, tail)
    ensures -1 <= index' && Coming(chains, index', whole) == Coming(chains, index, tail) && entry' == At(whole, 0)
    ensures whole == [] ==> Coming(chains, index', whole) == []
    ensures whole != [] ==> 0 <= index' < |chains| && Ends(chains[index'], whole)
  {
    NullAtEnd(tail);
    hide AsInt, Coming, From, Ends, Concat, AtHeads, At;
    index', entry', whole := index, entry, tail;
    var next := nextEntry;
    while true
      invariant Between(chains, index', entry', next, whole) && Coming(chains, index', whole) == Coming(chains, index, tail)
      decreases |chains| - index', if entry' == null then 0 else 1
    {
      if entry' == null {
        var over;
        index', entry', whole, over := EnterBucket(table, chains, index');
        if over {
          return;
        }
      } else {
        entry' := next;
        NullAtEnd(whole);
      }
      if entry' != null {
        return;
      }
    }
  }

  /** dictNext goes on to the next bucket, if there is one. */
  method EnterBucket<K, V>(table: array<DictEntry?<K, V>>, ghost chains: seq<seq<DictEntry<K, V>>>, index: int)
      returns (index': int, entry: DictEntry?<K, V>, ghost whole: seq<DictEntry<K, V>>, over: bool)
    requires AtHeads(table, chains) && table.Length <= INDEX_LIMIT && -1 <= index
    ensures index' == index + 1 && over == (index' >= |chains| || |chains| == INDEX_LIMIT)
    ensures Coming(chains, index', whole) == Coming(chains, index, [])
    ensures over ==> whole == [] && Coming(chains, index', whole) == []
    ensures !over ==> Ends(chains[index'], whole)
    ensures entry == At(whole, 0) && (entry == null <==> whole == [])
  {
    AsIntIsExact(table.Length);
    NextBucketComes(chains, index);
    NextBucketComes(chains, index + 1);
    index' := index + 1;
    over := index' >= AsInt(table.Length);
    if over {
      NullAtEnd<K, V>([]);
      return index', null, [], true;
    }
    HeadOf(table, chains, index');
    NullAtEnd(chains[index']);
    return index', table[index'], chains[index'], false;
  }

  lemma HeadOf<K, V>(table: array<DictEntry?<K, V>>, chains: seq<seq<DictEntry<K, V>>>, index: nat)
    requires AtHeads(table, chains) && index < |chains|
    ensures table[index] == At(chains[index], 0) && Ends(chains[index], chains[index])
  {
  }

  lemma NullAtEnd<K, V>(chain: seq<DictEntry<K, V>>)
    ensures At(chain, 0) == null <==> chain == []
  {
  }

  lemma NextBucketComes<K, V>(chains: seq<seq<DictEntry<K, V>>>, index: int)
    requires -1 <= index
    ensures index + 1 < |chains| < INDEX_LIMIT ==> Coming(chains, index, []) == Coming(chains, index + 1, chains[index + 1])
    ensures index + 1 >= |chains| || INDEX_LIMIT <= |chains| ==> Coming(chains, index, []) == []
  {
    if index + 1 < |chains| {
      ConcatFrom(chains, index + 1);
    }
  }

  lemma FirstComing<K, V>(chains: seq<seq<DictEntry<K, V>>>, index: int, tail: seq<DictEntry<K, V>>)
    requires -1 <= index && tail != []
    ensures Coming(chains, index, tail) == [tail[0]] + Coming(chains, index, tail[1..])
  {
    assert tail == [tail[0]] + tail[1..];
  }

  class DictIterator<K(==), V> {
    const ht: Dict<K, V>
    var index: int
    var entry: DictEntry?<K, V>
    var nextEntry: DictEntry?<K, V>
    ghost var tail: seq<DictEntry<K, V>>

    ghost predicate Ready()
      reads this, ht
    {
      Between(ht.chains, index, entry, nextEntry, tail)
    }

    /** The entries still to come. */
    ghost function Rest(): seq<DictEntry<K, V>>
      requires Ready()
      reads this, ht
    {
      Coming(ht.chains, index, tail)
    }

    constructor (ht: Dict<K, V>)
      ensures this.ht == ht && Ready()
      ensures Rest() == if |ht.chains| < INDEX_LIMIT then Concat(ht.chains) else []
    {
      this.ht := ht;
      index, entry, nextEntry, tail := -1, null, null, [];
      new;
      assert ht.chains[0..] == ht.chains && [] + Concat(ht.chains) == Concat(ht.chains);
    }

    /** dictNext */
    method Next() returns (e: DictEntry?<K, V>)
      requires Ready() && ht.Valid()
      modifies this
      ensures ht.Valid() && Ready() && entry == e
      ensures e == null <==> old(Rest()) == []
      ensures e == null ==> Rest() == []
      ensures e != null ==> var f: DictEntry<K, V> := e; old(Rest()) == [f] + Rest() && Ends(ht.chains[index], [f] + tail)
    {
      hide Placed, Distinct, HasKey, Total, IsPower, Slot, Coming, Ends, AtHeads;
      Heads();
      ghost var whole;
      index, e, whole := Advance(ht.table, ht.chains, index, entry, nextEntry, tail);
      if e != null {
        FirstComing(ht.chains, index, whole);
        After(ht, index, whole);
        nextEntry := e.next;
      }
      entry, tail := e, if whole == [] then [] else whole[1..];
    }

    lemma Heads()
      requires ht.Valid()
      ensures AtHeads(ht.table, ht.chains) && ht.table.Length <= INDEX_LIMIT
    {
    }

    static lemma After(ht: Dict<K, V>, index: nat, whole: seq<DictEntry<K, V>>)
      requires ht.Valid() && index < |ht.chains| && Ends(ht.chains[index], whole) && whole != []
      ensures Ends(ht.chains[index], whole[1..]) && whole[0].next == At(whole[1..], 0)
      ensures [whole[0]] + whole[1..] == whole
    {
      hide Placed, Distinct, HasKey, Total, IsPower;
      var chain := ht.chains[index];
      assert Linked(ht.table[index], chain);
      assert chain[|chain| - |whole|] == whole[0];
      if |whole| > 1 {
        assert chain[|chain| - |whole| + 1] == whole[1];
      }
    }
  }

  /** The entry that dictNext has returned leaves its chain, and what is still to come stays. */
  lemma AfterDelete<K, V>(hash: K -> Word, chains: seq<seq<DictEntry<K, V>>>, index: nat, e: DictEntry<K, V>, tail: seq<DictEntry<K, V>>,
                          h: nat, j: nat)
    requires Placed(hash, chains) && (forall b :: 0 <= b < |chains| ==> Distinct(chains[b]))
    requires index < |chains| && Ends(chains[index], [e] + tail)
    requires h < |chains| && j < |chains[h]| && chains[h][j].key == e.key && h == Slot(hash(e.key), |chains|)
    ensures var chains' := chains[h := Without(chains[h], j)];
            && h == index && Ends(chains'[index], tail)
            && Coming(chains', index, tail) == Coming(chains, index, tail)
  {
    hide Slot;
    var chain := chains[index];
    var at := |chain| - |tail| - 1;
    assert chain[at..] == [e] + tail;
    assert chain[at] == e;
    assert Slot(hash(chain[at].key), |chains|) == index;
    assert j == at;
    var chains' := chains[h := Without(chains[h], j)];
    assert chain[at + 1..] == chain[at..][1..] == tail;
    assert Without(chain, at)[at..] == tail;
    assert chains'[index + 1..] == chains[index + 1..];
  }

  ghost function Keys<K, V>(entries: seq<DictEntry<K, V>>): set<K> {
    set i | 0 <= i < |entries| :: entries[i].key
  }

  /** One round of a loop over the entries that deletes the doomed ones. */
  method Visit<K(==), V>(it: DictIterator<K, V>, ht: Dict<K, V>, doomed: set<K>) returns (e: DictEntry?<K, V>)
    requires it.ht == ht && it.Ready() && ht.Valid()
    modifies it, ht, ht.table, EntriesOf(ht.chains)`next
    ensures ht.Valid() && it.Ready() && ht.table == old(ht.table) && EntriesOf(ht.chains) <= old(EntriesOf(ht.chains))
    ensures e == null ==> old(it.Rest()) == [] && ht.contents == old(ht.contents)
    ensures e != null ==>
              var f: DictEntry<K, V> := e;
              && old(it.Rest()) == [f] + it.Rest()
              && ht.contents == if f.key in doomed then old(ht.contents) - {f.key} else old(ht.contents)
  {
    hide Placed, Distinct, HasKey, Total, IsPower, Slot, Coming, Ends, Without;
    e := it.Next();
    if e != null && e.key in doomed {
      ghost var chains := ht.chains;
      ghost var f: DictEntry<K, V> := e;
      CurrentIsThere(ht, it.index, f, it.tail);
      var ok, j := ht.Delete(e.key);
      AfterDelete(ht.hash, chains, it.index, f, it.tail, Slot(ht.hash(f.key), |chains|), j);
      FewerEntries(chains, Slot(ht.hash(f.key), |chains|), j);
    }
  }

  lemma CurrentIsThere<K, V>(ht: Dict<K, V>, index: nat, e: DictEntry<K, V>, tail: seq<DictEntry<K, V>>)
    requires ht.Valid() && index < |ht.chains| && Ends(ht.chains[index], [e] + tail)
    ensures e.key in ht.contents
  {
    hide Placed, Distinct, HasKey, Total, IsPower, Slot;
    var chain := ht.chains[index];
    assert ([e] + tail)[0] == e;
    assert chain[|chain| - |tail| - 1] == e;
  }

  lemma FewerEntries<K, V>(chains: seq<seq<DictEntry<K, V>>>, h: nat, j: nat)
    requires h < |chains| && j < |chains[h]|
    ensures EntriesOf(chains[h := Without(chains[h], j)]) <= EntriesOf(chains)
  {
    var chains' := chains[h := Without(chains[h], j)];
    forall e <- EntriesOf(chains') ensures e in EntriesOf(chains) {
      var b, k :| 0 <= b < |chains'| && 0 <= k < |chains'[b]| && e == chains'[b][k];
      assert e == chains[b][if b == h && j <= k then k + 1 else k];
    }
  }

  /** The keys of the entries in the table are the keys of the map. */
  lemma KeysOfTable<K, V>(ht: Dict<K, V>)
    requires ht.Valid()
    ensures Keys(Concat(ht.chains)) == ht.contents.Keys
  {
    hide Placed, Distinct, Total, IsPower, Slot, Linked, AllLinked, Concat;
    var all := Concat(ht.chains);
    forall e ensures e in all <==> e in EntriesOf(ht.chains) {
      InConcat(ht.chains, e);
    }
    forall k <- ht.contents ensures k in Keys(all) {
      assert HasKey(ht.hash, ht.chains, k);
      var h := Slot(ht.hash(k), |ht.chains|);
      var j :| 0 <= j < |ht.chains[h]| && ht.chains[h][j].key == k;
      assert ht.chains[h][j] in all;
    }
    forall i | 0 <= i < |all| ensures all[i].key in ht.contents {
      InConcat(ht.chains, all[i]);
    }
  }

  lemma {:induction false} InConcat<K, V>(chains: seq<seq<DictEntry<K, V>>>, e: DictEntry<K, V>)
    ensures e in Concat(chains) <==> e in EntriesOf(chains)
  {
    if chains != [] {
      InConcat(chains[1..], e);
      forall b, j | 0 <= b < |chains| && 0 <= j < |chains[b]| && e == chains[b][j]
        ensures e in chains[0] || e in EntriesOf(chains[1..])
      {
        assert b > 0 ==> chains[1..][b - 1][j] == e;
      }
      forall b, j | 0 <= b < |chains| - 1 && 0 <= j < |chains[1..][b]| && e == chains[1..][b][j]
        ensures e in EntriesOf(chains)
      {
        assert chains[b + 1][j] == e;
      }
      forall j | 0 <= j < |chains[0]| && e == chains[0][j] ensures e in EntriesOf(chains) {
      }
    }
  }

  /** The loop of a user of the iterator who deletes some of the entries that it returns. */
  method VisitAll<K(==), V>(it: DictIterator<K, V>, ht: Dict<K, V>, doomed: set<K>) returns (visited: seq<DictEntry<K, V>>)
    requires it.ht == ht && it.Ready() && ht.Valid()
    modifies it, ht, ht.table, EntriesOf(ht.chains)`next
    ensures ht.Valid() && visited == old(it.Rest())
    ensures ht.contents == old(ht.contents) - (doomed * Keys(visited))
  {
    hide *;
    ghost var all, was := it.Rest(), ht.contents;
    visited := [];
    SweptStart(all, was, doomed);
    while true
      invariant it.ht == ht && ht.Valid() && it.Ready()
      invariant ht.table == old(ht.table) && EntriesOf(ht.chains) <= old(EntriesOf(ht.chains))
      invariant Swept(all, was, doomed, visited, it.Rest(), ht.contents)
      decreases |it.Rest()|
    {
      ghost var rest, contents := it.Rest(), ht.contents;
      var e := Visit(it, ht, doomed);
      if e == null {
        SweptEnd(all, was, doomed, visited, ht.contents);
        break;
      }
      var f: DictEntry<K, V> := e;
      SweptStep(all, was, doomed, visited, rest, contents, f, it.Rest());
      visited := visited + [f];
    }
  }

  /**
   * That loop with a new iterator returns every entry once, and the doomed ones are
   * gone afterwards. On the largest table, whose size is negative as an int,
   * dictNext returns nothing: entries are missed exactly if such a table holds any.
   */
  method Sweep<K(==), V>(ht: Dict<K, V>, doomed: set<K>) returns (visited: seq<DictEntry<K, V>>)
    requires ht.Valid()
    modifies ht, ht.table, EntriesOf(ht.chains)`next
    ensures ht.Valid()
    ensures old(ht.table.Length) < INDEX_LIMIT ==> visited == Concat(old(ht.chains)) && ht.contents == old(ht.contents) - doomed
    ensures old(ht.table.Length) == INDEX_LIMIT ==> visited == [] && ht.contents == old(ht.contents)
    ensures visited == Concat(old(ht.chains)) <==> old(ht.table.Length) < INDEX_LIMIT || old(ht.contents) == map[]
  {
    ghost var all, was := Concat(ht.chains), ht.contents;
    ghost var size := Sizes(ht);
    KeysOfTable(ht);
    hide *;
    NoKeys(all, was);
    var it := new DictIterator(ht);
    visited := VisitAll(it, ht, doomed);
    Gone(all, was, doomed);
  }

  lemma Sizes<K, V>(ht: Dict<K, V>) returns (size: nat)
    requires ht.Valid()
    ensures size == |ht.chains| == ht.table.Length <= INDEX_LIMIT
  {
    size := |ht.chains|;
  }

  lemma Gone<K, V>(all: seq<DictEntry<K, V>>, was: map<K, V>, doomed: set<K>)
    requires Keys(all) == was.Keys
    ensures was - (doomed * Keys(all)) == was - doomed
    ensures was - (doomed * Keys<K, V>([])) == was
  {
    assert Keys<K, V>([]) == {};
  }

  /** visited has been seen, rest is still to come, and the map has lost the doomed keys of the former. */
  ghost predicate Swept<K, V>(all: seq<DictEntry<K, V>>, was: map<K, V>, doomed: set<K>,
                              visited: seq<DictEntry<K, V>>, rest: seq<DictEntry<K, V>>, contents: map<K, V>)
  {
    visited + rest == all && contents == was - (doomed * Keys(visited))
  }

  lemma SweptStart<K, V>(all: seq<DictEntry<K, V>>, was: map<K, V>, doomed: set<K>)
    ensures Swept(all, was, doomed, [], all, was)
  {
    assert Keys<K, V>([]) == {};
  }

  lemma SweptStep<K, V>(all: seq<DictEntry<K, V>>, was: map<K, V>, doomed: set<K>, visited: seq<DictEntry<K, V>>,
                        rest: seq<DictEntry<K, V>>, contents: map<K, V>, e: DictEntry<K, V>, rest': seq<DictEntry<K, V>>)
    requires Swept(all, was, doomed, visited, rest, contents) && rest == [e] + rest'
    ensures Swept(all, was, doomed, visited + [e], rest', if e.key in doomed then contents - {e.key} else contents)
  {
    MoreKeys(visited, e);
  }

  lemma SweptEnd<K, V>(all: seq<DictEntry<K, V>>, was: map<K, V>, doomed: set<K>, visited: seq<DictEntry<K, V>>, contents: map<K, V>)
    requires Swept(all, was, doomed, visited, [], contents)
    ensures visited == all && contents == was - (doomed * Keys(visited))
  {
  }

  lemma NoKeys<K, V>(entries: seq<DictEntry<K, V>>, contents: map<K, V>)
    requires Keys(entries) == contents.Keys
    ensures entries == [] <==> contents == map[]
  {
    assert entries != [] ==> entries[0].key in Keys(entries);
  }

  lemma MoreKeys<K, V>(entries: seq<DictEntry<K, V>>, e: DictEntry<K, V>)
    ensures Keys(entries + [e]) == Keys(entries) + {e.key}
  {
    var more := entries + [e];
    assert more[|entries|] == e;
    assert forall i :: 0 <= i < |entries| ==> more[i] == entries[i];
  }

  /** An entry that a loop over the largest table does not see. */
  method LargestTableHides(hash: nat -> Word) returns (seen: nat, val: Option<nat>)
    ensures seen == 0 && val == Some(8)
  {
    var ht := new Dict<nat, nat>(hash);
    var ok := ht.Add(7, 8);
    ok := ht.Expand(INDEX_LIMIT);
    var visited := Sweep(ht, {});
    var e := ht.Find(7);
    return |visited|, if e == null then None else Some(e.val);
  }

  // ---------------------------------------------------------------------
  // Sequences of operations.

  datatype Op<K, V> = AddOp(key: K, val: V) | ReplaceOp(key: K, val: V) | DeleteOp(key: K) | FindOp(key: K)

  datatype Answer<V> = Did(ok: bool) | Found(val: Option<V>)

  /** What a finite map answers. */
  function AnswerOf<K, V>(m: map<K, V>, op: Op<K, V>): Answer<V> {
    match op
    case AddOp(k, _) => Did(k !in m)
    case ReplaceOp(k, _) => Did(k !in m)
    case DeleteOp(k) => Did(k in m)
    case FindOp(k) => Found(if k in m then Some(m[k]) else None)
  }

  function MapAfter<K, V>(m: map<K, V>, op: Op<K, V>): map<K, V> {
    match op
    case AddOp(k, v) => if k in m then m else m[k := v]
    case ReplaceOp(k, v) => m[k := v]
    case DeleteOp(k) => m - {k}
    case FindOp(_) => m
  }

  function Answers<K, V>(m: map<K, V>, ops: seq<Op<K, V>>): seq<Answer<V>>
    decreases |ops|
  {
    if ops == [] then [] else [AnswerOf(m, ops[0])] + Answers(MapAfter(m, ops[0]), ops[1..])
  }

  method Perform<K(==), V>(ht: Dict<K, V>, op: Op<K, V>) returns (answer: Answer<V>)
    requires ht.Valid() && ht.used < INDEX_LIMIT
    modifies ht, ht.table, EntriesOf(ht.chains)
    ensures ht.Valid() && (ht.table == old(ht.table) || fresh(ht.table))
    ensures forall e <- EntriesOf(ht.chains) :: e in old(EntriesOf(ht.chains)) || fresh(e)
    ensures answer == AnswerOf(old(ht.contents), op)
    ensures ht.contents == MapAfter(old(ht.contents), op)
    ensures ht.used == |ht.contents| <= old(ht.used) + 1
  {
    hide Dict.Shaped, EntriesOf, HasKey, Without, Slot;
    match op {
      case AddOp(k, v) =>
        var ok := ht.Add(k, v);
        answer := Did(ok);
      case ReplaceOp(k, v) =>
        var ok := ht.Replace(k, v);
        answer := Did(ok);
      case DeleteOp(k) =>
        ghost var chains := ht.chains;
        var ok, j := ht.Delete(k);
        if ok {
          FewerEntries(chains, Slot(ht.hash(k), |chains|), j);
        }
        answer := Did(ok);
      case FindOp(k) =>
        var e := ht.Find(k);
        answer := Found(if e == null then None else Some(e.val));
    }
  }

  /** A map that holds fewer keys than the largest table has buckets whenever an operation begins. */
  ghost predicate Indexable<K, V>(m: map<K, V>, ops: seq<Op<K, V>>)
    decreases |ops|
  {
    ops == [] || (|m| < INDEX_LIMIT && Indexable(MapAfter(m, ops[0]), ops[1..]))
  }

  /** Every run of operations on a new table gets the answers that a finite map gives. */
  method Replay<K(==), V>(hash: K -> Word, ops: seq<Op<K, V>>) returns (answers: seq<Answer<V>>)
    requires Indexable(map[], ops)
    ensures answers == Answers(map[], ops)
  {
    var ht := new Dict<K, V>(hash);
    answers := [];
    assert ops[0..] == ops;
    assert EntriesOf(ht.chains) == {};
    AnswersEnd<K, V>(map[], answers);
    hide *;
    for i := 0 to |ops|
      invariant fresh(ht) && fresh(ht.table) && ht.Valid() && ht.used == |ht.contents| && Indexable(ht.contents, ops[i..])
      invariant forall e <- EntriesOf(ht.chains) :: fresh(e)
      invariant Answers(map[], ops) == answers + Answers(ht.contents, ops[i..])
    {
      AnswersStep(ht.contents, ops, i, answers);
      var answer := Perform(ht, ops[i]);
      answers := answers + [answer];
    }
    assert ops[|ops|..] == [];
    AnswersEnd(ht.contents, answers);
  }

  lemma AnswersEnd<K, V>(m: map<K, V>, answers: seq<Answer<V>>)
    ensures answers + Answers(m, []) == answers && [] + answers == answers
  {
  }

  lemma AnswersStep<K, V>(m: map<K, V>, ops: seq<Op<K, V>>, i: nat, answers: seq<Answer<V>>)
    requires i < |ops|
    ensures answers + Answers(m, ops[i..]) == answers + [AnswerOf(m, ops[i])] + Answers(MapAfter(m, ops[i]), ops[i + 1..])
    ensures Indexable(m, ops[i..]) ==> |m| < INDEX_LIMIT && Indexable(MapAfter(m, ops[i]), ops[i + 1..])
  {
    assert ops[i..][0] == ops[i] && ops[i..][1..] == ops[i + 1..];
  }
}
