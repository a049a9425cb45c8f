/**
 * The lists that a c-ares channel files its live queries on (ares_private.h,
 * struct ares_channeldata and struct query): all of them, by query id, by the
 * second of their timeout, and by the server they were sent to.
 */
module QueryIndex {
  import opened Bytes

  type Handle = nat

  const QID_TABLE_SIZE := 2048
  const TIMEOUT_TABLE_SIZE := 1024

  // ---------------------------------------------------------------------
  // Lists without repetition.

  ghost predicate NoDup<T>(s: seq<T>) {
    forall i, j :: 0 <= i < j < |s| ==> s[i] != s[j]
  }

  /** What is left of a list when a node is unlinked. */
  function Without(s: seq<Handle>, h: Handle): (r: seq<Handle>)
    ensures |r| <= |s|
  {
    if s == [] then []
    else if s[0] == h then Without(s[1..], h)
    else [s[0]] + Without(s[1..], h)
  }

  lemma {:induction false} WithoutMembers(s: seq<Handle>, h: Handle)
    ensures forall k :: k in Without(s, h) <==> k in s && k != h
    ensures NoDup(s) ==> NoDup(Without(s, h))
  {
    if s != [] {
      WithoutMembers(s[1..], h);
      assert s == [s[0]] + s[1..];
      if NoDup(s) {
        assert s[0] !in s[1..];
        assert s[0] !in Without(s[1..], h);
      }
    }
  }

  lemma NoDupAppend(s: seq<Handle>, h: Handle)
    requires NoDup(s) && h !in s
    ensures NoDup(s + [h])
  {
  }

  lemma {:induction false} WithoutAbsent(s: seq<Handle>, h: Handle)
    requires h !in s
    ensures Without(s, h) == s
  {
    if s != [] {
      WithoutAbsent(s[1..], h);
    }
  }

  lemma {:induction false} WithoutAppend(a: seq<Handle>, b: seq<Handle>, h: Handle)
    ensures Without(a + b, h) == Without(a, h) + Without(b, h)
  {
    if a == [] {
      assert a + b == b;
    } else {
      assert (a + b)[0] == a[0] && (a + b)[1..] == a[1..] + b;
      WithoutAppend(a[1..], b, h);
    }
  }

  /** Unlinking a node closes the gap. */
  lemma WithoutMiddle(a: seq<Handle>, h: Handle, b: seq<Handle>)
    requires NoDup(a + [h] + b)
    ensures Without(a + [h] + b, h) == a + b
  {
    var s := a + [h] + b;
    assert s[|a|] == h;
    forall i | 0 <= i < |a| ensures a[i] != h { assert s[i] == a[i]; }
    forall i | 0 <= i < |b| ensures b[i] != h { assert s[|a| + 1 + i] == b[i]; }
    WithoutAppend(a + [h], b, h);
    WithoutAppend(a, [h], h);
    WithoutAbsent(a, h);
    WithoutAbsent(b, h);
    assert Without([h], h) == [];
  }

  /** The node after h, None at the end of the list. */
  function Next(s: seq<Handle>, h: Handle): Option<Handle> {
    if s == [] then None
    else if s[0] == h then (if |s| == 1 then None else Some(s[1]))
    else Next(s[1..], h)
  }

  function First(s: seq<Handle>): Option<Handle> {
    if s == [] then None else Some(s[0])
  }

  lemma {:induction false} NextInside(a: seq<Handle>, h: Handle, b: seq<Handle>)
    requires NoDup(a + [h] + b)
    ensures Next(a + [h] + b, h) == First(b)
  {
    var s := a + [h] + b;
    if a != [] {
      assert s[0] == a[0] && s[|a|] == h;
      assert s[1..] == a[1..] + [h] + b;
      NextInside(a[1..], h, b);
    }
  }

  // ---------------------------------------------------------------------
  // A table of lists, filed by some attribute.

  type Table = seq<seq<Handle>>

  function Unfile(t: Table, h: Handle): (t': Table)
    ensures |t'| == |t|
  {
    seq(|t|, i requires 0 <= i < |t| => Without(t[i], h))
  }

  /** Unlink h from whichever list it is on and put it at the end of list i. */
  function Refile(t: Table, h: Handle, i: nat): (t': Table)
    requires i < |t|
    ensures |t'| == |t|
  {
    Unfile(t, h)[i := Without(t[i], h) + [h]]
  }

  /** Apart from the queries in flux, each query is on exactly the list that `place` names, and nothing else is. */
  ghost predicate Filed(t: Table, place: map<Handle, nat>, flux: set<Handle>) {
    && (forall i :: 0 <= i < |t| ==> NoDup(t[i]))
    && (forall i, k :: 0 <= i < |t| && k !in flux ==> (k in t[i] <==> k in place && place[k] == i))
  }

  lemma RefileFiles(t: Table, place: map<Handle, nat>, flux: set<Handle>, h: Handle, i: nat)
    requires Filed(t, place, flux) && i < |t| && h in flux
    ensures Filed(Refile(t, h, i), place[h := i], flux - {h})
  {
    var t' := Refile(t, h, i);
    forall j | 0 <= j < |t|
      ensures NoDup(t'[j])
      ensures forall k :: k !in flux - {h} ==> (k in t'[j] <==> k in place[h := i] && place[h := i][k] == j)
    {
      assert NoDup(t[j]);
      assert t'[j] == if j == i then Without(t[j], h) + [h] else Without(t[j], h);
      WithoutMembers(t[j], h);
      NoDupAppend(Without(t[j], h), h);
    }
  }

  lemma UnfileFiles(t: Table, place: map<Handle, nat>, flux: set<Handle>, h: Handle)
    requires Filed(t, place, flux)
    ensures Filed(Unfile(t, h), place - {h}, flux - {h})
  {
    var t' := Unfile(t, h);
    forall j | 0 <= j < |t|
      ensures NoDup(t'[j])
      ensures forall k :: k !in flux - {h} ==> (k in t'[j] <==> k in place - {h} && (place - {h})[k] == j)
    {
      assert NoDup(t[j]) && t'[j] == Without(t[j], h);
      WithoutMembers(t[j], h);
    }
  }

  // ---------------------------------------------------------------------
  // Queries.

  datatype Status =
    | Success | NoData | ServFail | NotFound | NotImp | Refused | BadQuery
    | ConnRefused | TimedOut | Cancelled | Destruction

  datatype Time = Time(sec: int, usec: int)

  /** struct query_server_info */
  datatype Info = Info(skip: bool, generation: int)

  /** struct query; its four list nodes are the table entries. */
  datatype Query = Query(
    qid: nat,
    timeout: Time,
    packet: seq<Byte>,
    tryCount: nat,
    server: nat,
    info: seq<Info>,
    usingTcp: bool,
    errorStatus: Status,
    timeouts: nat)

  type Queries = map<Handle, Query>

  /**
   * Every list of a channel. `stolen` is the list head on the stack of
   * handle_error, `stolenAll` that of ares_cancel; both are empty between calls.
   */
  datatype Links = Links(
    all: seq<Handle>,
    stolenAll: seq<Handle>,
    byQid: Table,
    byTimeout: Table,
    toServer: Table,
    stolen: seq<Handle>)

  function QidPlace(qs: Queries): map<Handle, nat> {
    map h | h in qs :: qs[h].qid % QID_TABLE_SIZE
  }

  function TimePlace(qs: Queries): map<Handle, nat> {
    map h | h in qs :: qs[h].timeout.sec % TIMEOUT_TABLE_SIZE
  }

  function ServerPlace(qs: Queries): map<Handle, nat> {
    map h | h in qs :: qs[h].server
  }

  function Elems(s: seq<Handle>): set<Handle> {
    set h | h in s
  }

  ghost predicate ListsAll(s: seq<Handle>, qs: Queries) {
    NoDup(s) && forall h :: h in s <==> h in qs
  }

  /** The multi-index invariant; `flux` holds the query that is being moved, if there is one. */
  ghost predicate Indexed(qs: Queries, l: Links, nservers: nat, flux: set<Handle>) {
    && |l.byQid| == QID_TABLE_SIZE && |l.byTimeout| == TIMEOUT_TABLE_SIZE && |l.toServer| == nservers
    && ListsAll(l.all + l.stolenAll, qs)
    && Filed(l.byQid, QidPlace(qs), {})
    && Filed(l.byTimeout, TimePlace(qs), flux)
    && Filed(l.toServer, ServerPlace(qs), flux + Elems(l.stolen))
    && NoDup(l.stolen) && Elems(l.stolen) <= qs.Keys && flux <= qs.Keys
  }

  lemma IndexedSizes(qs: Queries, l: Links, nservers: nat, flux: set<Handle>)
    requires Indexed(qs, l, nservers, flux)
    ensures |l.byQid| == QID_TABLE_SIZE && |l.byTimeout| == TIMEOUT_TABLE_SIZE && |l.toServer| == nservers
  {
  }

  /** ares__free_query unlinks a query from all four kinds of list. */
  function Unlink(l: Links, h: Handle): Links {
    Links(Without(l.all, h), Without(l.stolenAll, h), Unfile(l.byQid, h), Unfile(l.byTimeout, h),
          Unfile(l.toServer, h), Without(l.stolen, h))
  }

  /** ares__send_query moves a query to the list of its new timeout and of its server. */
  function Relink(l: Links, h: Handle, bucket: nat, server: nat): Links
    requires bucket < |l.byTimeout| && server < |l.toServer|
  {
    l.(byTimeout := Refile(l.byTimeout, h, bucket),
       toServer := Refile(l.toServer, h, server),
       stolen := Without(l.stolen, h))
  }

  lemma AllWithout(a: seq<Handle>, b: seq<Handle>, qs: Queries, h: Handle)
    requires ListsAll(a + b, qs)
    ensures ListsAll(Without(a, h) + Without(b, h), qs - {h})
  {
    WithoutAppend(a, b, h);
    WithoutMembers(a + b, h);
  }

  lemma PlacesWithout(qs: Queries, h: Handle)
    ensures QidPlace(qs - {h}) == QidPlace(qs) - {h}
    ensures TimePlace(qs - {h}) == TimePlace(qs) - {h}
    ensures ServerPlace(qs - {h}) == ServerPlace(qs) - {h}
  {
  }

  lemma UnlinkKeeps(qs: Queries, l: Links, n: nat, h: Handle)
    requires Indexed(qs, l, n, {h}) || Indexed(qs, l, n, {})
    ensures Indexed(qs - {h}, Unlink(l, h), n, {})
  {
    hide Filed, ListsAll, NoDup, QidPlace, TimePlace, ServerPlace;
    var flux := if Indexed(qs, l, n, {}) then {} else {h};
    var qs', l' := qs - {h}, Unlink(l, h);
    AllWithout(l.all, l.stolenAll, qs, h);
    WithoutMembers(l.stolen, h);
    UnfileFiles(l.byQid, QidPlace(qs), {}, h);
    UnfileFiles(l.byTimeout, TimePlace(qs), flux, h);
    UnfileFiles(l.toServer, ServerPlace(qs), flux + Elems(l.stolen), h);
    PlacesWithout(qs, h);
    assert {} - {h} == {} && flux - {h} == {};
    assert flux + Elems(l.stolen) - {h} == {} + Elems(l'.stolen);
  }

  lemma RelinkKeeps(qs: Queries, l: Links, n: nat, h: Handle, q: Query)
    requires Indexed(qs, l, n, {h}) && q.qid == qs[h].qid && q.server < n
    ensures Indexed(qs[h := q], Relink(l, h, q.timeout.sec % TIMEOUT_TABLE_SIZE, q.server), n, {})
  {
    hide Filed, NoDup, ListsAll;
    var qs', bucket := qs[h := q], q.timeout.sec % TIMEOUT_TABLE_SIZE;
    var l' := Relink(l, h, bucket, q.server);
    SameListsAll(l.all + l.stolenAll, qs, qs');
    WithoutMembers(l.stolen, h);
    RefileFiles(l.byTimeout, TimePlace(qs), {h}, h, bucket);
    RefileFiles(l.toServer, ServerPlace(qs), {h} + Elems(l.stolen), h, q.server);
    assert QidPlace(qs') == QidPlace(qs);
    assert TimePlace(qs') == TimePlace(qs)[h := bucket];
    assert ServerPlace(qs') == ServerPlace(qs)[h := q.server];
    assert {h} - {h} == {};
    assert {h} + Elems(l.stolen) - {h} == {} + Elems(l'.stolen);
  }

  /** A query may change freely while it is in flux, as long as its id stays. */
  lemma FluxKeeps(qs: Queries, l: Links, n: nat, h: Handle, q: Query)
    requires Indexed(qs, l, n, {}) || Indexed(qs, l, n, {h})
    requires h in qs && q.qid == qs[h].qid
    ensures Indexed(qs[h := q], l, n, {h})
  {
    hide Filed, NoDup, ListsAll;
    var qs' := qs[h := q];
    var flux := if Indexed(qs, l, n, {}) then {} else {h};
    assert QidPlace(qs') == QidPlace(qs);
    SameListsAll(l.all + l.stolenAll, qs, qs');
    FluxElsewhere(l.byTimeout, TimePlace(qs), TimePlace(qs'), flux, h);
    FluxElsewhere(l.toServer, ServerPlace(qs), ServerPlace(qs'), flux + Elems(l.stolen), h);
    assert flux + {h} == {h};
    assert flux + Elems(l.stolen) + {h} == {h} + Elems(l.stolen);
  }

  lemma SameListsAll(all: seq<Handle>, qs: Queries, qs': Queries)
    requires ListsAll(all, qs) && qs'.Keys == qs.Keys
    ensures ListsAll(all, qs')
  {
  }

  /** A change that concerns none of the attributes that queries are filed by. */
  lemma PlacesSame(qs: Queries, l: Links, n: nat, h: Handle, q: Query)
    requires Indexed(qs, l, n, {}) && h in qs
    requires q.qid == qs[h].qid && q.timeout == qs[h].timeout && q.server == qs[h].server
    ensures Indexed(qs[h := q], l, n, {})
  {
    hide Filed, NoDup, ListsAll;
    SameListsAll(l.all + l.stolenAll, qs, qs[h := q]);
    assert QidPlace(qs[h := q]) == QidPlace(qs);
    assert TimePlace(qs[h := q]) == TimePlace(qs);
    assert ServerPlace(qs[h := q]) == ServerPlace(qs);
  }

  /** A new query is at first on the list of all queries and on that of its id only. */
  lemma LinkNew(qs: Queries, l: Links, n: nat, h: Handle, q: Query)
    requires Indexed(qs, l, n, {}) && h !in qs && l.stolenAll == []
    ensures var b := q.qid % QID_TABLE_SIZE;
            Indexed(qs[h := q], l.(all := l.all + [h], byQid := l.byQid[b := l.byQid[b] + [h]]), n, {h})
  {
    hide Filed, NoDup, ListsAll;
    var qs', b := qs[h := q], q.qid % QID_TABLE_SIZE;
    var l' := l.(all := l.all + [h], byQid := l.byQid[b := l.byQid[b] + [h]]);
    assert l.all + [] == l.all && l'.all + [] == l'.all;
    AllAppend(l.all, qs, h, q);
    assert QidPlace(qs') == QidPlace(qs)[h := b];
    FileNew(l.byQid, QidPlace(qs), h, b);
    FluxElsewhere(l.byTimeout, TimePlace(qs), TimePlace(qs'), {}, h);
    FluxElsewhere(l.toServer, ServerPlace(qs), ServerPlace(qs'), {} + Elems(l.stolen), h);
    assert {} + Elems(l.stolen) + {h} == {h} + Elems(l.stolen);
    assert {} + {h} == {h};
  }

  lemma AllAppend(all: seq<Handle>, qs: Queries, h: Handle, q: Query)
    requires ListsAll(all, qs) && h !in qs
    ensures ListsAll(all + [h], qs[h := q])
  {
  }

  lemma FileNew(t: Table, place: map<Handle, nat>, h: Handle, i: nat)
    requires Filed(t, place, {}) && h !in place && i < |t|
    ensures Filed(t[i := t[i] + [h]], place[h := i], {})
  {
    var t' := t[i := t[i] + [h]];
    assert forall j :: 0 <= j < |t| ==> h !in t[j];
    assert forall j :: 0 <= j < |t| && j != i ==> t'[j] == t[j];
    assert NoDup(t[i]);
  }

  lemma FluxElsewhere(t: Table, place: map<Handle, nat>, place': map<Handle, nat>, flux: set<Handle>, h: Handle)
    requires Filed(t, place, flux)
    requires forall k :: k != h ==> (k in place' <==> k in place) && (k in place ==> place'[k] == place[k])
    ensures Filed(t, place', flux + {h})
  {
  }

  /** handle_error steals the list of a server: exactly the queries that were last sent there. */
  lemma StealKeeps(qs: Queries, l: Links, n: nat, i: nat)
    requires Indexed(qs, l, n, {}) && l.stolen == [] && i < n
    ensures Indexed(qs, l.(stolen := l.toServer[i], toServer := l.toServer[i := []]), n, {})
    ensures NoDup(l.toServer[i]) && forall h :: h in l.toServer[i] <==> h in qs && qs[h].server == i
  {
    var l' := l.(stolen := l.toServer[i], toServer := l.toServer[i := []]);
    assert {} + Elems(l.stolen) == {};
    forall h ensures h in l.toServer[i] <==> h in qs && qs[h].server == i {
      assert h in l.toServer[i] <==> h in ServerPlace(qs) && ServerPlace(qs)[h] == i;
    }
    assert NoDup(l.toServer[i]);
    assert {} + Elems(l'.stolen) == Elems(l.toServer[i]);
    FileStolen(l.toServer, ServerPlace(qs), i);
  }

  lemma FileStolen(t: Table, place: map<Handle, nat>, i: nat)
    requires Filed(t, place, {}) && i < |t|
    ensures Filed(t[i := []], place, Elems(t[i]))
  {
    var t' := t[i := []];
    forall j, k | 0 <= j < |t| && k !in Elems(t[i])
      ensures k in t'[j] <==> k in place && place[k] == j
    {
      assert k !in t[i];
    }
    forall j | 0 <= j < |t| ensures NoDup(t'[j]) {
      assert NoDup(t[j]);
    }
  }

  /** A query is found on the lists that its attributes name. */
  lemma OnItsLists(qs: Queries, l: Links, n: nat, h: Handle)
    requires Indexed(qs, l, n, {}) && l.stolen == [] && l.stolenAll == []
    ensures h in qs <==> h in l.all
    ensures forall i :: 0 <= i < QID_TABLE_SIZE ==> (h in l.byQid[i] <==> h in qs && qs[h].qid % QID_TABLE_SIZE == i)
    ensures forall i :: 0 <= i < TIMEOUT_TABLE_SIZE ==>
              (h in l.byTimeout[i] <==> h in qs && qs[h].timeout.sec % TIMEOUT_TABLE_SIZE == i)
    ensures forall i :: 0 <= i < n ==> (h in l.toServer[i] <==> h in qs && qs[h].server == i)
    ensures NoDup(l.all) && (forall i :: 0 <= i < QID_TABLE_SIZE ==> NoDup(l.byQid[i]))
    ensures (forall i :: 0 <= i < TIMEOUT_TABLE_SIZE ==> NoDup(l.byTimeout[i])) && (forall i :: 0 <= i < n ==> NoDup(l.toServer[i]))
  {
    assert l.all + [] == l.all;
    assert {} + Elems(l.stolen) == {};
    assert h in QidPlace(qs) <==> h in qs;
    assert h in TimePlace(qs) <==> h in qs;
    assert h in ServerPlace(qs) <==> h in qs;
  }

  /** Once no query is live, every list is empty. */
  lemma NoQueriesNoLinks(qs: Queries, l: Links, n: nat)
    requires Indexed(qs, l, n, {}) && qs == map[]
    ensures l.all == [] && l.stolenAll == [] && l.stolen == []
    ensures forall i :: 0 <= i < QID_TABLE_SIZE ==> l.byQid[i] == []
    ensures forall i :: 0 <= i < TIMEOUT_TABLE_SIZE ==> l.byTimeout[i] == []
    ensures forall i :: 0 <= i < n ==> l.toServer[i] == []
  {
    NoMembers(l.all + l.stolenAll);
    assert forall h :: h in l.stolen ==> h in Elems(l.stolen);
    NoMembers(l.stolen);
    assert {} + Elems(l.stolen) == {};
    NothingFiled(l.byQid, QidPlace(qs));
    NothingFiled(l.byTimeout, TimePlace(qs));
    NothingFiled(l.toServer, ServerPlace(qs));
  }

  lemma NoMembers(s: seq<Handle>)
    ensures (forall h :: h !in s) ==> s == []
  {
    if s != [] {
      assert s[0] in s;
    }
  }

  lemma NothingFiled(t: Table, place: map<Handle, nat>)
    requires Filed(t, place, {}) && place == map[]
    ensures forall i :: 0 <= i < |t| ==> t[i] == []
  {
    forall i | 0 <= i < |t|
      ensures t[i] == []
    {
      forall k ensures k !in t[i] {
        assert k !in place;
      }
      NoMembers(t[i]);
    }
  }
}
