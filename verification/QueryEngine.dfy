/**
 * The query engine of c-ares: sending, retrying, timing out, answering and
 * cancelling DNS queries (ares_process.c, ares_send.c, ares_cancel.c,
 * ares_destroy.c, ares__close_sockets.c).
 *
 * Queries live in a heap indexed by handles that are never reused; sockets are
 * reduced to open or closed, and the outcome of every socket call is arbitrary.
 */
module QueryEngine {
  import opened Bytes
  import opened Numbers
  import DnsMatch
  import opened QueryIndex
  import opened QueryTiming

  const HFIXEDSZ := 12
  const PACKETSZ := 512
  const EDNSFIXEDSZ := 11
  const FORMERR := 1
  const SERVFAIL := 2
  const NOTIMP := 4
  const REFUSED := 5

  datatype Config = Config(
    nservers: nat,
    tries: int,
    timeout: int,
    ednspsz: int,
    stayOpen: bool,
    ignoreTruncation: bool,
    noCheckResp: bool,
    useVc: bool,
    rotate: bool)

  /** struct send_request: the owner is forgotten when the request gets its own copy of the data, or none. */
  datatype SendReq = SendReq(owner: Option<Handle>, data: seq<Byte>)

  /** The writing half of struct server_state. */
  datatype Server = Server(udpOpen: bool, tcpOpen: bool, generation: int, isBroken: bool, queue: seq<SendReq>)

  /** The answer and its length are given with success only. */
  datatype Callback = Callback(query: Handle, status: Status, timeouts: nat, abuf: seq<Byte> := [], alen: int := 0)

  /** How often a query went through ares__send_query, and why more often than it was tried. */
  datatype Effort = Effort(sends: nat, upgrades: nat, fallbacks: nat)

  function Max(a: int, b: int): int {
    if a < b then b else a
  }

  /** The number of attempts that a channel makes on a query. */
  function Attempts(cfg: Config): (n: nat)
    ensures n >= 1
  {
    Max(1, cfg.nservers * cfg.tries)
  }

  /** qbuf with its length in front, as it goes over TCP. */
  function TcpFrame(packet: seq<Byte>): seq<Byte> {
    [|packet| / 256 % 256, |packet| % 256] + packet
  }

  /** DNS_HEADER_QID */
  function QidOf(packet: seq<Byte>): nat
    requires |packet| >= 2
  {
    var high: int, low: int := packet[0], packet[1];
    high * 256 + low
  }

  function Owners(cbs: seq<Callback>): (s: seq<Handle>)
    ensures |s| == |cbs|
  {
    seq(|cbs|, i requires 0 <= i < |cbs| => cbs[i].query)
  }

  /** Each issued query is either live or has had its callback, never both, and never two callbacks. */
  ghost predicate CallbacksOk(cbs: seq<Callback>, qs: Queries, issued: nat) {
    && NoDup(Owners(cbs))
    && (forall h: Handle :: h in Owners(cbs) <==> h < issued && h !in qs)
    && (forall h: Handle :: h in qs ==> h < issued)
  }

  lemma CallbackMade(cbs: seq<Callback>, qs: Queries, issued: nat, c: Callback)
    requires CallbacksOk(cbs, qs, issued) && c.query in qs
    ensures CallbacksOk(cbs + [c], qs - {c.query}, issued)
  {
    assert Owners(cbs + [c]) == Owners(cbs) + [c.query];
    assert c.query !in Owners(cbs);
    NoDupAppend(Owners(cbs), c.query);
  }

  lemma CallbackAtOnce(cbs: seq<Callback>, qs: Queries, issued: nat, c: Callback)
    requires CallbacksOk(cbs, qs, issued) && c.query == issued
    ensures CallbacksOk(cbs + [c], qs, issued + 1)
  {
    assert Owners(cbs + [c]) == Owners(cbs) + [c.query];
    assert c.query !in Owners(cbs);
    NoDupAppend(Owners(cbs), c.query);
  }

  lemma QueryIssued(cbs: seq<Callback>, qs: Queries, issued: nat, q: Query)
    requires CallbacksOk(cbs, qs, issued)
    ensures CallbacksOk(cbs, qs[issued := q], issued + 1)
  {
  }

  lemma QueryChanged(cbs: seq<Callback>, qs: Queries, issued: nat, h: Handle, q: Query)
    requires CallbacksOk(cbs, qs, issued) && h in qs
    ensures CallbacksOk(cbs, qs[h := q], issued)
  {
  }

  lemma NoCallbacks(cbs: seq<Callback>, qs: Queries)
    requires cbs == [] && qs == map[]
    ensures CallbacksOk(cbs, qs, 0)
  {
    var owners := Owners(cbs);
    forall h: Handle ensures h !in owners {}
  }

  /** The effort of every query ever issued is bounded: one TCP upgrade and one EDNS fallback on top of the attempts. */
  ghost predicate EffortOk(effort: map<Handle, Effort>, issued: nat, cfg: Config) {
    && (forall h: Handle :: h in effort <==> h < issued)
    && (forall h: Handle :: h in effort ==>
          && effort[h].upgrades <= 1 && effort[h].fallbacks <= 1
          && effort[h].sends <= Attempts(cfg) + effort[h].upgrades + effort[h].fallbacks)
  }

  /** A live query between two events. */
  ghost predicate QueryOk(q: Query, first: nat, e: Effort, cfg: Config, edns: bool) {
    && q.server < cfg.nservers && |q.info| == cfg.nservers
    && q.server == (first + q.tryCount) % cfg.nservers
    && q.tryCount < Attempts(cfg)
    && |q.packet| >= 1
    && e.upgrades <= (if q.usingTcp then 1 else 0)
    && e.fallbacks <= (if edns then 0 else 1)
  }

  /** Once sent, a query waits for a server that it has not given up on, with a timeout that is still ahead. */
  ghost predicate Settled(q: Query, e: Effort, lastTimeout: int) {
    && q.server < |q.info| && !q.info[q.server].skip
    && e.sends <= q.tryCount + 1 + e.upgrades + e.fallbacks
    && lastTimeout <= q.timeout.sec && Normal(q.timeout)
  }

  /** Every live query is in order, except for those in flux. */
  ghost predicate Sound(qs: Queries, flux: set<Handle>, first: map<Handle, nat>, effort: map<Handle, Effort>,
                        cfg: Config, edns: bool, lastTimeout: int)
  {
    && (forall h :: h in qs ==> h in first && h in effort)
    && (forall h :: h in qs && h !in flux ==>
          QueryOk(qs[h], first[h], effort[h], cfg, edns) && Settled(qs[h], effort[h], lastTimeout))
  }

  lemma SoundChange(qs: Queries, flux: set<Handle>, first: map<Handle, nat>, effort: map<Handle, Effort>,
                    cfg: Config, edns: bool, lastTimeout: int, h: Handle, q: Query, e: Effort)
    requires Sound(qs, flux, first, effort, cfg, edns, lastTimeout) && flux <= {h} && h in qs
    ensures h in first && h in effort
    ensures Sound(qs[h := q], {h}, first, effort[h := e], cfg, edns, lastTimeout)
    ensures effort[h := effort[h]] == effort && qs[h := qs[h]] == qs
  {
  }

  lemma SoundSettle(qs: Queries, first: map<Handle, nat>, effort: map<Handle, Effort>,
                    cfg: Config, edns: bool, lastTimeout: int, h: Handle, q: Query)
    requires Sound(qs, {h}, first, effort, cfg, edns, lastTimeout) && h in qs
    requires h in first && h in effort && QueryOk(q, first[h], effort[h], cfg, edns) && Settled(q, effort[h], lastTimeout)
    ensures Sound(qs[h := q], {}, first, effort, cfg, edns, lastTimeout)
  {
  }

  lemma SoundDrop(qs: Queries, flux: set<Handle>, first: map<Handle, nat>, effort: map<Handle, Effort>,
                  cfg: Config, edns: bool, lastTimeout: int, h: Handle)
    requires Sound(qs, flux, first, effort, cfg, edns, lastTimeout) && flux <= {h}
    ensures Sound(qs - {h}, {}, first, effort, cfg, edns, lastTimeout)
  {
  }

  lemma SoundGet(qs: Queries, flux: set<Handle>, first: map<Handle, nat>, effort: map<Handle, Effort>,
                 cfg: Config, edns: bool, lastTimeout: int, h: Handle)
    requires Sound(qs, flux, first, effort, cfg, edns, lastTimeout) && h in qs
    ensures h in first && h in effort
    ensures h !in flux ==> QueryOk(qs[h], first[h], effort[h], cfg, edns) && Settled(qs[h], effort[h], lastTimeout)
  {
  }

  lemma SoundNew(qs: Queries, first: map<Handle, nat>, effort: map<Handle, Effort>, cfg: Config, edns: bool, lastTimeout: int,
                 h: Handle, q: Query, f: nat, e: Effort)
    requires Sound(qs, {}, first, effort, cfg, edns, lastTimeout) && h !in qs
    ensures Sound(qs[h := q], {h}, first[h := f], effort[h := e], cfg, edns, lastTimeout)
  {
  }

  /** Once EDNS is off, it stays off, and no query has fallen back more than once. */
  lemma SoundEdnsOff(qs: Queries, first: map<Handle, nat>, effort: map<Handle, Effort>, cfg: Config, edns: bool, lastTimeout: int)
    requires Sound(qs, {}, first, effort, cfg, edns, lastTimeout)
    ensures Sound(qs, {}, first, effort, cfg, false, lastTimeout)
  {
  }

  /** What resending may change in a query. */
  ghost predicate Resent(q: Query, q': Query, now: Time, cfg: Config) {
    && q'.qid == q.qid && q'.packet == q.packet && q'.usingTcp == q.usingTcp
    && q'.errorStatus == q.errorStatus && q'.timeouts == q.timeouts
    && q.tryCount <= q'.tryCount < Attempts(cfg)
    && 0 < cfg.nservers && 0 < cfg.timeout <= INT_MAX
    && q'.timeout == TimeAdd(now, Backoff(cfg.timeout, q'.tryCount / cfg.nservers))
    && |q'.info| == |q.info| && q'.server < |q'.info| && !q'.info[q'.server].skip
    && forall i :: 0 <= i < |q.info| && q.info[i].skip ==> q'.info[i].skip
  }

  function Skip(q: Query, server: nat, cfg: Config): Query
    requires server < |q.info|
  {
    if cfg.nservers > 1 then q.(info := q.info[server := q.info[server].(skip := true)]) else q
  }

  lemma ResentFrom(q: Query, mid: Query, q': Query, now: Time, cfg: Config)
    requires mid.(tryCount := q.tryCount, server := q.server, info := q.info) == q && q.tryCount <= mid.tryCount
    requires |mid.info| == |q.info| && forall i :: 0 <= i < |q.info| && q.info[i].skip ==> mid.info[i].skip
    ensures Resent(mid, q', now, cfg) ==> Resent(q, q', now, cfg) && mid.tryCount <= q'.tryCount
  {
  }

  lemma ResentKeeps(q: Query, q': Query, now: Time, cfg: Config)
    requires Resent(q, q', now, cfg)
    ensures q'.qid == q.qid && q'.packet == q.packet && q'.usingTcp == q.usingTcp
    ensures q'.errorStatus == q.errorStatus && q'.timeouts == q.timeouts && q.tryCount <= q'.tryCount
  {
  }

  lemma ResentIsAhead(q: Query, q': Query, now: Time, cfg: Config)
    requires Resent(q, q', now, cfg) && Normal(now)
    ensures !TimedOutAt(now, q'.timeout)
  {
    BackoffIsExact(cfg.timeout, q'.tryCount / cfg.nservers);
    TimeAddIsLater(now, Backoff(cfg.timeout, q'.tryCount / cfg.nservers));
  }

  /** What end_query does to the requests that a query still has queued at a server. */
  function Orphaned(s: Server, h: Handle, status: Status): Server {
    var owned := exists i :: 0 <= i < |s.queue| && s.queue[i].owner == Some(h);
    s.(queue := seq(|s.queue|, i requires 0 <= i < |s.queue| =>
                  if s.queue[i].owner != Some(h) then s.queue[i]
                  else SendReq(None, if status == Success then s.queue[i].data else [])),
       isBroken := s.isBroken || (owned && status != Success))
  }

  predicate Owns(s: Server, h: Handle) {
    exists i :: 0 <= i < |s.queue| && s.queue[i].owner == Some(h)
  }

  /**
   * No request belongs to the query any more; those that did have kept their data on success
   * only, and else the connection counts as broken; nothing else changes.
   */
  lemma OrphanedExactly(s: Server, h: Handle, status: Status)
    ensures var t := Orphaned(s, h, status);
            && !Owns(t, h) && |t.queue| == |s.queue|
            && (forall i :: 0 <= i < |s.queue| && s.queue[i].owner != Some(h) ==> t.queue[i] == s.queue[i])
            && (forall i :: 0 <= i < |s.queue| && s.queue[i].owner == Some(h) ==>
                  t.queue[i].data == if status == Success then s.queue[i].data else [])
            && (t.isBroken <==> s.isBroken || (Owns(s, h) && status != Success))
            && t == s.(queue := t.queue, isBroken := t.isBroken)
  {
    var t := Orphaned(s, h, status);
    assert forall i :: 0 <= i < |t.queue| ==> t.queue[i].owner != Some(h);
  }

  function Closed(s: Server, generation: int): Server {
    Server(false, false, if s.tcpOpen then generation else s.generation, false, [])
  }

  /** QueryOk looks at no more of a query than this. */
  lemma QueryOkFrame(q: Query, q': Query, first: nat, e: Effort, e': Effort, cfg: Config, edns: bool)
    requires QueryOk(q, first, e, cfg, edns)
    requires q'.server == q.server && q'.tryCount == q.tryCount && |q'.info| == |q.info|
    requires q'.packet == q.packet && q'.usingTcp == q.usingTcp
    requires e'.upgrades == e.upgrades && e'.fallbacks == e.fallbacks
    ensures QueryOk(q', first, e', cfg, edns)
  {
  }

  lemma QueryOkNext(q: Query, first: nat, e: Effort, cfg: Config, edns: bool)
    requires QueryOk(q, first, e, cfg, edns) && q.tryCount + 1 < cfg.nservers * cfg.tries
    ensures cfg.nservers > 0
    ensures QueryOk(q.(tryCount := q.tryCount + 1, server := (q.server + 1) % cfg.nservers), first, e, cfg, edns)
  {
    NextServerIs(first, q.tryCount, q.server, cfg.nservers);
  }

  lemma NextServerIs(first: nat, tryCount: nat, server: nat, n: nat)
    requires n > 0 && server == (first + tryCount) % n
    ensures (server + 1) % n == (first + (tryCount + 1)) % n
  {
    var x := first + tryCount;
    assert x == x / n * n + server;
    if server + 1 < n {
      ModIs(x + 1, x / n, server + 1, n);
    } else {
      ModIs(x + 1, x / n + 1, 0, n);
      ModIs(server + 1, 1, 0, n);
    }
  }

  lemma ModIs(x: int, k: int, r: int, n: int)
    requires n > 0 && 0 <= r < n && x == k * n + r
    ensures x % n == r
  {
    var k', r' := x / n, x % n;
    assert x == k' * n + r';
    assert (k' - k) * n == r - r';
    if k' > k {
      MulNotLess(k' - k, 1, n);
    } else if k' < k {
      assert (k - k') * n == r' - r;
      MulNotLess(k - k', 1, n);
    }
  }

  /** The query that ares_send makes of a packet. */
  function Fresh(packet: seq<Byte>, server: nat, cfg: Config, edns: bool): Query
    requires |packet| >= 2
  {
    var packetsz := if edns then cfg.ednspsz else PACKETSZ;
    Query(QidOf(packet), Time(0, 0), packet, 0, server,
          seq(cfg.nservers, _ => Info(false, 0)), cfg.useVc || |packet| > packetsz, ConnRefused, 0)
  }

  /** A clock reading that is not earlier than the last. */
  predicate Follows(now: Time, before: Time) {
    Normal(now) && Micros(before) <= Micros(now)
  }

  lemma FollowsSec(now: Time, before: Time)
    requires Follows(now, before) && Normal(before)
    ensures before.sec <= now.sec && Normal(now)
  {
  }

  // ---------------------------------------------------------------------
  // Which attempts are made.

  /** Attempt t at a query that began at server `first` may be made: its server is not broken, skipped, or already reached over this connection. */
  ghost predicate Open(q: Query, first: nat, t: nat, servers: seq<Server>) {
    && |servers| == |q.info| > 0
    && var i := (first + t) % |servers|;
       !servers[i].isBroken && !q.info[i].skip && !(q.usingTcp && q.info[i].generation == servers[i].generation)
  }

  /** With several servers, one that an earlier attempt has failed at is not asked again. */
  ghost predicate Failed(made: set<nat>, first: nat, t: nat, n: nat) {
    n > 1 && exists u <- made :: u < t && (first + u) % n == (first + t) % n
  }

  /**
   * The attempts that were made at q, from a number on. Below upto none was left out
   * that was open, unless an earlier one had failed at the same server.
   */
  ghost predicate Pursued(made: set<nat>, q: Query, first: nat, from: nat, upto: int, servers: seq<Server>) {
    && (forall t <- made :: from <= t && (t == q.tryCount || Open(q, first, t, servers)))
    && (forall t: nat :: from <= t < upto ==> t in made || !Open(q, first, t, servers) || Failed(made, first, t, |servers|))
  }

  /** next_server has passed over the attempts between the last one and the next open one. */
  lemma PursuedNext(made: set<nat>, q: Query, q': Query, first: nat, upto: int, servers: seq<Server>)
    requires q'.(tryCount := q.tryCount, server := q.server) == q && q.tryCount < q'.tryCount
    requires forall t :: q.tryCount < t < q'.tryCount ==> !Open(q, first, t, servers)
    requires Open(q, first, q'.tryCount, servers)
    requires Pursued(made, q', first, q'.tryCount, upto, servers)
    ensures Pursued(made, q, first, q.tryCount + 1, upto, servers)
  {
    hide Failed;
    assert forall t: nat :: Open(q', first, t, servers) <==> Open(q, first, t, servers);
  }

  /** Nothing was open any more. */
  lemma PursuedNowhere(q: Query, first: nat, upto: int, servers: seq<Server>)
    requires forall t :: q.tryCount < t < upto ==> !Open(q, first, t, servers)
    ensures Pursued({}, q, first, q.tryCount + 1, upto, servers)
  {
  }

  lemma PursuedOnce(q: Query, first: nat, servers: seq<Server>)
    ensures Pursued({q.tryCount}, q, first, q.tryCount, q.tryCount, servers)
  {
  }

  /** An attempt has failed, and others were made after it. */
  lemma PursuedAfterFailure(made: set<nat>, q: Query, first: nat, upto: int, servers: seq<Server>, servers': seq<Server>, cfg: Config)
    requires |servers'| == |servers| == |q.info| == cfg.nservers && q.server < |q.info|
    requires q.server == (first + q.tryCount) % cfg.nservers
    requires forall i :: 0 <= i < |servers| ==> servers'[i].isBroken == servers[i].isBroken && servers'[i].generation == servers[i].generation
    requires Pursued(made, Skip(q, q.server, cfg), first, q.tryCount + 1, upto, servers')
    ensures Pursued({q.tryCount} + made, q, first, q.tryCount, upto, servers)
    ensures |{q.tryCount} + made| == 1 + |made|
  {
    var q', all := Skip(q, q.server, cfg), {q.tryCount} + made;
    assert q.tryCount !in made;
    forall t: nat
      ensures Open(q', first, t, servers') ==> Open(q, first, t, servers)
      ensures Open(q, first, t, servers) && !Open(q', first, t, servers') ==> cfg.nservers > 1 && (first + t) % cfg.nservers == q.server
    {
    }
    forall t: nat | q.tryCount <= t < upto
      ensures t in all || !Open(q, first, t, servers) || Failed(all, first, t, |servers|)
    {
      if t > q.tryCount && Open(q, first, t, servers) && !Open(q', first, t, servers') {
        assert q.tryCount in all;
      } else if Failed(made, first, t, |servers|) {
        var u :| u in made && u < t && (first + u) % cfg.nservers == (first + t) % cfg.nservers;
        assert u in all;
      }
    }
  }

  /**
   * What the turn of one query may do to the servers: a connection stays open and a
   * broken server stays broken unless that was the last query, and a server breaks only
   * if the query has ended.
   */
  ghost predicate ServersKept(servers: seq<Server>, servers': seq<Server>, ended: bool, last: bool) {
    && |servers'| == |servers|
    && forall i :: 0 <= i < |servers| ==>
         && (servers[i].isBroken ==> servers'[i].isBroken || last)
         && (servers'[i].isBroken ==> servers[i].isBroken || ended)
         && (servers[i].tcpOpen ==> last || (servers'[i].tcpOpen && servers'[i].generation == servers[i].generation))
  }

  lemma KeptAnyway(a: seq<Server>, b: seq<Server>, last: bool)
    requires ServersKept(a, b, false, false)
    ensures ServersKept(a, b, false, last)
  {
  }

  lemma KeptOn(a: seq<Server>, b: seq<Server>, c: seq<Server>, ended: bool, last: bool)
    requires ServersKept(a, b, false, false) && ServersKept(b, c, ended, last)
    ensures ServersKept(a, c, ended, last)
  {
  }

  /** The servers when the turn of a query comes, after others have ended in the same event. */
  ghost predicate Stood(servers0: seq<Server>, servers: seq<Server>, ended: set<Handle>) {
    && |servers| == |servers0|
    && forall i :: 0 <= i < |servers0| ==>
         && (servers0[i].isBroken ==> servers[i].isBroken)
         && (servers[i].isBroken ==> servers0[i].isBroken || ended != {})
         && (servers0[i].tcpOpen ==> servers[i].tcpOpen && servers[i].generation == servers0[i].generation)
  }

  /** A query's turn in an event: the attempts made, the servers as they stood then, and the queries that had ended in the event before. */
  datatype Turn = Turn(made: set<nat>, servers: seq<Server>, ended: set<Handle>)

  datatype Moment = Moment(queries: Queries, servers: seq<Server>, effort: map<Handle, Effort>)

  ghost function TurnOf(made: set<nat>, m0: Moment, m: Moment): Turn {
    Turn(made, m.servers, m0.queries.Keys - m.queries.Keys)
  }

  /** Query q, as it was given up, has been pursued; it ends only with no attempt left up to nservers * tries. */
  ghost predicate TurnTaken(turn: Turn, h: Handle, q: Query, first: nat, qs: Queries, servers0: seq<Server>, cfg: Config) {
    && Stood(servers0, turn.servers, turn.ended)
    && (h in qs ==> qs[h].tryCount in turn.made)
    && Pursued(turn.made, q, first, q.tryCount + 1, if h in qs then qs[h].tryCount else cfg.nservers * cfg.tries, turn.servers)
  }

  /** Before a query's turn only such queries have ended as had theirs before. */
  ghost predicate InOrder(turns: map<Handle, Turn>, gone: set<Handle>) {
    && (forall h <- turns :: turns[h].ended <= gone && h !in turns[h].ended)
    && (forall h, k :: h in turns && k in turns[h].ended ==> k in turns && turns[k].ended < turns[h].ended)
  }

  ghost predicate AllTaken(turns: map<Handle, Turn>, m0: Moment, given: map<Handle, Query>, m: Moment, first: map<Handle, nat>, cfg: Config) {
    forall h <- turns ::
      && h in given && h in first && h in m0.effort && h in m.effort
      && TurnTaken(turns[h], h, given[h], first[h], m.queries, m0.servers, cfg)
      && m.effort[h].sends == m0.effort[h].sends + |turns[h].made|
  }

  ghost predicate OthersWait(turns: map<Handle, Turn>, m0: Moment, m: Moment) {
    forall h :: h in m0.queries && h !in turns ==>
      h in m.queries && m.queries[h] == m0.queries[h] && h in m0.effort && h in m.effort && m.effort[h] == m0.effort[h]
  }

  /** An event that has begun at m0 and has to move the given queries has come to m. */
  ghost predicate Turning(turns: map<Handle, Turn>, m0: Moment, given: map<Handle, Query>, m: Moment, first: map<Handle, nat>, cfg: Config) {
    && turns.Keys <= given.Keys && m.queries.Keys <= m0.queries.Keys
    && AllTaken(turns, m0, given, m, first, cfg) && OthersWait(turns, m0, m)
    && InOrder(turns, m0.queries.Keys - m.queries.Keys)
    && (m.queries == map[] || Stood(m0.servers, m.servers, m0.queries.Keys - m.queries.Keys))
  }

  /** All of them have had their turns. */
  ghost predicate Turned(turns: map<Handle, Turn>, m0: Moment, given: map<Handle, Query>, m: Moment, first: map<Handle, nat>, cfg: Config) {
    Turning(turns, m0, given, m, first, cfg) && turns.Keys == given.Keys
  }

  lemma StoodStill(servers: seq<Server>)
    ensures Stood(servers, servers, {})
  {
  }

  lemma StoodOn(servers0: seq<Server>, servers: seq<Server>, servers': seq<Server>, ended: set<Handle>, h: Handle, gone: bool)
    requires Stood(servers0, servers, ended) && ServersKept(servers, servers', gone, false)
    ensures Stood(servers0, servers', if gone then ended + {h} else ended)
  {
  }

  lemma TurningStarts(m0: Moment, given: map<Handle, Query>, m: Moment, first: map<Handle, nat>, cfg: Config)
    requires m == m0.(servers := m.servers) && given.Keys <= m0.queries.Keys && Stood(m0.servers, m.servers, {})
    requires forall h :: h in m0.queries ==> h in m0.effort
    ensures Turning(map[], m0, given, m, first, cfg)
  {
    assert m0.queries.Keys - m.queries.Keys == {};
  }

  lemma NotYetTurned(turns: map<Handle, Turn>, m0: Moment, given: map<Handle, Query>, m: Moment, first: map<Handle, nat>, cfg: Config, h: Handle)
    requires Turning(turns, m0, given, m, first, cfg)
    requires h in m.queries && h in given && m.queries[h].tryCount == given[h].tryCount
    ensures h !in turns
  {
    hide InOrder, OthersWait, Stood;
  }

  lemma InOrderStep(turns: map<Handle, Turn>, gone: set<Handle>, h: Handle, turn: Turn, gone': set<Handle>)
    requires InOrder(turns, gone) && h !in turns && turn.ended == gone && h !in gone && gone <= turns.Keys && gone <= gone'
    ensures InOrder(turns[h := turn], gone')
  {
  }

  lemma PursuedSame(made: set<nat>, q: Query, q': Query, first: nat, upto: int, servers: seq<Server>)
    requires Pursued(made, q, first, q.tryCount + 1, upto, servers)
    requires q'.tryCount == q.tryCount && q'.info == q.info && q'.usingTcp == q.usingTcp
    ensures Pursued(made, q', first, q'.tryCount + 1, upto, servers)
  {
    hide Failed;
    assert forall t: nat :: Open(q', first, t, servers) <==> Open(q, first, t, servers);
  }

  /** The turn of query h, which is given up as q. */
  lemma TurningStep(turns: map<Handle, Turn>, m0: Moment, given: map<Handle, Query>, m: Moment, m': Moment, first: map<Handle, nat>,
                    cfg: Config, h: Handle, q: Query, made: set<nat>)
    requires Turning(turns, m0, given, m, first, cfg)
    requires h in m.queries && h in given && h !in turns && h in first
    requires q.tryCount == given[h].tryCount && q.info == given[h].info && q.usingTcp == given[h].usingTcp
    requires h in m'.queries ==> m'.queries == m.queries[h := m'.queries[h]] && m'.queries[h].tryCount in made
    requires h !in m'.queries ==> m'.queries == m.queries - {h}
    requires h in m.effort && h in m'.effort && m'.effort == m.effort[h := m'.effort[h]]
    requires m'.effort[h].sends == m.effort[h].sends + |made|
    requires Pursued(made, q, first[h], q.tryCount + 1, if h in m'.queries then m'.queries[h].tryCount else cfg.nservers * cfg.tries, m.servers)
    requires ServersKept(m.servers, m'.servers, h !in m'.queries, m'.queries == map[])
    ensures Turning(turns[h := TurnOf(made, m0, m)], m0, given, m', first, cfg)
  {
    var gone, gone' := m0.queries.Keys - m.queries.Keys, m0.queries.Keys - m'.queries.Keys;
    assert gone' == if h in m'.queries then gone else gone + {h};
    assert gone <= turns.Keys by {
      hide AllTaken, InOrder, Stood, Pursued, ServersKept;
    }
    var upto := if h in m'.queries then m'.queries[h].tryCount else cfg.nservers * cfg.tries;
    PursuedSame(made, q, given[h], first[h], upto, m.servers);
    InOrderStep(turns, gone, h, TurnOf(made, m0, m), gone');
    if m'.queries != map[] {
      StoodOn(m0.servers, m.servers, m'.servers, gone, h, h !in m'.queries);
    }
    hide Pursued, Stood, ServersKept, InOrder;
    AllTakenStep(turns, m0, given, m, m', first, cfg, h, made);
    OthersWaitStep(turns, m0, m, m', h, TurnOf(made, m0, m));
  }

  lemma AllTakenStep(turns: map<Handle, Turn>, m0: Moment, given: map<Handle, Query>, m: Moment, m': Moment, first: map<Handle, nat>,
                     cfg: Config, h: Handle, made: set<nat>)
    requires AllTaken(turns, m0, given, m, first, cfg)
    requires h in given && h in m0.effort && h !in turns && h in first && h in m'.effort && m'.effort == m.effort[h := m'.effort[h]]
    requires m'.effort[h].sends == m0.effort[h].sends + |made|
    requires h in m'.queries ==> m'.queries == m.queries[h := m'.queries[h]]
    requires h !in m'.queries ==> m'.queries == m.queries - {h}
    requires TurnTaken(TurnOf(made, m0, m), h, given[h], first[h], m'.queries, m0.servers, cfg)
    ensures AllTaken(turns[h := TurnOf(made, m0, m)], m0, given, m', first, cfg)
  {
    hide Pursued, Stood, OthersWait;
  }

  lemma OthersWaitStep(turns: map<Handle, Turn>, m0: Moment, m: Moment, m': Moment, h: Handle, turn: Turn)
    requires OthersWait(turns, m0, m) && h in m'.effort && m'.effort == m.effort[h := m'.effort[h]]
    requires h in m'.queries ==> m'.queries == m.queries[h := m'.queries[h]]
    requires h !in m'.queries ==> m'.queries == m.queries - {h}
    ensures OthersWait(turns[h := turn], m0, m')
  {
  }

  class Channel {
    const cfg: Config
    var edns: bool
    var servers: seq<Server>
    var tcpGeneration: int
    var queries: Queries
    var links: Links
    var lastTimeoutProcessed: int
    var lastServer: nat

    /** Handles below this mark have been given out. */
    var issued: nat
    ghost var callbacks: seq<Callback>
    ghost var effort: map<Handle, Effort>
    /** The server that each query was first sent to. */
    ghost var first: map<Handle, nat>
    ghost var clock: Time

    ghost predicate Inv(flux: set<Handle>)
      reads this
    {
      && 0 < cfg.timeout <= INT_MAX
      && |servers| == cfg.nservers && (cfg.nservers > 0 ==> lastServer < cfg.nservers)
      && Indexed(queries, links, cfg.nservers, flux)
      && CallbacksOk(callbacks, queries, issued)
      && EffortOk(effort, issued, cfg)
      && Normal(clock) && 1 <= lastTimeoutProcessed <= clock.sec
      && Sound(queries, flux, first, effort, cfg, edns, lastTimeoutProcessed)
    }

    /** The state between calls. */
    ghost predicate Valid()
      reads this
    {
      Inv({}) && links.stolen == [] && links.stolenAll == []
    }

    constructor (cfg: Config, edns: bool, now: Time)
      requires 0 < cfg.timeout <= INT_MAX && Normal(now) && 1 <= now.sec
      ensures Valid() && this.cfg == cfg && this.edns == edns && clock == now
      ensures queries == map[] && issued == 0 && callbacks == []
    {
      this.cfg := cfg;
      this.edns := edns;
      servers := seq(cfg.nservers, i => Server(false, false, i + 1, false, []));
      tcpGeneration := cfg.nservers;
      queries := map[];
      links := Links([], [], seq(QID_TABLE_SIZE, _ => []), seq(TIMEOUT_TABLE_SIZE, _ => []), seq(cfg.nservers, _ => []), []);
      lastTimeoutProcessed := now.sec;
      lastServer := 0;
      issued, callbacks, effort, first, clock := 0, [], map[], map[], now;
      new;
      NoCallbacks(callbacks, queries);
    }

    /** Nothing but query h, its links, its servers' sockets and queues, and its bookkeeping has changed. */
    twostate predicate OnlyAbout(h: Handle)
      reads this
    {
      && edns == old(edns) && lastTimeoutProcessed == old(lastTimeoutProcessed) && lastServer == old(lastServer)
      && issued == old(issued) && first == old(first) && clock == old(clock)
      && h in old(effort) && h in effort
      && effort == old(effort)[h := effort[h]]
      && effort[h].upgrades == old(effort[h].upgrades) && effort[h].fallbacks == old(effort[h].fallbacks)
    }

    /** Query h has either been sent again or has ended in its error. */
    twostate predicate Dispatched(h: Handle, now: Time)
      reads this
    {
      && OnlyAbout(h) && h in old(queries)
      && (h in queries ==>
            && queries == old(queries)[h := queries[h]]
            && queries[h].server < |old(links.toServer)| && |old(links.byTimeout)| == TIMEOUT_TABLE_SIZE
            && links == Relink(old(links), h, queries[h].timeout.sec % TIMEOUT_TABLE_SIZE, queries[h].server)
            && callbacks == old(callbacks)
            && Resent(old(queries[h]), queries[h], now, cfg))
      && (h !in queries ==>
            && queries == old(queries) - {h}
            && links == Unlink(old(links), h)
            && callbacks == old(callbacks) + [Callback(h, old(queries[h]).errorStatus, old(queries[h]).timeouts)])
    }

    /** These attempts have been made at query h; it has either been sent in the last of them, or has none left. */
    twostate predicate Persisted(h: Handle, from: nat, made: set<nat>)
      reads this
    {
      && h in old(queries) && h in old(effort) && h in effort && h in old(first)
      && effort[h].sends == old(effort)[h].sends + |made|
      && (h in queries ==> queries[h].tryCount in made)
      && Pursued(made, old(queries)[h], old(first)[h], from,
                 if h in queries then queries[h].tryCount else cfg.nservers * cfg.tries, old(servers))
    }

    /** What has happened to the servers in the turn of query h. */
    twostate predicate Kept(h: Handle)
      reads this
    {
      ServersKept(old(servers), servers, h !in queries, links.all == [])
    }

    /** ares__close_sockets */
    method CloseSockets(i: nat)
      requires i < |servers|
      modifies this`servers, this`tcpGeneration
      ensures |servers| == |old(servers)|
      ensures servers[i] == Closed(old(servers[i]), tcpGeneration)
      ensures servers[i].queue == [] && !servers[i].udpOpen && !servers[i].tcpOpen && !servers[i].isBroken
      ensures servers[i].generation == if old(servers[i].tcpOpen) then tcpGeneration else old(servers[i].generation)
      ensures tcpGeneration == old(tcpGeneration) + if old(servers[i].tcpOpen) then 1 else 0
      ensures forall j :: 0 <= j < |servers| && j != i ==> servers[j] == old(servers[j])
    {
      var s := servers[i];
      s := s.(queue := [], isBroken := false);
      if s.tcpOpen {
        tcpGeneration := tcpGeneration + 1;
        s := s.(tcpOpen := false, generation := tcpGeneration);
      }
      if s.udpOpen {
        s := s.(udpOpen := false);
      }
      servers := servers[i := s];
    }

    method CloseAllSockets()
      modifies this`servers, this`tcpGeneration
      ensures |servers| == |old(servers)|
      ensures forall i :: 0 <= i < |servers| ==>
                !servers[i].udpOpen && !servers[i].tcpOpen && !servers[i].isBroken && servers[i].queue == []
    {
      for i := 0 to |servers|
        invariant |servers| == |old(servers)|
        invariant forall j :: 0 <= j < i ==>
                    !servers[j].udpOpen && !servers[j].tcpOpen && !servers[j].isBroken && servers[j].queue == []
      {
        CloseSockets(i);
      }
    }

    /** ares__free_query, after the callback */
    method FreeQuery(h: Handle, status: Status, timeouts: nat, abuf: seq<Byte> := [], alen: int := 0)
      requires h in queries && (Inv({h}) || Inv({}))
      modifies this`queries, this`links, this`callbacks
      ensures Inv({})
      ensures queries == old(queries) - {h} && links == Unlink(old(links), h)
      ensures callbacks == old(callbacks) + [Callback(h, status, timeouts, abuf, alen)]
    {
      hide Indexed, CallbacksOk, EffortOk, Sound, Unlink;
      SoundDrop(queries, if Inv({}) then {} else {h}, first, effort, cfg, edns, lastTimeoutProcessed, h);
      UnlinkKeeps(queries, links, cfg.nservers, h);
      CallbackMade(callbacks, queries, issued, Callback(h, status, timeouts, abuf, alen));
      callbacks := callbacks + [Callback(h, status, timeouts, abuf, alen)];
      links := Unlink(links, h);
      queries := queries - {h};
    }

    /** end_query */
    method EndQuery(h: Handle, status: Status, abuf: seq<Byte> := [], alen: int := 0)
      requires h in queries && (Inv({h}) || Inv({}))
      modifies this`queries, this`links, this`callbacks, this`servers, this`tcpGeneration
      ensures Inv({})
      ensures queries == old(queries) - {h} && links == Unlink(old(links), h)
      ensures callbacks == old(callbacks) + [Callback(h, status, old(queries[h]).timeouts, abuf, alen)]
      ensures if cfg.stayOpen || links.all != []
              then forall i :: 0 <= i < |servers| ==> servers[i] == Orphaned(old(servers[i]), h, status)
              else forall i :: 0 <= i < |servers| ==>
                     !servers[i].udpOpen && !servers[i].tcpOpen && !servers[i].isBroken && servers[i].queue == []
      ensures Kept(h)
    {
      hide Indexed, CallbacksOk, EffortOk, Sound, Orphaned;
      OrphanedKeepsServers(h, status);
      for i := 0 to |servers|
        invariant |servers| == |old(servers)|
        invariant forall j :: 0 <= j < i ==> servers[j] == Orphaned(old(servers[j]), h, status)
        invariant forall j :: i <= j < |servers| ==> servers[j] == old(servers[j])
        modifies this`servers
      {
        servers := servers[i := Orphaned(servers[i], h, status)];
      }
      FreeQuery(h, status, queries[h].timeouts, abuf, alen);
      if !cfg.stayOpen && links.all == [] {
        CloseAllSockets();
      }
    }

    lemma OrphanedKeepsServers(h: Handle, status: Status)
      ensures forall i :: 0 <= i < |servers| ==>
                var s := Orphaned(servers[i], h, status);
                && (servers[i].isBroken ==> s.isBroken)
                && s.tcpOpen == servers[i].tcpOpen && s.generation == servers[i].generation
    {
    }

    /** Changes query h while it is in flux. */
    method Update(h: Handle, q: Query)
      requires h in queries && (Inv({h}) || Inv({})) && q.qid == queries[h].qid
      modifies this`queries
      ensures Inv({h}) && queries == old(queries)[h := q]
    {
      hide Indexed, CallbacksOk, EffortOk, Sound;
      SoundGet(queries, if Inv({}) then {} else {h}, first, effort, cfg, edns, lastTimeoutProcessed, h);
      SoundChange(queries, if Inv({}) then {} else {h}, first, effort, cfg, edns, lastTimeoutProcessed, h, q, effort[h]);
      FluxKeeps(queries, links, cfg.nservers, h, q);
      QueryChanged(callbacks, queries, issued, h, q);
      queries := queries[h := q];
    }

    /** May query q go to the server it is at? Not if that is broken, skipped, or already reached over this connection. */
    predicate Eligible(q: Query)
      reads this
      requires q.server < |servers| && q.server < |q.info|
    {
      && !servers[q.server].isBroken
      && !q.info[q.server].skip
      && !(q.usingTcp && q.info[q.server].generation == servers[q.server].generation)
    }

    /** The loop of next_server: on to the next eligible server, as long as there are attempts left. */
    method Advance(h: Handle) returns (q: Query, found: bool)
      requires h in queries && |servers| == cfg.nservers && h in first && h in effort
      requires QueryOk(queries[h], first[h], effort[h], cfg, edns)
      ensures q.(tryCount := queries[h].tryCount, server := queries[h].server) == queries[h]
      ensures found ==>
                && QueryOk(q, first[h], effort[h], cfg, edns)
                && queries[h].tryCount < q.tryCount < cfg.nservers * cfg.tries
                && q.server < cfg.nservers == |q.info| && Eligible(q)
                && !servers[q.server].isBroken && !q.info[q.server].skip
                && (q.usingTcp ==> q.info[q.server].generation != servers[q.server].generation)
                && Open(queries[h], first[h], q.tryCount, servers)
                && forall t :: queries[h].tryCount < t < q.tryCount ==> !Open(queries[h], first[h], t, servers)
      ensures !found ==> q.tryCount == Max(queries[h].tryCount + 1, cfg.nservers * cfg.tries)
      ensures !found ==> forall t :: queries[h].tryCount < t < cfg.nservers * cfg.tries ==> !Open(queries[h], first[h], t, servers)
    {
      hide QueryOk, Open;
      QueryOkBounds(h);
      q := queries[h];
      while true
        invariant q.(tryCount := queries[h].tryCount, server := queries[h].server) == queries[h]
        invariant QueryOk(q, first[h], effort[h], cfg, edns)
        invariant queries[h].tryCount <= q.tryCount < Attempts(cfg)
        invariant queries[h].tryCount < q.tryCount ==> q.tryCount < cfg.nservers * cfg.tries
        invariant q.server < cfg.nservers == |q.info|
        invariant forall t :: queries[h].tryCount < t <= q.tryCount ==> !Open(queries[h], first[h], t, servers)
        decreases Attempts(cfg) - q.tryCount
      {
        ghost var before := q;
        q := q.(tryCount := q.tryCount + 1);
        if q.tryCount >= cfg.nservers * cfg.tries {
          return q, false;
        }
        QueryOkNext(before, first[h], effort[h], cfg, edns);
        q := q.(server := (q.server + 1) % cfg.nservers);
        EligibleIsOpen(h, q);
        if Eligible(q) {
          return q, true;
        }
      }
    }

    lemma EligibleIsOpen(h: Handle, q: Query)
      requires h in queries && |servers| == cfg.nservers && h in first && h in effort
      requires QueryOk(q, first[h], effort[h], cfg, edns) && q.(tryCount := queries[h].tryCount, server := queries[h].server) == queries[h]
      ensures q.server < cfg.nservers == |q.info| && (Eligible(q) <==> Open(queries[h], first[h], q.tryCount, servers))
    {
    }

    /** next_server: every server is tried `tries` times, except where it is not eligible, until the query is out. */
    method NextServer(h: Handle, now: Time) returns (ghost made: set<nat>)
      requires h in queries && Inv({h}) && h in first && h in effort
      requires QueryOk(queries[h], first[h], effort[h], cfg, edns)
      requires effort[h].sends <= queries[h].tryCount + 1 + effort[h].upgrades + effort[h].fallbacks
      requires Normal(now) && lastTimeoutProcessed <= now.sec
      modifies this
      ensures Inv({}) && Dispatched(h, now)
      ensures h in queries ==> queries[h].tryCount > old(queries[h]).tryCount
      ensures Persisted(h, old(queries[h]).tryCount + 1, made) && Kept(h)
      decreases if h in queries then Max(0, Attempts(cfg) - queries[h].tryCount) else 0, 0
    {
      hide Indexed, CallbacksOk, EffortOk, Sound, QueryOk, Relink, Unlink, Resent, Open, Failed, Pursued, ServersKept;
      IndexedSizes(queries, links, cfg.nservers, {h});
      var q, found := Advance(h);
      Update(h, q);
      if found {
        made := SendQuery(h, now);
        ResentFrom(old(queries[h]), q, if h in queries then queries[h] else q, now, cfg);
        PursuedNext(made, old(queries[h]), q, first[h], if h in queries then queries[h].tryCount else cfg.nservers * cfg.tries, old(servers));
      } else {
        made := {};
        EndQuery(h, q.errorStatus);
        PursuedNowhere(old(queries[h]), first[h], cfg.nservers * cfg.tries, old(servers));
      }
    }

    lemma QueryOkBounds(h: Handle)
      requires h in queries && h in first && h in effort
      requires QueryOk(queries[h], first[h], effort[h], cfg, edns)
      ensures queries[h].server < cfg.nservers == |queries[h].info|
      ensures queries[h].tryCount < Attempts(cfg) && |queries[h].packet| >= 1
      ensures queries[h].server == (first[h] + queries[h].tryCount) % cfg.nservers
    {
    }

    /** ares__send_query */
    method SendQuery(h: Handle, now: Time) returns (ghost made: set<nat>)
      requires h in queries && Inv({h}) && h in first && h in effort
      requires QueryOk(queries[h], first[h], effort[h], cfg, edns) && !queries[h].info[queries[h].server].skip
      requires effort[h].sends <= queries[h].tryCount + effort[h].upgrades + effort[h].fallbacks
      requires Normal(now) && lastTimeoutProcessed <= now.sec
      modifies this
      ensures Inv({}) && Dispatched(h, now)
      ensures Persisted(h, old(queries[h]).tryCount, made) && old(queries[h]).tryCount in made && Kept(h)
      decreases if h in queries then Max(0, Attempts(cfg) - queries[h].tryCount) else 0, 1
    {
      hide Indexed, CallbacksOk, EffortOk, Sound, QueryOk, Relink, Unlink, Resent, Open, Failed, Pursued, Skip, Handed, ServersKept;
      IndexedSizes(queries, links, cfg.nservers, {h});
      QueryOkBounds(h);
      var sent := Transmit(h);
      var q := queries[h];
      if !sent {
        ghost var between := servers;
        made := NextServer(h, now);
        ResentFrom(old(queries[h]), q, if h in queries then queries[h] else q, now, cfg);
        PursuedAfterFailure(made, old(queries[h]), first[h], if h in queries then queries[h].tryCount else cfg.nservers * cfg.tries,
                            old(servers), between, cfg);
        KeptOn(old(servers), between, servers, h !in queries, links.all == []);
        made := {q.tryCount} + made;
        return;
      }
      QueryOkBounds(h);
      Relocate(h, now);
      ResentFrom(old(queries[h]), q, queries[h], now, cfg);
      made := {q.tryCount};
      PursuedOnce(old(queries[h]), first[h], old(servers));
      KeptAnyway(old(servers), servers, links.all == []);
    }

    /** The second half of ares__send_query: a new timeout, and the lists that go with it. */
    method Relocate(h: Handle, now: Time)
      requires h in queries && Inv({h}) && h in first && h in effort
      requires QueryOk(queries[h], first[h], effort[h], cfg, edns)
      requires queries[h].server < |queries[h].info| && !queries[h].info[queries[h].server].skip
      requires effort[h].sends <= queries[h].tryCount + 1 + effort[h].upgrades + effort[h].fallbacks
      requires Normal(now) && lastTimeoutProcessed <= now.sec
      modifies this`queries, this`links
      ensures Inv({}) && h in queries && queries == old(queries)[h := queries[h]]
      ensures queries[h] == old(queries[h]).(timeout := queries[h].timeout) && Resent(old(queries[h]), queries[h], now, cfg)
      ensures |old(links.byTimeout)| == TIMEOUT_TABLE_SIZE && queries[h].server < |old(links.toServer)|
      ensures links == Relink(old(links), h, queries[h].timeout.sec % TIMEOUT_TABLE_SIZE, queries[h].server)
    {
      hide Indexed, CallbacksOk, EffortOk, Sound, QueryOk, Relink, Backoff, TimeAdd;
      QueryOkBounds(h);
      IndexedSizes(queries, links, cfg.nservers, {h});
      var q := queries[h];
      var timeplus := Backoff(cfg.timeout, q.tryCount / cfg.nservers);
      BackoffIsExact(cfg.timeout, q.tryCount / cfg.nservers);
      TimeAddIsExact(now, timeplus);
      TimeAddIsLater(now, timeplus);
      q := q.(timeout := TimeAdd(now, timeplus));
      RelinkKeeps(queries, links, cfg.nservers, h, q);
      QueryChanged(callbacks, queries, issued, h, q);
      QueryOkFrame(queries[h], q, first[h], effort[h], effort[h], cfg, edns);
      SoundSettle(queries, first, effort, cfg, edns, lastTimeoutProcessed, h, q);
      links := Relink(links, h, q.timeout.sec % TIMEOUT_TABLE_SIZE, q.server);
      queries := queries[h := q];
    }

    /** What a transmission has done to the servers: only q's server is concerned, and a TCP request is queued last there. */
    twostate predicate Handed(h: Handle, q: Query, sent: bool)
      reads this`servers
    {
      var i := q.server;
      && i < |servers| == |old(servers)|
      && (forall j :: 0 <= j < |servers| && j != i ==> servers[j] == old(servers)[j])
      && (if q.usingTcp then
            if sent then
              && servers[i].tcpOpen && servers[i].udpOpen == old(servers)[i].udpOpen
              && servers[i].isBroken == old(servers)[i].isBroken
              && servers[i].queue == old(servers)[i].queue + [SendReq(Some(h), TcpFrame(q.packet))]
            else servers[i] == old(servers)[i] && !servers[i].tcpOpen
          else
            && servers[i] == old(servers)[i].(udpOpen := servers[i].udpOpen)
            && (old(servers)[i].udpOpen || sent ==> servers[i].udpOpen))
    }

    /** The socket half of ares__send_query. */
    method WriteOrQueue(h: Handle, q: Query) returns (sent: bool, q': Query)
      requires q.server < |servers| && q.server < |q.info|
      modifies this`servers, this`tcpGeneration
      ensures Handed(h, q, sent) && ServersKept(old(servers), servers, false, false)
      ensures q' == if !sent then Skip(q, q.server, cfg)
                    else if q.usingTcp then q.(info := q.info[q.server := q.info[q.server].(generation := servers[q.server].generation)])
                    else q
    {
      q' := q;
      var i := q.server;
      sent := true;
      if q.usingTcp {
        if !servers[i].tcpOpen {
          sent := *;
          if sent {
            tcpGeneration := tcpGeneration + 1;
            servers := servers[i := servers[i].(tcpOpen := true, generation := tcpGeneration)];
          }
        }
        if sent {
          var sendreq := SendReq(Some(h), TcpFrame(q.packet));
          servers := servers[i := servers[i].(queue := servers[i].queue + [sendreq])];
          q' := q.(info := q.info[i := q.info[i].(generation := servers[i].generation)]);
        }
      } else {
        if !servers[i].udpOpen {
          sent := *;
          if sent {
            servers := servers[i := servers[i].(udpOpen := true)];
          }
        }
        if sent {
          sent := *;
        }
      }
      if !sent {
        q' := Skip(q, i, cfg);
      }
    }

    /** The first half of ares__send_query: open the socket if need be, and write or queue the request. */
    method Transmit(h: Handle) returns (sent: bool)
      requires h in queries && Inv({h}) && h in first && h in effort
      requires QueryOk(queries[h], first[h], effort[h], cfg, edns) && !queries[h].info[queries[h].server].skip
      requires effort[h].sends <= queries[h].tryCount + effort[h].upgrades + effort[h].fallbacks
      modifies this`effort, this`servers, this`tcpGeneration, this`queries
      ensures Inv({h}) && h in queries && queries == old(queries)[h := queries[h]]
      ensures effort == old(effort)[h := old(effort[h]).(sends := old(effort[h]).sends + 1)]
      ensures QueryOk(queries[h], first[h], effort[h], cfg, edns)
      ensures queries[h] == old(queries[h]).(info := queries[h].info) && |queries[h].info| == |old(queries[h].info)|
      ensures forall i :: 0 <= i < |queries[h].info| && old(queries[h]).info[i].skip ==> queries[h].info[i].skip
      ensures sent ==> !queries[h].info[queries[h].server].skip
      ensures old(queries[h]).server < |old(queries[h]).info| && |servers| == |old(servers)|
      ensures !sent ==> queries[h] == Skip(old(queries[h]), old(queries[h]).server, cfg)
      ensures ServersKept(old(servers), servers, false, false)
      ensures forall i :: 0 <= i < |servers| ==> servers[i].isBroken == old(servers)[i].isBroken
      ensures !sent ==> forall i :: 0 <= i < |servers| ==> servers[i].generation == old(servers)[i].generation
      ensures Handed(h, old(queries[h]), sent)
    {
      hide Indexed, CallbacksOk, Sound, QueryOk;
      QueryOkBounds(h);
      ghost var e := effort[h].(sends := effort[h].sends + 1);
      EffortCounted(h, e);
      hide EffortOk;
      SoundChange(queries, {h}, first, effort, cfg, edns, lastTimeoutProcessed, h, queries[h], e);
      effort := effort[h := e];
      var q;
      sent, q := WriteOrQueue(h, queries[h]);
      QueryOkFrame(queries[h], q, first[h], old(effort[h]), e, cfg, edns);
      Update(h, q);
    }

    lemma EffortCounted(h: Handle, e: Effort)
      requires Inv({h}) && h in queries && QueryOk(queries[h], first[h], effort[h], cfg, edns)
      requires e == effort[h].(sends := e.sends)
      requires e.sends <= queries[h].tryCount + 1 + e.upgrades + e.fallbacks
      ensures EffortOk(effort[h := e], issued, cfg)
    {
    }

    /** ares_send */
    method Send(packet: seq<Byte>, now: Time) returns (h: Handle, ghost made: set<nat>)
      requires Valid() && Follows(now, clock)
      modifies this
      ensures Valid() && clock == now && edns == old(edns) && lastTimeoutProcessed == old(lastTimeoutProcessed)
      ensures h == old(issued) && issued == h + 1
      ensures |packet| < HFIXEDSZ || |packet| >= 65536 ==>
                queries == old(queries) && callbacks == old(callbacks) + [Callback(h, BadQuery, 0)]
      ensures HFIXEDSZ <= |packet| < 65536 && cfg.nservers == 0 ==>
                queries == old(queries) && callbacks == old(callbacks) + [Callback(h, ServFail, 0)]
      ensures HFIXEDSZ <= |packet| < 65536 && cfg.nservers > 0 ==>
                && lastServer == (if cfg.rotate then (old(lastServer) + 1) % cfg.nservers else old(lastServer))
                && first == old(first)[h := old(lastServer)]
                && (h in queries ==>
                      && queries == old(queries)[h := queries[h]] && callbacks == old(callbacks)
                      && queries[h].packet == packet && queries[h].timeouts == 0
                      && queries[h].usingTcp == (cfg.useVc || |packet| > if old(edns) then cfg.ednspsz else PACKETSZ))
                && (h !in queries ==>
                      queries == old(queries) && callbacks == old(callbacks) + [Callback(h, ConnRefused, 0)])
      ensures h in effort && effort[h].sends == |made|
      ensures HFIXEDSZ <= |packet| < 65536 && cfg.nservers > 0 ==>
                && (h in queries ==> queries[h].tryCount in made)
                && Pursued(made, Fresh(packet, old(lastServer), cfg, old(edns)), old(lastServer), 0,
                           if h in queries then queries[h].tryCount else cfg.nservers * cfg.tries, old(servers))
    {
      hide Indexed, CallbacksOk, Sound, QueryOk, EffortOk, Resent, QidOf, Follows, Pursued;
      made := {};
      FollowsSec(now, clock);
      h := issued;
      issued := issued + 1;
      effort := effort[h := Effort(0, 0, 0)];
      clock := now;
      NewHandle(old(callbacks), old(queries), old(first), old(effort), h);
      if |packet| < HFIXEDSZ || |packet| >= 65536 {
        CallbackAtOnce(callbacks, queries, h, Callback(h, BadQuery, 0));
        callbacks := callbacks + [Callback(h, BadQuery, 0)];
        return;
      }
      if cfg.nservers < 1 {
        CallbackAtOnce(callbacks, queries, h, Callback(h, ServFail, 0));
        callbacks := callbacks + [Callback(h, ServFail, 0)];
        return;
      }
      var server := lastServer;
      if cfg.rotate {
        lastServer := (lastServer + 1) % cfg.nservers;
      }
      made := Launch(h, Fresh(packet, server, cfg, edns), now);
    }

    /** The end of ares_send: link the query and perform its first action. */
    method Launch(h: Handle, q: Query, now: Time) returns (ghost made: set<nat>)
      requires CallbacksOk(callbacks, queries, h) && issued == h + 1 && EffortOk(effort, issued, cfg)
      requires 0 < cfg.timeout <= INT_MAX && |servers| == cfg.nservers && lastServer < cfg.nservers
      requires Indexed(queries, links, cfg.nservers, {}) && links.stolenAll == [] && links.stolen == []
      requires Normal(clock) && 1 <= lastTimeoutProcessed <= clock.sec && clock == now
      requires Sound(queries, {}, first, effort, cfg, edns, lastTimeoutProcessed)
      requires h !in queries && h in effort && effort[h] == Effort(0, 0, 0)
      requires q.tryCount == 0 && q.server < cfg.nservers && |q.info| == cfg.nservers && |q.packet| >= 1
      requires !q.info[q.server].skip
      modifies this
      ensures Valid() && clock == now && edns == old(edns) && lastTimeoutProcessed == old(lastTimeoutProcessed)
      ensures lastServer == old(lastServer) && issued == old(issued) && first == old(first)[h := q.server]
      ensures h in queries ==>
                && queries == old(queries)[h := queries[h]] && callbacks == old(callbacks)
                && queries[h].packet == q.packet && queries[h].timeouts == q.timeouts && queries[h].usingTcp == q.usingTcp
      ensures h !in queries ==>
                queries == old(queries) && callbacks == old(callbacks) + [Callback(h, q.errorStatus, q.timeouts)]
      ensures h in effort && effort[h].sends == |made| && (h in queries ==> queries[h].tryCount in made)
      ensures Pursued(made, q, q.server, 0, if h in queries then queries[h].tryCount else cfg.nservers * cfg.tries, old(servers))
    {
      hide Indexed, CallbacksOk, Sound, QueryOk, EffortOk, Resent, Pursued;
      Enlist(h, q);
      made := SendQuery(h, now);
      assert old(queries)[h := q] - {h} == old(queries);
      if h in queries {
        ResentKeeps(q, queries[h], now, cfg);
      }
    }

    /** Links a new query into the list of all queries and that of its id. */
    method Enlist(h: Handle, q: Query)
      requires CallbacksOk(callbacks, queries, h) && issued == h + 1 && EffortOk(effort, issued, cfg)
      requires 0 < cfg.timeout <= INT_MAX && |servers| == cfg.nservers && lastServer < cfg.nservers
      requires Indexed(queries, links, cfg.nservers, {}) && links.stolenAll == []
      requires Normal(clock) && 1 <= lastTimeoutProcessed <= clock.sec
      requires Sound(queries, {}, first, effort, cfg, edns, lastTimeoutProcessed)
      requires h !in queries && h in effort && effort[h] == Effort(0, 0, 0)
      requires q.tryCount == 0 && q.server < cfg.nservers && |q.info| == cfg.nservers && |q.packet| >= 1
      modifies this`queries, this`links, this`first
      ensures Inv({h}) && h in first && queries == old(queries)[h := q] && first == old(first)[h := q.server]
      ensures QueryOk(q, q.server, effort[h], cfg, edns)
      ensures links.stolen == old(links.stolen) && links.stolenAll == []
    {
      hide Indexed, CallbacksOk, Sound, QueryOk, EffortOk;
      IndexedSizes(queries, links, cfg.nservers, {});
      LinkNew(queries, links, cfg.nservers, h, q);
      QueryIssued(callbacks, queries, h, q);
      SoundNew(queries, first, effort, cfg, edns, lastTimeoutProcessed, h, q, q.server, effort[h]);
      assert effort[h := effort[h]] == effort;
      first := first[h := q.server];
      queries := queries[h := q];
      var bucket := q.qid % QID_TABLE_SIZE;
      links := links.(all := links.all + [h], byQid := links.byQid[bucket := links.byQid[bucket] + [h]]);
      NewQueryOk(q, effort[h]);
    }

    lemma NewHandle(cbs: seq<Callback>, qs: Queries, first: map<Handle, nat>, effort: map<Handle, Effort>, issued: nat)
      requires CallbacksOk(cbs, qs, issued) && EffortOk(effort, issued, cfg)
      requires Sound(qs, {}, first, effort, cfg, edns, lastTimeoutProcessed)
      ensures issued !in qs && EffortOk(effort[issued := Effort(0, 0, 0)], issued + 1, cfg)
      ensures Sound(qs, {}, first, effort[issued := Effort(0, 0, 0)], cfg, edns, lastTimeoutProcessed)
    {
    }

    lemma NewQueryOk(q: Query, e: Effort)
      requires cfg.nservers > 0 && q.tryCount == 0 && q.server < cfg.nservers && |q.info| == cfg.nservers && |q.packet| >= 1
      requires e == Effort(0, 0, 0)
      ensures QueryOk(q, q.server, e, cfg, edns)
    {
    }

    /** A query is given up where it is (with its skips, error and timeout count brought up to date) and moved on. */
    method Retry(h: Handle, q: Query, now: Time) returns (ghost made: set<nat>)
      requires Inv({}) && h in queries && Normal(now) && lastTimeoutProcessed <= now.sec
      requires q == queries[h].(info := q.info, errorStatus := q.errorStatus, timeouts := q.timeouts)
      requires |q.info| == |queries[h].info|
      modifies this
      ensures Inv({}) && OnlyAbout(h)
      ensures h in queries ==>
                && queries == old(queries)[h := queries[h]] && callbacks == old(callbacks)
                && q.tryCount < queries[h].tryCount && Resent(q, queries[h], now, cfg)
                && queries[h].server < |old(links.toServer)| && |old(links.byTimeout)| == TIMEOUT_TABLE_SIZE
                && links == Relink(old(links), h, queries[h].timeout.sec % TIMEOUT_TABLE_SIZE, queries[h].server)
      ensures h !in queries ==>
                && queries == old(queries) - {h} && links == Unlink(old(links), h)
                && callbacks == old(callbacks) + [Callback(h, q.errorStatus, q.timeouts)]
      ensures effort[h].sends == old(effort)[h].sends + |made| && (h in queries ==> queries[h].tryCount in made)
      ensures h in first && Pursued(made, q, first[h], q.tryCount + 1, if h in queries then queries[h].tryCount else cfg.nservers * cfg.tries, old(servers))
      ensures Kept(h)
    {
      hide Indexed, CallbacksOk, Sound, QueryOk, EffortOk, Resent, Relink, Unlink, Settled, Pursued, ServersKept;
      SoundGet(queries, {}, first, effort, cfg, edns, lastTimeoutProcessed, h);
      SettledCredit(queries[h], effort[h], lastTimeoutProcessed);
      QueryOkFrame(queries[h], q, first[h], effort[h], effort[h], cfg, edns);
      Update(h, q);
      made := NextServer(h, now);
      assert old(queries)[h := q] - {h} == old(queries) - {h};
    }

    ghost function Snapshot(): Moment
      reads this
    {
      Moment(queries, servers, effort)
    }

    /** One round of handle_error: the first of the stolen queries leaves the server. */
    method MoveOn(h: Handle, i: nat, now: Time, ghost m0: Moment, ghost cbs0: seq<Callback>, ghost turns: map<Handle, Turn>)
        returns (ghost turns': map<Handle, Turn>)
      requires Inv({}) && links.stolenAll == [] && clock == now && i < cfg.nservers
      requires links.stolen != [] && h == links.stolen[0] && Moving(m0.queries, queries, links.stolen, i, now, cfg)
      requires Ended(m0.queries, queries, cbs0, callbacks)
      requires Turning(turns, m0, GivenUp(m0.queries, i, cfg), Snapshot(), first, cfg)
      modifies this
      ensures Inv({}) && links.stolenAll == [] && clock == now && edns == old(edns) && issued == old(issued) && first == old(first)
      ensures lastTimeoutProcessed == old(lastTimeoutProcessed) && lastServer == old(lastServer)
      ensures links.stolen == old(links.stolen)[1..]
      ensures Moving(m0.queries, queries, links.stolen, i, now, cfg)
      ensures Ended(m0.queries, queries, cbs0, callbacks)
      ensures Turning(turns', m0, GivenUp(m0.queries, i, cfg), Snapshot(), first, cfg)
    {
      hide Indexed, CallbacksOk, Sound, QueryOk, EffortOk, Resent, Follows, Moving, Skip, Relink, Unlink, Without, NoDup;
      hide Ended, Turning, GivenUp, Pursued, ServersKept;
      ghost var rest := links.stolen[1..];
      MovingHead(m0.queries, queries, links.stolen, i, now, cfg);
      SoundGet(queries, {}, first, effort, cfg, edns, lastTimeoutProcessed, h);
      QueryOkBounds(h);
      SkipFrame(queries[h], i, cfg);
      ghost var m, l := Snapshot(), links;
      ghost var q := Skip(queries[h], i, cfg);
      GivenUpAt(m0.queries, i, cfg, h);
      NotYetTurned(turns, m0, GivenUp(m0.queries, i, cfg), m, first, cfg, h);
      ghost var made := Retry(h, Skip(queries[h], i, cfg), now);
      UnlinkStolen(l, h);
      MovingStep(m0.queries, m.queries, queries, h, rest, q, i, now, cfg);
      EndedStep(m0.queries, m.queries, queries, cbs0, old(callbacks), callbacks, h, q);
      KeptUntilLast(h);
      TurningStep(turns, m0, GivenUp(m0.queries, i, cfg), m, Snapshot(), first, cfg, h, q, made);
      turns' := turns[h := TurnOf(made, m0, m)];
    }

    /** With no query on the list of all, none is live. */
    twostate lemma KeptUntilLast(h: Handle)
      requires Indexed(queries, links, cfg.nservers, {}) && links.stolenAll == [] && Kept(h)
      ensures ServersKept(old(servers), servers, h !in queries, queries == map[])
    {
      hide Indexed;
      if links.all == [] {
        NothingLive(queries, links, cfg.nservers);
      }
    }

    /** handle_error: the server's connections are closed and all its queries move on. */
    method HandleError(i: nat, now: Time) returns (ghost turns: map<Handle, Turn>)
      requires Valid() && i < cfg.nservers && Follows(now, clock)
      modifies this
      ensures Valid() && clock == now && edns == old(edns) && issued == old(issued) && first == old(first)
      ensures lastTimeoutProcessed == old(lastTimeoutProcessed) && lastServer == old(lastServer)
      ensures queries.Keys <= old(queries.Keys)
      ensures forall h :: h in old(queries) && old(queries[h]).server != i ==> h in queries && queries[h] == old(queries[h])
      ensures forall h :: h in queries && old(queries[h]).server == i ==> MovedOff(old(queries[h]), queries[h], i, now, cfg)
      ensures Ended(old(queries), queries, old(callbacks), callbacks)
      ensures Turned(turns, old(Snapshot()).(servers := Reset(old(servers), i)), GivenUp(old(queries), i, cfg), Snapshot(), first, cfg)
      ensures |servers| == |old(servers)|
    {
      hide Indexed, CallbacksOk, Sound, QueryOk, EffortOk, Resent, Follows, Moving, Skip, Relink, Unlink, Without, NoDup;
      hide Ended, Turning, GivenUp, Reset;
      FollowsSec(now, clock);
      clock := now;
      CloseSockets(i);
      EndedNone(queries, callbacks);
      ghost var m0 := Moment(queries, Reset(old(servers), i), effort);
      ghost var given := GivenUp(queries, i, cfg);
      ResetStands(old(servers), servers, i);
      GivenUpAreLive(queries, i, cfg);
      EffortKnown();
      TurningStarts(m0, given, Snapshot(), first, cfg);
      turns := map[];
      IndexedSizes(queries, links, cfg.nservers, {});
      StealKeeps(queries, links, cfg.nservers, i);
      MovingStarts(queries, links.toServer[i], i, now, cfg);
      links := links.(stolen := links.toServer[i], toServer := links.toServer[i := links.stolen]);
      var node := First(links.stolen);
      while node.Some?
        invariant Inv({}) && links.stolenAll == [] && clock == now && edns == old(edns) && issued == old(issued) && first == old(first)
        invariant lastTimeoutProcessed == old(lastTimeoutProcessed) && lastServer == old(lastServer)
        invariant node == First(links.stolen)
        invariant Moving(old(queries), queries, links.stolen, i, now, cfg)
        invariant Ended(old(queries), queries, old(callbacks), callbacks)
        invariant Turning(turns, m0, given, Snapshot(), first, cfg)
        decreases |links.stolen|
      {
        var h := node.value;
        MovingHead(old(queries), queries, links.stolen, i, now, cfg);
        assert queries[h].server == i;
        node := Next(links.stolen, h);
        turns := MoveOn(h, i, now, m0, old(callbacks), turns);
      }
      assert links.stolen == [];
      MovingEnds(old(queries), queries, links.stolen, i, now, cfg);
      GivenUpAll(turns, m0, i, Snapshot(), first, cfg, now);
    }

    lemma EffortKnown()
      requires Inv({})
      ensures forall h :: h in queries ==> h in effort
    {
    }

    /**
     * process_timeouts: the buckets from the last processed second to now. Exactly
     * the queries that are due are moved on, once each, and then none is due.
     */
    method ProcessTimeouts(now: Time) returns (ghost turns: map<Handle, Turn>)
      requires Valid() && Follows(now, clock)
      modifies this
      ensures Valid() && clock == now && edns == old(edns) && issued == old(issued) && first == old(first)
      ensures lastTimeoutProcessed == now.sec
      ensures queries.Keys <= old(queries.Keys) && old(callbacks) <= callbacks
      ensures forall h :: h in old(queries) && !TimedOutAt(now, old(queries[h]).timeout) ==> h in queries && queries[h] == old(queries[h])
      ensures forall h :: h in queries && TimedOutAt(now, old(queries[h]).timeout) ==> Expired(old(queries[h]), queries[h], now)
      ensures forall h :: h in old(queries) && h !in queries ==> Callback(h, TimedOut, old(queries[h]).timeouts + 1) in callbacks
      ensures forall h :: h in queries ==> !TimedOutAt(now, queries[h].timeout)
      ensures Turned(turns, old(Snapshot()), DueAt(old(queries), now), Snapshot(), first, cfg)
    {
      hide Indexed, CallbacksOk, Sound, QueryOk, EffortOk, Expiring, NoneDueBefore, Follows, Turning, DueAt;
      FollowsSec(now, clock);
      EffortKnown();
      clock := now;
      ghost var m0 := Snapshot();
      DueAreLive(queries, now);
      StoodStill(servers);
      TurningStarts(m0, DueAt(queries, now), m0, first, cfg);
      turns := map[];
      ExpiringStarts(queries, callbacks, first, effort, cfg, edns, lastTimeoutProcessed, now);
      var t := lastTimeoutProcessed;
      while t <= now.sec
        invariant Valid() && clock == now && edns == old(edns) && issued == old(issued) && first == old(first)
        invariant lastTimeoutProcessed == old(lastTimeoutProcessed) <= t <= now.sec + 1
        invariant Expiring(old(queries), queries, old(callbacks), callbacks, now)
        invariant NoneDueBefore(queries, t, now)
        invariant Turning(turns, m0, DueAt(old(queries), now), Snapshot(), first, cfg)
      {
        turns := ProcessBucket(t, now, old(queries), old(callbacks), m0, turns);
        t := t + 1;
      }
      ExpiringEnds(old(queries), queries, old(callbacks), callbacks, t, now);
      DueAll(turns, m0, Snapshot(), first, cfg, now);
      SoundClock(queries, first, effort, cfg, edns, lastTimeoutProcessed, now);
      lastTimeoutProcessed := now.sec;
    }

    /** A query of bucket b that is due moves on. */
    method Expire(h: Handle, t: int, b: nat, now: Time, ghost qs0: Queries, ghost cbs0: seq<Callback>,
                  ghost pre: seq<Handle>, ghost suf: seq<Handle>, ghost m0: Moment, ghost turns: map<Handle, Turn>)
        returns (ghost pre': seq<Handle>, ghost suf': seq<Handle>, ghost turns': map<Handle, Turn>)
      requires Valid() && clock == now && lastTimeoutProcessed <= t <= now.sec && b == t % TIMEOUT_TABLE_SIZE
      requires Expiring(qs0, queries, cbs0, callbacks, now) && NoneDueBefore(queries, t, now)
      requires |links.byTimeout| == TIMEOUT_TABLE_SIZE && Walk(queries, links.byTimeout[b], pre, suf, now)
      requires suf != [] && suf[0] == h && h in queries && TimedOutAt(now, queries[h].timeout)
      requires m0.queries == qs0 && Turning(turns, m0, DueAt(qs0, now), Snapshot(), first, cfg)
      modifies this
      ensures Turning(turns', m0, DueAt(qs0, now), Snapshot(), first, cfg)
      ensures Valid() && clock == now && edns == old(edns) && issued == old(issued) && first == old(first)
      ensures lastTimeoutProcessed == old(lastTimeoutProcessed) && |links.byTimeout| == TIMEOUT_TABLE_SIZE
      ensures Expiring(qs0, queries, cbs0, callbacks, now) && NoneDueBefore(queries, t, now)
      ensures Walk(queries, links.byTimeout[b], pre', suf', now) && First(suf') == First(suf[1..])
      ensures |Due(queries, now)| < old(|Due(queries, now)|)
    {
      hide Indexed, CallbacksOk, Sound, QueryOk, EffortOk, Expiring, NoneDueBefore, Walk, Resent, TimedOutAt, Settled;
      hide Due, Relink, Unlink, Without, Next, Turning, DueAt, Pursued, ServersKept;
      DueIsUntouched(qs0, queries, cbs0, callbacks, h, now);
      NotYetTurned(turns, m0, DueAt(qs0, now), Snapshot(), first, cfg, h);
      ghost var m := Snapshot();
      ghost var was, list := queries, links.byTimeout[b];
      SoundGet(queries, {}, first, effort, cfg, edns, lastTimeoutProcessed, h);
      SettledCredit(queries[h], effort[h], lastTimeoutProcessed);
      var q := queries[h].(errorStatus := TimedOut, timeouts := queries[h].timeouts + 1);
      ghost var l := links;
      ghost var cbs := callbacks;
      ghost var made := Retry(h, q, now);
      UnlinkStolen(l, h);
      IndexedSizes(queries, links, cfg.nservers, {});
      BucketAfter(l, h, b);
      if h in queries {
        ResentIsAhead(q, queries[h], now, cfg);
        ResentKeeps(q, queries[h], now, cfg);
      }
      ExpireOne(qs0, was, queries, cbs0, cbs, callbacks, h, t, now);
      pre', suf' := WalkMoved(was, queries, list, links.byTimeout[b], pre, suf, now);
      KeptUntilLast(h);
      TurningStep(turns, m0, DueAt(qs0, now), m, Snapshot(), first, cfg, h, q, made);
      turns' := turns[h := TurnOf(made, m0, m)];
    }

    /** The inner loop of process_timeouts; the successor is read before the query may leave the list. */
    method ProcessBucket(t: int, now: Time, ghost qs0: Queries, ghost cbs0: seq<Callback>, ghost m0: Moment, ghost turns0: map<Handle, Turn>)
        returns (ghost turns: map<Handle, Turn>)
      requires Valid() && clock == now && lastTimeoutProcessed <= t <= now.sec
      requires Expiring(qs0, queries, cbs0, callbacks, now) && NoneDueBefore(queries, t, now)
      requires m0.queries == qs0 && Turning(turns0, m0, DueAt(qs0, now), Snapshot(), first, cfg)
      modifies this
      ensures Valid() && clock == now && edns == old(edns) && issued == old(issued) && first == old(first)
      ensures lastTimeoutProcessed == old(lastTimeoutProcessed)
      ensures Expiring(qs0, queries, cbs0, callbacks, now) && NoneDueBefore(queries, t + 1, now)
      ensures Turning(turns, m0, DueAt(qs0, now), Snapshot(), first, cfg)
    {
      hide Turning, DueAt;
      turns := turns0;
      hide Indexed, CallbacksOk, Sound, QueryOk, EffortOk, Expiring, NoneDueBefore, Walk, Resent, TimedOutAt, Settled;
      hide Due, Relink, Unlink, Without, Next;
      IndexedSizes(queries, links, cfg.nservers, {});
      var b := t % TIMEOUT_TABLE_SIZE;
      ghost var pre, suf := [], links.byTimeout[b];
      WalkStarts(queries, links, cfg.nservers, b, now);
      var node := First(links.byTimeout[b]);
      while node.Some?
        invariant Valid() && clock == now && edns == old(edns) && issued == old(issued) && first == old(first)
        invariant lastTimeoutProcessed == old(lastTimeoutProcessed) && |links.byTimeout| == TIMEOUT_TABLE_SIZE
        invariant Expiring(qs0, queries, cbs0, callbacks, now) && NoneDueBefore(queries, t, now)
        invariant Walk(queries, links.byTimeout[b], pre, suf, now) && node == First(suf)
        invariant Turning(turns, m0, DueAt(qs0, now), Snapshot(), first, cfg)
        decreases |Due(queries, now)|, |suf|
      {
        var h := node.value;
        WalkHere(queries, links.byTimeout[b], pre, suf, now);
        node := Next(links.byTimeout[b], h);
        SoundGet(queries, {}, first, effort, cfg, edns, lastTimeoutProcessed, h);
        SettledCredit(queries[h], effort[h], lastTimeoutProcessed);
        if queries[h].timeout.sec != 0 && TimedOutAt(now, queries[h].timeout) {
          pre, suf, turns := Expire(h, t, b, now, qs0, cbs0, pre, suf, m0, turns);
        } else {
          WalkPast(queries, links.byTimeout[b], pre, suf, now);
          pre, suf := pre + [h], suf[1..];
        }
      }
      BucketDone(queries, links, cfg.nservers, t, pre, suf, now);
    }

    /** The query that an answer belongs to: the first on the list of its id with that id and the same questions. */
    method FindQuery(abuf: seq<Byte>) returns (r: Option<Handle>)
      requires Valid() && |abuf| >= HFIXEDSZ
      ensures r.Some? ==> r.value in queries && Matches(queries[r.value], abuf) && |queries[r.value].packet| >= HFIXEDSZ
      ensures |links.byQid| == QID_TABLE_SIZE
      ensures r.Some? ==>
                var list := links.byQid[QidOf(abuf) % QID_TABLE_SIZE];
                exists k: nat :: k < |list| && list[k] == r.value && NoneMatches(queries, list[..k], abuf)
      ensures r == None ==> forall h :: h in queries ==> !Matches(queries[h], abuf)
    {
      hide CallbacksOk, Sound, QueryOk, EffortOk, DnsMatch.SameQuestions, QidOf;
      IndexedSizes(queries, links, cfg.nservers, {});
      var id := QidOf(abuf);
      var list := links.byQid[id % QID_TABLE_SIZE];
      forall h | h in list ensures h in queries { OnItsLists(queries, links, cfg.nservers, h); }
      for k := 0 to |list|
        invariant forall j :: 0 <= j < k ==> !Matches(queries[list[j]], abuf)
      {
        var h := list[k];
        var same := queries[h].qid == id;
        if same {
          same := DnsMatch.CompareQuestions(queries[h].packet, abuf);
        }
        if same {
          MatchIsLong(queries[h], abuf);
          assert NoneMatches(queries, list[..k], abuf);
          return Some(h);
        }
      }
      forall h | h in queries ensures !Matches(queries[h], abuf) {
        OnItsLists(queries, links, cfg.nservers, h);
      }
      return None;
    }

    /** process_answer */
    method ProcessAnswer(answer: Answer, now: Time) returns (ghost m: Option<Handle>, ghost made: set<nat>)
      requires Valid() && answer.server < cfg.nservers && Follows(now, clock)
      modifies this
      ensures Valid() && clock == now && issued == old(issued) && first == old(first)
      ensures lastTimeoutProcessed == old(lastTimeoutProcessed)
      ensures m == None ==>
                && queries == old(queries) && callbacks == old(callbacks) && edns == old(edns)
                && (|answer.packet| < HFIXEDSZ || forall h :: h in queries ==> !Matches(queries[h], answer.packet))
      ensures m.Some? ==>
                var h := m.value;
                && HFIXEDSZ <= |answer.packet| && h in old(queries) && Matches(old(queries[h]), answer.packet)
                && AnswerTaken(Judge(old(queries[h]), cfg, old(edns), answer), h, answer.server,
                               answer.packet, AnswerLength(answer, cfg, old(edns)), now,
                               old(queries), queries, old(callbacks), callbacks, cfg)
                && edns == (old(edns) && !Judge(old(queries[h]), cfg, old(edns), answer).WithoutEdns?)
                && h in first && h in old(effort) && h in effort
                && AnswerPursued(Judge(old(queries[h]), cfg, old(edns), answer), h, answer.server, made, old(queries), queries,
                                 first[h], old(servers), old(effort)[h].sends, effort[h].sends, cfg)
    {
      made := {};
      hide Indexed, CallbacksOk, Sound, QueryOk, EffortOk, Follows, Matches, Judge, AnswerTaken, AnswerPursued;
      FollowsSec(now, clock);
      clock := now;
      m := None;
      if |answer.packet| < HFIXEDSZ {
        return;
      }
      var found := FindQuery(answer.packet);
      m := found;
      if found.Some? {
        made := TakeAnswer(found.value, answer, now);
      }
    }

    /** The rest of process_answer, once the query is found. */
    method TakeAnswer(h: Handle, answer: Answer, now: Time) returns (ghost made: set<nat>)
      requires Valid() && answer.server < cfg.nservers && Normal(now) && lastTimeoutProcessed <= now.sec
      requires |answer.packet| >= HFIXEDSZ && h in queries && |queries[h].packet| >= HFIXEDSZ
      modifies this
      ensures Valid() && clock == old(clock) && issued == old(issued) && first == old(first)
      ensures lastTimeoutProcessed == old(lastTimeoutProcessed)
      ensures var v := Judge(old(queries[h]), cfg, old(edns), answer);
              && AnswerTaken(v, h, answer.server, answer.packet, AnswerLength(answer, cfg, old(edns)), now,
                             old(queries), queries, old(callbacks), callbacks, cfg)
              && edns == (old(edns) && !v.WithoutEdns?)
              && h in first && h in old(effort) && h in effort
              && AnswerPursued(v, h, answer.server, made, old(queries), queries, first[h], old(servers), old(effort)[h].sends, effort[h].sends, cfg)
    {
      made := {};
      hide Indexed, CallbacksOk, Sound, QueryOk, EffortOk, Resent, Follows, Skip, Matches, Pursued, SentOver, ServersKept;
      var q := queries[h];
      SoundGet(queries, {}, first, effort, cfg, edns, lastTimeoutProcessed, h);
      var truncated, rcode := Truncated(answer.packet), Rcode(answer.packet);
      var packetsz := PACKETSZ;
      if edns {
        packetsz := cfg.ednspsz;
        if rcode == NOTIMP || rcode == FORMERR || rcode == SERVFAIL {
          made := FallBack(h, now);
          return;
        }
      }
      if (truncated || |answer.packet| > packetsz) && !answer.tcp && !cfg.ignoreTruncation {
        if !q.usingTcp {
          made := Upgrade(h, now);
        }
        return;
      }
      var alen: int := |answer.packet|;
      if alen > packetsz && !answer.tcp {
        alen := packetsz;
      }
      if !cfg.noCheckResp {
        if rcode == SERVFAIL || rcode == NOTIMP || rcode == REFUSED {
          made := Blame(h, answer.server, now);
          return;
        }
      }
      EndQuery(h, Success, answer.packet, alen);
      NoneStolen(old(links), h);
    }

    /** A server has refused to answer: skip it, and move on if the query was waiting for it. */
    method Blame(h: Handle, i: nat, now: Time) returns (ghost made: set<nat>)
      requires Valid() && h in queries && i < cfg.nservers && |queries[h].packet| >= HFIXEDSZ
      requires Normal(now) && lastTimeoutProcessed <= now.sec
      modifies this
      ensures Valid() && edns == old(edns) && issued == old(issued) && first == old(first) && clock == old(clock)
      ensures lastTimeoutProcessed == old(lastTimeoutProcessed)
      ensures forall abuf, alen :: AnswerTaken(AskAnother, h, i, abuf, alen, now, old(queries), queries, old(callbacks), callbacks, cfg)
      ensures h in first && h in old(effort) && h in effort
              && AnswerPursued(AskAnother, h, i, made, old(queries), queries, first[h], old(servers), old(effort)[h].sends, effort[h].sends, cfg)
    {
      hide Indexed, CallbacksOk, Sound, QueryOk, EffortOk, Resent, Skip, Settled, Relink, Unlink, Pursued, ServersKept;
      made := {};
      var q := queries[h];
      SoundGet(queries, {}, first, effort, cfg, edns, lastTimeoutProcessed, h);
      SettledCredit(q, effort[h], lastTimeoutProcessed);
      QueryOkBounds(h);
      SkipFrame(q, i, cfg);
      var skipped := Skip(q, i, cfg);
      if q.server == i {
        made := Retry(h, skipped, now);
        NoneStolen(old(links), h);
        if h in queries {
          SkippedIsLeft(q, skipped, queries[h], i, now, cfg);
          ResentKeeps(skipped, queries[h], now, cfg);
        }
      } else {
        SkipElsewhere(h, skipped, i);
      }
    }

    /** Marks a server that the query is not waiting for. */
    method SkipElsewhere(h: Handle, skipped: Query, i: nat)
      requires Valid() && h in queries && queries[h].server != i && i < |queries[h].info|
      requires skipped == Skip(queries[h], i, cfg)
      modifies this`queries
      ensures Valid() && queries == old(queries)[h := skipped]
    {
      hide CallbacksOk, QueryOk, EffortOk, Sound, Indexed;
      SoundGet(queries, {}, first, effort, cfg, edns, lastTimeoutProcessed, h);
      QueryOkFrame(queries[h], skipped, first[h], effort[h], effort[h], cfg, edns);
      QueryChanged(callbacks, queries, issued, h, skipped);
      SoundSame(queries, first, effort, cfg, edns, lastTimeoutProcessed, h, skipped);
      PlacesSame(queries, links, cfg.nservers, h, skipped);
      queries := queries[h := skipped];
    }

    /** The server does not understand EDNS: it is switched off for good, and this query loses its EDNS record. */
    method FallBack(h: Handle, now: Time) returns (ghost made: set<nat>)
      requires Valid() && h in queries && edns && |queries[h].packet| >= HFIXEDSZ
      requires Normal(now) && lastTimeoutProcessed <= now.sec
      modifies this
      ensures Valid() && !edns && issued == old(issued) && first == old(first) && clock == old(clock)
      ensures lastTimeoutProcessed == old(lastTimeoutProcessed)
      ensures SentOver(h, StripEdns(old(queries[h]).packet), old(queries[h]).usingTcp, now,
                       old(queries), queries, old(callbacks), callbacks)
      ensures h in first && h in old(effort) && h in effort
              && AnswerPursued(WithoutEdns, h, 0, made, old(queries), queries, first[h], old(servers), old(effort)[h].sends, effort[h].sends, cfg)
    {
      hide Indexed, CallbacksOk, Sound, EffortOk, Resent, Settled, Pursued, ServersKept;
      SoundGet(queries, {}, first, effort, cfg, edns, lastTimeoutProcessed, h);
      SettledCredit(queries[h], effort[h], lastTimeoutProcessed);
      SoundEdnsOff(queries, first, effort, cfg, edns, lastTimeoutProcessed);
      edns := false;
      var q := queries[h].(packet := StripEdns(queries[h].packet));
      made := SendAgain(h, q, effort[h].(fallbacks := 1), now);
    }

    /** A truncated answer: ask again over TCP. */
    method Upgrade(h: Handle, now: Time) returns (ghost made: set<nat>)
      requires Valid() && h in queries && !queries[h].usingTcp
      requires Normal(now) && lastTimeoutProcessed <= now.sec
      modifies this
      ensures Valid() && edns == old(edns) && issued == old(issued) && first == old(first) && clock == old(clock)
      ensures lastTimeoutProcessed == old(lastTimeoutProcessed)
      ensures SentOver(h, old(queries[h]).packet, true, now, old(queries), queries, old(callbacks), callbacks)
      ensures h in first && h in old(effort) && h in effort
              && AnswerPursued(OverTcp, h, 0, made, old(queries), queries, first[h], old(servers), old(effort)[h].sends, effort[h].sends, cfg)
    {
      hide Indexed, CallbacksOk, Sound, EffortOk, Resent, Settled, Pursued, ServersKept;
      SoundGet(queries, {}, first, effort, cfg, edns, lastTimeoutProcessed, h);
      SettledCredit(queries[h], effort[h], lastTimeoutProcessed);
      made := SendAgain(h, queries[h].(usingTcp := true), effort[h].(upgrades := 1), now);
    }

    method SendAgain(h: Handle, q: Query, ghost e: Effort, now: Time) returns (ghost made: set<nat>)
      requires Valid() && h in queries && h in first && h in effort
      requires q == queries[h].(packet := q.packet, usingTcp := q.usingTcp)
      requires e == effort[h].(upgrades := e.upgrades, fallbacks := e.fallbacks)
      requires effort[h].upgrades <= e.upgrades <= 1 && effort[h].fallbacks <= e.fallbacks <= 1
      requires QueryOk(q, first[h], e, cfg, edns) && q.server < |q.info| && !q.info[q.server].skip
      requires e.sends <= q.tryCount + e.upgrades + e.fallbacks
      requires Normal(now) && lastTimeoutProcessed <= now.sec
      modifies this
      ensures Valid() && edns == old(edns) && issued == old(issued) && first == old(first) && clock == old(clock)
      ensures lastTimeoutProcessed == old(lastTimeoutProcessed)
      ensures SentOver(h, q.packet, q.usingTcp, now, old(queries), queries, old(callbacks), callbacks)
      ensures h in first && h in effort && effort[h].sends == e.sends + |made|
      ensures q.tryCount in made && (h in queries ==> queries[h].tryCount in made)
      ensures Pursued(made, q, first[h], q.tryCount, if h in queries then queries[h].tryCount else cfg.nservers * cfg.tries, old(servers))
    {
      hide Indexed, CallbacksOk, Sound, QueryOk, Resent, Pursued, ServersKept;
      FluxKeeps(queries, links, cfg.nservers, h, q);
      QueryChanged(callbacks, queries, issued, h, q);
      SoundChange(queries, {}, first, effort, cfg, edns, lastTimeoutProcessed, h, q, e);
      queries := queries[h := q];
      effort := effort[h := e];
      hide EffortOk;
      made := SendQuery(h, now);
      NoneStolen(old(links), h);
      assert old(queries)[h := q] - {h} == old(queries) - {h};
      if h in queries {
        ResentKeeps(q, queries[h], now, cfg);
        ResentIsAhead(q, queries[h], now, cfg);
      }
    }

    /**
     * process_broken_connections: every query that waits for a server which is broken
     * on entry has been given up there, and is sent elsewhere or ends in its error.
     */
    method ProcessBroken(now: Time) returns (ghost moments: seq<Moment>, ghost rounds: seq<map<Handle, Turn>>)
      requires Valid() && Follows(now, clock)
      modifies this
      ensures Rounds(moments, rounds, old(Snapshot()), Snapshot(), first, cfg) && first == old(first)
      ensures Valid() && clock == now && issued == old(issued) && queries.Keys <= old(queries.Keys)
      ensures (forall i :: 0 <= i < |old(servers)| ==> !old(servers)[i].isBroken) ==>
                queries == old(queries) && servers == old(servers) && callbacks == old(callbacks)
      ensures Ended(old(queries), queries, old(callbacks), callbacks)
      ensures forall h :: h in queries ==> queries[h] == old(queries)[h] || old(queries)[h].tryCount < queries[h].tryCount
      ensures forall h :: h in queries && old(queries)[h].server < |old(servers)| && old(servers)[old(queries)[h].server].isBroken ==>
                old(queries)[h].tryCount < queries[h].tryCount
    {
      hide Indexed, CallbacksOk, Sound, QueryOk, EffortOk, Ended, Clearing, Rounds;
      ClearingStarts(queries, callbacks, servers);
      moments, rounds := ClearBroken(now);
      ClearingEnds(old(queries), queries, old(callbacks), callbacks, old(servers), servers);
      FollowsSec(now, clock);
      clock := now;
    }

    /** Its loop over the servers. */
    method ClearBroken(now: Time) returns (ghost moments: seq<Moment>, ghost rounds: seq<map<Handle, Turn>>)
      requires Valid() && Follows(now, clock)
      modifies this
      ensures Rounds(moments, rounds, old(Snapshot()), Snapshot(), first, cfg) && first == old(first)
      ensures Valid() && Follows(now, clock) && issued == old(issued)
      ensures (forall i :: 0 <= i < |old(servers)| ==> !old(servers)[i].isBroken) ==>
                queries == old(queries) && servers == old(servers) && callbacks == old(callbacks)
      ensures Clearing(old(queries), queries, old(callbacks), callbacks, old(servers), servers, |old(servers)|)
    {
      assert |servers| == cfg.nservers;
      FollowsSelf(now, clock);
      hide *;
      ClearingStarts(queries, callbacks, servers);
      moments, rounds := [Snapshot()], [];
      RoundsStart(Snapshot(), first, cfg);
      for i := 0 to cfg.nservers
        invariant Valid() && issued == old(issued) && Follows(now, clock) && first == old(first)
        invariant RoundsTo(i, moments, rounds, old(Snapshot()), Snapshot(), first, cfg)
        invariant (forall j :: 0 <= j < |old(servers)| ==> !old(servers)[j].isBroken) ==>
                    queries == old(queries) && servers == old(servers) && callbacks == old(callbacks)
        invariant |servers| == cfg.nservers == |old(servers)|
        invariant Clearing(old(queries), queries, old(callbacks), callbacks, old(servers), servers, i)
      {
        ghost var m := Snapshot();
        SnapshotIs();
        if servers[i].isBroken {
          ghost var before, live, cbs := servers, queries, callbacks;
          FollowsSelf(now, clock);
          ghost var turns := HandleError(i, now);
          SnapshotIs();
          StoodOf(turns, m, i, Snapshot(), first, cfg);
          RoundsStep(i, moments, rounds, old(Snapshot()), m, Snapshot(), turns, first, cfg);
          moments, rounds := moments + [Snapshot()], rounds + [turns];
          ClearingStep(old(queries), live, queries, old(callbacks), cbs, callbacks, old(servers), before, servers, i, now, cfg);
        } else {
          RoundsStep(i, moments, rounds, old(Snapshot()), m, m, map[], first, cfg);
          moments, rounds := moments + [m], rounds + [map[]];
          ClearingPast(old(queries), queries, old(callbacks), callbacks, old(servers), servers, i);
        }
      }
      RoundsEnd(moments, rounds, old(Snapshot()), Snapshot(), first, cfg);
    }

    lemma SnapshotIs()
      ensures Snapshot() == Moment(queries, servers, effort)
    {
    }

    /** ares_cancel: the queries live on entry, and only those, get their callback, in order. */
    method Cancel()
      requires Valid()
      modifies this
      ensures Valid() && clock == old(clock) && issued == old(issued)
      ensures queries == map[]
      ensures callbacks == old(callbacks) + Calls(old(links.all), Cancelled)
    {
      hide Indexed, CallbacksOk, Sound, QueryOk, EffortOk, Unlink, Calls, NoDup;
      AllListed();
      ghost var todo := links.all;
      ghost var k := 0;
      if links.all != [] {
        links := links.(stolenAll := links.all, all := []);
        AllStolen(queries, old(links), links, cfg.nservers);
        assert todo[0..] == todo;
        CallsNone(todo, Cancelled);
        assert callbacks == old(callbacks) + Calls(todo[..0], Cancelled);
        var node := First(links.stolenAll);
        HeadOf(links.stolenAll);
        while node.Some?
          invariant node.Some? <==> links.stolenAll != []
          invariant node.Some? ==> node.value == links.stolenAll[0]
          invariant Inv({}) && links.all == [] && links.stolen == [] && node == First(links.stolenAll)
          invariant 0 <= k <= |todo| && links.stolenAll == todo[k..]
          invariant callbacks == old(callbacks) + Calls(todo[..k], Cancelled)
          invariant clock == old(clock) && issued == old(issued)
          decreases |links.stolenAll|
        {
          hide *;
          node := CancelFirst(node.value, todo, k);
          CallsNext(todo, k, Cancelled);
          k := k + 1;
        }
        assert todo[..k] == todo;
      } else {
        CallsNone(todo, Cancelled);
        assert todo[..0] == todo;
      }
      NothingLive(queries, links, cfg.nservers);
      if !cfg.stayOpen && links.all == [] {
        CloseAllSockets();
      }
    }

    /** One round of its loop; the successor is read before the query leaves the list. */
    method CancelFirst(h: Handle, ghost todo: seq<Handle>, ghost k: nat) returns (node: Option<Handle>)
      requires Inv({}) && links.all == [] && links.stolen == [] && k < |todo| && links.stolenAll == todo[k..] && h == links.stolenAll[0]
      modifies this`queries, this`links, this`callbacks
      ensures Inv({}) && links.all == [] && links.stolen == [] && links.stolenAll == todo[k + 1..]
      ensures node == First(links.stolenAll) && (node.Some? <==> links.stolenAll != []) && (node.Some? ==> node.value == links.stolenAll[0])
      ensures callbacks == old(callbacks) + [Callback(h, Cancelled, 0)] && h == todo[k]
    {
      hide Indexed, CallbacksOk, Sound, QueryOk, EffortOk, Unlink, NoDup, Without, Next;
      StolenAllHead(queries, links, cfg.nservers, todo, k);
      node := Next(links.stolenAll, h);
      UnlinkAll(links, h);
      FreeQuery(h, Cancelled, 0);
    }

    lemma HeadOf(list: seq<Handle>)
      ensures (First(list).Some? <==> list != []) && (list != [] ==> First(list) == Some(list[0]))
    {
    }

    /** ares_destroy: every query still live gets its callback, and then no list holds anything. */
    method Destroy()
      requires Valid()
      modifies this
      ensures Valid() && issued == old(issued) && queries == map[]
      ensures callbacks == old(callbacks) + Calls(old(links.all), Destruction)
      ensures forall h: Handle :: h in Owners(callbacks) <==> h < issued
    {
      hide Indexed, CallbacksOk, Sound, QueryOk, EffortOk, Unlink, Calls, NoDup;
      AllListed();
      ghost var todo := links.all;
      ghost var k := 0;
      assert todo[0..] == todo;
      CallsNone(todo, Destruction);
      var node := First(links.all);
      while node.Some?
        invariant Inv({}) && links.stolenAll == [] && links.stolen == [] && node == First(links.all)
        invariant 0 <= k <= |todo| && links.all == todo[k..]
        invariant callbacks == old(callbacks) + Calls(todo[..k], Destruction)
        invariant issued == old(issued)
        decreases |links.all|
      {
        var h := node.value;
        AllHead(queries, links, cfg.nservers, todo, k);
        node := Next(links.all, h);
        UnlinkAll(links, h);
        FreeQuery(h, Destruction, 0);
        CallsNext(todo, k, Destruction);
        k := k + 1;
      }
      assert todo[..k] == todo;
      NothingLive(queries, links, cfg.nservers);
      IndexedSizes(queries, links, cfg.nservers, {});
      NoQueriesNoLinks(queries, links, cfg.nservers);
      assert forall i :: 0 <= i < QID_TABLE_SIZE ==> links.byQid[i] == [];
      assert forall i :: 0 <= i < TIMEOUT_TABLE_SIZE ==> links.byTimeout[i] == [];
      CloseAllSockets();
      assert forall i :: 0 <= i < cfg.nservers ==> links.toServer[i] == [];
      EveryoneCalled(callbacks, queries, issued);
    }

    /** advance_tcp_send_queue: forget the bytes that the socket took. */
    method AdvanceTcpSendQueue(i: nat, numBytes: nat)
      requires i < |servers| && numBytes <= |Queued(servers[i].queue)|
      modifies this`servers
      ensures |servers| == |old(servers)|
      ensures forall j :: 0 <= j < |servers| && j != i ==> servers[j] == old(servers[j])
      ensures servers[i] == old(servers[i]).(queue := servers[i].queue)
      ensures Queued(servers[i].queue) == Queued(old(servers[i].queue))[numBytes..]
      ensures exists k :: 0 <= k <= |old(servers[i].queue)| && IsRemainder(old(servers[i].queue), k, servers[i].queue)
    {
      var left := numBytes;
      ghost var k := 0;
      var queue := servers[i].queue;
      ghost var queue0 := queue;
      while left > 0
        invariant 0 <= left <= numBytes && left <= |Queued(queue)|
        invariant Queued(queue)[left..] == Queued(queue0)[numBytes..]
        invariant 0 <= k <= |queue0| && (left > 0 ==> queue == queue0[k..]) && IsRemainder(queue0, k, queue)
        decreases |queue|, left
        modifies {}
      {
        var sendreq := queue[0];
        if left >= |sendreq.data| {
          left := left - |sendreq.data|;
          QueuedTail(queue, left);
          queue := queue[1..];
          k := k + 1;
          if queue == [] {
            break;
          }
        } else {
          QueuedTrim(queue, left);
          queue := [sendreq.(data := sendreq.data[left..])] + queue[1..];
          left := 0;
        }
      }
      servers := servers[i := servers[i].(queue := queue)];
      assert IsRemainder(queue0, k, servers[i].queue);
    }

    lemma Accounts()
      requires Valid()
      ensures NoDup(Owners(callbacks))
      ensures forall h: Handle :: h < issued ==> h in effort && effort[h].sends <= Attempts(cfg) + 2
    {
    }

    lemma AllListed()
      requires Valid()
      ensures NoDup(links.all) && forall h :: h in links.all <==> h in queries
    {
      assert links.all + [] == links.all;
    }
  }

  // ---------------------------------------------------------------------
  // The TCP send queue.

  /** The bytes that are still to go out. */
  function Queued(queue: seq<SendReq>): seq<Byte> {
    if queue == [] then [] else queue[0].data + Queued(queue[1..])
  }

  /** rest is queue from request k on, perhaps with the front of that request already gone. */
  ghost predicate IsRemainder(queue: seq<SendReq>, k: nat, rest: seq<SendReq>)
    requires k <= |queue|
  {
    || rest == queue[k..]
    || (k < |queue| && rest != [] && rest[1..] == queue[k + 1..] && rest[0].owner == queue[k].owner
        && exists n :: 0 <= n <= |queue[k].data| && rest[0].data == queue[k].data[n..])
  }

  lemma QueuedTail(queue: seq<SendReq>, left: nat)
    requires queue != [] && left + |queue[0].data| <= |Queued(queue)|
    ensures Queued(queue)[left + |queue[0].data|..] == Queued(queue[1..])[left..]
  {
  }

  lemma QueuedTrim(queue: seq<SendReq>, left: nat)
    requires queue != [] && left <= |queue[0].data|
    ensures Queued([queue[0].(data := queue[0].data[left..])] + queue[1..]) == Queued(queue)[left..]
  {
    var queue' := [queue[0].(data := queue[0].data[left..])] + queue[1..];
    assert queue'[1..] == queue[1..];
  }

  // ---------------------------------------------------------------------
  // Whole runs.

  /** None of the queries on a list is the one that an answer belongs to. */
  ghost predicate NoneMatches(qs: Queries, list: seq<Handle>, abuf: seq<Byte>)
    requires |abuf| >= HFIXEDSZ
  {
    forall h :: h in list && h in qs ==> !Matches(qs[h], abuf)
  }

  /** What can happen to a channel; a WriteEvent says how many of the queued bytes a TCP socket takes, at most. */
  datatype Event =
    | SendEvent(packet: seq<Byte>, now: Time)
    | AnswerEvent(answer: Answer, now: Time)
    | TimeoutsEvent(now: Time)
    | ServerErrorEvent(server: nat, now: Time)
    | BrokenEvent(now: Time)
    | CancelEvent
    | WriteEvent(server: nat, taken: nat)

  /** The events happen at times that do not go back, and name servers that exist. */
  ghost predicate Feasible(events: seq<Event>, cfg: Config, start: Time) {
    if events == [] then true
    else
      match events[0]
      case CancelEvent => Feasible(events[1..], cfg, start)
      case WriteEvent(i, _) => i < cfg.nservers && Feasible(events[1..], cfg, start)
      case AnswerEvent(a, now) => Follows(now, start) && a.server < cfg.nservers && Feasible(events[1..], cfg, now)
      case ServerErrorEvent(i, now) => Follows(now, start) && i < cfg.nservers && Feasible(events[1..], cfg, now)
      case SendEvent(_, now) => Follows(now, start) && Feasible(events[1..], cfg, now)
      case TimeoutsEvent(now) => Follows(now, start) && Feasible(events[1..], cfg, now)
      case BrokenEvent(now) => Follows(now, start) && Feasible(events[1..], cfg, now)
  }

  /**
   * Any run of a channel, from its creation to its destruction, whatever the
   * sockets and the servers do: every call of ares_send has had exactly one
   * callback, and no query went out more often than its attempts allow, plus one
   * TCP upgrade and one EDNS fallback.
   */
  method Run(cfg: Config, edns: bool, start: Time, events: seq<Event>) returns (c: Channel)
    requires 0 < cfg.timeout <= INT_MAX && Normal(start) && 1 <= start.sec && Feasible(events, cfg, start)
    ensures fresh(c) && c.cfg == cfg && c.issued == SendCount(events)
    ensures NoDup(Owners(c.callbacks)) && forall h: Handle :: h in Owners(c.callbacks) <==> h < c.issued
    ensures forall h: Handle :: h < c.issued ==> h in c.effort && c.effort[h].sends <= Attempts(cfg) + 2
  {
    hide Indexed, Sound, QueryOk, CallbacksOk, EffortOk;
    c := new Channel(cfg, edns, start);
    assert events[0..] == events;
    for k := 0 to |events|
      invariant fresh(c) && c.cfg == cfg && c.Valid() && Feasible(events[k..], cfg, c.clock)
      invariant c.issued == SendCount(events[..k])
    {
      assert events[..k + 1][..k] == events[..k];
      assert events[k..][1..] == events[k + 1..];
      match events[k]
      case SendEvent(packet, now) =>
        var h, made := c.Send(packet, now);
      case AnswerEvent(answer, now) =>
        ghost var m, made := c.ProcessAnswer(answer, now);
      case TimeoutsEvent(now) => ghost var turns := c.ProcessTimeouts(now);
      case ServerErrorEvent(i, now) => ghost var turns := c.HandleError(i, now);
      case BrokenEvent(now) => ghost var moments, rounds := c.ProcessBroken(now);
      case CancelEvent => c.Cancel();
      case WriteEvent(i, taken) =>
        c.AdvanceTcpSendQueue(i, if taken <= |Queued(c.servers[i].queue)| then taken else |Queued(c.servers[i].queue)|);
    }
    assert events[..|events|] == events;
    c.Destroy();
    c.Accounts();
  }

  function SendCount(events: seq<Event>): nat {
    if events == [] then 0
    else SendCount(events[..|events| - 1]) + if events[|events| - 1].SendEvent? then 1 else 0
  }

  // ---------------------------------------------------------------------
  // Answers.

  /** An answer, the server whose socket it came from, and whether that was a TCP socket. */
  datatype Answer = Answer(packet: seq<Byte>, server: nat, tcp: bool)

  /** DNS_HEADER_TC */
  predicate Truncated(packet: seq<Byte>)
    requires |packet| >= HFIXEDSZ
  {
    packet[2] / 2 % 2 == 1
  }

  /** DNS_HEADER_RCODE */
  function Rcode(packet: seq<Byte>): nat
    requires |packet| >= HFIXEDSZ
  {
    packet[3] % 16
  }

  /** The answer has the query's id and asks its questions. */
  predicate Matches(q: Query, abuf: seq<Byte>)
    requires |abuf| >= HFIXEDSZ
  {
    q.qid == QidOf(abuf) && DnsMatch.SameQuestions(q.packet, abuf)
  }

  lemma MatchIsLong(q: Query, abuf: seq<Byte>)
    requires |abuf| >= HFIXEDSZ && Matches(q, abuf)
    ensures |q.packet| >= HFIXEDSZ
  {
  }

  datatype Verdict = Discard | WithoutEdns | OverTcp | AskAnother | Answered

  function Judge(q: Query, cfg: Config, edns: bool, a: Answer): Verdict
    requires |a.packet| >= HFIXEDSZ
  {
    var rcode := Rcode(a.packet);
    if edns && rcode in {NOTIMP, FORMERR, SERVFAIL} then WithoutEdns
    else if (Truncated(a.packet) || |a.packet| > if edns then cfg.ednspsz else PACKETSZ) && !a.tcp && !cfg.ignoreTruncation then
      if q.usingTcp then Discard else OverTcp
    else if !cfg.noCheckResp && rcode in {SERVFAIL, NOTIMP, REFUSED} then AskAnother
    else Answered
  }

  /** The length that is given to the caller with an answer: what is beyond the size of a UDP packet is cut off. */
  function AnswerLength(a: Answer, cfg: Config, edns: bool): (n: int)
    ensures a.tcp ==> n == |a.packet|
    ensures !a.tcp ==> n <= |a.packet| && n <= (if edns then cfg.ednspsz else 512)
    ensures !a.tcp ==> n == |a.packet| || n == if edns then cfg.ednspsz else 512
  {
    var packetsz := if edns then cfg.ednspsz else PACKETSZ;
    if |a.packet| > packetsz && !a.tcp then packetsz else |a.packet|
  }

  /** The packet without the additional record count and the OPT record at its end. */
  function StripEdns(packet: seq<Byte>): (p: seq<Byte>)
    requires |packet| >= HFIXEDSZ
    ensures |p| >= 1
  {
    packet[10 := 0][11 := 0][..|packet| - EDNSFIXEDSZ]
  }

  /** Query h was sent again with this packet and transport, or has ended in its error. */
  ghost predicate SentOver(h: Handle, packet: seq<Byte>, usingTcp: bool, now: Time,
                           qs0: Queries, qs: Queries, cbs0: seq<Callback>, cbs: seq<Callback>)
  {
    && h in qs0
    && (h in qs ==>
          && qs == qs0[h := qs[h]] && cbs == cbs0
          && qs[h].packet == packet && qs[h].usingTcp == usingTcp && qs[h].timeouts == qs0[h].timeouts
          && qs0[h].tryCount <= qs[h].tryCount && !TimedOutAt(now, qs[h].timeout))
    && (h !in qs ==> qs == qs0 - {h} && cbs == cbs0 + [Callback(h, qs0[h].errorStatus, qs0[h].timeouts)])
  }

  /** The effect of an answer, by verdict; no other query is touched. */
  ghost predicate AnswerTaken(v: Verdict, h: Handle, server: nat, abuf: seq<Byte>, alen: int, now: Time,
                              qs0: Queries, qs: Queries, cbs0: seq<Callback>, cbs: seq<Callback>, cfg: Config)
  {
    && h in qs0 && |qs0[h].packet| >= HFIXEDSZ
    && match v
       case Answered => qs == qs0 - {h} && cbs == cbs0 + [Callback(h, Success, qs0[h].timeouts, abuf, alen)]
       case Discard => qs == qs0 && cbs == cbs0
       case OverTcp => SentOver(h, qs0[h].packet, true, now, qs0, qs, cbs0, cbs)
       case WithoutEdns => SentOver(h, StripEdns(qs0[h].packet), qs0[h].usingTcp, now, qs0, qs, cbs0, cbs)
       case AskAnother =>
         if qs0[h].server == server then
           && SentOver(h, qs0[h].packet, qs0[h].usingTcp, now, qs0, qs, cbs0, cbs)
           && (h in qs ==> MovedOff(qs0[h], qs[h], server, now, cfg))
         else
           server < |qs0[h].info| && qs == qs0[h := Skip(qs0[h], server, cfg)] && cbs == cbs0
  }

  /**
   * The attempts made because of an answer: from the last one on when the query is
   * changed and sent again, behind it when its server is blamed, else none. The query
   * ends only with none left up to nservers * tries.
   */
  ghost predicate AnswerPursued(v: Verdict, h: Handle, server: nat, made: set<nat>, qs0: Queries, qs: Queries, first: nat,
                                servers0: seq<Server>, sends0: nat, sends: nat, cfg: Config)
  {
    && h in qs0 && sends == sends0 + |made|
    && var q, upto := qs0[h], if h in qs then qs[h].tryCount else cfg.nservers * cfg.tries;
       match v
       case Answered => made == {}
       case Discard => made == {}
       case OverTcp =>
         && q.tryCount in made && (h in qs ==> qs[h].tryCount in made)
         && Pursued(made, q.(usingTcp := true), first, q.tryCount, upto, servers0)
       case WithoutEdns =>
         && |q.packet| >= HFIXEDSZ && q.tryCount in made && (h in qs ==> qs[h].tryCount in made)
         && Pursued(made, q.(packet := StripEdns(q.packet)), first, q.tryCount, upto, servers0)
       case AskAnother =>
         if q.server == server then
           && server < |q.info| && (h in qs ==> qs[h].tryCount in made)
           && Pursued(made, Skip(q, server, cfg), first, q.tryCount + 1, upto, servers0)
         else made == {}
  }

  lemma SoundSame(qs: Queries, first: map<Handle, nat>, effort: map<Handle, Effort>, cfg: Config, edns: bool,
                  lastTimeout: int, h: Handle, q: Query)
    requires Sound(qs, {}, first, effort, cfg, edns, lastTimeout) && h in qs && h in first && h in effort
    requires QueryOk(q, first[h], effort[h], cfg, edns) && Settled(q, effort[h], lastTimeout)
    ensures Sound(qs[h := q], {}, first, effort, cfg, edns, lastTimeout)
  {
  }

  lemma NoneStolen(l: Links, h: Handle)
    requires l.stolen == [] && l.stolenAll == []
    ensures Unlink(l, h).stolen == [] && Unlink(l, h).stolenAll == []
    ensures forall b, s :: 0 <= b < |l.byTimeout| && 0 <= s < |l.toServer| ==>
              Relink(l, h, b, s).stolen == [] && Relink(l, h, b, s).stolenAll == []
  {
  }

  lemma FollowsSelf(now: Time, before: Time)
    requires Follows(now, before)
    ensures Follows(now, now)
  {
  }

  // ---------------------------------------------------------------------
  // Cancelling and destroying.

  /** One callback with this status for each query of a list, in order. */
  function Calls(hs: seq<Handle>, status: Status): seq<Callback> {
    seq(|hs|, i requires 0 <= i < |hs| => Callback(hs[i], status, 0))
  }

  lemma CallsNone(todo: seq<Handle>, status: Status)
    ensures Calls(todo[..0], status) == []
  {
  }

  lemma CallsNext(todo: seq<Handle>, k: nat, status: Status)
    requires k < |todo|
    ensures Calls(todo[..k + 1], status) == Calls(todo[..k], status) + [Callback(todo[k], status, 0)]
    ensures todo[k..][1..] == todo[k + 1..]
  {
  }

  lemma AllStolen(qs: Queries, l: Links, l': Links, n: nat)
    requires Indexed(qs, l, n, {}) && l.stolenAll == [] && l' == l.(stolenAll := l.all, all := [])
    ensures Indexed(qs, l', n, {})
  {
    hide Filed, NoDup;
    assert l'.all + l'.stolenAll == l.all + l.stolenAll;
  }

  lemma StolenAllHead(qs: Queries, l: Links, n: nat, todo: seq<Handle>, k: nat)
    requires Indexed(qs, l, n, {}) && l.all == [] && k <= |todo| && l.stolenAll == todo[k..] && l.stolenAll != []
    ensures var h := l.stolenAll[0];
            && h == todo[k] && h in qs
            && Next(l.stolenAll, h) == First(todo[k + 1..]) && Without(l.stolenAll, h) == todo[k + 1..]
  {
    hide Filed;
    assert l.all + l.stolenAll == l.stolenAll;
    assert l.stolenAll[0] in l.stolenAll;
    HeadOff(l.stolenAll);
    assert todo[k..][1..] == todo[k + 1..];
  }

  lemma AllHead(qs: Queries, l: Links, n: nat, todo: seq<Handle>, k: nat)
    requires Indexed(qs, l, n, {}) && l.stolenAll == [] && k <= |todo| && l.all == todo[k..] && l.all != []
    ensures var h := l.all[0];
            && h == todo[k] && h in qs
            && Next(l.all, h) == First(todo[k + 1..]) && Without(l.all, h) == todo[k + 1..]
  {
    hide Filed;
    assert l.all + l.stolenAll == l.all;
    assert l.all[0] in l.all;
    HeadOff(l.all);
    assert todo[k..][1..] == todo[k + 1..];
  }

  lemma UnlinkAll(l: Links, h: Handle)
    ensures Unlink(l, h).all == Without(l.all, h) && Unlink(l, h).stolenAll == Without(l.stolenAll, h)
    ensures Unlink(l, h).stolen == Without(l.stolen, h) && Without([], h) == []
  {
  }

  lemma NothingLive(qs: Queries, l: Links, n: nat)
    requires Indexed(qs, l, n, {}) && l.all == [] && First(l.stolenAll) == None
    ensures qs == map[]
  {
    hide Filed, NoDup;
    assert l.all + l.stolenAll == [];
    forall h ensures h !in qs {
      assert h !in l.all + l.stolenAll;
    }
  }

  lemma EveryoneCalled(cbs: seq<Callback>, qs: Queries, issued: nat)
    requires CallbacksOk(cbs, qs, issued) && qs == map[]
    ensures forall h: Handle :: h in Owners(cbs) <==> h < issued
  {
  }

  // ---------------------------------------------------------------------
  // The timeout wheel.

  function Due(qs: Queries, now: Time): set<Handle> {
    set h | h in qs && TimedOutAt(now, qs[h].timeout)
  }

  /** A query that timed out once and was sent again. */
  ghost predicate Expired(q: Query, q': Query, now: Time) {
    && q'.timeouts == q.timeouts + 1 && q'.errorStatus == TimedOut
    && q'.packet == q.packet && q'.usingTcp == q.usingTcp
    && q.tryCount < q'.tryCount
    && !TimedOutAt(now, q'.timeout)
  }

  /** process_timeouts half way. */
  ghost predicate Expiring(qs0: Queries, qs: Queries, cbs0: seq<Callback>, cbs: seq<Callback>, now: Time) {
    && qs.Keys <= qs0.Keys && cbs0 <= cbs
    && (forall h :: h in qs0 && !TimedOutAt(now, qs0[h].timeout) ==> h in qs && qs[h] == qs0[h])
    && (forall h :: h in qs && TimedOutAt(now, qs0[h].timeout) ==> qs[h] == qs0[h] || Expired(qs0[h], qs[h], now))
    && (forall h :: h in qs0 && h !in qs ==> Callback(h, TimedOut, qs0[h].timeouts + 1) in cbs)
  }

  ghost predicate NoneDueBefore(qs: Queries, t: int, now: Time) {
    forall h :: h in qs && TimedOutAt(now, qs[h].timeout) ==> t <= qs[h].timeout.sec
  }

  lemma ExpireOne(qs0: Queries, qs: Queries, qs': Queries, cbs0: seq<Callback>, cbs: seq<Callback>, cbs': seq<Callback>,
                  h: Handle, t: int, now: Time)
    requires Expiring(qs0, qs, cbs0, cbs, now) && NoneDueBefore(qs, t, now)
    requires h in qs && TimedOutAt(now, qs[h].timeout)
    requires h in qs' ==> qs' == qs[h := qs'[h]] && cbs' == cbs && Expired(qs[h], qs'[h], now)
    requires h !in qs' ==> qs' == qs - {h} && cbs' == cbs + [Callback(h, TimedOut, qs[h].timeouts + 1)]
    ensures Expiring(qs0, qs', cbs0, cbs', now) && NoneDueBefore(qs', t, now)
    ensures |Due(qs', now)| < |Due(qs, now)|
  {
    assert qs[h] == qs0[h];
    assert cbs <= cbs';
    forall k | k in qs0 && k !in qs' ensures Callback(k, TimedOut, qs0[k].timeouts + 1) in cbs' {
      if k == h {
        assert cbs'[|cbs'| - 1] == Callback(h, TimedOut, qs[h].timeouts + 1);
      }
    }
    assert Due(qs', now) == Due(qs, now) - {h};
    assert h in Due(qs, now);
  }

  lemma ExpiringStarts(qs: Queries, cbs: seq<Callback>, first: map<Handle, nat>, effort: map<Handle, Effort>,
                       cfg: Config, edns: bool, lastTimeout: int, now: Time)
    requires Sound(qs, {}, first, effort, cfg, edns, lastTimeout)
    ensures Expiring(qs, qs, cbs, cbs, now) && NoneDueBefore(qs, lastTimeout, now)
  {
  }

  lemma ExpiringEnds(qs0: Queries, qs: Queries, cbs0: seq<Callback>, cbs: seq<Callback>, t: int, now: Time)
    requires Expiring(qs0, qs, cbs0, cbs, now) && NoneDueBefore(qs, t, now) && now.sec < t
    ensures qs.Keys <= qs0.Keys && cbs0 <= cbs
    ensures forall h :: h in qs0 && !TimedOutAt(now, qs0[h].timeout) ==> h in qs && qs[h] == qs0[h]
    ensures forall h :: h in qs && TimedOutAt(now, qs0[h].timeout) ==> Expired(qs0[h], qs[h], now)
    ensures forall h :: h in qs0 && h !in qs ==> Callback(h, TimedOut, qs0[h].timeouts + 1) in cbs
    ensures forall h :: h in qs ==> !TimedOutAt(now, qs[h].timeout)
  {
  }

  lemma SoundClock(qs: Queries, first: map<Handle, nat>, effort: map<Handle, Effort>, cfg: Config, edns: bool,
                   lastTimeout: int, now: Time)
    requires Sound(qs, {}, first, effort, cfg, edns, lastTimeout) && forall h :: h in qs ==> !TimedOutAt(now, qs[h].timeout)
    ensures Sound(qs, {}, first, effort, cfg, edns, now.sec)
  {
  }

  /** The walk along a bucket: what is behind the cursor is not due. */
  ghost predicate Walk(qs: Queries, list: seq<Handle>, pre: seq<Handle>, suf: seq<Handle>, now: Time) {
    && list == pre + suf && NoDup(list)
    && (forall h :: h in list ==> h in qs)
    && (forall h :: h in pre ==> !TimedOutAt(now, qs[h].timeout))
  }

  lemma WalkStarts(qs: Queries, l: Links, n: nat, b: nat, now: Time)
    requires Indexed(qs, l, n, {}) && l.stolen == [] && l.stolenAll == [] && b < TIMEOUT_TABLE_SIZE
    ensures |l.byTimeout| == TIMEOUT_TABLE_SIZE && Walk(qs, l.byTimeout[b], [], l.byTimeout[b], now)
  {
    var list := l.byTimeout[b];
    assert list == [] + list;
    forall h | h in list ensures h in qs { OnItsLists(qs, l, n, h); }
    OnItsLists(qs, l, n, 0);
  }

  lemma WalkHere(qs: Queries, list: seq<Handle>, pre: seq<Handle>, suf: seq<Handle>, now: Time)
    requires Walk(qs, list, pre, suf, now) && suf != []
    ensures suf[0] in qs && list == pre + [suf[0]] + suf[1..]
    ensures Next(list, suf[0]) == First(suf[1..]) && Without(list, suf[0]) == pre + suf[1..]
    ensures suf[0] !in pre && suf[0] !in suf[1..]
  {
    assert list == pre + [suf[0]] + suf[1..];
    assert list[|pre|] == suf[0];
    NextInside(pre, suf[0], suf[1..]);
    WithoutMiddle(pre, suf[0], suf[1..]);
    forall i | 0 <= i < |pre| ensures pre[i] != suf[0] { assert list[i] == pre[i]; }
    forall i | 0 <= i < |suf| - 1 ensures suf[1..][i] != suf[0] { assert list[|pre| + 1 + i] == suf[1..][i]; }
  }

  lemma WalkPast(qs: Queries, list: seq<Handle>, pre: seq<Handle>, suf: seq<Handle>, now: Time)
    requires Walk(qs, list, pre, suf, now) && suf != [] && !TimedOutAt(now, qs[suf[0]].timeout)
    ensures Walk(qs, list, pre + [suf[0]], suf[1..], now)
  {
    assert list == pre + [suf[0]] + suf[1..];
  }

  /** The query at the cursor has left the bucket, or has come back at its end with a later timeout. */
  lemma WalkMoved(qs: Queries, qs': Queries, list: seq<Handle>, list': seq<Handle>, pre: seq<Handle>, suf: seq<Handle>, now: Time)
    returns (pre': seq<Handle>, suf': seq<Handle>)
    requires Walk(qs, list, pre, suf, now) && suf != []
    requires var h := suf[0];
             && (list' == Without(list, h) || (h in qs' && list' == Without(list, h) + [h]))
             && (forall k :: k in qs && k != h ==> k in qs' && qs'[k] == qs[k])
             && (h in qs' ==> !TimedOutAt(now, qs'[h].timeout))
    ensures Walk(qs', list', pre', suf', now) && First(suf') == First(suf[1..])
  {
    var h, rest := suf[0], suf[1..];
    WalkHere(qs, list, pre, suf, now);
    WithoutMembers(list, h);
    if list' == Without(list, h) {
      pre', suf' := pre, rest;
    } else {
      NoDupAppend(Without(list, h), h);
      if rest == [] {
        pre', suf' := pre + [h], [];
        assert list' == pre' + suf';
      } else {
        pre', suf' := pre, rest + [h];
        assert list' == pre' + suf';
      }
    }
  }

  lemma BucketAfter(l: Links, h: Handle, b: nat)
    requires |l.byTimeout| == TIMEOUT_TABLE_SIZE && b < TIMEOUT_TABLE_SIZE
    ensures Unlink(l, h).byTimeout[b] == Without(l.byTimeout[b], h)
    ensures forall i, s :: 0 <= i < TIMEOUT_TABLE_SIZE && 0 <= s < |l.toServer| ==>
              Relink(l, h, i, s).byTimeout[b] == Without(l.byTimeout[b], h) + if i == b then [h] else []
  {
  }

  /** With its bucket walked, no query whose timeout falls into second t is due any more. */
  lemma BucketDone(qs: Queries, l: Links, n: nat, t: int, pre: seq<Handle>, suf: seq<Handle>, now: Time)
    requires Indexed(qs, l, n, {}) && l.stolen == [] && l.stolenAll == []
    requires |l.byTimeout| == TIMEOUT_TABLE_SIZE
    requires Walk(qs, l.byTimeout[t % TIMEOUT_TABLE_SIZE], pre, suf, now) && First(suf) == None
    requires NoneDueBefore(qs, t, now)
    ensures NoneDueBefore(qs, t + 1, now)
  {
    forall h | h in qs && TimedOutAt(now, qs[h].timeout)
      ensures t + 1 <= qs[h].timeout.sec
    {
      OnItsLists(qs, l, n, h);
      assert l.byTimeout[t % TIMEOUT_TABLE_SIZE] == pre;
    }
  }

  lemma UnlinkStolen(l: Links, h: Handle)
    ensures Unlink(l, h).stolen == Without(l.stolen, h)
    ensures Unlink(l, h).stolenAll == Without(l.stolenAll, h)
    ensures Without([], h) == []
    ensures forall b, s :: 0 <= b < |l.byTimeout| && 0 <= s < |l.toServer| ==>
              Relink(l, h, b, s).stolen == Without(l.stolen, h) && Relink(l, h, b, s).stolenAll == l.stolenAll
  {
  }

  /**
   * handle_error half way: the stolen queries still wait, the others of server i
   * have moved on, the rest is untouched.
   */
  ghost predicate Moving(qs0: Queries, qs: Queries, stolen: seq<Handle>, i: nat, now: Time, cfg: Config) {
    && NoDup(stolen) && qs.Keys <= qs0.Keys
    && (forall h :: h in stolen ==> h in qs && qs[h] == qs0[h] && qs[h].server == i)
    && (forall h :: h in qs0 && qs0[h].server != i ==> h in qs && qs[h] == qs0[h])
    && (forall h :: h in qs && h !in stolen && qs0[h].server == i ==> MovedOff(qs0[h], qs[h], i, now, cfg))
  }

  ghost predicate MovedOff(q: Query, q': Query, i: nat, now: Time, cfg: Config) {
    && q.tryCount < q'.tryCount && q'.errorStatus == q.errorStatus && q'.timeouts == q.timeouts
    && (cfg.nservers > 1 ==> q'.server != i)
    && !TimedOutAt(now, q'.timeout)
  }

  /** The queries that are live no more have had their callbacks, with the status and count they had. */
  ghost predicate Ended(qs0: Queries, qs: Queries, cbs0: seq<Callback>, cbs: seq<Callback>) {
    && cbs0 <= cbs
    && forall h :: h in qs0 && h !in qs ==> Callback(h, qs0[h].errorStatus, qs0[h].timeouts) in cbs
  }

  lemma EndedNone(qs: Queries, cbs: seq<Callback>)
    ensures Ended(qs, qs, cbs, cbs)
  {
  }

  lemma EndedStep(qs0: Queries, qs: Queries, qs': Queries, cbs0: seq<Callback>, cbs: seq<Callback>, cbs': seq<Callback>, h: Handle, q: Query)
    requires Ended(qs0, qs, cbs0, cbs) && h in qs && h in qs0
    requires q.errorStatus == qs0[h].errorStatus && q.timeouts == qs0[h].timeouts
    requires h in qs' ==> qs' == qs[h := qs'[h]] && cbs' == cbs
    requires h !in qs' ==> qs' == qs - {h} && cbs' == cbs + [Callback(h, q.errorStatus, q.timeouts)]
    ensures Ended(qs0, qs', cbs0, cbs')
  {
    assert cbs <= cbs';
    forall k | k in qs0 && k !in qs' ensures Callback(k, qs0[k].errorStatus, qs0[k].timeouts) in cbs' {
      if k == h {
        assert cbs'[|cbs|] == Callback(h, q.errorStatus, q.timeouts);
      }
    }
  }

  /** process_broken_connections with the first k servers seen to. */
  ghost predicate Clearing(qs0: Queries, qs: Queries, cbs0: seq<Callback>, cbs: seq<Callback>,
                           servers0: seq<Server>, servers: seq<Server>, k: nat)
  {
    && Ended(qs0, qs, cbs0, cbs) && qs.Keys <= qs0.Keys && |servers| == |servers0|
    && (forall h :: h in qs ==>
          && qs[h].errorStatus == qs0[h].errorStatus && qs[h].timeouts == qs0[h].timeouts
          && (qs[h] == qs0[h] || qs0[h].tryCount < qs[h].tryCount))
    && (forall h :: h in qs && qs0[h].server < k && qs0[h].server < |servers0| && servers0[qs0[h].server].isBroken ==>
          qs0[h].tryCount < qs[h].tryCount)
    && (forall j :: k <= j < |servers0| && servers0[j].isBroken ==> servers[j].isBroken || qs == map[])
  }

  lemma ClearingStarts(qs: Queries, cbs: seq<Callback>, servers: seq<Server>)
    ensures Clearing(qs, qs, cbs, cbs, servers, servers, 0)
  {
  }

  lemma ClearingPast(qs0: Queries, qs: Queries, cbs0: seq<Callback>, cbs: seq<Callback>, servers0: seq<Server>, servers: seq<Server>, k: nat)
    requires Clearing(qs0, qs, cbs0, cbs, servers0, servers, k) && k < |servers| && !servers[k].isBroken
    ensures Clearing(qs0, qs, cbs0, cbs, servers0, servers, k + 1)
  {
  }

  lemma ClearingStep(qs0: Queries, qs: Queries, qs': Queries, cbs0: seq<Callback>, cbs: seq<Callback>, cbs': seq<Callback>,
                     servers0: seq<Server>, servers: seq<Server>, servers': seq<Server>, k: nat, now: Time, cfg: Config)
    requires Clearing(qs0, qs, cbs0, cbs, servers0, servers, k) && k < |servers| == |servers'|
    requires qs'.Keys <= qs.Keys && Ended(qs, qs', cbs, cbs') && (qs' == map[] || Stood(Reset(servers, k), servers', qs.Keys - qs'.Keys))
    requires forall h :: h in qs && qs[h].server != k ==> h in qs' && qs'[h] == qs[h]
    requires forall h :: h in qs' && qs[h].server == k ==> MovedOff(qs[h], qs'[h], k, now, cfg)
    ensures Clearing(qs0, qs', cbs0, cbs', servers0, servers', k + 1)
  {
    assert Ended(qs0, qs', cbs0, cbs') by {
      forall h | h in qs0 && h !in qs' ensures Callback(h, qs0[h].errorStatus, qs0[h].timeouts) in cbs' {
        if h in qs {
          assert Callback(h, qs[h].errorStatus, qs[h].timeouts) in cbs';
        }
      }
    }
    assert qs == map[] ==> qs' == map[];
  }

  lemma ClearingEnds(qs0: Queries, qs: Queries, cbs0: seq<Callback>, cbs: seq<Callback>, servers0: seq<Server>, servers: seq<Server>)
    requires Clearing(qs0, qs, cbs0, cbs, servers0, servers, |servers0|)
    ensures Ended(qs0, qs, cbs0, cbs) && qs.Keys <= qs0.Keys
    ensures forall h :: h in qs ==> h in qs0 && (qs[h] == qs0[h] || qs0[h].tryCount < qs[h].tryCount)
    ensures forall h :: h in qs && qs0[h].server < |servers0| && servers0[qs0[h].server].isBroken ==> qs0[h].tryCount < qs[h].tryCount
  {
  }

  /** The queries that an error of server i gives up, with that server to be skipped. */
  ghost function GivenUp(qs: Queries, i: nat, cfg: Config): map<Handle, Query> {
    map h | h in qs && qs[h].server == i :: if i < |qs[h].info| then Skip(qs[h], i, cfg) else qs[h]
  }

  lemma GivenUpAt(qs: Queries, i: nat, cfg: Config, h: Handle)
    requires h in qs && qs[h].server == i < |qs[h].info|
    ensures h in GivenUp(qs, i, cfg) && GivenUp(qs, i, cfg)[h] == Skip(qs[h], i, cfg)
    ensures Skip(qs[h], i, cfg).tryCount == qs[h].tryCount
  {
  }

  lemma GivenUpAreLive(qs: Queries, i: nat, cfg: Config)
    ensures GivenUp(qs, i, cfg).Keys <= qs.Keys
  {
  }

  /** Server i with its sockets closed. */
  ghost function Reset(servers: seq<Server>, i: nat): seq<Server> {
    if i < |servers| then servers[i := Closed(servers[i], servers[i].generation)] else servers
  }

  lemma ResetStands(servers: seq<Server>, servers': seq<Server>, i: nat)
    requires i < |servers| == |servers'| && !servers'[i].isBroken
    requires forall j :: 0 <= j < |servers| && j != i ==> servers'[j] == servers[j]
    ensures Stood(Reset(servers, i), servers', {})
  {
  }

  /** Every query of the server has moved. */
  lemma GivenUpAll(turns: map<Handle, Turn>, m0: Moment, i: nat, m: Moment, first: map<Handle, nat>, cfg: Config, now: Time)
    requires Turning(turns, m0, GivenUp(m0.queries, i, cfg), m, first, cfg)
    requires forall h :: h in m.queries && h in m0.queries && m0.queries[h].server == i ==> MovedOff(m0.queries[h], m.queries[h], i, now, cfg)
    ensures Turned(turns, m0, GivenUp(m0.queries, i, cfg), m, first, cfg)
  {
    hide AllTaken, InOrder, Stood;
    var given := GivenUp(m0.queries, i, cfg);
    forall h | h in given ensures h in turns {
      assert h in m0.queries && m0.queries[h].server == i;
    }
    assert turns.Keys == given.Keys;
  }

  lemma StoodOf(turns: map<Handle, Turn>, m0: Moment, i: nat, m: Moment, first: map<Handle, nat>, cfg: Config)
    requires Turned(turns, m0.(servers := Reset(m0.servers, i)), GivenUp(m0.queries, i, cfg), m, first, cfg)
    ensures m.queries == map[] || Stood(Reset(m0.servers, i), m.servers, m0.queries.Keys - m.queries.Keys)
  {
    hide AllTaken, InOrder, Stood, OthersWait, GivenUp, Reset;
  }

  /** What process_broken_connections does about server i: handle_error if it is broken then. */
  ghost predicate Round(i: nat, m: Moment, m': Moment, turns: map<Handle, Turn>, first: map<Handle, nat>, cfg: Config) {
    && i < |m.servers|
    && if m.servers[i].isBroken then
         Turned(turns, m.(servers := Reset(m.servers, i)), GivenUp(m.queries, i, cfg), m', first, cfg)
       else m' == m && turns == map[]
  }

  ghost predicate RoundsTo(n: nat, moments: seq<Moment>, rounds: seq<map<Handle, Turn>>, m0: Moment, m: Moment,
                           first: map<Handle, nat>, cfg: Config)
  {
    && |rounds| == n && |moments| == n + 1 && moments[0] == m0 && moments[n] == m
    && forall i :: 0 <= i < n ==> Round(i, moments[i], moments[i + 1], rounds[i], first, cfg)
  }

  /** Server by server, from m0 to m, with the turns of the queries that are given up for each. */
  ghost predicate Rounds(moments: seq<Moment>, rounds: seq<map<Handle, Turn>>, m0: Moment, m: Moment, first: map<Handle, nat>, cfg: Config) {
    RoundsTo(cfg.nservers, moments, rounds, m0, m, first, cfg)
  }

  lemma RoundsStart(m: Moment, first: map<Handle, nat>, cfg: Config)
    ensures RoundsTo(0, [m], [], m, m, first, cfg)
  {
  }

  lemma RoundsStep(n: nat, moments: seq<Moment>, rounds: seq<map<Handle, Turn>>, m0: Moment, m: Moment, m': Moment, turns: map<Handle, Turn>,
                   first: map<Handle, nat>, cfg: Config)
    requires RoundsTo(n, moments, rounds, m0, m, first, cfg) && n < |m.servers|
    requires m.servers[n].isBroken ==>
               Turned(turns, m.(servers := Reset(m.servers, n)), GivenUp(m.queries, n, cfg), m', first, cfg)
    requires !m.servers[n].isBroken ==> m' == m && turns == map[]
    ensures RoundsTo(n + 1, moments + [m'], rounds + [turns], m0, m', first, cfg)
  {
    hide Turned, GivenUp, Reset;
  }

  lemma RoundsEnd(moments: seq<Moment>, rounds: seq<map<Handle, Turn>>, m0: Moment, m: Moment, first: map<Handle, nat>, cfg: Config)
    requires RoundsTo(cfg.nservers, moments, rounds, m0, m, first, cfg)
    ensures Rounds(moments, rounds, m0, m, first, cfg)
  {
  }

  /** The queries that are due. */
  ghost function DueAt(qs: Queries, now: Time): map<Handle, Query> {
    map h | h in qs && TimedOutAt(now, qs[h].timeout) :: qs[h]
  }

  lemma DueAreLive(qs: Queries, now: Time)
    ensures DueAt(qs, now).Keys <= qs.Keys
  {
  }

  lemma DueIsUntouched(qs0: Queries, qs: Queries, cbs0: seq<Callback>, cbs: seq<Callback>, h: Handle, now: Time)
    requires Expiring(qs0, qs, cbs0, cbs, now) && h in qs && TimedOutAt(now, qs[h].timeout)
    ensures h in qs0 && qs[h] == qs0[h] && h in DueAt(qs0, now) && DueAt(qs0, now)[h] == qs[h]
  {
  }

  /** Every query that was due has had its turn. */
  lemma DueAll(turns: map<Handle, Turn>, m0: Moment, m: Moment, first: map<Handle, nat>, cfg: Config, now: Time)
    requires Turning(turns, m0, DueAt(m0.queries, now), m, first, cfg)
    requires forall h :: h in m.queries ==> !TimedOutAt(now, m.queries[h].timeout)
    ensures Turned(turns, m0, DueAt(m0.queries, now), m, first, cfg)
  {
    hide AllTaken, InOrder, Stood, TimedOutAt;
    var given := DueAt(m0.queries, now);
    forall h | h in given ensures h in turns {
      assert h in m0.queries && TimedOutAt(now, m0.queries[h].timeout);
    }
    assert turns.Keys == given.Keys;
  }

  lemma MovingStarts(qs: Queries, list: seq<Handle>, i: nat, now: Time, cfg: Config)
    requires NoDup(list) && forall h :: h in list <==> h in qs && qs[h].server == i
    ensures Moving(qs, qs, list, i, now, cfg)
  {
  }

  lemma HeadOff(s: seq<Handle>)
    requires NoDup(s) && s != []
    ensures s == [s[0]] + s[1..] && NoDup(s[1..]) && s[0] !in s[1..]
    ensures Next(s, s[0]) == First(s[1..]) && Without(s, s[0]) == s[1..]
  {
    hide Without, Next, First;
    var h, rest := s[0], s[1..];
    assert [] + [h] + rest == s && [] + rest == rest;
    assert h !in rest;
    WithoutMiddle([], h, rest);
    NextInside([], h, rest);
  }

  lemma MovingHead(qs0: Queries, qs: Queries, stolen: seq<Handle>, i: nat, now: Time, cfg: Config)
    requires Moving(qs0, qs, stolen, i, now, cfg) && stolen != []
    ensures var h, rest := stolen[0], stolen[1..];
            && h in qs && qs[h].server == i && h in qs0 && qs[h] == qs0[h] && qs0[h].server == i
            && Next(stolen, h) == First(rest) && Without(stolen, h) == rest
            && NoDup(rest) && h !in rest && stolen == [h] + rest
  {
    HeadOff(stolen);
  }

  lemma MovingStep(qs0: Queries, qs: Queries, qs': Queries, h: Handle, rest: seq<Handle>, q: Query, i: nat, now: Time, cfg: Config)
    requires Moving(qs0, qs, [h] + rest, i, now, cfg) && NoDup(rest) && h !in rest
    requires h in qs && i < |qs[h].info| && q == Skip(qs[h], i, cfg) && Normal(now)
    requires h in qs' ==> qs' == qs[h := qs'[h]] && q.tryCount < qs'[h].tryCount && Resent(q, qs'[h], now, cfg)
    requires h !in qs' ==> qs' == qs - {h}
    ensures Moving(qs0, qs', rest, i, now, cfg)
  {
    if h in qs' {
      SkippedIsLeft(qs[h], q, qs'[h], i, now, cfg);
    }
    assert h in [h] + rest;
    forall k | k in rest ensures k in qs' && qs'[k] == qs0[k] && qs'[k].server == i {
      assert k in [h] + rest;
    }
    forall k | k in qs' && k !in rest && qs0[k].server == i ensures MovedOff(qs0[k], qs'[k], i, now, cfg) {
      if k != h {
        assert k !in [h] + rest;
      }
    }
  }

  lemma MovingEnds(qs0: Queries, qs: Queries, stolen: seq<Handle>, i: nat, now: Time, cfg: Config)
    requires Moving(qs0, qs, stolen, i, now, cfg) && First(stolen) == None
    ensures stolen == [] && qs.Keys <= qs0.Keys
    ensures forall h :: h in qs0 && qs0[h].server != i ==> h in qs && qs[h] == qs0[h]
    ensures forall h :: h in qs && qs0[h].server == i ==> MovedOff(qs0[h], qs[h], i, now, cfg)
  {
  }

  lemma SkipFrame(q: Query, i: nat, cfg: Config)
    requires i < |q.info|
    ensures Skip(q, i, cfg) == q.(info := Skip(q, i, cfg).info) && |Skip(q, i, cfg).info| == |q.info|
  {
  }

  lemma SkippedIsLeft(q: Query, skipped: Query, q': Query, i: nat, now: Time, cfg: Config)
    requires i < |q.info| && skipped == Skip(q, i, cfg) && Resent(skipped, q', now, cfg) && Normal(now)
    ensures cfg.nservers > 1 ==> q'.server != i
    ensures !TimedOutAt(now, q'.timeout) && q'.errorStatus == q.errorStatus && q'.timeouts == q.timeouts
  {
    ResentIsAhead(skipped, q', now, cfg);
  }

  lemma SettledCredit(q: Query, e: Effort, lastTimeout: int)
    requires Settled(q, e, lastTimeout)
    ensures e.sends <= q.tryCount + 1 + e.upgrades + e.fallbacks
    ensures lastTimeout <= q.timeout.sec && Normal(q.timeout)
    ensures q.server < |q.info| && !q.info[q.server].skip
  {
  }
}
