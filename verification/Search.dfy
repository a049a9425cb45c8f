/**
 * The domain search of c-ares (ares_search.c): a state machine that tries a name as
 * it is and under each search domain, one query after the other.
 */
module Search {
  import opened Bytes
  import DnsName

  type Name = seq<Byte>

  const ARES_ENODATA := 1
  const ARES_ESERVFAIL := 3
  const ARES_ENOTFOUND := 4

  /** What ares_query reports to its callback. */
  datatype Reply = Reply(status: nat, timeouts: nat, body: seq<Byte>)

  /** alias is the host alias of the name that is looked up, if the environment has one. */
  datatype Config = Config(domains: seq<Name>, ndots: int, noSearch: bool, noAliases: bool, alias: Option<Name>)

  /** The answers after which the search goes on. */
  predicate Soft(status: nat) {
    status == ARES_ENODATA || status == ARES_ESERVFAIL || status == ARES_ENOTFOUND
  }

  function Dots(name: Name): nat {
    if name == [] then 0 else (if name[0] == DOT then 1 else 0) + Dots(name[1..])
  }

  /** cat_domain */
  function Under(name: Name, domain: Name): Name {
    name + [DOT] + domain
  }

  function UnderAll(name: Name, domains: seq<Name>): (s: seq<Name>)
    ensures |s| == |domains|
  {
    seq(|domains|, i requires 0 <= i < |domains| => Under(name, domains[i]))
  }

  predicate AsIsFirst(c: Config, name: Name) {
    Dots(name) >= c.ndots
  }

  /** The names of a search in their order. */
  function Plan(c: Config, name: Name): (plan: seq<Name>)
    ensures |plan| == |c.domains| + 1
  {
    if AsIsFirst(c, name) then [name] + UnderAll(name, c.domains) else UnderAll(name, c.domains) + [name]
  }

  function AsIsAt(c: Config, name: Name): (k: nat)
    ensures k <= |c.domains| && Plan(c, name)[k] == name
  {
    if AsIsFirst(c, name) then 0 else |c.domains|
  }

  function TotalTimeouts(replies: nat -> Reply, n: nat): nat {
    if n == 0 then 0 else TotalTimeouts(replies, n - 1) + replies(n - 1).timeouts
  }

  /** Has one of the first n answers been NODATA? */
  ghost predicate GotNodata(replies: nat -> Reply, n: nat) {
    exists j: nat :: j < n && replies(j).status == ARES_ENODATA
  }

  /** single_domain: the one name to query, if there is only one. */
  function SingleDomain(c: Config, name: Name): Option<Name> {
    if name != [] && name[|name| - 1] == DOT then Some(name)
    else if !c.noAliases && DOT !in name && c.alias.Some? then c.alias
    else if c.noSearch || c.domains == [] then Some(name)
    else None
  }

  class SearchQuery {
    const c: Config
    const name: Name
    /** -1 until the name as it is has been answered. */
    var statusAsIs: int
    var nextDomain: nat
    var tryingAsIs: bool
    var timeouts: nat
    var everGotNodata: bool
    /** The queries that have been sent, and the report to the caller. */
    var asked: seq<Name>
    var report: Option<Reply>

    /** The state of the search when its first n queries have been answered, softly. */
    ghost predicate Counted(replies: nat -> Reply, n: nat)
      reads this
    {
      && c.domains != [] && report == None
      && 0 < |asked| && asked <= Plan(c, name)
      && (forall j: nat :: j < n ==> Soft(replies(j).status))
      && timeouts == TotalTimeouts(replies, n)
      && (everGotNodata <==> GotNodata(replies, n))
      && (tryingAsIs <==> |asked| - 1 == AsIsAt(c, name))
      && nextDomain == (if AsIsFirst(c, name) then |asked| - 1 else if |asked| <= |c.domains| then |asked| else |c.domains|)
      && statusAsIs == (if AsIsAt(c, name) < n then replies(AsIsAt(c, name)).status else -1)
    }

    /** The last query of asked has not been answered; the others have been by the first replies. */
    ghost predicate Asking(replies: nat -> Reply)
      reads this
    {
      0 < |asked| && Counted(replies, |asked| - 1)
    }

    /** ares_search from the allocation of the state to the first query. */
    constructor (c: Config, name: Name, ghost replies: nat -> Reply)
      requires c.domains != []
      ensures Asking(replies) && |asked| == 1 && this.c == c && this.name == name
    {
      this.c, this.name := c, name;
      statusAsIs, timeouts, everGotNodata, report := -1, 0, false, None;
      var ndots := CountDots(name);
      if ndots >= c.ndots {
        nextDomain, tryingAsIs := 0, true;
        asked := [name];
      } else {
        nextDomain, tryingAsIs := 1, false;
        asked := [Under(name, c.domains[0])];
      }
    }

    /** search_callback on the answer to the last query. */
    method SearchCallback(reply: Reply, ghost replies: nat -> Reply)
      requires Asking(replies) && reply == replies(|asked| - 1)
      modifies this
      ensures report == None ==> Asking(replies) && |asked| == |old(asked)| + 1 && Soft(reply.status)
      ensures report.Some? ==> asked == old(asked) && Finished(replies)
    {
      if !Soft(reply.status) {
        timeouts := timeouts + reply.timeouts;
        EndSquery(reply.status, reply.body);
      } else {
        hide Counted;
        Record(reply, replies);
        TryNext(replies);
      }
    }

    /** A soft answer. */
    method Record(reply: Reply, ghost replies: nat -> Reply)
      requires Asking(replies) && reply == replies(|asked| - 1) && Soft(reply.status)
      modifies this`timeouts, this`statusAsIs, this`everGotNodata
      ensures Counted(replies, |asked|)
    {
      NodataStep(replies, |asked| - 1);
      hide GotNodata, Soft, Plan, Dots;
      timeouts := timeouts + reply.timeouts;
      if tryingAsIs {
        statusAsIs := reply.status;
      }
      if reply.status == ARES_ENODATA {
        everGotNodata := true;
      }
    }

    /** The next query, or the end. */
    method TryNext(ghost replies: nat -> Reply)
      requires Counted(replies, |asked|)
      modifies this
      ensures report == None ==> Asking(replies) && |asked| == |old(asked)| + 1
      ensures report.Some? ==> asked == old(asked) && Finished(replies)
    {
      PlanAt(c, name, |asked|);
      hide GotNodata, TotalTimeouts, Plan, Dots, Under;
      if nextDomain < |c.domains| {
        tryingAsIs := false;
        asked := asked + [Under(name, c.domains[nextDomain])];
        nextDomain := nextDomain + 1;
      } else if statusAsIs == -1 {
        tryingAsIs := true;
        asked := asked + [name];
      } else if statusAsIs == ARES_ENOTFOUND && everGotNodata {
        EndSquery(ARES_ENODATA, []);
      } else {
        EndSquery(statusAsIs, []);
      }
    }

    method EndSquery(status: nat, body: seq<Byte>)
      modifies this`report
      ensures report == Some(Reply(status, timeouts, body))
    {
      report := Some(Reply(status, timeouts, body));
    }

    ghost predicate Finished(replies: nat -> Reply)
      reads this
    {
      report.Some? && Answers(c, name, replies, asked, report.value)
    }
  }

  /**
   * What a search is: the names of the plan are asked in turn until an answer is not
   * soft, which is then the result. If all answers are soft, the result is the status of
   * the name as it is, except that NOTFOUND becomes NODATA if NODATA was ever seen.
   */
  ghost predicate Answers(c: Config, name: Name, replies: nat -> Reply, asked: seq<Name>, result: Reply) {
    && 0 < |asked| && asked <= Plan(c, name)
    && (forall j: nat :: j < |asked| - 1 ==> Soft(replies(j).status))
    && result.timeouts == TotalTimeouts(replies, |asked|)
    && var last := replies(|asked| - 1);
       if !Soft(last.status) then result.status == last.status && result.body == last.body
       else
         && |asked| == |c.domains| + 1 && result.body == []
         && var asIs := replies(AsIsAt(c, name)).status;
            result.status == if asIs == ARES_ENOTFOUND && GotNodata(replies, |asked|) then ARES_ENODATA else asIs
  }

  lemma PlanAt(c: Config, name: Name, k: nat)
    ensures k <= |c.domains| ==>
              Plan(c, name)[k] == if k == AsIsAt(c, name) then name
                                  else Under(name, c.domains[if AsIsFirst(c, name) then k - 1 else k])
  {
  }

  lemma NodataStep(replies: nat -> Reply, n: nat)
    ensures GotNodata(replies, n + 1) <==> GotNodata(replies, n) || replies(n).status == ARES_ENODATA
  {
    if replies(n).status == ARES_ENODATA {
      assert n < n + 1;
    }
    if GotNodata(replies, n) {
      var j: nat :| j < n && replies(j).status == ARES_ENODATA;
      assert j < n + 1;
    }
  }

  method CountDots(name: Name) returns (ndots: nat)
    ensures ndots == Dots(name)
  {
    ndots := 0;
    assert name[0..] == name;
    for p := 0 to |name|
      invariant ndots + Dots(name[p..]) == Dots(name)
    {
      assert name[p..][1..] == name[p + 1..];
      if name[p] == DOT {
        ndots := ndots + 1;
      }
    }
  }

  /** ares_search, where the k-th query of the search is answered by replies(k). */
  method Search(c: Config, name: Name, replies: nat -> Reply) returns (asked: seq<Name>, result: Reply)
    ensures DnsName.IsOnion(name) ==> asked == [] && result == Reply(ARES_ENOTFOUND, 0, [])
    ensures !DnsName.IsOnion(name) && SingleDomain(c, name).Some? ==>
              asked == [SingleDomain(c, name).value] && result == replies(0)
    ensures !DnsName.IsOnion(name) && SingleDomain(c, name) == None ==> Answers(c, name, replies, asked, result)
    ensures var absolute := name != [] && name[|name| - 1] == 46;
            var aliased := 46 !in name && !c.noAliases && c.alias.Some?;
            SingleDomain(c, name) ==
              if absolute then Some(name)
              else if aliased then c.alias
              else if c.noSearch || |c.domains| == 0 then Some(name)
              else None
    ensures !DnsName.IsOnion(name) && SingleDomain(c, name) == None ==>
              && 0 < |asked| && (forall j: nat :: j < |asked| - 1 ==> replies(j).status in {1, 3, 4})
              && (0 < |asked| <= |c.domains| ==> replies(|asked| - 1).status !in {1, 3, 4})
              && (replies(|asked| - 1).status in {1, 3, 4} ==>
                    var asIs := replies(AsIsAt(c, name)).status;
                    result.status == if asIs == 4 && exists j: nat :: j < |asked| && replies(j).status == 1 then 1 else asIs)
  {
    if DnsName.IsOnion(name) {
      return [], Reply(ARES_ENOTFOUND, 0, []);
    }
    var single := SingleDomain(c, name);
    if single.Some? {
      return [single.value], replies(0);
    }
    var squery := new SearchQuery(c, name, replies);
    while squery.report == None
      invariant fresh(squery) && squery.c == c && squery.name == name
      invariant if squery.report == None then squery.Asking(replies) else squery.Finished(replies)
      decreases |c.domains| + 1 - |squery.asked|, if squery.report == None then 1 else 0
    {
      squery.SearchCallback(replies(|squery.asked| - 1), replies);
    }
    return squery.asked, squery.report.value;
  }

  // ---------------------------------------------------------------------
  // What the names are.

  lemma {:induction false} DotsAreDots(name: Name)
    ensures Dots(name) == multiset(name)[46]
  {
    if name != [] {
      assert name == [name[0]] + name[1..];
      DotsAreDots(name[1..]);
    }
  }

  /** The name as it is comes first if it has at least ndots dots, and last otherwise; the domains come in their order. */
  lemma PlanExactly(c: Config, name: Name)
    ensures multiset(name)[46] >= c.ndots ==> Plan(c, name)[0] == name
    ensures multiset(name)[46] < c.ndots ==> Plan(c, name)[|c.domains|] == name
    ensures forall k :: 0 <= k < |c.domains| ==>
              Plan(c, name)[if multiset(name)[46] >= c.ndots then k + 1 else k] == name + [46] + c.domains[k]
  {
    DotsAreDots(name);
  }

  /** The last character is a backslash that escapes what is put behind it. */
  predicate Dangles(s: seq<Byte>) {
    s != [] && if s[0] == 92 then |s| == 1 || Dangles(s[2..]) else Dangles(s[1..])
  }

  /** Whatever is put behind a first label that ends with a dot. */
  lemma {:induction false} LabelBefore(s: seq<Byte>, t: seq<Byte>)
    requires DnsName.TakeLabel(s).1 != []
    ensures DnsName.TakeLabel(s + t) == (DnsName.TakeLabel(s).0, DnsName.TakeLabel(s).1 + t)
    decreases |s|
  {
    if s[0] != DOT {
      var n := if s[0] == BACKSLASH && |s| >= 2 then 2 else 1;
      LabelBefore(s[n..], t);
      assert (s + t)[n..] == s[n..] + t;
    }
  }

  lemma LabelStep(s: seq<Byte>, n: nat)
    requires s != [] && s[0] != DOT && n == if s[0] == BACKSLASH && |s| >= 2 then 2 else 1
    ensures var (l, rest) := DnsName.TakeLabel(s[n..]); DnsName.TakeLabel(s) == ([s[n - 1]] + l, rest)
  {
  }

  lemma PutBehind(b: Byte, later: DnsName.Label, first: DnsName.Label)
    requires later != []
    ensures ([b] + later)[..|later|] + [46] + first == [b] + (later[..|later| - 1] + [46] + first)
  {
  }

  lemma LoneBackslash(s: seq<Byte>, d: seq<Byte>)
    requires s == [92]
    ensures DnsName.TakeLabel(s) == ([92], [])
    ensures var l: DnsName.Label, first := [92], DnsName.TakeLabel(d).0;
            DnsName.TakeLabel(s + [46] + d) == (l[..|l| - 1] + [46] + first, DnsName.TakeLabel(d).1)
  {
    var t := s + [46] + d;
    var l: DnsName.Label, none: seq<Byte> := [92], [];
    LabelStep(s, 1);
    assert s[1..] == none && DnsName.TakeLabel(none) == (none, none);
    assert [s[0]] + none == l;
    LabelStep(t, 2);
    assert t[2..] == d;
    assert l[..0] + [46] + DnsName.TakeLabel(d).0 == [46] + DnsName.TakeLabel(d).0;
  }

  /** A name of one label with a domain behind it: a backslash at its end escapes the dot. */
  lemma {:induction false} LastLabel(s: seq<Byte>, d: seq<Byte>)
    requires DnsName.TakeLabel(s).1 == []
    ensures var l := DnsName.TakeLabel(s).0;
            var (first, rest) := DnsName.TakeLabel(d);
            && (Dangles(s) ==> l != [] && l[|l| - 1] == 92)
            && DnsName.TakeLabel(s + [46] + d) ==
                 if Dangles(s) then (l[..|l| - 1] + [46] + first, rest) else (l, [46] + d)
    decreases |s|
  {
    hide DnsName.TakeLabel;
    if s == [] {
      NoLabel(d);
    } else if s == [92] {
      LoneBackslash(s, d);
    } else {
      var n := if s[0] == BACKSLASH then 2 else 1;
      FirstNotDot(s);
      LabelStep(s, n);
      LastLabel(s[n..], d);
      assert Dangles(s) <==> Dangles(s[n..]);
      hide Dangles;
      SuffixUnder(s, n, d);
      LabelStep(s + [46] + d, n);
      if Dangles(s) {
        PutBehind(s[n - 1], DnsName.TakeLabel(s[n..]).0, DnsName.TakeLabel(d).0);
      }
    }
  }

  lemma NoLabel(d: seq<Byte>)
    ensures DnsName.TakeLabel([]) == ([], []) && DnsName.TakeLabel([] + [46] + d) == ([], [46] + d)
  {
    assert [] + [46] + d == [46] + d;
  }

  lemma FirstNotDot(s: seq<Byte>)
    requires s != [] && DnsName.TakeLabel(s).1 == []
    ensures s[0] != DOT
  {
  }

  lemma SuffixUnder(s: seq<Byte>, n: nat, d: seq<Byte>)
    requires n <= |s|
    ensures (s + [46] + d)[n..] == s[n..] + [46] + d
  {
  }

  /** How the text goes on behind its first label. */
  lemma {:induction false} RestDangles(s: seq<Byte>)
    requires DnsName.TakeLabel(s).1 != []
    ensures var rest := DnsName.TakeLabel(s).1;
            && rest[0] == DOT && |rest| <= |s| && s[|s| - |rest|..] == rest
            && (Dangles(s) <==> Dangles(rest[1..]))
    decreases |s|
  {
    if s[0] != DOT {
      var n := if s[0] == BACKSLASH && |s| >= 2 then 2 else 1;
      RestDangles(s[n..]);
    }
  }

  /**
   * A name under a domain has the labels of the name and then those of the domain, if and
   * only if the name does not end in a backslash that escapes the dot between them.
   */
  lemma {:induction false} UnderExactly(name: Name, domain: Name)
    requires name != [] && name[|name| - 1] != DOT
    requires DnsName.ParseLabels(name).Some? && DnsName.ParseLabels(domain).Some?
    ensures var ls := DnsName.ParseLabels(name).value + DnsName.ParseLabels(domain).value;
            DnsName.ParseLabels(Under(name, domain)) == Some(ls) <==> !Dangles(name)
    decreases |name|
  {
    var (l, rest) := DnsName.TakeLabel(name);
    NoDotAhead(name);
    if rest == [] {
      LastLabel(name, domain);
      OneLabelUnder(name, domain, l);
    } else {
      var later := rest[1..];
      RestDangles(name);
      RestOf(name);
      LabelUnder(name, domain);
      assert Under(name, domain)[0] == name[0];
      hide DnsName.TakeLabel, Dangles, Under;
      ParseStep(name, l, later);
      ParseStep(Under(name, domain), l, Under(later, domain));
      UnderExactly(later, domain);
      var more, b := DnsName.ParseLabels(later).value, DnsName.ParseLabels(domain).value;
      hide DnsName.ParseLabels;
      Assoc([l], more, b);
      SameTail(l, DnsName.ParseLabels(Under(later, domain)), more + b);
    }
  }

  lemma NoDotAhead(s: seq<Byte>)
    requires s != [] && DnsName.ParseLabels(s).Some?
    ensures s[0] != DOT && |DnsName.TakeLabel(s).0| <= DnsName.MAX_LABEL
  {
  }

  lemma ParseStep(s: seq<Byte>, l: DnsName.Label, later: seq<Byte>)
    requires s != [] && s[0] != DOT && DnsName.TakeLabel(s) == (l, [DOT] + later) && |l| <= DnsName.MAX_LABEL
    ensures DnsName.ParseLabels(s) ==
              match DnsName.ParseLabels(later)
              case None => None
              case Some(ls) => Some([l] + ls)
  {
    assert ([DOT] + later)[1..] == later;
  }

  /** What comes behind the first label. */
  lemma RestOf(name: Name)
    requires name != [] && name[|name| - 1] != DOT && DnsName.TakeLabel(name).1 != []
    ensures var rest := DnsName.TakeLabel(name).1;
            rest == [DOT] + rest[1..] && rest[1..] != [] && rest[|rest| - 1] != DOT && |rest[1..]| < |name|
  {
    RestDangles(name);
    hide DnsName.TakeLabel, Dangles;
    var rest := DnsName.TakeLabel(name).1;
    assert rest[|rest| - 1] == name[|name| - 1];
  }

  /** A first label that ends with a dot stands also under a domain. */
  lemma LabelUnder(name: Name, domain: Name)
    requires DnsName.TakeLabel(name).1 != []
    ensures var (l, rest) := DnsName.TakeLabel(name);
            DnsName.TakeLabel(Under(name, domain)) == (l, [DOT] + Under(rest[1..], domain))
  {
    LabelBefore(name, [46] + domain);
    hide DnsName.TakeLabel, Under;
    RestUnder(DnsName.TakeLabel(name).1, domain);
    UnderIs(name, domain);
  }

  lemma UnderIs(name: Name, domain: Name)
    ensures Under(name, domain) == name + ([46] + domain)
  {
  }

  lemma RestUnder(rest: seq<Byte>, domain: Name)
    requires rest != [] && rest[0] == DOT
    ensures rest == [DOT] + rest[1..] && rest + ([46] + domain) == [DOT] + Under(rest[1..], domain)
  {
  }

  lemma SameTail(l: DnsName.Label, later: Option<seq<DnsName.Label>>, ls: seq<DnsName.Label>)
    ensures later.Some? ==> ([l] + later.value == [l] + ls <==> later.value == ls)
  {
    if later.Some? {
      assert ([l] + later.value)[1..] == later.value && ([l] + ls)[1..] == ls;
    }
  }

  lemma OneLabelUnder(name: Name, domain: Name, l: DnsName.Label)
    requires name != [] && name[0] != DOT && DnsName.TakeLabel(name) == (l, []) && |l| <= DnsName.MAX_LABEL
    requires DnsName.ParseLabels(domain).Some?
    requires var (first, rest) := DnsName.TakeLabel(domain);
             && (Dangles(name) ==> l != [] && l[|l| - 1] == 92)
             && DnsName.TakeLabel(Under(name, domain)) ==
                  if Dangles(name) then (l[..|l| - 1] + [46] + first, rest) else (l, [46] + domain)
    ensures DnsName.ParseLabels(Under(name, domain)) == Some([l] + DnsName.ParseLabels(domain).value) <==> !Dangles(name)
  {
    hide DnsName.TakeLabel, Dangles;
    var t := Under(name, domain);
    var b := DnsName.ParseLabels(domain).value;
    assert t != [] && t[0] == name[0];
    if Dangles(name) {
      var first := DnsName.TakeLabel(domain).0;
      var l' := l[..|l| - 1] + [46] + first;
      assert l'[|l| - 1] == 46;
      if DnsName.ParseLabels(t).Some? {
        assert DnsName.ParseLabels(t).value[0] == l';
      }
    } else {
      assert ([46] + domain)[1..] == domain;
    }
  }

  /** The name "a\" under the domain "b" is the one label "a.b". */
  lemma BackslashEatsDot()
    ensures Dangles([97, 92]) && DnsName.ParseLabels(Under([97, 92], [98])) == Some([[97, 46, 98]])
  {
    var name: Name, domain: Name := [97, 92], [98];
    assert name[1..] == [92] && name[1..][1..] == [] && domain[1..] == [];
    LabelStep(name, 1);
    LabelStep(name[1..], 1);
    LabelStep(domain, 1);
    assert [97] + [92] == name && [98] + [] == domain;
    LastLabel(name, domain);
    assert name[..1] + [46] + domain == [97, 46, 98];
    hide DnsName.TakeLabel;
  }

  /** Of the names of a plan, no two are equal if the domains differ and none makes the name itself. */
  lemma AskedOnce(c: Config, name: Name, i: nat, j: nat)
    requires i < j < |Plan(c, name)|
    requires forall k, l :: 0 <= k < l < |c.domains| ==> c.domains[k] != c.domains[l]
    ensures Plan(c, name)[i] != Plan(c, name)[j]
  {
    forall k | 0 <= k < |c.domains| ensures Under(name, c.domains[k]) != name {
      assert |Under(name, c.domains[k])| > |name|;
    }
    forall k, l | 0 <= k < l < |c.domains| ensures Under(name, c.domains[k]) != Under(name, c.domains[l]) {
      assert Under(name, c.domains[k])[|name| + 1..] == c.domains[k];
      assert Under(name, c.domains[l])[|name| + 1..] == c.domains[l];
    }
  }
}
