/**
 * The EDNS fallback of the query engine (ares_process.c) on the packets that
 * ares_create_query.c makes.
 */
module DnsFallback {
  import opened Bytes
  import opened DnsName
  import opened DnsCodec
  import QueryEngine

  /**
   * The EDNS fallback of the query engine turns a query into the query that would
   * have been created without EDNS: it clears the last two header bytes and cuts
   * the OPT record off.
   */
  lemma FallbackIsPlainQuery(ls: seq<Label>, dnsclass: nat, rrtype: nat, id: nat, rd: bool, udpSize: nat)
    requires forall i :: 0 <= i < |ls| ==> |ls[i]| <= MAX_LABEL
    requires udpSize != 0
    ensures var packet := Query(ls, dnsclass, rrtype, id, rd, udpSize);
            |packet| >= HEADER && QueryEngine.StripEdns(packet) == Query(ls, dnsclass, rrtype, id, rd, 0)
  {
    hide Wire, Word;
    var rest := Wire(ls) + (Word(rrtype) + Word(dnsclass));
    var packet, plain := Query(ls, dnsclass, rrtype, id, rd, udpSize), Query(ls, dnsclass, rrtype, id, rd, 0);
    assert packet == Header(id, rd, true) + rest + OptRecord(udpSize);
    assert plain == Header(id, rd, false) + rest;
    HeaderWithoutEdns(id, rd);
    CutTail(Header(id, rd, true), Header(id, rd, false), rest, OptRecord(udpSize));
  }

  lemma HeaderWithoutEdns(id: nat, rd: bool)
    ensures Header(id, rd, true)[10 := 0][11 := 0] == Header(id, rd, false)
  {
  }

  lemma CutTail(head: seq<Byte>, head': seq<Byte>, rest: seq<Byte>, tail: seq<Byte>)
    requires |head| == HEADER && head[10 := 0][11 := 0] == head'
    ensures (head + rest + tail)[10 := 0][11 := 0][..|head| + |rest|] == head' + rest
  {
    var all := head + rest + tail;
    assert all[10 := 0][11 := 0] == head' + rest + tail;
  }
}
