/**
 * The header of a DNS message field by field (section 4.1.1 of RFC 1035): what
 * the macros of ares_dns.h read and write, and what process_answer makes of it.
 */
module DnsHeader {
  import opened Bytes
  import opened DnsName
  import DnsCodec
  import DnsMatch
  import opened QueryIndex
  import opened QueryEngine

  datatype Fields = Fields(
    id: nat, qr: bool, opcode: nat, aa: bool, tc: bool, rd: bool, ra: bool, z: nat, rcode: nat,
    qdcount: nat, ancount: nat, nscount: nat, arcount: nat)
  {
    predicate Fit() {
      && id < 65536 && opcode < 16 && z < 8 && rcode < 16
      && qdcount < 65536 && ancount < 65536 && nscount < 65536 && arcount < 65536
    }
  }

  function Bit(b: bool): nat {
    if b then 1 else 0
  }

  /** The twelve bytes, the most significant bit of each field first. */
  function Packed(f: Fields): (h: seq<Byte>)
    requires f.Fit()
    ensures |h| == 12
  {
    [f.id / 256, f.id % 256,
     128 * Bit(f.qr) + 8 * f.opcode + 4 * Bit(f.aa) + 2 * Bit(f.tc) + Bit(f.rd),
     128 * Bit(f.ra) + 16 * f.z + f.rcode,
     f.qdcount / 256, f.qdcount % 256, f.ancount / 256, f.ancount % 256,
     f.nscount / 256, f.nscount % 256, f.arcount / 256, f.arcount % 256]
  }

  lemma FlagsOf(b: int) returns (qr: bool, opcode: nat, aa: bool, tc: bool, rd: bool)
    requires 0 <= b < 256
    ensures b == 128 * Bit(qr) + 8 * opcode + 4 * Bit(aa) + 2 * Bit(tc) + Bit(rd) && opcode < 16
  {
    qr := b >= 128;
    var rest := b - 128 * Bit(qr);
    opcode := rest / 8;
    var low := rest - 8 * opcode;
    aa := low >= 4;
    tc := low - 4 * Bit(aa) >= 2;
    rd := low - 4 * Bit(aa) - 2 * Bit(tc) == 1;
  }

  lemma CodesOf(c: int) returns (ra: bool, z: nat, rcode: nat)
    requires 0 <= c < 256
    ensures c == 128 * Bit(ra) + 16 * z + rcode && z < 8 && rcode < 16
  {
    ra := c >= 128;
    var rest := c - 128 * Bit(ra);
    z, rcode := rest / 16, rest % 16;
  }

  lemma PairOf(high: int, low: int) returns (v: nat)
    requires 0 <= high < 256 && 0 <= low < 256
    ensures v < 65536 && v / 256 == high && v % 256 == low
  {
    v := high * 256 + low;
  }

  /** Every message that is long enough begins with the header of some fields. */
  lemma EveryHeader(packet: seq<Byte>) returns (f: Fields)
    requires |packet| >= 12
    ensures f.Fit() && packet[..12] == Packed(f)
  {
    var id := PairOf(packet[0], packet[1]);
    var qr, opcode, aa, tc, rd := FlagsOf(packet[2]);
    var ra, z, rcode := CodesOf(packet[3]);
    var qd := PairOf(packet[4], packet[5]);
    var an := PairOf(packet[6], packet[7]);
    var ns := PairOf(packet[8], packet[9]);
    var ar := PairOf(packet[10], packet[11]);
    f := Fields(id, qr, opcode, aa, tc, rd, ra, z, rcode, qd, an, ns, ar);
  }

  /** The macros read the fields, whatever follows the header. */
  lemma FieldsAreRead(f: Fields, body: seq<Byte>)
    requires f.Fit()
    ensures QidOf(Packed(f) + body) == f.id
    ensures Truncated(Packed(f) + body) <==> f.tc
    ensures Rcode(Packed(f) + body) == f.rcode
    ensures DnsMatch.QdCount(Packed(f) + body) == f.qdcount
  {
    var packet := Packed(f) + body;
    assert packet[0] == f.id / 256 && packet[1] == f.id % 256;
    assert packet[2] == 128 * Bit(f.qr) + 8 * f.opcode + 4 * Bit(f.aa) + 2 * Bit(f.tc) + Bit(f.rd);
    assert packet[3] == 128 * Bit(f.ra) + 16 * f.z + f.rcode;
    assert packet[4] == f.qdcount / 256 && packet[5] == f.qdcount % 256;
  }

  /**
   * What is done with the answer to a query, by its fields: response codes 1, 2 and 4
   * switch EDNS off, an incomplete answer over UDP is asked for over TCP, codes 2, 4
   * and 5 blame the server, and everything else is handed to the caller.
   */
  lemma VerdictExactly(f: Fields, body: seq<Byte>, q: Query, cfg: Config, edns: bool, server: nat, tcp: bool)
    requires f.Fit()
    ensures var v := Judge(q, cfg, edns, Answer(Packed(f) + body, server, tcp));
            var noEdns := edns && (f.rcode == 1 || f.rcode == 2 || f.rcode == 4);
            var cut := f.tc || 12 + |body| > if edns then cfg.ednspsz else 512;
            var refuse := !noEdns && cut && !tcp && !cfg.ignoreTruncation;
            var blame := !cfg.noCheckResp && (f.rcode == 2 || f.rcode == 4 || f.rcode == 5);
            && (v == WithoutEdns <==> noEdns)
            && (v == OverTcp <==> refuse && !q.usingTcp)
            && (v == Discard <==> refuse && q.usingTcp)
            && (v == AskAnother <==> !noEdns && !refuse && blame)
            && (v == Answered <==> !noEdns && !refuse && !blame)
  {
    FieldsAreRead(f, body);
    hide Packed, Truncated, Rcode;
  }

  /** A query asks one question, wants recursion if told so, and has one more record exactly with EDNS. */
  lemma QueryFields(id: nat, rd: bool, edns: bool)
    requires id < 65536
    ensures DnsCodec.Header(id, rd, edns) ==
              Packed(Fields(id, false, 0, false, false, rd, false, 0, 0, 1, 0, 0, Bit(edns)))
  {
  }

  /** Type and class behind the name, most significant byte first; the OPT record is that of section 6.1.2 of RFC 6891. */
  lemma TrailerFields(dnsclass: nat, rrtype: nat, udpSize: nat)
    requires dnsclass < 65536 && rrtype < 65536 && udpSize < 65536
    ensures DnsCodec.Trailer(dnsclass, rrtype, udpSize) ==
              [rrtype / 256, rrtype % 256, dnsclass / 256, dnsclass % 256] +
              if udpSize == 0 then [] else [0, 0, 41, udpSize / 256, udpSize % 256, 0, 0, 0, 0, 0, 0]
  {
  }

  /** The length in front of a message over TCP (section 4.2.2 of RFC 1035), most significant byte first. */
  lemma FrameLength(packet: seq<Byte>)
    requires |packet| < 65536
    ensures TcpFrame(packet) == [|packet| / 256, |packet| % 256] + packet
  {
  }
}
