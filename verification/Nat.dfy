/** The two address-translation programs and the connection table between them. */
module Nat {
  import opened Words
  import opened Checksum

  const ETH_P_IP: uint16 := 0x0800
  const IPPROTO_TCP: nat := 6
  const TARGET_PORT: uint16 := 8080
  const BACKEND_IP: uint32 := 0xC0A80070
  const LB_IP: uint32 := 0xC0A800F2

  const ETH_LEN: nat := 14
  const IP_LEN: nat := 20
  const TCP_LEN: nat := 20

  type uint8 = x: int | 0 <= x < 256

  /** What neither program changes: the frame length, the header fields that are
      read, and the other words the two checksums cover. */
  datatype Shape = Shape(
    length: nat,
    etherType: uint16,
    ipFront: seq<uint16>, ttl: uint8, protocol: uint8, ipOptions: seq<uint16>,
    sourcePort: uint16, destPort: uint16,
    tcpLength: uint16, tcpRest: seq<uint16>)

  datatype Packet = Packet(shape: Shape, saddr: uint32, daddr: uint32, ipCheck: uint16, tcpCheck: uint16)

  datatype Tuple = Tuple(srcIp: uint32, dstIp: uint32, srcPort: uint16, dstPort: uint16, protocol: uint8)

  /** An Ethernet frame long enough for the three headers that carries TCP over IPv4. */
  predicate Parses(h: Shape) {
    && ETH_LEN <= h.length
    && h.etherType == ETH_P_IP
    && ETH_LEN + IP_LEN <= h.length
    && h.protocol == IPPROTO_TCP
    && ETH_LEN + IP_LEN + TCP_LEN <= h.length
  }

  function TupleOf(p: Packet): Tuple {
    Tuple(p.saddr, p.daddr, p.shape.sourcePort, p.shape.destPort, p.shape.protocol)
  }

  function ReverseTuple(p: Packet): Tuple {
    Tuple(p.daddr, p.saddr, p.shape.destPort, p.shape.sourcePort, p.shape.protocol)
  }

  predicate Forwarded(p: Packet) {
    Parses(p.shape) && p.shape.destPort == TARGET_PORT
  }

  /** Destination replaced, then source, each with both checksums. */
  function Translated(p: Packet): Packet {
    Packet(p.shape, LB_IP, BACKEND_IP,
           Replace(Replace(p.ipCheck, p.daddr, BACKEND_IP), p.saddr, LB_IP),
           Replace(Replace(p.tcpCheck, p.daddr, BACKEND_IP), p.saddr, LB_IP))
  }

  function Restored(p: Packet, source: uint32): Packet {
    p.(saddr := source, ipCheck := Replace(p.ipCheck, p.saddr, source), tcpCheck := Replace(p.tcpCheck, p.saddr, source))
  }

  function Dnat(p: Packet): Packet {
    if Forwarded(p) then Translated(p) else p
  }

  function DnatTable(table: map<Tuple, uint32>, p: Packet): map<Tuple, uint32> {
    if Forwarded(p) then table[TupleOf(p) := p.saddr] else table
  }

  predicate Rewrites(table: map<Tuple, uint32>, p: Packet) {
    Parses(p.shape) && ReverseTuple(p) in table
  }

  function Snat(table: map<Tuple, uint32>, p: Packet): Packet {
    if Rewrites(table, p) then Restored(p, table[ReverseTuple(p)]) else p
  }

  // ---- the programs, in place ----

  class SkBuff {
    const shape: Shape
    var saddr: uint32
    var daddr: uint32
    var ipCheck: uint16
    var tcpCheck: uint16

    function Value(): Packet
      reads this
    {
      Packet(shape, saddr, daddr, ipCheck, tcpCheck)
    }

    constructor (p: Packet)
      ensures Value() == p
    {
      shape, saddr, daddr, ipCheck, tcpCheck := p.shape, p.saddr, p.daddr, p.ipCheck, p.tcpCheck;
    }

    /** The IP checksum makes up for an address that changed from `from` to `to`. */
    method ReplaceL3(from: uint32, to: uint32)
      modifies this`ipCheck
      ensures (ipCheck + to) % ONES == (old(ipCheck) + from) % ONES
      ensures ipCheck == Replace(old(ipCheck), from, to)
    {
      ReplaceResidue(ipCheck, from, to);
      ipCheck := Replace(ipCheck, from, to);
    }

    /** The TCP checksum makes up for an address that changed from `from` to `to`. */
    method ReplaceL4(from: uint32, to: uint32)
      modifies this`tcpCheck
      ensures (tcpCheck + to) % ONES == (old(tcpCheck) + from) % ONES
      ensures tcpCheck == Replace(old(tcpCheck), from, to)
    {
      ReplaceResidue(tcpCheck, from, to);
      tcpCheck := Replace(tcpCheck, from, to);
    }
  }

  class ConnTrack {
    var table: map<Tuple, uint32>

    constructor ()
      ensures table == map[]
    {
      table := map[];
    }

    /** The ingress program. */
    method DnatProg(skb: SkBuff)
      modifies this, skb
      ensures skb.Value() == Dnat(old(skb.Value()))
      ensures table == DnatTable(old(table), old(skb.Value()))
    {
      if !Parses(skb.shape) || skb.shape.destPort != TARGET_PORT {
        return;
      }
      var tuple := Tuple(skb.saddr, skb.daddr, skb.shape.sourcePort, skb.shape.destPort, skb.shape.protocol);
      var origIp := skb.saddr;
      table := table[tuple := origIp];
      var oldDaddr, oldSaddr := skb.daddr, skb.saddr;
      skb.daddr := BACKEND_IP;
      skb.saddr := LB_IP;
      skb.ReplaceL3(oldDaddr, skb.daddr);
      skb.ReplaceL4(oldDaddr, skb.daddr);
      skb.ReplaceL3(oldSaddr, skb.saddr);
      skb.ReplaceL4(oldSaddr, skb.saddr);
    }

    /** The kernel drops entries of the least-recently-used table. */
    method Evict(keys: set<Tuple>)
      modifies this
      ensures table == old(table) - keys
    {
      table := table - keys;
    }

    /** The egress program. */
    method SnatProg(skb: SkBuff)
      modifies skb
      ensures skb.Value() == Snat(table, old(skb.Value()))
    {
      if !Parses(skb.shape) {
        return;
      }
      var reverse := Tuple(skb.daddr, skb.saddr, skb.shape.destPort, skb.shape.sourcePort, skb.shape.protocol);
      if reverse !in table {
        return;
      }
      var oldSaddr := skb.saddr;
      skb.saddr := table[reverse];
      skb.ReplaceL3(oldSaddr, skb.saddr);
      skb.ReplaceL4(oldSaddr, skb.saddr);
    }
  }

  // ---- checksums ----

  /** The words of the IP header, in order. */
  function IpWords(p: Packet): seq<uint16> {
    p.shape.ipFront + [p.shape.ttl * 256 + p.shape.protocol, p.ipCheck] + Halves(p.saddr) + Halves(p.daddr) + p.shape.ipOptions
  }

  /** The words the TCP checksum covers: the pseudo header and the segment. */
  function TcpWords(p: Packet): seq<uint16> {
    Halves(p.saddr) + Halves(p.daddr) + [p.shape.protocol, p.shape.tcpLength, p.shape.sourcePort, p.shape.destPort]
    + p.shape.tcpRest + [p.tcpCheck]
  }

  predicate ChecksumsVerify(p: Packet) {
    Verifies(IpWords(p)) && Verifies(TcpWords(p))
  }

  function IpOthers(h: Shape): nat {
    Total(h.ipFront) + h.ttl * 256 + h.protocol + Total(h.ipOptions)
  }

  function TcpOthers(h: Shape): nat {
    h.protocol + h.tcpLength + h.sourcePort + h.destPort + Total(h.tcpRest)
  }

  lemma TotalOfPair(a: uint16, b: uint16)
    ensures Total([a, b]) == a + b
  {
    assert [a, b][..1] == [a] && [a][..0] == [];
    assert Total([a]) == a;
  }

  lemma IpTotal(p: Packet)
    ensures Total(IpWords(p)) == IpOthers(p.shape) + Total(Halves(p.saddr)) + Total(Halves(p.daddr)) + p.ipCheck
  {
    var middle := [p.shape.ttl * 256 + p.shape.protocol, p.ipCheck];
    TotalOfPair(middle[0], middle[1]);
    TotalConcat(p.shape.ipFront, middle);
    TotalConcat(p.shape.ipFront + middle, Halves(p.saddr));
    TotalConcat(p.shape.ipFront + middle + Halves(p.saddr), Halves(p.daddr));
    TotalConcat(p.shape.ipFront + middle + Halves(p.saddr) + Halves(p.daddr), p.shape.ipOptions);
  }

  lemma TcpTotal(p: Packet)
    ensures Total(TcpWords(p)) == TcpOthers(p.shape) + Total(Halves(p.saddr)) + Total(Halves(p.daddr)) + p.tcpCheck
  {
    var h := p.shape;
    var addresses := Halves(p.saddr) + Halves(p.daddr);
    var middle := [h.protocol, h.tcpLength, h.sourcePort, h.destPort];
    assert middle == [h.protocol, h.tcpLength] + [h.sourcePort, h.destPort];
    TotalOfPair(h.protocol, h.tcpLength);
    TotalOfPair(h.sourcePort, h.destPort);
    TotalConcat([h.protocol, h.tcpLength], [h.sourcePort, h.destPort]);
    TotalConcat(Halves(p.saddr), Halves(p.daddr));
    TotalConcat(addresses, middle);
    TotalConcat(addresses + middle, h.tcpRest);
    TotalConcat(addresses + middle + h.tcpRest, [p.tcpCheck]);
    assert [p.tcpCheck][..0] == [];
  }

  /** One address of a packet whose protocol field is TCP's is replaced, with both checksums. */
  lemma SourceReplaced(p: Packet, to: uint32)
    requires ChecksumsVerify(p) && p.shape.protocol == IPPROTO_TCP
    ensures ChecksumsVerify(Restored(p, to))
  {
    var q := Restored(p, to);
    IpTotal(p); IpTotal(q);
    TcpTotal(p); TcpTotal(q);
    var d := Total(Halves(p.daddr));
    ReplaceVerifiesExactly(IpOthers(p.shape) + d, p.ipCheck, p.saddr, to, IpWords(p), IpWords(q));
    ReplaceVerifiesExactly(TcpOthers(p.shape) + d, p.tcpCheck, p.saddr, to, TcpWords(p), TcpWords(q));
  }

  lemma DestinationReplaced(p: Packet, to: uint32)
    requires ChecksumsVerify(p) && p.shape.protocol == IPPROTO_TCP
    ensures ChecksumsVerify(p.(daddr := to, ipCheck := Replace(p.ipCheck, p.daddr, to), tcpCheck := Replace(p.tcpCheck, p.daddr, to)))
  {
    var q := p.(daddr := to, ipCheck := Replace(p.ipCheck, p.daddr, to), tcpCheck := Replace(p.tcpCheck, p.daddr, to));
    IpTotal(p); IpTotal(q);
    TcpTotal(p); TcpTotal(q);
    var s := Total(Halves(p.saddr));
    ReplaceVerifiesExactly(IpOthers(p.shape) + s, p.ipCheck, p.daddr, to, IpWords(p), IpWords(q));
    ReplaceVerifiesExactly(TcpOthers(p.shape) + s, p.tcpCheck, p.daddr, to, TcpWords(p), TcpWords(q));
  }

  /** Both checksums of every packet that verifies still verify after the ingress
      program, and after the egress program with any table. */
  lemma ChecksumsSurvive(p: Packet, table: map<Tuple, uint32>)
    requires ChecksumsVerify(p)
    ensures ChecksumsVerify(Dnat(p)) && ChecksumsVerify(Snat(table, p))
  {
    if Forwarded(p) {
      var q := p.(daddr := BACKEND_IP, ipCheck := Replace(p.ipCheck, p.daddr, BACKEND_IP), tcpCheck := Replace(p.tcpCheck, p.daddr, BACKEND_IP));
      DestinationReplaced(p, BACKEND_IP);
      SourceReplaced(q, LB_IP);
      assert Restored(q, LB_IP) == Dnat(p);
    }
    if Rewrites(table, p) {
      SourceReplaced(p, table[ReverseTuple(p)]);
    }
  }

  // ---- which packets change, and how ----

  /** A frame of at least 54 bytes that carries TCP (protocol 6) over IPv4 (type 0x0800). */
  predicate IsTcpOverIpv4(h: Shape) {
    h.length >= 54 && h.etherType == 0x0800 && h.protocol == 6
  }

  /** A checksum, never all ones, that makes up for a change of the sum of the addresses. */
  predicate MakesUp(check: uint16, check': uint16, addresses: nat, addresses': nat) {
    check' < 65535 && (check' + addresses') % 65535 == (check + addresses) % 65535
  }

  /** `q` is `p` with these addresses and checksums to match, and otherwise the same. */
  predicate Readdressed(p: Packet, q: Packet, saddr: uint32, daddr: uint32) {
    && q.shape == p.shape && q.saddr == saddr && q.daddr == daddr
    && MakesUp(p.ipCheck, q.ipCheck, p.saddr + p.daddr, saddr + daddr)
    && MakesUp(p.tcpCheck, q.tcpCheck, p.saddr + p.daddr, saddr + daddr)
  }

  /** How a packet leaves the ingress program: readdressed from 192.168.0.242 to
      192.168.0.112 if it is TCP over IPv4 to port 8080, and untouched if not. */
  predicate IngressLeaves(p: Packet, q: Packet) {
    if IsTcpOverIpv4(p.shape) && p.shape.destPort == 8080 then Readdressed(p, q, 0xC0A800F2, 0xC0A80070) else q == p
  }

  lemma MakesUpUnique(check: uint16, a: uint16, b: uint16, addresses: nat, addresses': nat)
    requires MakesUp(check, a, addresses, addresses') && MakesUp(check, b, addresses, addresses')
    ensures a == b
  {}

  lemma ReplaceMakesUp(check: uint16, from: uint32, to: uint32, other: uint32)
    ensures MakesUp(check, Replace(check, from, to), from + other, to + other)
  {
    hide Replace;
    ReplaceResidue(check, from, to);
  }

  lemma MakesUpTwice(a: uint16, b: uint16, c: uint16, x: nat, y: nat, z: nat)
    requires MakesUp(a, b, x, y) && MakesUp(b, c, y, z)
    ensures MakesUp(a, c, x, z)
  {}

  lemma TranslatedMakesUp(check: uint16, saddr: uint32, daddr: uint32)
    ensures MakesUp(check, Replace(Replace(check, daddr, BACKEND_IP), saddr, LB_IP), saddr + daddr, LB_IP + BACKEND_IP)
  {
    hide Replace, MakesUp;
    var between := Replace(check, daddr, BACKEND_IP);
    ReplaceMakesUp(check, daddr, BACKEND_IP, saddr);
    ReplaceMakesUp(between, saddr, LB_IP, BACKEND_IP);
    MakesUpTwice(check, between, Replace(between, saddr, LB_IP), saddr + daddr, saddr + BACKEND_IP, LB_IP + BACKEND_IP);
  }

  lemma ReaddressedUnique(p: Packet, q: Packet, r: Packet, saddr: uint32, daddr: uint32)
    requires Readdressed(p, q, saddr, daddr) && Readdressed(p, r, saddr, daddr)
    ensures q == r
  {
    hide MakesUp;
    MakesUpUnique(p.ipCheck, q.ipCheck, r.ipCheck, p.saddr + p.daddr, saddr + daddr);
    MakesUpUnique(p.tcpCheck, q.tcpCheck, r.tcpCheck, p.saddr + p.daddr, saddr + daddr);
  }

  /** The ingress program changes exactly the packets it should, to exactly one result. */
  lemma IngressExactly(p: Packet, q: Packet)
    ensures q == Dnat(p) <==> IngressLeaves(p, q)
  {
    hide Replace, MakesUp;
    TranslatedMakesUp(p.ipCheck, p.saddr, p.daddr);
    TranslatedMakesUp(p.tcpCheck, p.saddr, p.daddr);
    if Forwarded(p) && IngressLeaves(p, q) {
      ReaddressedUnique(p, q, Dnat(p), LB_IP, BACKEND_IP);
    }
  }

  /** The egress program rewrites the source of exactly the packets that are TCP
      over IPv4 and whose reversal is in the table, and touches no other packet. */
  lemma EgressExactly(table: map<Tuple, uint32>, p: Packet, q: Packet)
    ensures var reversal := Tuple(p.daddr, p.saddr, p.shape.destPort, p.shape.sourcePort, p.shape.protocol);
            q == Snat(table, p) <==>
            if IsTcpOverIpv4(p.shape) && reversal in table then Readdressed(p, q, table[reversal], p.daddr) else q == p
  {
    hide Replace, MakesUp;
    if Rewrites(table, p) {
      var source := table[ReverseTuple(p)];
      ReplaceMakesUp(p.ipCheck, p.saddr, source, p.daddr);
      ReplaceMakesUp(p.tcpCheck, p.saddr, source, p.daddr);
      if Readdressed(p, q, source, p.daddr) {
        ReaddressedUnique(p, q, Snat(table, p), source, p.daddr);
      }
    }
  }

  // ---- histories of the connection table ----

  datatype Event = Ingress(p: Packet) | Egress(p: Packet) | Evict(keys: set<Tuple>)

  function Step(table: map<Tuple, uint32>, e: Event): map<Tuple, uint32> {
    match e
    case Ingress(p) => DnatTable(table, p)
    case Egress(_) => table
    case Evict(keys) => table - keys
  }

  /** The table after any traffic, with any evictions. */
  function Exec(events: seq<Event>): map<Tuple, uint32> {
    if events == [] then map[] else Step(Exec(events[..|events| - 1]), events[|events| - 1])
  }

  lemma NoTraffic()
    ensures Exec([]) == map[]
  {}

  lemma ExecStep(events: seq<Event>, k: nat)
    requires k < |events|
    ensures Exec(events[..k + 1]) == Step(Exec(events[..k]), events[k])
  {
    assert events[..k + 1][..k] == events[..k];
  }

  /** The packet that an event sends on, if it is about a packet. */
  function Leaves(table: map<Tuple, uint32>, e: Event): Option<Packet> {
    match e
    case Ingress(p) => Some(Dnat(p))
    case Egress(p) => Some(Snat(table, p))
    case Evict(_) => None
  }

  method Handle(track: ConnTrack, e: Event) returns (left: Option<Packet>)
    modifies track
    ensures track.table == Step(old(track.table), e)
    ensures left == Leaves(old(track.table), e)
  {
    left := None;
    match e {
      case Ingress(p) =>
        var skb := new SkBuff(p);
        track.DnatProg(skb);
        left := Some(skb.Value());
      case Egress(p) =>
        var skb := new SkBuff(p);
        track.SnatProg(skb);
        left := Some(skb.Value());
      case Evict(keys) =>
        track.Evict(keys);
    }
  }

  /** Event `i` is a forwarded packet with tuple `k`, and `k` is not evicted later. */
  ghost predicate KeptSince(events: seq<Event>, k: Tuple, i: nat) {
    && i < |events| && events[i].Ingress? && Forwarded(events[i].p) && TupleOf(events[i].p) == k
    && forall j :: i < j < |events| && events[j].Evict? ==> k !in events[j].keys
  }

  lemma KeptSinceStep(front: seq<Event>, e: Event, k: Tuple, i: nat)
    ensures KeptSince(front + [e], k, i) <==>
            || (i == |front| && e.Ingress? && Forwarded(e.p) && TupleOf(e.p) == k)
            || (KeptSince(front, k, i) && !(e.Evict? && k in e.keys))
  {
    var events := front + [e];
    assert forall j :: 0 <= j < |front| ==> events[j] == front[j];
    assert events[|front|] == e;
  }

  /** A tuple is in the table exactly when a forwarded packet with that tuple
      entered the ingress program and the tuple was not evicted since. */
  lemma {:induction false} EntryExactly(events: seq<Event>, k: Tuple)
    ensures k in Exec(events) <==> exists i: nat :: KeptSince(events, k, i)
  {
    if events == [] {
    } else {
      var front, e := events[..|events| - 1], events[|events| - 1];
      assert events == front + [e];
      EntryExactly(front, k);
      forall i: nat ensures KeptSince(events, k, i) <==>
          || (i == |front| && e.Ingress? && Forwarded(e.p) && TupleOf(e.p) == k)
          || (KeptSince(front, k, i) && !(e.Evict? && k in e.keys))
      {
        KeptSinceStep(front, e, k, i);
      }
      if e.Ingress? && Forwarded(e.p) && TupleOf(e.p) == k {
        assert KeptSince(events, k, |front|);
      } else if k in Exec(events) {
        var i: nat :| KeptSince(front, k, i);
        assert KeptSince(events, k, i);
      }
    }
  }

  lemma {:induction false} EntryValue(events: seq<Event>, k: Tuple)
    requires k in Exec(events)
    ensures k.protocol == IPPROTO_TCP && k.dstPort == TARGET_PORT && Exec(events)[k] == k.srcIp
  {
    var e := events[|events| - 1];
    if e.Ingress? && Forwarded(e.p) && TupleOf(e.p) == k {
    } else {
      EntryValue(events[..|events| - 1], k);
    }
  }

  /** Every entry was made by a packet that entered the ingress program, is a TCP
      connection to the target port, and holds its own source address. */
  lemma EntriesAreTheirOwnSource(events: seq<Event>, k: Tuple)
    requires k in Exec(events)
    ensures exists i: nat :: KeptSince(events, k, i)
    ensures k.protocol == IPPROTO_TCP && k.dstPort == TARGET_PORT && Exec(events)[k] == k.srcIp
  {
    EntryExactly(events, k);
    EntryValue(events, k);
  }

  /** The egress program rewrites a packet that parses exactly when its exact
      reversal entered the ingress program before and was not evicted since. */
  lemma RewritesExactly(events: seq<Event>, p: Packet)
    ensures Rewrites(Exec(events), p) <==>
            Parses(p.shape) && exists i: nat :: KeptSince(events, ReverseTuple(p), i)
  {
    EntryExactly(events, ReverseTuple(p));
  }

  /** The address that is then written is the source of any packet that made the
      entry, which is the rewritten packet's own destination. */
  lemma RewriteReversesAnEntry(events: seq<Event>, p: Packet)
    requires Rewrites(Exec(events), p)
    ensures exists i: nat :: KeptSince(events, ReverseTuple(p), i) && Snat(Exec(events), p).saddr == events[i].p.saddr
    ensures Snat(Exec(events), p).saddr == Snat(Exec(events), p).daddr == p.daddr
    ensures p.shape.sourcePort == TARGET_PORT
  {
    EntriesAreTheirOwnSource(events, ReverseTuple(p));
    var i: nat :| KeptSince(events, ReverseTuple(p), i);
    assert Snat(Exec(events), p).saddr == events[i].p.saddr;
  }

  /** Event `i` is a packet in the opposite direction of `p`, TCP over IPv4 to
      port 8080, whose connection is not evicted later. */
  ghost predicate Opposite(events: seq<Event>, p: Packet, i: nat) {
    && i < |events| && events[i].Ingress?
    && var r := events[i].p;
    && IsTcpOverIpv4(r.shape) && r.shape.destPort == 8080
    && r.saddr == p.daddr && r.daddr == p.saddr
    && r.shape.sourcePort == p.shape.destPort && r.shape.destPort == p.shape.sourcePort
    && forall j :: i < j < |events| && events[j].Evict? ==>
         Tuple(r.saddr, r.daddr, r.shape.sourcePort, 8080, 6) !in events[j].keys
  }

  /** How a packet leaves the egress program after `events`: with its destination
      as its source if a packet in the opposite direction is still known, and
      untouched if not. */
  ghost predicate EgressLeaves(events: seq<Event>, p: Packet, q: Packet) {
    if IsTcpOverIpv4(p.shape) && exists i :: Opposite(events, p, i) then Readdressed(p, q, p.daddr, p.daddr) else q == p
  }

  lemma OppositeIsKept(events: seq<Event>, p: Packet, i: nat)
    requires IsTcpOverIpv4(p.shape)
    ensures Opposite(events, p, i) <==> KeptSince(events, ReverseTuple(p), i)
  {}

  /** Over any traffic and evictions, the egress program changes exactly the
      packets whose opposite is still known, to exactly one result. */
  lemma EgressHistoryExactly(events: seq<Event>, p: Packet, q: Packet)
    ensures q == Snat(Exec(events), p) <==> EgressLeaves(events, p, q)
  {
    hide Snat, Opposite, KeptSince, Readdressed;
    EgressExactly(Exec(events), p, q);
    if IsTcpOverIpv4(p.shape) {
      EntryExactly(events, ReverseTuple(p));
      forall i: nat ensures Opposite(events, p, i) <==> KeptSince(events, ReverseTuple(p), i) {
        OppositeIsKept(events, p, i);
      }
      if ReverseTuple(p) in Exec(events) {
        EntryValue(events, ReverseTuple(p));
      }
    }
  }

  ghost predicate LeavesAsItShould(events: seq<Event>, e: Event, left: Option<Packet>) {
    match e
    case Ingress(p) => left.Some? && IngressLeaves(p, left.value)
    case Egress(p) => left.Some? && EgressLeaves(events, p, left.value)
    case Evict(_) => left.None?
  }

  lemma LeavesExactly(events: seq<Event>, e: Event, left: Option<Packet>)
    ensures left == Leaves(Exec(events), e) <==> LeavesAsItShould(events, e, left)
  {
    hide Dnat, Snat, IngressLeaves, EgressLeaves;
    if left.Some? {
      match e {
        case Ingress(p) => IngressExactly(p, left.value);
        case Egress(p) => EgressHistoryExactly(events, p, left.value);
        case Evict(_) =>
      }
    }
  }

  /** The table object, with its programs called as any traffic calls them, holds
      the table of that history, and each packet leaves as it should after the
      traffic before it. */
  method Drive(events: seq<Event>) returns (track: ConnTrack, sent: seq<Option<Packet>>)
    ensures fresh(track) && track.table == Exec(events)
    ensures |sent| == |events|
    ensures forall i :: 0 <= i < |events| ==> sent[i] == Leaves(Exec(events[..i]), events[i])
    ensures forall i :: 0 <= i < |events| ==> LeavesAsItShould(events[..i], events[i], sent[i])
  {
    hide Exec, Step, Leaves, LeavesAsItShould;
    NoTraffic();
    track := new ConnTrack();
    sent := [];
    while |sent| < |events|
      invariant |sent| <= |events| && fresh(track)
      invariant track.table == Exec(events[..|sent|])
      invariant forall i :: 0 <= i < |sent| ==> sent[i] == Leaves(Exec(events[..i]), events[i])
    {
      var k := |sent|;
      ExecStep(events, k);
      var left := Handle(track, events[k]);
      sent := sent + [left];
    }
    assert events[..|sent|] == events;
    forall i | 0 <= i < |events| ensures LeavesAsItShould(events[..i], events[i], sent[i]) {
      LeavesExactly(events[..i], events[i], sent[i]);
    }
  }

  /** The packet a receiver of `p` answers with. */
  ghost predicate AnswersTo(p: Packet, r: Packet) {
    && r.saddr == p.daddr && r.daddr == p.saddr
    && r.shape.sourcePort == p.shape.destPort && r.shape.destPort == p.shape.sourcePort
    && r.shape.protocol == p.shape.protocol
  }

  /** An answer to a translated packet is looked up under the entry made for that
      packet exactly when the packet had the translated addresses to begin with. */
  lemma AnswerFindsEntryExactly(p: Packet, r: Packet)
    requires Forwarded(p) && AnswersTo(Dnat(p), r)
    ensures ReverseTuple(r) == TupleOf(p) <==> p.saddr == LB_IP && p.daddr == BACKEND_IP
  {}

  /** The connection that the answers to a translated packet are looked up under. */
  function Pretranslated(p: Packet): Tuple {
    Tuple(LB_IP, BACKEND_IP, p.shape.sourcePort, TARGET_PORT, IPPROTO_TCP)
  }

  /** Over every history, an answer to a translated packet is changed exactly when
      it parses and a packet already addressed from the balancer to the backend,
      with the same ports, entered the ingress program and was not evicted since. */
  lemma AnswersPassUnlessPretranslated(events: seq<Event>, p: Packet, r: Packet)
    requires Forwarded(p) && AnswersTo(Dnat(p), r)
    ensures Snat(Exec(events), r) != r <==>
            Parses(r.shape) && exists i: nat :: KeptSince(events, Pretranslated(p), i)
  {
    assert ReverseTuple(r) == Pretranslated(p);
    RewritesExactly(events, r);
    if Rewrites(Exec(events), r) {
      RewriteReversesAnEntry(events, r);
    }
  }
}
