/** The class of every frame that can be written: link header, IPv4 header of any claimed length, and
    any bytes behind it, of which those behind the claimed header are the transport segment. The
    theorems speak of what was written, byte by byte, and not of the classifier's own notions. */
module FrameClasses {
  import opened Words
  import opened Counting
  import opened FlowKey
  import opened FlowTab
  import opened Headers
  import opened Classifier
  import opened Runs
  import opened Frames
  import opened Delivery
  import AddressSet

  // ---- reading back what was written ----

  /** A link header behind which the IPv4 header is found: one of the configured length, or an Ethernet
      header with up to two tags whose control words do not start with nibble 4. */
  ghost predicate LinkFor(cfg: Config, link: seq<byte>) {
    || |link| == cfg.l2Off
    || (cfg.l2Off == 14 && exists vid: u16, tags: nat :: IsTaggedLink(link, vid, tags))
  }

  predicate IsTaggedLink(link: seq<byte>, vid: u16, tags: nat) {
    tags <= 2 && (tags > 0 ==> vid / 0x1000 != 4) && link == EthernetHeader(vid, 0x0800, tags)
  }

  /** The bytes behind the header, options included, as far as they are there. */
  function SegmentOf(ihl: nat, body: seq<byte>): seq<byte> {
    if ihl < 5 || 4 * ihl - 20 > |body| then [] else body[4 * ihl - 20..]
  }

  lemma LinkThenLocate(cfg: Config, link: seq<byte>, ip: seq<byte>)
    requires LinkFor(cfg, link) && 20 <= |ip| && ip[0] / 16 == 4
    ensures IsIpv4(cfg, link + ip) && L3(cfg, link + ip) == |link|
  {
    if |link| == cfg.l2Off {
      assert (link + ip)[|link|] == ip[0];
      assert AfterTags(cfg.l2Off, link + ip, 0);
    } else {
      var vid: u16, tags: nat :| IsTaggedLink(link, vid, tags);
      BuildThenLocate(vid, tags, ip);
    }
  }

  lemma SegmentLies(f: Packet, l3: nat, proto: byte, src: u32, dst: u32, ihl: nat, body: seq<byte>)
    requires ihl < 16 && 4 * ihl + |body| < 0x1_0000 && l3 <= |f|
    requires f[l3..] == Ipv4Packet(proto, src, dst, body, ihl)
    ensures |f| == l3 + 20 + |body| && HeaderLength(f, l3) == 4 * ihl && f[l3 + 9] == proto
    ensures Source(f, l3) == ToWord(src) && Destination(f, l3) == ToWord(dst)
    ensures 5 <= ihl && 4 * ihl - 20 <= |body| ==> L4At(f, l3) <= |f| && f[L4At(f, l3)..] == SegmentOf(ihl, body)
    ensures 5 <= ihl && 4 * ihl - 20 > |body| ==> L4At(f, l3) > |f|
  {
    HeaderReadsBack(f, l3, proto, src, dst, body, ihl);
    hide Ipv4Packet, ToWord, Source, Destination;
    if 5 <= ihl && 4 * ihl - 20 <= |body| {
      assert f[l3 + 4 * ihl..] == f[l3 + 20..][4 * ihl - 20..];
    }
  }

  /** What the classifier finds behind the header at l3 is what the segment s says. */
  ghost predicate Carries(cfg: Config, f: Packet, l3: nat, s: seq<byte>)
    requires l3 + 20 <= |f|
  {
    && (HasPorts(f, l3) <==> (f[l3 + 9] == 6 || f[l3 + 9] == 17) && |s| >= 4)
    && (HasPorts(f, l3) ==> SourcePort(f, l3) == Join(s[0], s[1]) && DestinationPort(f, l3) == Join(s[2], s[3]))
    && (TcpFlagsAt(f, l3) <==> f[l3 + 9] == 6 && |s| >= 14)
    && (BareSynAt(f, l3) <==> f[l3 + 9] == 6 && |s| >= 14 && s[13] == 2)
    && (WatchedPayloadAt(cfg, f, l3) <==>
          && f[l3 + 9] == 6 && |s| >= 14 && 20 <= 4 * (s[12] / 16) < |s|
          && (Join(s[0], s[1]) in cfg.dpiPorts || Join(s[2], s[3]) in cfg.dpiPorts))
  }

  lemma SegmentDecides(cfg: Config, f: Packet, l3: nat, ihl: nat, s: seq<byte>)
    requires l3 + 20 <= |f| && HeaderLength(f, l3) == 4 * ihl
    requires ihl < 5 ==> s == []
    requires 5 <= ihl ==> if L4At(f, l3) <= |f| then f[L4At(f, l3)..] == s else s == []
    ensures Carries(cfg, f, l3, s)
  {
    if 5 <= ihl && L4At(f, l3) <= |f| {
      var l4 := L4At(f, l3);
      assert |s| == |f| - l4;
      forall i | 0 <= i < |s|
        ensures f[l4 + i] == s[i]
      {
        assert f[l4..][i] == f[l4 + i];
      }
      hide HeaderLength, Source, Destination, Join;
    }
  }

  // ---- the class of a written frame ----

  /** The class and the count of a frame whose header was located, in terms of what can be read there. */
  lemma ClassOfLocated(r: Rules, ks: seq<u64>, f: Packet, l3: nat)
    requires IsIpv4(r.cfg, f) && L3(r.cfg, f) == l3 && l3 + 20 <= |f|
    ensures var ports, dns, syn, watched := HasPorts(f, l3), DnsAt(r.cfg, f, l3), BareSynAt(f, l3), WatchedPayloadAt(r.cfg, f, l3);
            var hit := Source(f, l3) in r.watched || Destination(f, l3) in r.watched;
            var tls := ports && OnPort(FlowAt(f, l3), r.cfg.tlsPorts);
            var key := if ports then Key(FlowAt(f, l3)) else 0;
            var young := Wrap32(Streak(20, ks, key)) < r.cutoff;
            && (r.cfg.profile == 1 ==>
                  && ClassAfter(r, ks, f) == (if dns then 0 else if syn then 5 else if watched then 1 else if hit then 3
                                              else if tls && r.flows && young then 4 else 2)
                  && Counted(r, ks, f) == if !dns && !syn && !watched && !hit && tls && r.flows then ks + [key] else ks)
            && (r.cfg.profile != 1 ==>
                  && ClassAfter(r, ks, f) == (if hit then 2 else if ports && r.flows && r.cutoff > 0 && young then 1 else 0)
                  && Counted(r, ks, f) == if !hit && ports && r.flows && r.cutoff > 0 then ks + [key] else ks)
  {
    hide Located, HasPorts, DnsAt, BareSynAt, WatchedPayloadAt, Streak, Key, FlowAt, Source, Destination;
  }

  /** A frame without an IPv4 header is in the lowest class of its profile and never counted. */
  lemma ClassWithoutIpv4(r: Rules, ks: seq<u64>, f: Packet)
    requires Located(r.cfg.l2Off, f) == None
    ensures ClassAfter(r, ks, f) == if r.cfg.profile == 1 then 2 else 0
    ensures Counted(r, ks, f) == ks
  {
  }

  /** The class of every written frame in the security profile: DNS on the configured port over UDP or TCP,
      else a bare SYN, else TCP payload on a watched port, else a watched address whatever the protocol, else the
      head of a flow on a TLS port, else the rest; and only TLS flows of the last two kinds are counted. */
  lemma SecurityClassOfFrame(r: Rules, ks: seq<u64>, link: seq<byte>, proto: byte, src: u32, dst: u32, ihl: nat, body: seq<byte>)
    requires r.cfg.profile == 1 && LinkFor(r.cfg, link) && ihl < 16 && 4 * ihl + |body| < 0x1_0000
    ensures var f, s := link + Ipv4Packet(proto, src, dst, body, ihl), SegmentOf(ihl, body);
            var ports := (proto == 6 || proto == 17) && |s| >= 4;
            var sport: u16, dport: u16 := if ports then 0x100 * (s[0] as int) + s[1] as int else 0, if ports then 0x100 * (s[2] as int) + s[3] as int else 0;
            var dns := ports && (sport == r.cfg.dnsPort || dport == r.cfg.dnsPort);
            var flags := proto == 6 && |s| >= 14;
            var syn := flags && s[13] == 2;
            var watched := flags && 20 <= 4 * (s[12] / 16) < |s| && (sport in r.cfg.dpiPorts || dport in r.cfg.dpiPorts);
            var hit := ToWord(src) in r.watched || ToWord(dst) in r.watched;
            var counted := ports && (sport in r.cfg.tlsPorts || dport in r.cfg.tlsPorts) && r.flows;
            var key := Key(Flow(ToWord(src), ToWord(dst), sport, dport, proto));
            && ClassAfter(r, ks, f) == (if dns then 0 else if syn then 5 else if watched then 1 else if hit then 3
                                        else if counted && Wrap32(Streak(20, ks, key)) < r.cutoff then 4 else 2)
            && Counted(r, ks, f) == if !dns && !syn && !watched && !hit && counted then ks + [key] else ks
  {
    hide Ipv4Packet, SegmentOf, LinkFor, ToWord, Key, Streak, HasPorts, BareSynAt, WatchedPayloadAt;
    hide ClassAfter, Counted, L3, IsIpv4, Source, Destination, SourcePort, DestinationPort, HeaderLength;
    var f, l3 := link + Ipv4Packet(proto, src, dst, body, ihl), |link|;
    WrittenReadsBack(r.cfg, link, proto, src, dst, ihl, body);
    ClassOfLocated(r, ks, f, l3);
  }

  /** The class of every written frame in the generic profile. */
  lemma GenericClassOfFrame(r: Rules, ks: seq<u64>, link: seq<byte>, proto: byte, src: u32, dst: u32, ihl: nat, body: seq<byte>)
    requires r.cfg.profile != 1 && LinkFor(r.cfg, link) && ihl < 16 && 4 * ihl + |body| < 0x1_0000
    ensures var f, s := link + Ipv4Packet(proto, src, dst, body, ihl), SegmentOf(ihl, body);
            var ports := (proto == 6 || proto == 17) && |s| >= 4;
            var sport: u16, dport: u16 := if ports then 0x100 * (s[0] as int) + s[1] as int else 0, if ports then 0x100 * (s[2] as int) + s[3] as int else 0;
            var hit := ToWord(src) in r.watched || ToWord(dst) in r.watched;
            var counted := !hit && ports && r.flows && r.cutoff > 0;
            var key := Key(Flow(ToWord(src), ToWord(dst), sport, dport, proto));
            && ClassAfter(r, ks, f) == (if hit then 2 else if counted && Wrap32(Streak(20, ks, key)) < r.cutoff then 1 else 0)
            && Counted(r, ks, f) == if counted then ks + [key] else ks
  {
    hide Ipv4Packet, SegmentOf, LinkFor, ToWord, Key, Streak, HasPorts, BareSynAt, WatchedPayloadAt;
    hide ClassAfter, Counted, L3, IsIpv4, Source, Destination, SourcePort, DestinationPort, HeaderLength;
    var f, l3 := link + Ipv4Packet(proto, src, dst, body, ihl), |link|;
    WrittenReadsBack(r.cfg, link, proto, src, dst, ihl, body);
    ClassOfLocated(r, ks, f, l3);
  }

  /** Everything the classifiers read from a written frame. */
  lemma WrittenReadsBack(cfg: Config, link: seq<byte>, proto: byte, src: u32, dst: u32, ihl: nat, body: seq<byte>)
    requires LinkFor(cfg, link) && ihl < 16 && 4 * ihl + |body| < 0x1_0000
    ensures var f, l3, s := link + Ipv4Packet(proto, src, dst, body, ihl), |link|, SegmentOf(ihl, body);
            && IsIpv4(cfg, f) && L3(cfg, f) == l3 && l3 + 20 <= |f| && f[l3 + 9] == proto
            && Source(f, l3) == ToWord(src) && Destination(f, l3) == ToWord(dst)
            && Carries(cfg, f, l3, s)
  {
    var ip := Ipv4Packet(proto, src, dst, body, ihl);
    var f, l3 := link + ip, |link|;
    Ipv4Fields(proto, src, dst, body, ihl);
    hide Ipv4Packet, LinkFor, ToWord, SegmentOf, Carries;
    LinkThenLocate(cfg, link, ip);
    assert f[l3..] == ip;
    hide L3, IsIpv4, Source, Destination, HeaderLength;
    SegmentLies(f, l3, proto, src, dst, ihl, body);
    ShortHeaderHasNoSegment(ihl, body);
    SegmentDecides(cfg, f, l3, ihl, SegmentOf(ihl, body));
  }

  lemma ShortHeaderHasNoSegment(ihl: nat, body: seq<byte>)
    ensures ihl < 5 || 4 * ihl - 20 > |body| ==> SegmentOf(ihl, body) == []
  {
  }

  /** From the arguments of the call to the class: in the generic profile a frame is SET_MATCH exactly when one of
      its addresses is listed and not 0.0.0.0, whatever its protocol, and the set could be allocated. */
  lemma ListedAddressMatches(cfg: Config, addresses: seq<u32>, flowCutoff: int, memory: Memory, ks: seq<u64>,
                             link: seq<byte>, proto: byte, src: u32, dst: u32, ihl: nat, body: seq<byte>)
    requires cfg.profile != 1 && |addresses| <= 0x4000_0000
    requires LinkFor(cfg, link) && ihl < 16 && 4 * ihl + |body| < 0x1_0000
    ensures var r := RulesFor(cfg, AddressSet.Packed(addresses), flowCutoff, memory);
            ClassAfter(r, ks, link + Ipv4Packet(proto, src, dst, body, ihl)) == 2 <==>
              memory.set_ && ((src != 0 && src in addresses) || (dst != 0 && dst in addresses))
  {
    hide LinkFor, Ipv4Packet, ToWord, Key, Streak, RulesFor, SegmentOf, ClassAfter, Counted;
    var r := RulesFor(cfg, AddressSet.Packed(addresses), flowCutoff, memory);
    WatchesListed(cfg, addresses, flowCutoff, memory, src);
    WatchesListed(cfg, addresses, flowCutoff, memory, dst);
    GenericClassOfFrame(r, ks, link, proto, src, dst, ihl, body);
  }

  // ---- frames of the builders ----

  lemma FrameIsWritten(cfg: Config, vid: u16, tags: nat, proto: byte, src: u32, dst: u32, options: seq<byte>, segment: seq<byte>)
    requires |options| % 4 == 0 && |options| <= 40 && 20 + |options| + |options| + |segment| < 0x1_0000
    requires cfg.l2Off == 14 && tags <= 2 && (tags > 0 ==> vid / 0x1000 != 4)
    ensures var ihl := 5 + |options| / 4;
            && Frame(vid, tags, proto, src, dst, options, segment)
               == EthernetHeader(vid, 0x0800, tags) + Ipv4Packet(proto, src, dst, options + segment, ihl)
            && SegmentOf(ihl, options + segment) == segment
    ensures LinkFor(cfg, EthernetHeader(vid, 0x0800, tags))
  {
    assert IsTaggedLink(EthernetHeader(vid, 0x0800, tags), vid, tags);
  }

  lemma FrameReadsBack(cfg: Config, vid: u16, tags: nat, proto: byte, src: u32, dst: u32, options: seq<byte>, segment: seq<byte>)
    requires |options| % 4 == 0 && |options| <= 40 && 20 + |options| + |options| + |segment| < 0x1_0000
    requires cfg.l2Off == 14 && tags <= 2 && (tags > 0 ==> vid / 0x1000 != 4)
    ensures var f, l3 := Frame(vid, tags, proto, src, dst, options, segment), 14 + 4 * tags;
            && IsIpv4(cfg, f) && L3(cfg, f) == l3 && l3 + 20 <= |f| && f[l3 + 9] == proto
            && Source(f, l3) == ToWord(src) && Destination(f, l3) == ToWord(dst)
            && Carries(cfg, f, l3, segment)
  {
    FrameIsWritten(cfg, vid, tags, proto, src, dst, options, segment);
    hide Frame, EthernetHeader, Ipv4Packet, SegmentOf, LinkFor, ToWord, Carries, L3, IsIpv4, Source, Destination;
    WrittenReadsBack(cfg, EthernetHeader(vid, 0x0800, tags), proto, src, dst, 5 + |options| / 4, options + segment);
  }

  /** The class predicates of a built UDP frame, in terms of what was written. */
  lemma BuiltUdpClass(cfg: Config, vid: u16, tags: nat, src: u32, dst: u32, options: seq<byte>,
                      sport: u16, dport: u16, payload: seq<byte>)
    requires |options| % 4 == 0 && |options| <= 40 && 28 + |options| + |options| + |payload| < 0x1_0000
    requires cfg.l2Off == 14 && tags <= 2 && (tags > 0 ==> vid / 0x1000 != 4)
    ensures var f := Frame(vid, tags, 17, src, dst, options, Udp(sport, dport, payload));
            && (IsDns(cfg, f) <==> sport == cfg.dnsPort || dport == cfg.dnsPort)
            && !IsBareSyn(cfg, f) && !IsWatchedPayload(cfg, f)
            && (IsTlsCandidate(cfg, f) <==> sport in cfg.tlsPorts || dport in cfg.tlsPorts)
  {
    var s := Udp(sport, dport, payload);
    UdpPorts(sport, dport, payload);
    hide Udp, Frame, HasPorts, BareSynAt, WatchedPayloadAt, HeaderLength, ToWord, Join;
    hide L3, IsIpv4, Source, Destination, SourcePort, DestinationPort;
    FrameReadsBack(cfg, vid, tags, 17, src, dst, options, s);
  }

  lemma UdpPorts(sport: u16, dport: u16, payload: seq<byte>)
    requires 8 + |payload| < 0x1_0000
    ensures var s := Udp(sport, dport, payload);
            |s| >= 8 && Join(s[0], s[1]) == sport && Join(s[2], s[3]) == dport
            && 0x100 * (s[0] as int) + s[1] as int == sport && 0x100 * (s[2] as int) + s[3] as int == dport
  {
    var s := Udp(sport, dport, payload);
    assert s[..2] == Be16(sport) && s[2..4] == Be16(dport);
    assert s[0] == s[..2][0] && s[1] == s[..2][1] && s[2] == s[2..4][0] && s[3] == s[2..4][1];
    Be16RoundTrip(sport);
    Be16RoundTrip(dport);
  }

  lemma TcpPorts(sport: u16, dport: u16, flags: byte, payload: seq<byte>, doff: nat)
    requires doff < 16
    ensures var s := Tcp(sport, dport, flags, payload, doff);
            |s| == 20 + |payload| && Join(s[0], s[1]) == sport && Join(s[2], s[3]) == dport
            && 0x100 * (s[0] as int) + s[1] as int == sport && 0x100 * (s[2] as int) + s[3] as int == dport
            && s[12] / 16 == doff && s[13] == flags
  {
    var s := Tcp(sport, dport, flags, payload, doff);
    TcpIsPorted(sport, dport, flags, payload, doff);
    assert s[..4] == [sport / 0x100, sport % 0x100, dport / 0x100, dport % 0x100];
    assert s[0] == s[..4][0] && s[1] == s[..4][1] && s[2] == s[..4][2] && s[3] == s[..4][3];
  }

  /** The security class of an Ethernet frame with a given transport segment. */
  lemma SecurityClassOfSegment(r: Rules, ks: seq<u64>, vid: u16, tags: nat, proto: byte, src: u32, dst: u32,
                               options: seq<byte>, s: seq<byte>, sport: u16, dport: u16)
    requires |options| % 4 == 0 && |options| <= 40 && 20 + |options| + |options| + |s| < 0x1_0000
    requires r.cfg.l2Off == 14 && r.cfg.profile == 1 && tags <= 2 && (tags > 0 ==> vid / 0x1000 != 4)
    requires (proto == 6 && |s| >= 14) || (proto == 17 && |s| >= 4)
    requires 0x100 * (s[0] as int) + s[1] as int == sport && 0x100 * (s[2] as int) + s[3] as int == dport
    ensures var f := Frame(vid, tags, proto, src, dst, options, s);
            var key := Key(Flow(ToWord(src), ToWord(dst), sport, dport, proto));
            ClassAfter(r, ks, f) ==
              if sport == r.cfg.dnsPort || dport == r.cfg.dnsPort then 0
              else if proto == 6 && s[13] == 2 then 5
              else if proto == 6 && 20 <= 4 * (s[12] / 16) < |s| && (sport in r.cfg.dpiPorts || dport in r.cfg.dpiPorts) then 1
              else if ToWord(src) in r.watched || ToWord(dst) in r.watched then 3
              else if (sport in r.cfg.tlsPorts || dport in r.cfg.tlsPorts) && r.flows && Wrap32(Streak(20, ks, key)) < r.cutoff then 4
              else 2
  {
    var f, l3 := Frame(vid, tags, proto, src, dst, options, s), 14 + 4 * tags;
    FrameReadsBack(r.cfg, vid, tags, proto, src, dst, options, s);
    assert Join(s[0], s[1]) == sport && Join(s[2], s[3]) == dport;
    hide Frame, ToWord, Key, Streak, Wrap32, HasPorts, BareSynAt, WatchedPayloadAt, Join;
    hide ClassAfter, Counted, L3, IsIpv4, Source, Destination, SourcePort, DestinationPort, HeaderLength;
    assert FlowAt(f, l3) == Flow(ToWord(src), ToWord(dst), sport, dport, proto);
    assert DnsAt(r.cfg, f, l3) <==> sport == r.cfg.dnsPort || dport == r.cfg.dnsPort;
    ClassOfLocated(r, ks, f, l3);
    hide FlowAt, DnsAt, Carries;
  }

  /** The security class of a built UDP frame. */
  lemma SecurityClassOfUdp(r: Rules, ks: seq<u64>, vid: u16, tags: nat, src: u32, dst: u32, options: seq<byte>,
                           sport: u16, dport: u16, payload: seq<byte>)
    requires |options| % 4 == 0 && |options| <= 40 && 28 + |options| + |options| + |payload| < 0x1_0000
    requires r.cfg.l2Off == 14 && r.cfg.profile == 1 && tags <= 2 && (tags > 0 ==> vid / 0x1000 != 4)
    ensures var f := Frame(vid, tags, 17, src, dst, options, Udp(sport, dport, payload));
            var key := Key(Flow(ToWord(src), ToWord(dst), sport, dport, 17));
            ClassAfter(r, ks, f) ==
              if sport == r.cfg.dnsPort || dport == r.cfg.dnsPort then 0
              else if ToWord(src) in r.watched || ToWord(dst) in r.watched then 3
              else if (sport in r.cfg.tlsPorts || dport in r.cfg.tlsPorts) && r.flows && Wrap32(Streak(20, ks, key)) < r.cutoff then 4
              else 2
  {
    UdpPorts(sport, dport, payload);
    hide Udp, Frame, ClassAfter, ToWord, Key, Streak;
    SecurityClassOfSegment(r, ks, vid, tags, 17, src, dst, options, Udp(sport, dport, payload), sport, dport);
  }

  /** The security class of a built TCP frame, with the ranks of its properties. */
  lemma SecurityClassOfTcp(r: Rules, ks: seq<u64>, vid: u16, tags: nat, src: u32, dst: u32, options: seq<byte>,
                           sport: u16, dport: u16, flags: byte, payload: seq<byte>, doff: nat)
    requires |options| % 4 == 0 && |options| <= 40 && 40 + |options| + |options| + |payload| < 0x1_0000 && doff < 16
    requires r.cfg.l2Off == 14 && r.cfg.profile == 1 && tags <= 2 && (tags > 0 ==> vid / 0x1000 != 4)
    ensures var f := Frame(vid, tags, 6, src, dst, options, Tcp(sport, dport, flags, payload, doff));
            var key := Key(Flow(ToWord(src), ToWord(dst), sport, dport, 6));
            ClassAfter(r, ks, f) ==
              if sport == r.cfg.dnsPort || dport == r.cfg.dnsPort then 0
              else if flags == 2 then 5
              else if 5 <= doff && 4 * doff < 20 + |payload| && (sport in r.cfg.dpiPorts || dport in r.cfg.dpiPorts) then 1
              else if ToWord(src) in r.watched || ToWord(dst) in r.watched then 3
              else if (sport in r.cfg.tlsPorts || dport in r.cfg.tlsPorts) && r.flows && Wrap32(Streak(20, ks, key)) < r.cutoff then 4
              else 2
  {
    TcpPorts(sport, dport, flags, payload, doff);
    hide Tcp, Frame, ClassAfter, ToWord, Key, Streak;
    SecurityClassOfSegment(r, ks, vid, tags, 6, src, dst, options, Tcp(sport, dport, flags, payload, doff), sport, dport);
  }

  /** The first counted frame of a TLS flow is class 4 after any capture. */
  lemma FirstTlsFrameIsHead(r: Rules, pkts: seq<Packet>, vid: u16, tags: nat, src: u32, dst: u32, options: seq<byte>,
                            sport: u16, dport: u16, payload: seq<byte>)
    requires |options| % 4 == 0 && |options| <= 40 && 28 + |options| + |options| + |payload| < 0x1_0000
    requires r.cfg.l2Off == 14 && r.cfg.profile == 1 && tags <= 2 && (tags > 0 ==> vid / 0x1000 != 4)
    requires r.flows && r.cutoff > 0 && (sport in r.cfg.tlsPorts || dport in r.cfg.tlsPorts)
    requires sport != r.cfg.dnsPort && dport != r.cfg.dnsPort && ToWord(src) !in r.watched && ToWord(dst) !in r.watched
    requires Key(Flow(ToWord(src), ToWord(dst), sport, dport, 17)) !in CountedKeys(r, pkts)
    ensures var f := Frame(vid, tags, 17, src, dst, options, Udp(sport, dport, payload));
            ClassAfter(r, CountedKeys(r, pkts), f) == 4
  {
    hide Frame, Udp, ToWord, Key, ClassAfter, CountedKeys;
    var ks, key := CountedKeys(r, pkts), Key(Flow(ToWord(src), ToWord(dst), sport, dport, 17));
    SecurityClassOfUdp(r, ks, vid, tags, src, dst, options, sport, dport, payload);
    AbsentHasNoStreak(ks, key);
  }

  lemma AbsentHasNoStreak(ks: seq<u64>, key: u64)
    requires key !in ks
    ensures Streak(20, ks, key) == 0
  {
    OccIsMultiplicity(ks, key);
    StreakWithinOccurrences(20, ks, key);
  }
}
