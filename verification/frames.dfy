/** The frame builders of the test suite, and what the classifier reads back from what they print. */
module Frames {
  import opened Words
  import opened Counting
  import opened FlowKey
  import opened Headers
  import opened Classifier
  import opened FlowTab
  import opened Runs

  const MACS: seq<byte> := [0xaa, 0xbb, 0xcc, 0xdd, 0xee, 0xff, 0x11, 0x22, 0x33, 0x44, 0x55, 0x66]

  /** One 802.1Q tag per round: protocol identifier and control word. */
  function Tags(vid: u16, tags: nat): (s: seq<byte>)
    ensures |s| == 4 * tags
  {
    if tags == 0 then [] else Tags(vid, tags - 1) + ([0x81, 0x00] + Be16(vid))
  }

  function EthernetHeader(vid: u16, inner: u16, tags: nat): (s: seq<byte>)
    ensures |s| == 14 + 4 * tags
  {
    MACS + Tags(vid, tags) + Be16(inner)
  }

  method EthVlan(vid: u16, inner: u16, tags: nat) returns (out: seq<byte>)
    ensures out == EthernetHeader(vid, inner, tags)
  {
    out := MACS;
    for i := 0 to tags
      invariant out == MACS + Tags(vid, i)
    {
      out := out + ([0x81, 0x00] + Be16(vid));
    }
    out := out + Be16(inner);
  }

  /** A 20-byte header, of which `ihl` claims to be followed by options at the start of the payload.
      The total length must fit its 16-bit field. */
  function Ipv4Packet(proto: byte, src: u32, dst: u32, payload: seq<byte>, ihl: nat): (s: seq<byte>)
    requires ihl < 16 && 4 * ihl + |payload| < 0x1_0000
    ensures |s| == 20 + |payload|
  {
    [0x40 + ihl, 0] + Be16(4 * ihl + |payload|) + Be16(0x1234) + Be16(0) + [64, proto] + Be16(0)
    + Be32(src) + Be32(dst) + payload
  }

  function Tcp(sport: u16, dport: u16, flags: byte, payload: seq<byte>, doff: nat): (s: seq<byte>)
    requires doff < 16
    ensures |s| == 20 + |payload|
  {
    Be16(sport) + Be16(dport) + Be32(1) + Be32(1) + [16 * doff, flags] + Be16(65535) + Be16(0) + Be16(0) + payload
  }

  function Udp(sport: u16, dport: u16, payload: seq<byte>): (s: seq<byte>)
    requires 8 + |payload| < 0x1_0000
    ensures |s| == 8 + |payload|
  {
    Be16(sport) + Be16(dport) + Be16(8 + |payload|) + Be16(0) + payload
  }

  // ---- reading the link layer back ----

  lemma {:induction false} TagAt(vid: u16, tags: nat, s: nat)
    requires s < tags
    ensures Tags(vid, tags)[4 * s..4 * s + 4] == [0x81, 0x00] + Be16(vid)
  {
    var last := [0x81, 0x00] + Be16(vid);
    if s < tags - 1 {
      TagAt(vid, tags - 1, s);
      assert Tags(vid, tags)[4 * s..4 * s + 4] == Tags(vid, tags - 1)[4 * s..4 * s + 4];
    } else {
      assert Tags(vid, tags)[4 * s..] == last;
    }
  }

  lemma TagBytesAt(vid: u16, inner: u16, tags: nat, ip: seq<byte>, s: nat)
    requires s < tags
    ensures var f := EthernetHeader(vid, inner, tags) + ip;
            f[12 + 4 * s] == 0x81 && f[13 + 4 * s] == 0x00 && f[14 + 4 * s] == vid / 0x100
  {
    TagAt(vid, tags, s);
    var f, ts := EthernetHeader(vid, inner, tags) + ip, Tags(vid, tags);
    assert f[12..12 + 4 * tags] == ts;
    assert f[12 + 4 * s..12 + 4 * s + 4] == ts[4 * s..4 * s + 4];
    var four := f[12 + 4 * s..12 + 4 * s + 4];
    assert four == [0x81, 0x00, vid / 0x100, vid % 0x100];
    assert f[12 + 4 * s] == four[0] && f[13 + 4 * s] == four[1] && f[14 + 4 * s] == four[2];
  }

  lemma InnerTypeAt(vid: u16, tags: nat, ip: seq<byte>)
    ensures var f := EthernetHeader(vid, 0x0800, tags) + ip;
            f[12 + 4 * tags] == 0x08 && f[13 + 4 * tags] == 0x00 && f[14 + 4 * tags..] == ip
  {
    var f := EthernetHeader(vid, 0x0800, tags) + ip;
    assert f[12 + 4 * tags..14 + 4 * tags] == Be16(0x0800);
    assert f[12 + 4 * tags] == Be16(0x0800)[0] && f[13 + 4 * tags] == Be16(0x0800)[1];
  }

  /** Locating what was built: with up to two tags the header is found where it was put, exactly
      when no control word starts with nibble 4; such a word is itself taken for the header. */
  lemma BuildThenLocate(vid: u16, tags: nat, ip: seq<byte>)
    requires 20 <= |ip| && ip[0] / 16 == 4
    ensures Located(14, EthernetHeader(vid, 0x0800, tags) + ip) ==
            if tags > 0 && vid / 0x1000 == 4 then Some(14)
            else if tags <= 2 then Some(14 + 4 * tags)
            else None
  {
    var f := EthernetHeader(vid, 0x0800, tags) + ip;
    hide EthernetHeader;
    InnerTypeAt(vid, tags, ip);
    assert f[14 + 4 * tags] == f[14 + 4 * tags..][0] == ip[0];
    if tags > 0 {
      TagBytesAt(vid, 0x0800, tags, ip, 0);
      assert (vid / 0x100) / 16 == vid / 0x1000;
      assert vid / 0x1000 != 4 ==> SkippedAt(f, 14);
    }
    if tags > 1 {
      TagBytesAt(vid, 0x0800, tags, ip, 1);
      assert vid / 0x1000 != 4 ==> SkippedAt(f, 18);
    }
    if tags > 2 {
      TagBytesAt(vid, 0x0800, tags, ip, 2);
    }
    LocateByPosition(f);
  }

  /** The three positions the walk on Ethernet can stop at. */
  lemma LocateByPosition(f: Packet)
    ensures HeaderAt(f, 14) ==> Located(14, f) == Some(14)
    ensures !HeaderAt(f, 14) && SkippedAt(f, 14) && HeaderAt(f, 18) ==> Located(14, f) == Some(18)
    ensures !HeaderAt(f, 14) && !HeaderAt(f, 18) && SkippedAt(f, 14) && SkippedAt(f, 18) && HeaderAt(f, 22) ==> Located(14, f) == Some(22)
    ensures !HeaderAt(f, 14) && !HeaderAt(f, 18) && !HeaderAt(f, 22) ==> Located(14, f) == None
  {
    assert AfterTags(14, f, 1) ==> SkippedAt(f, 14 + 4 * 0);
    assert AfterTags(14, f, 2) ==> SkippedAt(f, 14 + 4 * 0) && SkippedAt(f, 14 + 4 * 1);
  }

  // ---- reading the network and transport layers back ----

  lemma Ipv4Fields(proto: byte, src: u32, dst: u32, payload: seq<byte>, ihl: nat)
    requires ihl < 16 && 4 * ihl + |payload| < 0x1_0000
    ensures var ip := Ipv4Packet(proto, src, dst, payload, ihl);
            && ip[0] == 0x40 + ihl && ip[9] == proto
            && ip[12..16] == Be32(src) && ip[16..20] == Be32(dst) && ip[20..] == payload
  {
  }

  /** A header printed at offset off of a frame, seen through the parser's accessors. */
  lemma HeaderReadsBack(f: Packet, off: nat, proto: byte, src: u32, dst: u32, payload: seq<byte>, ihl: nat)
    requires ihl < 16 && 4 * ihl + |payload| < 0x1_0000 && off <= |f|
    requires f[off..] == Ipv4Packet(proto, src, dst, payload, ihl)
    ensures off + 20 <= |f| && HeaderLength(f, off) == 4 * ihl && f[off + 9] == proto
    ensures Source(f, off) == ToWord(src) && Destination(f, off) == ToWord(dst)
    ensures f[off + 20..] == payload
  {
    hide Ipv4Packet, ToWord, Be32, Le32;
    Ipv4Fields(proto, src, dst, payload, ihl);
    assert f[off] == f[off..][0] && f[off + 9] == f[off..][9];
    assert f[off + 20..] == f[off..][20..];
    AddressReadsBack(f, off + 12, src) by {
      assert f[off + 12..off + 16] == f[off..][12..16];
    }
    AddressReadsBack(f, off + 16, dst) by {
      assert f[off + 16..off + 20] == f[off..][16..20];
    }
  }

  /** The ports are the first four bytes of the segment behind the options. */
  predicate Ported(segment: seq<byte>, sport: u16, dport: u16) {
    4 <= |segment| && segment[..4] == Be16(sport) + Be16(dport)
  }

  lemma PortsReadBack(f: Packet, off: nat, l4: nat, segment: seq<byte>, sport: u16, dport: u16)
    requires off + 20 <= |f| && HeaderLength(f, off) >= 20 && l4 == off + HeaderLength(f, off) <= |f|
    requires f[off + 9] == 6 || f[off + 9] == 17
    requires f[l4..] == segment && Ported(segment, sport, dport)
    ensures HasPorts(f, off) && SourcePort(f, off) == sport && DestinationPort(f, off) == dport
  {
    var s := f[l4..][..4];
    assert s == [sport / 0x100, sport % 0x100, dport / 0x100, dport % 0x100];
    assert f[l4] == s[0] && f[l4 + 1] == s[1] && f[l4 + 2] == s[2] && f[l4 + 3] == s[3];
  }

  function Frame(vid: u16, tags: nat, proto: byte, src: u32, dst: u32, options: seq<byte>, segment: seq<byte>): seq<byte>
    requires |options| % 4 == 0 && |options| <= 40 && 20 + |options| + |options| + |segment| < 0x1_0000
  {
    EthernetHeader(vid, 0x0800, tags) + Ipv4Packet(proto, src, dst, options + segment, 5 + |options| / 4)
  }

  /** Build, then classify: whatever addresses, ports, options, payload and up to two tags (with
      control words not starting with nibble 4) a frame was built from, the parser recovers the
      header offset and the 5-tuple that were written, in both profiles. */
  lemma BuildThenParse(cfg: Config, vid: u16, tags: nat, proto: byte, src: u32, dst: u32, options: seq<byte>,
                       segment: seq<byte>, sport: u16, dport: u16)
    requires |options| % 4 == 0 && |options| <= 40 && 20 + |options| + |options| + |segment| < 0x1_0000
    requires proto == 6 || proto == 17
    requires Ported(segment, sport, dport)
    requires cfg.l2Off == 14 && tags <= 2 && (tags > 0 ==> vid / 0x1000 != 4)
    ensures var f := Frame(vid, tags, proto, src, dst, options, segment); var l3 := 14 + 4 * tags;
            && IsIpv4(cfg, f) && L3(cfg, f) == l3 && HasFlow(cfg, f)
            && FlowOf(cfg, f) == Flow(ToWord(src), ToWord(dst), sport, dport, proto)
            && l3 + HeaderLength(f, l3) <= |f| && f[l3 + HeaderLength(f, l3)..] == segment
  {
    hide EthernetHeader, Ipv4Packet, Ported, Located, HeaderLength, Source, Destination, ToWord, HasPorts, FlowAt;
    var ip := Ipv4Packet(proto, src, dst, options + segment, 5 + |options| / 4);
    Ipv4Fields(proto, src, dst, options + segment, 5 + |options| / 4);
    BuildThenLocate(vid, tags, ip);
    InnerTypeAt(vid, tags, ip);
    BuiltPacketReadsBack(EthernetHeader(vid, 0x0800, tags) + ip, 14 + 4 * tags, proto, src, dst, options, segment, sport, dport);
  }

  /** The same from the network layer on, wherever in a frame the packet lies. */
  lemma BuiltPacketReadsBack(f: Packet, l3: nat, proto: byte, src: u32, dst: u32, options: seq<byte>,
                             segment: seq<byte>, sport: u16, dport: u16)
    requires |options| % 4 == 0 && |options| <= 40 && 20 + |options| + |options| + |segment| < 0x1_0000
    requires proto == 6 || proto == 17
    requires Ported(segment, sport, dport)
    requires l3 <= |f| && f[l3..] == Ipv4Packet(proto, src, dst, options + segment, 5 + |options| / 4)
    ensures HasPorts(f, l3) && FlowAt(f, l3) == Flow(ToWord(src), ToWord(dst), sport, dport, proto)
    ensures l3 + HeaderLength(f, l3) <= |f| && f[l3 + HeaderLength(f, l3)..] == segment
  {
    hide Ipv4Packet, Ported, HeaderLength, Source, Destination, ToWord, HasPorts, SourcePort, DestinationPort;
    var ihl := 5 + |options| / 4;
    HeaderReadsBack(f, l3, proto, src, dst, options + segment, ihl);
    var l4 := l3 + 4 * ihl;
    assert f[l4..] == f[l3 + 20..][|options|..] == segment;
    PortsReadBack(f, l3, l4, segment, sport, dport);
  }

  lemma TcpIsPorted(sport: u16, dport: u16, flags: byte, payload: seq<byte>, doff: nat)
    requires doff < 16
    ensures var s := Tcp(sport, dport, flags, payload, doff);
            Ported(s, sport, dport) && s[12] == 16 * doff && s[13] == flags && s[20..] == payload
  {
  }

  lemma UdpIsPorted(sport: u16, dport: u16, payload: seq<byte>)
    requires 8 + |payload| < 0x1_0000
    ensures Ported(Udp(sport, dport, payload), sport, dport)
  {
  }

  /** The class predicates of a built TCP frame, in terms of what was written. */
  lemma BuiltTcpClass(cfg: Config, vid: u16, tags: nat, src: u32, dst: u32, options: seq<byte>,
                      sport: u16, dport: u16, flags: byte, payload: seq<byte>, doff: nat)
    requires |options| % 4 == 0 && |options| <= 40 && 40 + |options| + |options| + |payload| < 0x1_0000 && doff < 16
    requires cfg.l2Off == 14 && tags <= 2 && (tags > 0 ==> vid / 0x1000 != 4)
    ensures var f := Frame(vid, tags, 6, src, dst, options, Tcp(sport, dport, flags, payload, doff));
            && (IsDns(cfg, f) <==> sport == cfg.dnsPort || dport == cfg.dnsPort)
            && (IsBareSyn(cfg, f) <==> flags == 0x02)
            && (IsWatchedPayload(cfg, f) <==>
                5 <= doff && 4 * doff < 20 + |payload| && (sport in cfg.dpiPorts || dport in cfg.dpiPorts))
  {
    hide Tcp, Ported, Frame, Located, HasPorts, FlowAt, HeaderLength, DnsAt, BareSynAt, WatchedPayloadAt, ToWord;
    var s := Tcp(sport, dport, flags, payload, doff);
    TcpIsPorted(sport, dport, flags, payload, doff);
    assert s[12] / 16 == doff;
    BuildThenParse(cfg, vid, tags, 6, src, dst, options, s, sport, dport);
    var f, l3 := Frame(vid, tags, 6, src, dst, options, s), 14 + 4 * tags;
    TcpSegmentDecides(cfg, f, l3, s, Flow(ToWord(src), ToWord(dst), sport, dport, 6));
  }

  /** The class predicates only look at the flow and at the segment. */
  lemma TcpSegmentDecides(cfg: Config, f: Packet, l3: nat, s: seq<byte>, flow: Flow)
    requires l3 + 20 <= |f| && HasPorts(f, l3) && FlowAt(f, l3) == flow && flow.proto == 6
    requires L4At(f, l3) <= |f| && f[L4At(f, l3)..] == s && 20 <= |s|
    ensures DnsAt(cfg, f, l3) <==> flow.sport == cfg.dnsPort || flow.dport == cfg.dnsPort
    ensures BareSynAt(f, l3) <==> s[13] == 0x02
    ensures WatchedPayloadAt(cfg, f, l3) <==>
            20 <= (s[12] / 16) * 4 < |s| && (flow.sport in cfg.dpiPorts || flow.dport in cfg.dpiPorts)
  {
    var l4 := L4At(f, l3);
    hide Source, Destination, SourcePort, DestinationPort;
    assert f[l4 + 12] == f[l4..][12] && f[l4 + 13] == f[l4..][13] && |f| - l4 == |s|;
  }

  /** Generic-profile rules for Ethernet that count flows and watch no address. */
  ghost predicate CountsUdp(r: Rules) {
    r.cfg.l2Off == 14 && r.cfg.profile != 1 && r.flows && r.cutoff > 0 && r.watched == iset{}
  }

  function UdpFrame(src: u32, dst: u32, sport: u16, dport: u16, payload: seq<byte>): seq<byte>
    requires 28 + |payload| < 0x1_0000
  {
    Frame(0, 0, 17, src, dst, [], Udp(sport, dport, payload))
  }

  lemma UdpFrameCounted(r: Rules, src: u32, dst: u32, sport: u16, dport: u16, payload: seq<byte>)
    requires CountsUdp(r) && 28 + |payload| < 0x1_0000
    ensures var f := UdpFrame(src, dst, sport, dport, payload);
            |f| == 42 + |payload| && IsCounted(r, f) && L3(r.cfg, f) == 14
            && FlowOf(r.cfg, f) == Flow(ToWord(src), ToWord(dst), sport, dport, 17)
  {
    var segment := Udp(sport, dport, payload);
    UdpIsPorted(sport, dport, payload);
    hide Located, HasPorts, Ported, FlowAt, ToWord, HeaderLength, Udp;
    BuildThenParse(r.cfg, 0, 0, 17, src, dst, [], segment, sport, dport);
  }

  /** The frame of another UDP flow with the same key: other destination port, other addresses. */
  function CollidingFrame(src: u32, dst: u32): seq<byte> {
    var c := Collider(Flow(ToWord(src), ToWord(dst), 1000, 2000, 17), 1000, 2001, 17);
    UdpFrame(ToWord(c.sip), ToWord(c.dip), 1000, 2001, [])
  }

  lemma CollidingFrameCollides(r: Rules, src: u32, dst: u32)
    requires CountsUdp(r)
    ensures var f, g := UdpFrame(src, dst, 1000, 2000, []), CollidingFrame(src, dst);
            && IsCounted(r, f) && IsCounted(r, g)
            && Key(FlowOf(r.cfg, f)) == Key(FlowOf(r.cfg, g)) && FlowOf(r.cfg, f) != FlowOf(r.cfg, g)
  {
    hide UdpFrame, Key, Collider, IsCounted, ToWord;
    var f := Flow(ToWord(src), ToWord(dst), 1000, 2000, 17);
    var c := Collider(f, 1000, 2001, 17);
    ColliderPorts(f, 1000, 2001, 17);
    UdpFrameCounted(r, src, dst, 1000, 2000, []);
    UdpFrameCounted(r, ToWord(c.sip), ToWord(c.dip), 1000, 2001, []);
    ToWordInvolutive(c.sip);
    ToWordInvolutive(c.dip);
    ColliderCollides(f, 1000, 2001, 17);
  }

  lemma ColliderPorts(f: Flow, sport: u16, dport: u16, proto: byte)
    ensures var c := Collider(f, sport, dport, proto);
            c.sport == sport && c.dport == dport && c.proto == proto
  {
  }

  /** Whatever two addresses: after `cutoff` packets of the one UDP flow the first packet of the other,
      which shares its key, is not reported, so a run over these two packets hides a flow head. */
  lemma CollidingFrameHidesHead(r: Rules, src: u32, dst: u32)
    requires CountsUdp(r) && r.cutoff < TWO32
    ensures var f, g := UdpFrame(src, dst, 1000, 2000, []), CollidingFrame(src, dst);
            && IsCounted(r, f) && IsCounted(r, g)
            && Occ(CountedFlows(r, Repeat(f, r.cutoff)), FlowOf(r.cfg, g)) == 0
            && ClassAfter(r, CountedKeys(r, Repeat(f, r.cutoff)), g) != HeadClass(r)
            && !HidesNoHead(r, iset{f, g})
  {
    hide UdpFrame, CollidingFrame, IsCounted, HasFlow, FlowOf, Key, ClassAfter, CountedKeys, CountedFlows;
    var f, g := UdpFrame(src, dst, 1000, 2000, []), CollidingFrame(src, dst);
    CollidingFrameCollides(r, src, dst);
    SharedKeyHidesHead(r, f, g);
  }

  /** Whatever the fragment field says, the first packet counted is a head. */
  lemma FirstCountedIsHead(r: Rules, f: Packet, hi: byte, lo: byte)
    requires IsCounted(r, f) && r.cutoff > 0 && IsIpv4(r.cfg, f)
    ensures ClassAfter(r, [], WithFragmentField(f, L3(r.cfg, f), hi, lo)) == HeadClass(r)
  {
    hide Located, Streak, HasPorts;
    NoFlowHeadHidden(r, [], f);
    FragmentFieldIgnored(r, [], f, hi, lo);
  }

  /** A UDP fragment with a non-zero fragment offset is reported as a flow head. */
  lemma LaterFragmentIsHead(r: Rules, src: u32, dst: u32, payload: seq<byte>)
    requires CountsUdp(r) && 28 + |payload| < 0x1_0000
    ensures var f := UdpFrame(src, dst, 1000, 2000, payload);
            |f| == 42 + |payload|
            && var p := WithFragmentField(f, 14, 0x00, 0xb9);
               FragmentOffset(p, 14) == 185 && ClassAfter(r, [], p) == HeadClass(r)
  {
    hide Located, IsCounted, FlowOf, ToWord, UdpFrame, ClassAfter, HeadClass, FragmentOffset, WithFragmentField;
    var f := UdpFrame(src, dst, 1000, 2000, payload);
    UdpFrameCounted(r, src, dst, 1000, 2000, payload);
    OffsetWritten(f, 0x00, 0xb9);
    FirstCountedIsHead(r, f, 0x00, 0xb9);
  }

  lemma OffsetWritten(f: Packet, hi: byte, lo: byte)
    requires 34 <= |f|
    ensures |WithFragmentField(f, 14, hi, lo)| == |f|
    ensures FragmentOffset(WithFragmentField(f, 14, hi, lo), 14) == 0x100 * (hi % 32) as int + lo as int
  {
  }
}
