/** The two traffic classifiers: the generic profile and the security profile. */
module Classifier {
  import opened Words
  import opened FlowKey
  import opened Headers
  import opened AddressSet
  import opened FlowTab

  datatype Config = Config(dnsPort: u16, dpiPorts: seq<u16>, tlsPorts: seq<u16>, l2Off: nat, profile: int)

  /** What a run is configured with: the address set is the mathematical set of the listed
      addresses, and `flows` says whether a flow table is present. */
  datatype Rules = Rules(cfg: Config, watched: iset<u32>, flows: bool, cutoff: nat)

  const TABLE_BITS: nat := 20

  // ---- predicates on one packet ----

  predicate OnPort(f: Flow, ports: seq<u16>) { f.sport in ports || f.dport in ports }

  function L4At(p: Packet, l3: nat): nat
    requires l3 < |p|
  {
    l3 + HeaderLength(p, l3)
  }

  predicate DnsAt(cfg: Config, p: Packet, l3: nat) {
    HasPorts(p, l3) && OnPort(FlowAt(p, l3), [cfg.dnsPort])
  }

  /** TCP with the flags byte captured. */
  predicate TcpFlagsAt(p: Packet, l3: nat) {
    HasPorts(p, l3) && p[l3 + 9] == 6 && L4At(p, l3) + 14 <= |p|
  }

  predicate BareSynAt(p: Packet, l3: nat) {
    TcpFlagsAt(p, l3) && p[L4At(p, l3) + 13] == 0x02
  }

  /** A TCP segment with at least one captured payload byte on a watched port. */
  predicate WatchedPayloadAt(cfg: Config, p: Packet, l3: nat) {
    && TcpFlagsAt(p, l3)
    && 20 <= (p[L4At(p, l3) + 12] / 16) * 4 < |p| - L4At(p, l3)
    && OnPort(FlowAt(p, l3), cfg.dpiPorts)
  }

  predicate IsIpv4(cfg: Config, p: Packet) { Located(cfg.l2Off, p).Some? }

  function L3(cfg: Config, p: Packet): (l3: nat)
    requires IsIpv4(cfg, p)
    ensures l3 + 20 <= |p|
  {
    LocatedIff(cfg.l2Off, p, Located(cfg.l2Off, p).value);
    Located(cfg.l2Off, p).value
  }

  predicate HasFlow(cfg: Config, p: Packet) { IsIpv4(cfg, p) && HasPorts(p, L3(cfg, p)) }

  function FlowOf(cfg: Config, p: Packet): Flow
    requires HasFlow(cfg, p)
  {
    FlowAt(p, L3(cfg, p))
  }

  predicate IsDns(cfg: Config, p: Packet) { IsIpv4(cfg, p) && DnsAt(cfg, p, L3(cfg, p)) }

  predicate IsBareSyn(cfg: Config, p: Packet) { IsIpv4(cfg, p) && BareSynAt(p, L3(cfg, p)) }

  predicate IsWatchedPayload(cfg: Config, p: Packet) { IsIpv4(cfg, p) && WatchedPayloadAt(cfg, p, L3(cfg, p)) }

  ghost predicate IsAddressHit(r: Rules, p: Packet) {
    && IsIpv4(r.cfg, p)
    && (Source(p, L3(r.cfg, p)) in r.watched || Destination(p, L3(r.cfg, p)) in r.watched)
  }

  predicate IsTlsCandidate(cfg: Config, p: Packet) {
    HasFlow(cfg, p) && OnPort(FlowOf(cfg, p), cfg.tlsPorts)
  }

  predicate IsPriority(cfg: Config, p: Packet) {
    IsDns(cfg, p) || IsBareSyn(cfg, p) || IsWatchedPayload(cfg, p)
  }

  /** The packets that reach the flow counter. */
  ghost predicate IsCounted(r: Rules, p: Packet): (counted: bool)
    ensures counted ==> HasFlow(r.cfg, p)
  {
    && r.flows && !IsAddressHit(r, p)
    && if r.cfg.profile == 1 then !IsPriority(r.cfg, p) && IsTlsCandidate(r.cfg, p)
       else r.cutoff > 0 && HasFlow(r.cfg, p)
  }

  /** The class of a packet whose flow counter reads count: highest-ranked property first. */
  ghost function ClassGiven(r: Rules, p: Packet, count: nat): (c: nat)
    ensures c < if r.cfg.profile == 1 then 6 else 3
  {
    if r.cfg.profile == 1 then
      if IsDns(r.cfg, p) then 0
      else if IsBareSyn(r.cfg, p) then 5
      else if IsWatchedPayload(r.cfg, p) then 1
      else if IsAddressHit(r, p) then 3
      else if IsCounted(r, p) && count < r.cutoff then 4
      else 2
    else
      if IsAddressHit(r, p) then 2
      else if IsCounted(r, p) && count < r.cutoff then 1
      else 0
  }

  // ---- the code ----

  /** The parse result mt_classify fills in; only what it sets is specified. */
  class PktInfo {
    var cand: bool
    var ipv4: bool
    var proto: byte
    var l3: nat
    var l4: nat
    var sport: u16
    var dport: u16

    constructor () {}
  }

  method ContainsPort(ports: seq<u16>, sport: u16, dport: u16) returns (found: bool)
    ensures found <==> sport in ports || dport in ports
  {
    for i := 0 to |ports|
      invariant forall k :: 0 <= k < i ==> ports[k] != sport && ports[k] != dport
    {
      if sport == ports[i] || dport == ports[i] {
        return true;
      }
    }
    return false;
  }

  /** mt_classify: the stateless part of the security profile, and the parse it leaves behind. */
  method MtClassify(cfg: Config, p: Packet, o: PktInfo) returns (cls: nat)
    modifies o
    ensures cls == if IsDns(cfg, p) then 0 else if IsBareSyn(cfg, p) then 5 else if IsWatchedPayload(cfg, p) then 1 else 2
    ensures o.ipv4 <==> IsIpv4(cfg, p)
    ensures o.ipv4 ==> o.l3 == L3(cfg, p)
    ensures o.cand <==> HasFlow(cfg, p)
    ensures o.cand ==> o.l4 == L4At(p, o.l3) && o.proto == p[o.l3 + 9]
    ensures o.cand ==> o.sport == FlowOf(cfg, p).sport && o.dport == FlowOf(cfg, p).dport
  {
    hide DnsAt, BareSynAt, WatchedPayloadAt, HasPorts, HeaderLength, Be16At;
    o.cand, o.ipv4 := false, false;
    var l2, vguard: nat := cfg.l2Off, 0;
    while true
      invariant vguard <= 2 && l2 == cfg.l2Off + 4 * vguard && !o.cand && !o.ipv4
      invariant forall s: nat :: s < vguard ==> SkippedAt(p, cfg.l2Off + 4 * s)
      decreases 2 - vguard
    {
      if |p| < l2 + 20 {
        return 2;
      }
      if p[l2] / 16 == 4 {
        break;
      }
      if vguard >= 2 || l2 < 2 {
        return 2;
      }
      vguard := vguard + 1;
      if (p[l2 - 2] == 0x81 && p[l2 - 1] == 0x00) || (p[l2 - 2] == 0x88 && p[l2 - 1] == 0xa8) {
        l2 := l2 + 4;
      } else {
        return 2;
      }
    }
    assert AfterTags(cfg.l2Off, p, vguard);
    LocatedIff(cfg.l2Off, p, l2);
    o.l3, o.ipv4 := l2, true;
    cls := ClassifyTransport(cfg, p, l2, o);
  }

  /** The rest of mt_classify, from the located header on. */
  method ClassifyTransport(cfg: Config, p: Packet, l2: nat, o: PktInfo) returns (cls: nat)
    requires l2 + 20 <= |p| && !o.cand
    modifies o
    ensures o.ipv4 == old(o.ipv4) && o.l3 == old(o.l3)
    ensures cls == if DnsAt(cfg, p, l2) then 0 else if BareSynAt(p, l2) then 5 else if WatchedPayloadAt(cfg, p, l2) then 1 else 2
    ensures o.cand <==> HasPorts(p, l2)
    ensures o.cand ==> o.l4 == L4At(p, l2) && o.proto == p[l2 + 9]
    ensures o.cand ==> o.sport == SourcePort(p, l2) && o.dport == DestinationPort(p, l2)
  {
    var ihl := (p[l2] % 16) * 4;
    if ihl < 20 {
      return 2;
    }
    var l4 := l2 + ihl;
    o.proto := p[l2 + 9];
    if o.proto != 17 && o.proto != 6 {
      return 2;
    }
    if |p| < l4 + 4 {
      return 2;
    }
    var sport: u16 := Join(p[l4], p[l4 + 1]);
    var dport: u16 := Join(p[l4 + 2], p[l4 + 3]);
    o.cand, o.l4, o.sport, o.dport := true, l4, sport, dport;
    if sport == cfg.dnsPort || dport == cfg.dnsPort {
      return 0;
    }
    if o.proto == 6 && |p| >= l4 + 14 {
      if p[l4 + 13] == 0x02 {
        return 5;
      }
      var tcphl := (p[l4 + 12] / 16) * 4;
      if tcphl >= 20 && |p| > l4 + tcphl {
        var watched := ContainsPort(cfg.dpiPorts, sport, dport);
        if watched {
          return 1;
        }
      }
    }
    return 2;
  }

  ghost function WatchedBy(ioc: IpSet?): iset<u32>
    reads if ioc == null then {} else {ioc.slots}
  {
    if ioc == null then iset{} else iset w | w in ioc.Members()
  }

  ghost function RulesOf(cfg: Config, ioc: IpSet?, tab: FlowTable?, cutoff: nat): Rules
    reads if ioc == null then {} else {ioc.slots}
  {
    Rules(cfg, WatchedBy(ioc), tab != null, cutoff)
  }

  /** The structures of a run: usable, and not sharing storage. */
  ghost predicate Ready(ioc: IpSet?, tab: FlowTable?)
    reads if ioc == null then {} else {ioc.slots}
    reads if tab == null then {} else {tab, tab.keys, tab.cnt}
  {
    && (ioc != null ==> ioc.Valid())
    && (tab != null ==> tab.Valid() && tab.bits == TABLE_BITS)
    && (ioc != null ==> ioc.slots as object !in State(tab))
  }

  ghost function State(tab: FlowTable?): set<object> {
    if tab == null then {} else {tab, tab.keys, tab.cnt}
  }

  ghost function History(tab: FlowTable?): seq<u64>
    reads if tab == null then {} else {tab}
  {
    if tab == null then [] else tab.history
  }

  /** The keys counted so far after packet p. */
  ghost function Counted(r: Rules, ks: seq<u64>, p: Packet): seq<u64> {
    if IsCounted(r, p) then ks + [Key(FlowOf(r.cfg, p))] else ks
  }

  ghost function ClassAfter(r: Rules, ks: seq<u64>, p: Packet): nat {
    ClassGiven(r, p, if IsCounted(r, p) then Wrap32(Streak(TABLE_BITS, ks, Key(FlowOf(r.cfg, p)))) else 0)
  }

  method AddressHit(ioc: IpSet?, p: Packet, l3: nat) returns (hit: bool)
    requires ioc != null ==> ioc.Valid()
    requires l3 + 20 <= |p|
    ensures hit <==> Source(p, l3) in WatchedBy(ioc) || Destination(p, l3) in WatchedBy(ioc)
  {
    var sip, dip := Le32At(p, l3 + 12), Le32At(p, l3 + 16);
    hit := IpSet.Has(ioc, sip);
    if !hit {
      hit := IpSet.Has(ioc, dip);
    }
  }

  /** The flow-counting part of classify_generic, from the located header on. */
  method CountFlow(tab: FlowTable, p: Packet, l3: nat) returns (count: Option<u32>)
    requires tab.Valid() && l3 + 20 <= |p|
    modifies State(tab)
    ensures tab.Valid()
    ensures if HasPorts(p, l3) then
              && tab.history == old(tab.history) + [Key(FlowAt(p, l3))]
              && count == Some(Wrap32(Streak(tab.bits, old(tab.history), Key(FlowAt(p, l3)))))
            else tab.history == old(tab.history) && count == None
  {
    var proto := p[l3 + 9];
    if proto == 6 || proto == 17 {
      var ihl := (p[l3] % 16) * 4;
      var l4 := l3 + ihl;
      if ihl >= 20 && |p| >= l4 + 4 {
        var sp, dp := Join(p[l4], p[l4 + 1]), Join(p[l4 + 2], p[l4 + 3]);
        var flow := Flow(Le32At(p, l3 + 12), Le32At(p, l3 + 16), sp, dp, proto);
        assert flow == FlowAt(p, l3);
        var c := tab.Seen(Key(flow));
        return Some(c);
      }
    }
    return None;
  }

  /** classify_generic from the located header on. */
  method GenericAt(set_: IpSet?, tab: FlowTable?, cutoff: nat, p: Packet, l3: nat) returns (cls: nat)
    requires Ready(set_, tab) && l3 + 20 <= |p|
    modifies State(tab)
    ensures Ready(set_, tab) && WatchedBy(set_) == old(WatchedBy(set_))
    ensures var hit := Source(p, l3) in WatchedBy(set_) || Destination(p, l3) in WatchedBy(set_);
            if hit then cls == 2 && History(tab) == old(History(tab))
            else if tab == null || cutoff == 0 || !HasPorts(p, l3) then cls == 0 && History(tab) == old(History(tab))
            else
              && History(tab) == old(History(tab)) + [Key(FlowAt(p, l3))]
              && cls == if Wrap32(Streak(TABLE_BITS, old(History(tab)), Key(FlowAt(p, l3)))) < cutoff then 1 else 0
  {
    var hit := AddressHit(set_, p, l3);
    if hit {
      return 2;
    }
    if tab != null && cutoff > 0 {
      var count := CountFlow(tab, p, l3);
      if count.Some? && count.value < cutoff {
        return 1;
      }
    }
    return 0;
  }

  method ClassifyGeneric(cfg: Config, set_: IpSet?, tab: FlowTable?, cutoff: nat, p: Packet) returns (cls: nat)
    requires Ready(set_, tab) && cfg.profile != 1
    modifies State(tab)
    ensures Ready(set_, tab) && WatchedBy(set_) == old(WatchedBy(set_))
    ensures cls == ClassAfter(RulesOf(cfg, set_, tab, cutoff), old(History(tab)), p)
    ensures History(tab) == Counted(RulesOf(cfg, set_, tab, cutoff), old(History(tab)), p)
  {
    hide Located, HasPorts, Streak, Key, FlowAt, Source, Destination, After;
    var l3 := LocateIpv4(cfg.l2Off, p);
    if l3 < 0 {
      return 0;
    }
    assert L3(cfg, p) == l3;
    cls := GenericAt(set_, tab, cutoff, p, l3);
  }

  /** The part of classify_refine applied to IPv4 packets that mt_classify left in class 2. */
  method RefineNoise(tls: seq<u16>, ioc: IpSet?, tab: FlowTable?, cutoff: nat, p: Packet, pi: PktInfo) returns (cls: nat)
    requires Ready(ioc, tab) && pi !in State(tab) && pi.l3 + 20 <= |p|
    requires pi.cand <==> HasPorts(p, pi.l3)
    requires pi.cand ==> pi.sport == SourcePort(p, pi.l3) && pi.dport == DestinationPort(p, pi.l3) && pi.proto == p[pi.l3 + 9]
    modifies State(tab)
    ensures Ready(ioc, tab) && WatchedBy(ioc) == old(WatchedBy(ioc))
    ensures var hit := Source(p, pi.l3) in WatchedBy(ioc) || Destination(p, pi.l3) in WatchedBy(ioc);
            if hit then cls == 3 && History(tab) == old(History(tab))
            else if tab == null || !HasPorts(p, pi.l3) || !OnPort(FlowAt(p, pi.l3), tls) then
              cls == 2 && History(tab) == old(History(tab))
            else
              && History(tab) == old(History(tab)) + [Key(FlowAt(p, pi.l3))]
              && cls == if Wrap32(Streak(TABLE_BITS, old(History(tab)), Key(FlowAt(p, pi.l3)))) < cutoff then 4 else 2
  {
    hide Streak, Key, HeaderLength, After, Le32;
    cls := 2;
    if ioc != null || tab != null {
      var hit := AddressHit(ioc, p, pi.l3);
      if hit {
        cls := 3;
      } else if pi.cand && tab != null {
        var onTls := ContainsPort(tls, pi.sport, pi.dport);
        if onTls {
          var flow := Flow(Le32At(p, pi.l3 + 12), Le32At(p, pi.l3 + 16), pi.sport, pi.dport, pi.proto);
          assert flow == FlowAt(p, pi.l3);
          var count := tab.Seen(Key(flow));
          if count < cutoff {
            cls := 4;
          }
        }
      }
    }
  }

  method ClassifyRefine(cfg: Config, ioc: IpSet?, tab: FlowTable?, cutoff: nat, p: Packet) returns (cls: nat)
    requires Ready(ioc, tab) && cfg.profile == 1
    modifies State(tab)
    ensures Ready(ioc, tab) && WatchedBy(ioc) == old(WatchedBy(ioc))
    ensures cls == ClassAfter(RulesOf(cfg, ioc, tab, cutoff), old(History(tab)), p)
    ensures History(tab) == Counted(RulesOf(cfg, ioc, tab, cutoff), old(History(tab)), p)
  {
    hide Located, DnsAt, BareSynAt, WatchedPayloadAt, HasPorts, Streak, HeaderLength, Be16At, Le32At, After, Key;
    var pi := new PktInfo();
    cls := MtClassify(cfg, p, pi);
    if cls == 2 && pi.ipv4 {
      cls := RefineNoise(cfg.tlsPorts, ioc, tab, cutoff, p, pi);
    }
  }

  /** The class depends on the packet and on the keys counted before it, and on nothing else; a
      packet that is not counted leaves the flow table as it is. */
  method ClassifyDispatch(cfg: Config, ioc: IpSet?, tab: FlowTable?, cutoff: nat, p: Packet) returns (idx: nat)
    requires Ready(ioc, tab)
    modifies State(tab)
    ensures Ready(ioc, tab) && WatchedBy(ioc) == old(WatchedBy(ioc))
    ensures idx == ClassAfter(RulesOf(cfg, ioc, tab, cutoff), old(History(tab)), p)
    ensures History(tab) == Counted(RulesOf(cfg, ioc, tab, cutoff), old(History(tab)), p)
  {
    if cfg.profile == 1 {
      idx := ClassifyRefine(cfg, ioc, tab, cutoff, p);
    } else {
      idx := ClassifyGeneric(cfg, ioc, tab, cutoff, p);
    }
  }
}
