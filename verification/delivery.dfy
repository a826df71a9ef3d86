/** The two delivery paths on top of the classifier: one callback per admitted packet, and records
    written straight into a buffer. */
module Delivery {
  import opened Words
  import opened Counting
  import opened Headers
  import opened AddressSet
  import FlowKey
  import opened FlowTab
  import opened Classifier
  import opened Runs
  import opened Records

  /** Public class ids of the security profile start at 100. */
  function ProfileBase(cfg: Config): nat { if cfg.profile == 1 then 100 else 0 }

  ghost predicate ClassList(cs: seq<nat>, pkts: seq<Payload>) {
    |cs| == |pkts| && forall i :: 0 <= i < |cs| ==> cs[i] < 6
  }

  /** The packets whose class the mask admits, with their public class id, in order. */
  ghost function Select(cfg: Config, mask: int, cs: seq<nat>, pkts: seq<Payload>): seq<Record>
    requires ClassList(cs, pkts)
  {
    if pkts == [] then []
    else
      var m := |pkts| - 1;
      Select(cfg, mask, cs[..m], pkts[..m]) + Verdict(cfg, mask, cs[m], pkts[m])
  }

  function Verdict(cfg: Config, mask: int, c: nat, p: Payload): seq<Record>
    requires c < 6
  {
    if Admits(mask, c) then [Record(ProfileBase(cfg) + c, p)] else []
  }

  /** What a run delivers under a mask, on either path. */
  ghost function Admitted(r: Rules, mask: int, pkts: seq<Payload>): seq<Record> {
    Select(r.cfg, mask, Classes(r, pkts), pkts)
  }

  lemma SelectSnoc(cfg: Config, mask: int, cs: seq<nat>, pkts: seq<Payload>, c: nat, p: Payload)
    requires ClassList(cs, pkts) && c < 6
    ensures Select(cfg, mask, cs + [c], pkts + [p]) == Select(cfg, mask, cs, pkts) + Verdict(cfg, mask, c, p)
  {
    assert (cs + [c])[..|cs|] == cs && (pkts + [p])[..|pkts|] == pkts;
  }

  // ---- which packets are delivered, by position ----

  /** The positions of the packets whose class the mask admits, in increasing order. */
  function Positions(mask: int, cs: seq<nat>): (at: seq<nat>)
    ensures forall k :: 0 <= k < |at| ==> at[k] < |cs| && Admits(mask, cs[at[k]])
    ensures forall j, k :: 0 <= j < k < |at| ==> at[j] < at[k]
    ensures forall i :: 0 <= i < |cs| && Admits(mask, cs[i]) ==> i in at
  {
    if cs == [] then []
    else
      var m := |cs| - 1;
      var before := Positions(mask, cs[..m]);
      if Admits(mask, cs[m]) then AddLast(before, m) else before
  }

  function AddLast(at: seq<nat>, m: nat): (r: seq<nat>)
    ensures r == at + [m] && m in r && forall i :: i in at ==> i in r
  {
    at + [m]
  }

  /** The selected records are the packets at these positions, with their class id: 100 more than the
      class index in the security profile. */
  lemma {:induction false} SelectAt(cfg: Config, mask: int, cs: seq<nat>, pkts: seq<Payload>)
    requires ClassList(cs, pkts)
    ensures var rs, at := Select(cfg, mask, cs, pkts), Positions(mask, cs);
            && |rs| == |at|
            && forall k :: 0 <= k < |rs| ==>
                 rs[k].bytes == pkts[at[k]] && rs[k].cls == cs[at[k]] + if cfg.profile == 1 then 100 else 0
  {
    if pkts == [] {
    } else {
      var m := |pkts| - 1;
      SelectAt(cfg, mask, cs[..m], pkts[..m]);
      SelectLast(cfg, mask, cs, pkts);
      hide Admits, Select, Positions;
    }
  }

  lemma SelectLast(cfg: Config, mask: int, cs: seq<nat>, pkts: seq<Payload>)
    requires ClassList(cs, pkts) && pkts != []
    ensures var m := |pkts| - 1;
            && ClassList(cs[..m], pkts[..m])
            && Positions(mask, cs) == Positions(mask, cs[..m]) + (if Admits(mask, cs[m]) then [m] else [])
            && Select(cfg, mask, cs, pkts) == Select(cfg, mask, cs[..m], pkts[..m]) + Verdict(cfg, mask, cs[m], pkts[m])
  {
    hide Admits;
  }

  // ---- independence of the mask ----

  /** Keep the records whose class is admitted. */
  function Filter(cfg: Config, mask: int, rs: seq<Record>): seq<Record> {
    if rs == [] then []
    else
      var last := rs[|rs| - 1];
      var prev := Filter(cfg, mask, rs[..|rs| - 1]);
      if last.cls >= ProfileBase(cfg) && Admits(mask, last.cls - ProfileBase(cfg)) then prev + [last] else prev
  }

  lemma FilterSnoc(cfg: Config, mask: int, rs: seq<Record>, x: Record)
    ensures Filter(cfg, mask, rs + [x]) == Filter(cfg, mask, rs) +
            (if x.cls >= ProfileBase(cfg) && Admits(mask, x.cls - ProfileBase(cfg)) then [x] else [])
  {
    assert (rs + [x])[..|rs|] == rs;
  }

  lemma FullMask(c: nat)
    requires c < 6
    ensures Admits(63, c)
  {
    assert Admits(63, 5) == Admits(31, 4) == Admits(15, 3) == Admits(7, 2) == Admits(3, 1) == Admits(1, 0);
  }

  lemma {:induction false} SelectIsFilter(cfg: Config, mask: int, cs: seq<nat>, pkts: seq<Payload>)
    requires ClassList(cs, pkts)
    ensures Select(cfg, mask, cs, pkts) == Filter(cfg, mask, Select(cfg, 63, cs, pkts))
    ensures |Select(cfg, 63, cs, pkts)| == |pkts|
  {
    hide Admits;
    if pkts == [] {
    } else {
      var m := |pkts| - 1;
      SelectIsFilter(cfg, mask, cs[..m], pkts[..m]);
      FullMask(cs[m]);
      FilterSnoc(cfg, mask, Select(cfg, 63, cs[..m], pkts[..m]), Record(ProfileBase(cfg) + cs[m], pkts[m]));
    }
  }

  /** A mask only selects: what it delivers is the full delivery, filtered by class. */
  lemma MaskOnlySelects(r: Rules, mask: int, pkts: seq<Payload>)
    ensures Admitted(r, mask, pkts) == Filter(r.cfg, mask, Admitted(r, 63, pkts))
    ensures |Admitted(r, 63, pkts)| == |pkts|
  {
    SelectIsFilter(r.cfg, mask, Classes(r, pkts), pkts);
  }

  // ---- accounting ----

  /** Packets of the classes the mask admits. */
  ghost function AdmittedCount(mask: int, cs: seq<nat>): nat {
    if cs == [] then 0 else AdmittedCount(mask, cs[..|cs| - 1]) + if Admits(mask, cs[|cs| - 1]) then 1 else 0
  }

  lemma {:induction false} AdmittedCountIsLength(cfg: Config, mask: int, cs: seq<nat>, pkts: seq<Payload>)
    requires ClassList(cs, pkts)
    ensures |Select(cfg, mask, cs, pkts)| == AdmittedCount(mask, cs) <= |pkts|
  {
    if pkts == [] {
    } else {
      AdmittedCountIsLength(cfg, mask, cs[..|pkts| - 1], pkts[..|pkts| - 1]);
    }
  }

  /** The class counts of a run add up to its packets. */
  lemma {:induction false} ClassCountsAddUp(cs: seq<nat>)
    requires forall i :: 0 <= i < |cs| ==> cs[i] < 6
    ensures Occ(cs, 0) + Occ(cs, 1) + Occ(cs, 2) + Occ(cs, 3) + Occ(cs, 4) + Occ(cs, 5) == |cs|
  {
    if cs == [] {
    } else {
      ClassCountsAddUp(cs[..|cs| - 1]);
    }
  }

  lemma {:induction false} NoTableNoKeys(r: Rules, pkts: seq<Packet>)
    requires !r.flows
    ensures CountedKeys(r, pkts) == []
  {
    if pkts == [] {
    } else {
      NoTableNoKeys(r, pkts[..|pkts| - 1]);
    }
  }

  function Increment(x: u64): u64 { Wrap64(x + 1) }

  /** live is the counter array [admitted, dropped, class 0 .. class 5] after the packets with classes cs. */
  ghost predicate Tallied(live: seq<u64>, mask: int, cs: seq<nat>) {
    && |live| == 8
    && live[0] == Wrap64(AdmittedCount(mask, cs))
    && AdmittedCount(mask, cs) <= |cs|
    && live[1] == Wrap64(|cs| - AdmittedCount(mask, cs))
    && forall c :: 0 <= c < 6 ==> live[2 + c] == Wrap64(Occ(cs, c))
  }

  /** The counter updates of one packet. */
  method Tally(live: array<u64>, mask: int, idx: nat, ghost cs: seq<nat>) returns (admit: bool)
    requires live.Length == 8 && idx < 6 && Tallied(live[..], mask, cs)
    modifies live
    ensures Tallied(live[..], mask, cs + [idx])
    ensures admit <==> Admits(mask, idx)
  {
    live[2 + idx] := Increment(live[2 + idx]);
    admit := Admits(mask, idx);
    if admit {
      live[0] := Increment(live[0]);
    } else {
      live[1] := Increment(live[1]);
    }
    assert (cs + [idx])[..|cs|] == cs;
    forall d | 0 <= d < 6
      ensures live[2 + d] == Wrap64(Occ(cs + [idx], d))
    {
      OccSnoc(cs, idx, d);
      WrapsOnce(Occ(cs, d));
    }
    WrapsOnce(AdmittedCount(mask, cs));
    WrapsOnce(|cs| - AdmittedCount(mask, cs));
  }

  // ---- the classifier inside a run ----

  /** Whether the allocations of the address set and of the flow table succeed; a run goes on without
      what it could not allocate. */
  datatype Memory = Memory(set_: bool, table: bool)

  /** The rules a run follows, from the arguments of the call. */
  ghost function RulesFor(cfg: Config, packed: seq<byte>, cutoff: int, memory: Memory): Rules {
    Rules(cfg, (iset w | memory.set_ && w in Addresses(packed)), cutoff > 0 && memory.table, Max(cutoff, 0))
  }

  /** In terms of the arguments of the call: the run watches exactly the listed addresses other than 0.0.0.0, if the
      set could be allocated. */
  lemma WatchesListed(cfg: Config, addresses: seq<u32>, flowCutoff: int, memory: Memory, a: u32)
    requires |addresses| <= 0x4000_0000
    ensures ToWord(a) in RulesFor(cfg, Packed(addresses), flowCutoff, memory).watched
       <==> memory.set_ && a != 0 && a in addresses
    ensures RulesFor(cfg, Packed(addresses), flowCutoff, memory).cfg == cfg
  {
    hide ToWord, Addresses;
    PackedAddresses(addresses, a);
  }

  /** In terms of the arguments of the call: a packet is in the head class, 4 of the security profile and 1 of
      the generic one, exactly when there is a flow table, it is counted, and its streak modulo 2^32 is below the
      cutoff that was asked for. */
  lemma HeadIffBelowArgument(cfg: Config, packed: seq<byte>, flowCutoff: int, memory: Memory, ks: seq<u64>, p: Packet)
    ensures var r := RulesFor(cfg, packed, flowCutoff, memory);
            ClassAfter(r, ks, p) == (if cfg.profile == 1 then 4 else 1) <==>
              && flowCutoff > 0 && memory.table && IsCounted(r, p)
              && Wrap32(Streak(20, ks, FlowKey.Key(FlowOf(cfg, p)))) < flowCutoff
  {
    var r := RulesFor(cfg, packed, flowCutoff, memory);
    HeadClassIff(r, ks, p);
    CountedNeedsTable(r, p);
    hide ClassAfter, IsCounted, HasFlow, FlowOf, Streak, FlowKey.Key, IsHead;
    if IsCounted(r, p) {
      HeadIffShortStreak(TABLE_BITS, r.cutoff, ks, FlowKey.Key(FlowOf(cfg, p)));
    }
  }

  lemma CountedNeedsTable(r: Rules, p: Packet)
    ensures IsCounted(r, p) ==> r.flows
  {
  }

  /** The head counter of a run in terms of its arguments: none without a cutoff or a table; otherwise at least
      min(cutoff, occurrences) per flow when the flows have distinct keys, and exactly that when no slot is
      shared and no counter wraps. */
  lemma HeadsForArguments(cfg: Config, packed: seq<byte>, flowCutoff: int, memory: Memory, pkts: seq<Packet>)
    ensures var r := RulesFor(cfg, packed, flowCutoff, memory); var keys := CountedKeys(r, pkts);
            var heads := Occ(Classes(r, pkts), if cfg.profile == 1 then 4 else 1);
            && (flowCutoff <= 0 || !memory.table ==> heads == 0)
            && (flowCutoff > 0 && memory.table && KeysSeparate(CountedFlows(r, pkts)) ==>
                  && SumOfMinima(flowCutoff, CountedFlows(r, pkts)) <= heads
                  && (SlotsUnshared(20, keys) && Wraps(20, keys) == [] ==>
                        heads == SumOfMinima(flowCutoff, CountedFlows(r, pkts))))
  {
    hide Classes, CountedKeys, CountedFlows, SumOfMinima, KeysSeparate, SlotsUnshared, Wraps, Victims, Heads, Addresses;
    var r := RulesFor(cfg, packed, flowCutoff, memory);
    if !r.flows {
      HeadTotal(r, pkts);
      NoTableNoKeys(r, pkts);
      NoKeysNoHeads(r.cutoff);
    } else if KeysSeparate(CountedFlows(r, pkts)) {
      FlowHeadsAgainstExact(r, pkts);
    }
  }

  lemma NoKeysNoHeads(n: nat)
    ensures Heads(TABLE_BITS, n, []) == []
  {
  }

  /** The fields both callback contexts share: configuration, address set and flow table. */
  class Engine {
    const cfg: Config
    const ioc: IpSet?
    const tab: FlowTable?
    const cutoff: nat
    ghost const repr: set<object>
    ghost const rules: Rules
    /** the packets classified so far, and their classes */
    ghost var seen: seq<Payload>
    ghost var classes: seq<nat>

    ghost predicate Valid()
      reads this, repr
    {
      && this in repr && State(tab) <= repr && (ioc != null ==> ioc.slots in repr)
      && this !in State(tab) && (ioc != null ==> ioc.slots as object != this)
      && Ready(ioc, tab)
      && RulesOf(cfg, ioc, tab, cutoff) == rules
      && History(tab) == CountedKeys(rules, seen)
      && classes == Classes(rules, seen)
    }

    /** Changes elsewhere in memory do not concern the engine. */
    twostate lemma StillValid()
      requires old(Valid()) && unchanged(repr)
      ensures Valid()
    {
    }

    constructor (cfg: Config, ioc: IpSet?, tab: FlowTable?, cutoff: nat)
      requires Ready(ioc, tab) && History(tab) == []
      ensures Valid() && repr == {this} + State(tab) + Storage(ioc) && seen == [] && classes == []
      ensures this.cfg == cfg && rules == RulesOf(cfg, ioc, tab, cutoff)
    {
      this.cfg, this.ioc, this.tab, this.cutoff := cfg, ioc, tab, cutoff;
      rules := RulesOf(cfg, ioc, tab, cutoff);
      repr := {this} + State(tab) + Storage(ioc);
      seen, classes := [], [];
    }

    method Classify(p: Payload) returns (idx: nat)
      requires Valid()
      modifies repr
      ensures Valid() && seen == old(seen) + [p] && classes == old(classes) + [idx] && idx < 6
    {
      RunSnoc(rules, seen, p);
      idx := ClassifyDispatch(cfg, ioc, tab, cutoff, p);
      if tab == null {
        NoTableNoKeys(rules, seen + [p]);
      }
      seen, classes := seen + [p], classes + [idx];
    }
  }

  ghost function Storage(ioc: IpSet?): set<object> {
    if ioc == null then {} else {ioc.slots}
  }

  method BuildSet(packed: seq<byte>, granted: bool) returns (ioc: IpSet?)
    requires |packed| / 4 < 0x8000_0000
    ensures ioc != null ==> ioc.Valid()
    ensures fresh(Storage(ioc))
    ensures WatchedBy(ioc) == iset w | granted && w in Addresses(packed)
  {
    ioc := null;
    if |packed| >= 4 {
      ioc := IpSet.Build(packed, granted);
    }
  }

  method BuildFlowTable(flowCutoff: int, granted: bool) returns (tab: FlowTable?)
    ensures tab != null ==> tab.Valid() && tab.bits == TABLE_BITS
    ensures fresh(State(tab)) && History(tab) == []
    ensures tab != null <==> flowCutoff > 0 && granted
  {
    tab := null;
    if flowCutoff > 0 && granted {
      tab := new FlowTable(TABLE_BITS);
    }
  }

  /** Set-up of a run: there is no set below four bytes, and no flow table without a cutoff. */
  method SetUp(cfg: Config, packed: seq<byte>, flowCutoff: int, memory: Memory) returns (engine: Engine)
    requires |packed| / 4 < 0x8000_0000
    ensures engine.Valid() && fresh(engine.repr) && engine.seen == [] && engine.classes == []
    ensures engine.cfg == cfg && engine.rules == RulesFor(cfg, packed, flowCutoff, memory)
  {
    hide CountedKeys, Classes, Addresses, After;
    var ioc := BuildSet(packed, memory.set_);
    var tab := BuildFlowTable(flowCutoff, memory.table);
    engine := new Engine(cfg, ioc, tab, Max(flowCutoff, 0));
  }

  // ---- what the callback sees ----

  /** Time stamp and wire length of a packet; its capture length is the number of its bytes. */
  datatype Header = Header(sec: int, usec: int, len: nat)

  datatype Arrival = Arrival(hdr: Header, bytes: Payload)

  /** One call of the callback: the header, and the public class id with the captured bytes. */
  datatype Call = Call(hdr: Header, record: Record)

  function BytesOf(arrivals: seq<Arrival>): (pkts: seq<Payload>)
    ensures |pkts| == |arrivals|
  {
    seq(|arrivals|, i requires 0 <= i < |arrivals| => arrivals[i].bytes)
  }

  function CallsFor(cfg: Config, mask: int, c: nat, a: Arrival): seq<Call>
    requires c < 6
  {
    if Admits(mask, c) then [Call(a.hdr, Record(ProfileBase(cfg) + c, a.bytes))] else []
  }

  /** The calls made for arrivals of the given classes, in order. */
  ghost function Calls(cfg: Config, mask: int, cs: seq<nat>, arrivals: seq<Arrival>): seq<Call>
    requires ClassList(cs, BytesOf(arrivals))
  {
    if arrivals == [] then []
    else
      var m := |arrivals| - 1;
      Calls(cfg, mask, cs[..m], arrivals[..m]) + CallsFor(cfg, mask, cs[m], arrivals[m])
  }

  lemma CallsSnoc(cfg: Config, mask: int, cs: seq<nat>, arrivals: seq<Arrival>, c: nat, a: Arrival)
    requires ClassList(cs, BytesOf(arrivals)) && c < 6
    ensures ClassList(cs + [c], BytesOf(arrivals + [a]))
    ensures Calls(cfg, mask, cs + [c], arrivals + [a]) == Calls(cfg, mask, cs, arrivals) + CallsFor(cfg, mask, c, a)
  {
    assert (cs + [c])[..|cs|] == cs && (arrivals + [a])[..|arrivals|] == arrivals;
  }

  /** The calls are those for the packets at the admitted positions, each with its own header. */
  lemma {:induction false} CallsAt(cfg: Config, mask: int, cs: seq<nat>, arrivals: seq<Arrival>)
    requires ClassList(cs, BytesOf(arrivals))
    ensures var calls, at := Calls(cfg, mask, cs, arrivals), Positions(mask, cs);
            && |calls| == |at|
            && forall k :: 0 <= k < |calls| ==>
                 && calls[k].hdr == arrivals[at[k]].hdr && calls[k].record.bytes == arrivals[at[k]].bytes
                 && calls[k].record.cls == cs[at[k]] + if cfg.profile == 1 then 100 else 0
  {
    if arrivals == [] {
    } else {
      var m := |arrivals| - 1;
      CallsAt(cfg, mask, cs[..m], arrivals[..m]);
      CallsLast(cfg, mask, cs, arrivals);
      hide Admits, Calls, Positions;
    }
  }

  lemma CallsLast(cfg: Config, mask: int, cs: seq<nat>, arrivals: seq<Arrival>)
    requires ClassList(cs, BytesOf(arrivals)) && arrivals != []
    ensures var m := |arrivals| - 1;
            && ClassList(cs[..m], BytesOf(arrivals[..m]))
            && Positions(mask, cs) == Positions(mask, cs[..m]) + (if Admits(mask, cs[m]) then [m] else [])
            && Calls(cfg, mask, cs, arrivals) == Calls(cfg, mask, cs[..m], arrivals[..m]) + CallsFor(cfg, mask, cs[m], arrivals[m])
  {
    hide Admits;
  }

  function RecordsOf(calls: seq<Call>): (rs: seq<Record>)
    ensures |rs| == |calls|
  {
    seq(|calls|, i requires 0 <= i < |calls| => calls[i].record)
  }

  /** The calls carry exactly the selected packets, in order. */
  lemma {:induction false} CallsCarrySelection(cfg: Config, mask: int, cs: seq<nat>, arrivals: seq<Arrival>)
    requires ClassList(cs, BytesOf(arrivals))
    ensures RecordsOf(Calls(cfg, mask, cs, arrivals)) == Select(cfg, mask, cs, BytesOf(arrivals))
  {
    if arrivals == [] {
    } else {
      var m := |arrivals| - 1;
      CallsCarrySelection(cfg, mask, cs[..m], arrivals[..m]);
      assert BytesOf(arrivals)[..m] == BytesOf(arrivals[..m]);
      var before, last := Calls(cfg, mask, cs[..m], arrivals[..m]), CallsFor(cfg, mask, cs[m], arrivals[m]);
      assert RecordsOf(before + last) == RecordsOf(before) + RecordsOf(last);
      assert RecordsOf(last) == Verdict(cfg, mask, cs[m], arrivals[m].bytes);
    }
  }

  // ---- callback delivery ----

  class FilteredContext {
    const engine: Engine
    const mask: int
    const live: array<u64>
    /** the calls made so far, and the packets that have arrived */
    var calls: seq<Call>
    ghost var arrivals: seq<Arrival>

    ghost predicate Valid()
      reads this, live, engine, engine.repr
    {
      && live !in engine.repr && this !in engine.repr
      && engine.Valid() && engine.seen == BytesOf(arrivals)
      && Reported(engine.classes, arrivals)
    }

    /** The calls and counters that the arrivals, of classes cs, must have led to. */
    ghost predicate Reported(cs: seq<nat>, arrivals: seq<Arrival>)
      reads this`calls, live
    {
      && ClassList(cs, BytesOf(arrivals))
      && calls == Calls(engine.cfg, mask, cs, arrivals)
      && Tallied(live[..], mask, cs)
    }

    /** The counters are reset at the start of a run. */
    constructor (engine: Engine, mask: int)
      requires engine.Valid() && engine.seen == []
      ensures Valid() && fresh(live) && this.engine == engine && this.mask == mask && arrivals == []
    {
      this.engine, this.mask := engine, mask;
      live := new u64[8](_ => 0);
      calls, arrivals := [], [];
    }

    /** Counting and delivery of one classified packet. */
    method Deliver(idx: nat, a: Arrival, ghost cs: seq<nat>, ghost before: seq<Arrival>) returns (admit: bool)
      requires Reported(cs, before) && idx < 6
      modifies this`calls, live
      ensures Reported(cs + [idx], before + [a])
      ensures admit <==> Admits(mask, idx)
      ensures calls == old(calls) + CallsFor(engine.cfg, mask, idx, a)
    {
      CallsSnoc(engine.cfg, mask, cs, before, idx, a);
      admit := Tally(live, mask, idx, cs);
      if admit {
        calls := calls + [Call(a.hdr, Record(ProfileBase(engine.cfg) + idx, a.bytes))];
      }
    }

    /** One captured packet. `raises` is what the Python callback does if it is called; the loop
        stops after a packet whose callback raises. */
    method FilteredCallBack(a: Arrival, raises: bool) returns (stop: bool, ghost cls: nat)
      requires Valid()
      modifies this`calls, this`arrivals, live, engine.repr
      ensures Valid() && arrivals == old(arrivals) + [a] && engine.classes == old(engine.classes) + [cls]
      ensures stop <==> raises && Admits(mask, cls)
    {
      hide CountedKeys, Classes, RulesOf, WatchedBy, Ready, Reported, State;
      ghost var cs, before := engine.classes, arrivals;
      var idx := engine.Classify(a.bytes);
      label classified:
      var admit := Deliver(idx, a, cs, before);
      arrivals := arrivals + [a];
      engine.StillValid@classified();
      assert BytesOf(arrivals) == BytesOf(before) + [a.bytes];
      stop, cls := admit && raises, idx;
    }

    /** pcap_loop: feeds packets to the callback until they run out or a callback raises. */
    method Loop(pkts: seq<Arrival>, failing: set<nat>) returns (n: nat, raised: bool)
      requires Valid() && arrivals == [] && engine.classes == []
      modifies this`calls, this`arrivals, live, engine.repr
      ensures Valid() && n <= |pkts| && arrivals == pkts[..n]
      ensures StopsRightly(mask, failing, engine.classes, n, |pkts|, raised)
    {
      hide CountedKeys, Classes, RulesOf, WatchedBy, Ready, Calls, Tallied, ClassList, State, BytesOf;
      n, raised := 0, false;
      assert pkts[..0] == [];
      while n < |pkts| && !raised
        invariant n <= |pkts| && Valid() && arrivals == pkts[..n] && |engine.classes| == n
        invariant Undisturbed(mask, failing, engine.classes, if raised then n - 1 else n)
        invariant raised ==> n > 0 && n - 1 in failing && Admits(mask, engine.classes[n - 1])
        decreases |pkts| - n, if raised then 0 else 1
      {
        assert pkts[..n + 1] == pkts[..n] + [pkts[n]];
        ghost var cs, cls := engine.classes, 0;
        raised, cls := FilteredCallBack(pkts[n], n in failing);
        UndisturbedSnoc(mask, failing, cs, cls);
        n := n + 1;
      }
    }
  }

  /** None of the first k packets made the callback raise. */
  ghost predicate Undisturbed(mask: int, failing: set<nat>, cs: seq<nat>, k: int) {
    k <= |cs| && forall i :: 0 <= i < k && i in failing ==> !Admits(mask, cs[i])
  }

  lemma UndisturbedSnoc(mask: int, failing: set<nat>, cs: seq<nat>, c: nat)
    requires Undisturbed(mask, failing, cs, |cs|)
    ensures Undisturbed(mask, failing, cs + [c], |cs|)
    ensures !(|cs| in failing && Admits(mask, c)) ==> Undisturbed(mask, failing, cs + [c], |cs| + 1)
  {
  }

  /** The loop read n of total packets: all of them without any raise, or up to the first callback that raised. */
  ghost predicate StopsRightly(mask: int, failing: set<nat>, cs: seq<nat>, n: nat, total: nat, raised: bool) {
    && |cs| == n
    && Undisturbed(mask, failing, cs, if raised then n - 1 else n)
    && (raised ==> n > 0 && n - 1 in failing && Admits(mask, cs[n - 1]))
    && (n < total ==> raised)
  }

  /** loop_filtered over a finite capture: the callback is called with exactly the admitted packets,
      in order, up to and including the first one on which it raises, and the counters account for
      the packets read. The result is the counters of the profile, or nothing after a raise.
      `failing` holds the packet positions at which the callback would raise. */
  method LoopFiltered(cfg: Config, packed: seq<byte>, flowCutoff: int, mask: int, pkts: seq<Arrival>,
                      failing: set<nat>, memory: Memory)
    returns (calls: seq<Call>, live: seq<u64>, result: Option<seq<u64>>, n: nat)
    requires |packed| / 4 < 0x8000_0000
    ensures n <= |pkts|
    ensures var r := RulesFor(cfg, packed, flowCutoff, memory);
            var cs := Classes(r, BytesOf(pkts[..n])); var at := Positions(mask, cs);
            // one call for each admitted packet, with its header, its bytes and its class id
            && |calls| == |at| && |cs| == n
            && (forall k :: 0 <= k < |calls| ==>
                  && calls[k].hdr == pkts[at[k]].hdr && calls[k].record.bytes == pkts[at[k]].bytes
                  && calls[k].record.cls == cs[at[k]] + if cfg.profile == 1 then 100 else 0)
            // the counters: admitted, dropped, and one per class
            && |live| == 8 && live[0] == Wrap64(|calls|) && |calls| <= n && live[1] == Wrap64(n - |calls|)
            && (forall c :: 0 <= c < 6 ==> live[2 + c] == Wrap64(Occ(cs, c)))
            // the loop ends at the first admitted packet whose callback raises
            && (forall i :: 0 <= i < n - 1 && i in failing ==> !Admits(mask, cs[i]))
            && (result == None <==> n > 0 && n - 1 in failing && Admits(mask, cs[n - 1]))
            && (n < |pkts| ==> result == None)
    ensures result.Some? ==> result.value == if cfg.profile == 1 then live else live[..5]
    ensures RecordsOf(calls) == Admitted(RulesFor(cfg, packed, flowCutoff, memory), mask, BytesOf(pkts[..n]))
    // the head counter follows the cutoff asked for
    ensures var head := if cfg.profile == 1 then 6 else 3;
            |live| == 8 && n < TWO64 ==>
              && (flowCutoff <= 0 || !memory.table ==> live[head] == 0)
              && var r, seen := RulesFor(cfg, packed, flowCutoff, memory), BytesOf(pkts[..n]);
                 (flowCutoff > 0 && memory.table && KeysSeparate(CountedFlows(r, seen)) ==>
                    && SumOfMinima(flowCutoff, CountedFlows(r, seen)) <= live[head]
                    && (SlotsUnshared(20, CountedKeys(r, seen)) && Wraps(20, CountedKeys(r, seen)) == [] ==>
                          live[head] == SumOfMinima(flowCutoff, CountedFlows(r, seen))))
  {
    hide Calls, BytesOf, RecordsOf, Classes, RulesFor, Positions, Select, CountedKeys, CountedFlows;
    hide SumOfMinima, SlotsUnshared, KeysSeparate, Wraps, Admits, Occ, AdmittedCount, Wrap64;
    var engine := SetUp(cfg, packed, flowCutoff, memory);
    var c := new FilteredContext(engine, mask);
    var raised;
    n, raised := c.Loop(pkts, failing);
    calls, live := c.calls, c.live[..];
    ghost var cs, seen := engine.classes, BytesOf(pkts[..n]);
    CallsCarrySelection(cfg, mask, cs, pkts[..n]);
    CallsAt(cfg, mask, cs, pkts[..n]);
    AdmittedCountIsLength(cfg, mask, cs, seen);
    HeadsForArguments(cfg, packed, flowCutoff, memory, seen);
    OccWithin(cs, if cfg.profile == 1 then 4 else 1);
    result := if raised then None else Some(if cfg.profile == 1 then live else live[..5]);
  }

  /** A class counted fewer than 2^64 times is counted without wrap. */
  lemma OccWithin(cs: seq<nat>, c: nat)
    ensures Occ(cs, c) <= |cs| && (|cs| < TWO64 ==> Wrap64(Occ(cs, c)) == Occ(cs, c))
  {
    WithoutCounts(cs, c, c);
  }
}
