/** Classification of whole captures: what every run reports, whatever is done with the packets. */
module Runs {
  import opened Words
  import opened Counting
  import opened FlowKey
  import opened FlowTab
  import opened Headers
  import opened Classifier

  /** The keys that reach the flow counter, in order. */
  ghost function CountedKeys(r: Rules, pkts: seq<Packet>): seq<u64> {
    if pkts == [] then [] else Counted(r, CountedKeys(r, pkts[..|pkts| - 1]), pkts[|pkts| - 1])
  }

  /** The flows of the counted packets, in order. */
  ghost function CountedFlows(r: Rules, pkts: seq<Packet>): seq<Flow> {
    if pkts == [] then []
    else
      var prev, p := pkts[..|pkts| - 1], pkts[|pkts| - 1];
      if IsCounted(r, p) then CountedFlows(r, prev) + [FlowOf(r.cfg, p)] else CountedFlows(r, prev)
  }

  /** The class of every packet of a run. */
  ghost function Classes(r: Rules, pkts: seq<Packet>): (cs: seq<nat>)
    ensures |cs| == |pkts|
    ensures forall i :: 0 <= i < |cs| ==> cs[i] < 6
  {
    if pkts == [] then []
    else
      var prev := pkts[..|pkts| - 1];
      Classes(r, prev) + [ClassAfter(r, CountedKeys(r, prev), pkts[|pkts| - 1])]
  }

  function HeadClass(r: Rules): nat { if r.cfg.profile == 1 then 4 else 1 }

  lemma RunSnoc(r: Rules, pkts: seq<Packet>, p: Packet)
    ensures CountedKeys(r, pkts + [p]) == Counted(r, CountedKeys(r, pkts), p)
    ensures Classes(r, pkts + [p]) == Classes(r, pkts) + [ClassAfter(r, CountedKeys(r, pkts), p)]
  {
    assert (pkts + [p])[..|pkts|] == pkts;
  }

  lemma HeadClassIff(r: Rules, ks: seq<u64>, p: Packet)
    ensures ClassAfter(r, ks, p) == HeadClass(r)
       <==> IsCounted(r, p) && IsHead(TABLE_BITS, r.cutoff, ks, Key(FlowOf(r.cfg, p)))
  {
    hide Located, DnsAt, BareSynAt, WatchedPayloadAt, HasPorts, Streak, IsHead;
    if IsCounted(r, p) {
      HeadIffShortStreak(TABLE_BITS, r.cutoff, ks, Key(FlowOf(r.cfg, p)));
    }
  }

  lemma CountedKeysAreFlowKeys(r: Rules, pkts: seq<Packet>)
    ensures |CountedKeys(r, pkts)| == |CountedFlows(r, pkts)| <= |pkts|
    ensures forall i :: 0 <= i < |CountedFlows(r, pkts)| ==> CountedKeys(r, pkts)[i] == Key(CountedFlows(r, pkts)[i])
  {
    if pkts == [] {
    } else {
      CountedKeysAreFlowKeys(r, pkts[..|pkts| - 1]);
    }
  }

  /** In both profiles, the packets reported as flow heads are the heads of the lossy table. */
  lemma {:induction false} HeadTotal(r: Rules, pkts: seq<Packet>)
    ensures Occ(Classes(r, pkts), HeadClass(r)) == |Heads(TABLE_BITS, r.cutoff, CountedKeys(r, pkts))|
  {
    if pkts == [] {
    } else {
      var prev, p := pkts[..|pkts| - 1], pkts[|pkts| - 1];
      HeadTotal(r, prev);
      HeadClassIff(r, CountedKeys(r, prev), p);
      OccSnoc(Classes(r, prev), ClassAfter(r, CountedKeys(r, prev), p), HeadClass(r));
      if IsCounted(r, p) {
        assert CountedKeys(r, pkts)[..|CountedKeys(r, prev)|] == CountedKeys(r, prev);
      }
    }
  }

  ghost predicate KeysSeparate(flows: seq<Flow>) {
    forall i, j :: 0 <= i < |flows| && 0 <= j < |flows| && Key(flows[i]) == Key(flows[j]) ==> flows[i] == flows[j]
  }

  /** No run hides a flow head: a counted packet among the first `cutoff` of its key is delivered
      as a flow head, after any traffic, however many evictions and counter wraps it caused. */
  lemma NoFlowHeadHidden(r: Rules, pkts: seq<Packet>, p: Packet)
    requires IsCounted(r, p) && Occ(CountedKeys(r, pkts), Key(FlowOf(r.cfg, p))) < r.cutoff
    ensures ClassAfter(r, CountedKeys(r, pkts), p) == HeadClass(r)
  {
    NoHeadHidden(TABLE_BITS, r.cutoff, CountedKeys(r, pkts), Key(FlowOf(r.cfg, p)));
    HeadClassIff(r, CountedKeys(r, pkts), p);
  }

  /** Against exact accounting per 5-tuple: when the 5-tuples of the run have distinct keys, the
      run reports at least min(cutoff, occurrences) heads per flow, at most cutoff more per eviction
      and per counter wrap, and exactly that many when no two keys share a slot and none wraps. */
  lemma FlowHeadsAgainstExact(r: Rules, pkts: seq<Packet>)
    requires KeysSeparate(CountedFlows(r, pkts))
    ensures var heads, exact := Occ(Classes(r, pkts), HeadClass(r)), SumOfMinima(r.cutoff, CountedFlows(r, pkts));
            var victims, wraps := Victims(TABLE_BITS, CountedKeys(r, pkts)), Wraps(TABLE_BITS, CountedKeys(r, pkts));
            && exact <= heads <= exact + r.cutoff * (|victims| + |wraps|)
            && (SlotsUnshared(TABLE_BITS, CountedKeys(r, pkts)) && wraps == [] ==> heads == exact)
  {
    hide IsCounted, Key, Heads, Victims, Wraps, FirstCopies, SumOfMinima, Classes, HeadClass;
    var keys, flows := CountedKeys(r, pkts), CountedFlows(r, pkts);
    HeadTotal(r, pkts);
    CountedKeysAreFlowKeys(r, pkts);
    RenamingKeepsFirstCopies(r.cutoff, flows, keys);
    ExactHeadTotal(r.cutoff, flows);
    ExactHeadTotal(r.cutoff, keys);
    ExcessBounded(TABLE_BITS, r.cutoff, keys);
    if SlotsUnshared(TABLE_BITS, keys) && Wraps(TABLE_BITS, keys) == [] {
      ExactWhenSlotsUnshared(TABLE_BITS, r.cutoff, keys);
    }
  }

  /** In every run over packets of `universe`, each counted packet among the first `cutoff` of its
      5-tuple is reported as a flow head. */
  ghost predicate HidesNoHead(r: Rules, universe: iset<Packet>) {
    forall pkts: seq<Packet>, p: Packet ::
      (forall q :: q in pkts ==> q in universe) && p in universe && IsCounted(r, p)
      && Occ(CountedFlows(r, pkts), FlowOf(r.cfg, p)) < r.cutoff
      ==> ClassAfter(r, CountedKeys(r, pkts), p) == HeadClass(r)
  }

  /** The flows of the packets of `universe` have distinct keys. */
  ghost predicate KeysSeparateOn(r: Rules, universe: iset<Packet>) {
    forall f, g :: f in universe && g in universe && IsCounted(r, f) && IsCounted(r, g) ==>
      (Key(FlowOf(r.cfg, f)) == Key(FlowOf(r.cfg, g)) ==> FlowOf(r.cfg, f) == FlowOf(r.cfg, g))
  }

  /** Exactly when no two flows share a key does no run hide the head of a flow; evictions and
      counter wraps never hide one. */
  lemma HeadsCompleteIffKeysSeparate(r: Rules, universe: iset<Packet>)
    requires 0 < r.cutoff < TWO32
    ensures HidesNoHead(r, universe) <==> KeysSeparateOn(r, universe)
  {
    hide ClassAfter, IsCounted, HasFlow, FlowOf, Key, HeadClass, CountedKeys, CountedFlows;
    if KeysSeparateOn(r, universe) {
      forall pkts: seq<Packet>, p: Packet | (forall q :: q in pkts ==> q in universe) && p in universe
                                            && IsCounted(r, p) && Occ(CountedFlows(r, pkts), FlowOf(r.cfg, p)) < r.cutoff
        ensures ClassAfter(r, CountedKeys(r, pkts), p) == HeadClass(r)
      {
        KeyCountsItsFlow(r, universe, pkts, p);
        NoFlowHeadHidden(r, pkts, p);
      }
    }
    if HidesNoHead(r, universe) {
      forall f, g | f in universe && g in universe && IsCounted(r, f) && IsCounted(r, g)
                    && Key(FlowOf(r.cfg, f)) == Key(FlowOf(r.cfg, g))
        ensures FlowOf(r.cfg, f) == FlowOf(r.cfg, g)
      {
        if FlowOf(r.cfg, f) != FlowOf(r.cfg, g) {
          SharedKeyHidesHead(r, f, g);
        }
      }
    }
  }

  lemma {:induction false} KeyCountsItsFlow(r: Rules, universe: iset<Packet>, pkts: seq<Packet>, p: Packet)
    requires KeysSeparateOn(r, universe) && (forall q :: q in pkts ==> q in universe)
    requires p in universe && IsCounted(r, p)
    ensures Occ(CountedKeys(r, pkts), Key(FlowOf(r.cfg, p))) == Occ(CountedFlows(r, pkts), FlowOf(r.cfg, p))
  {
    hide IsCounted, HasFlow, FlowOf, Key;
    if pkts == [] {
    } else {
      var prev, q := pkts[..|pkts| - 1], pkts[|pkts| - 1];
      KeyCountsItsFlow(r, universe, prev, p);
      assert q in pkts;
      if IsCounted(r, q) {
        OccSnoc(CountedKeys(r, prev), Key(FlowOf(r.cfg, q)), Key(FlowOf(r.cfg, p)));
        OccSnoc(CountedFlows(r, prev), FlowOf(r.cfg, q), FlowOf(r.cfg, p));
      }
    }
  }

  /** The one way a head is lost is an earlier flow with the same key: after `cutoff` packets of the
      one flow, the very first packet of the other is not reported. Every flow has such partners,
      one for each choice of ports and protocol. */
  lemma SharedKeyHidesHead(r: Rules, f: Packet, g: Packet)
    requires 0 < r.cutoff < TWO32 && IsCounted(r, f) && IsCounted(r, g)
    requires Key(FlowOf(r.cfg, f)) == Key(FlowOf(r.cfg, g)) && FlowOf(r.cfg, f) != FlowOf(r.cfg, g)
    ensures var pkts := Repeat(f, r.cutoff);
            && Occ(CountedFlows(r, pkts), FlowOf(r.cfg, g)) == 0
            && ClassAfter(r, CountedKeys(r, pkts), g) != HeadClass(r)
  {
    hide IsCounted, HasFlow, FlowOf, Key, ClassAfter, CountedKeys, CountedFlows, Streak, IsHead;
    var pkts, k := Repeat(f, r.cutoff), Key(FlowOf(r.cfg, f));
    RepeatedFlow(r, f, g, r.cutoff);
    HeadIffShortStreak(TABLE_BITS, r.cutoff, CountedKeys(r, pkts), k);
    HeadClassIff(r, CountedKeys(r, pkts), g);
  }

  ghost function Repeat(f: Packet, n: nat): (pkts: seq<Packet>)
    ensures |pkts| == n && forall q :: q in pkts ==> q == f
  {
    if n == 0 then [] else Repeat(f, n - 1) + [f]
  }

  lemma CountedSnoc(r: Rules, pkts: seq<Packet>, p: Packet)
    requires IsCounted(r, p)
    ensures CountedKeys(r, pkts + [p]) == CountedKeys(r, pkts) + [Key(FlowOf(r.cfg, p))]
    ensures CountedFlows(r, pkts + [p]) == CountedFlows(r, pkts) + [FlowOf(r.cfg, p)]
  {
    hide IsCounted, HasFlow, FlowOf, Key;
    assert (pkts + [p])[..|pkts|] == pkts;
  }

  lemma {:induction false} RepeatedFlow(r: Rules, f: Packet, g: Packet, n: nat)
    requires IsCounted(r, f) && IsCounted(r, g) && FlowOf(r.cfg, f) != FlowOf(r.cfg, g)
    ensures Streak(TABLE_BITS, CountedKeys(r, Repeat(f, n)), Key(FlowOf(r.cfg, f))) == n
    ensures Occ(CountedFlows(r, Repeat(f, n)), FlowOf(r.cfg, g)) == 0
  {
    hide IsCounted, HasFlow, FlowOf, Key;
    if n == 0 {
    } else {
      RepeatedFlow(r, f, g, n - 1);
      hide CountedKeys, CountedFlows, Streak, Occ;
      var prev, k := Repeat(f, n - 1), Key(FlowOf(r.cfg, f));
      CountedSnoc(r, prev, f);
      StreakStep(TABLE_BITS, CountedKeys(r, prev), k, k);
      OccSnoc(CountedFlows(r, prev), FlowOf(r.cfg, f), FlowOf(r.cfg, g));
    }
  }

  // ---- the security profile as a filter ----

  /** Bit c of the admit mask: (mask >> c) & 1, with the sign of a negative mask shifted in. */
  predicate Admits(mask: int, c: nat)
    decreases c
  {
    if c == 0 then mask % 2 == 1 else Admits(mask / 2, c - 1)
  }

  lemma {:induction false} AdmitsIsBit(mask: int, c: nat)
    ensures Admits(mask, c) <==> (mask / Pow2(c)) % 2 == 1
    decreases c
  {
    if c == 0 {
    } else {
      AdmitsIsBit(mask / 2, c - 1);
      QuotientByDouble(mask, Pow2(c - 1));
    }
  }

  lemma QuotientByDouble(x: int, h: nat)
    requires h > 0
    ensures x / (2 * h) == (x / 2) / h
  {
    var q, r := (x / 2) / h, (x / 2) % h;
    DoubleSplits(x, h, q, r);
    DivModUnique(x, 2 * h, q, x % 2 + 2 * r);
  }

  /** Under the mask that leaves out only OTHER, a dropped packet has none of the admitting properties. */
  lemma DroppedMeansInert(r: Rules, ks: seq<u64>, p: Packet)
    requires r.cfg.profile == 1
    ensures !Admits(59, ClassAfter(r, ks, p)) <==>
            && !IsDns(r.cfg, p) && !IsBareSyn(r.cfg, p) && !IsWatchedPayload(r.cfg, p) && !IsAddressHit(r, p)
            && !(IsCounted(r, p) && IsHead(TABLE_BITS, r.cutoff, ks, Key(FlowOf(r.cfg, p))))
  {
    HeadClassIff(r, ks, p);
    MaskWithoutOther(ClassAfter(r, ks, p));
  }

  lemma MaskWithoutOther(c: nat)
    requires c < 6
    ensures Admits(59, c) <==> c != 2
  {
    assert Admits(59, 0) && Admits(29, 0) && !Admits(14, 0) && Admits(7, 0) && Admits(3, 0) && Admits(1, 0);
    assert Admits(59, 5) == Admits(29, 4) == Admits(14, 3) == Admits(7, 2) == Admits(3, 1) == Admits(1, 0);
  }

  lemma HitIsNotCounted(r: Rules, ks: seq<u64>, p: Packet)
    requires IsAddressHit(r, p)
    ensures Counted(r, ks, p) == ks && ClassAfter(r, ks, p) == ClassAfter(r, [], p)
  {
  }

  /** A packet whose address is in the set never changes what later packets are classified as. */
  lemma {:induction false} AddressHitsLeaveNoTrace(r: Rules, a: seq<Packet>, p: Packet, b: seq<Packet>)
    requires IsAddressHit(r, p)
    ensures CountedKeys(r, a + [p] + b) == CountedKeys(r, a + b)
    ensures Classes(r, a + [p] + b) == Classes(r, a) + [ClassAfter(r, [], p)] + Classes(r, a + b)[|a|..]
  {
    hide IsAddressHit, ClassAfter, Counted, CountedKeys, Classes;
    if b == [] {
      assert a + [p] + b == a + [p] && a + b == a;
      RunSnoc(r, a, p);
      HitIsNotCounted(r, CountedKeys(r, a), p);
      assert Classes(r, a + b)[|a|..] == [];
    } else {
      var m := |b| - 1;
      AddressHitsLeaveNoTrace(r, a, p, b[..m]);
      assert a + [p] + b == (a + [p] + b[..m]) + [b[m]];
      assert a + b == (a + b[..m]) + [b[m]];
      RunSnoc(r, a + [p] + b[..m], b[m]);
      RunSnoc(r, a + b[..m], b[m]);
    }
  }

  // ---- fragments ----

  /** Bytes 6 and 7 of the header replaced. */
  function WithFragmentField(p: Packet, l3: nat, hi: byte, lo: byte): Packet
    requires l3 + 20 <= |p|
  {
    p[l3 + 6 := hi][l3 + 7 := lo]
  }

  lemma SameHeaderFound(l2: nat, p: Packet, l3: nat, hi: byte, lo: byte)
    requires Located(l2, p) == Some(l3) && l3 + 20 <= |p|
    ensures Located(l2, WithFragmentField(p, l3, hi, lo)) == Some(l3)
  {
    var q := WithFragmentField(p, l3, hi, lo);
    LocatedIff(l2, p, l3);
    var t: nat :| AfterTags(l2, p, t) && l3 == l2 + 4 * t;
    forall s: nat | s < t
      ensures SkippedAt(q, l2 + 4 * s)
    {
      assert SkippedAt(p, l2 + 4 * s);
    }
    assert AfterTags(l2, q, t);
    LocatedIff(l2, q, l3);
  }

  /** The frames differ at most in the fragment field of the header at l3. */
  predicate SameButFragment(p: Packet, q: Packet, l3: nat) {
    |p| == |q| && l3 + 20 <= |p| && forall i :: 0 <= i < |p| && i != l3 + 6 && i != l3 + 7 ==> p[i] == q[i]
  }

  lemma SameFlow(p: Packet, q: Packet, l3: nat)
    requires SameButFragment(p, q, l3)
    ensures Source(q, l3) == Source(p, l3) && Destination(q, l3) == Destination(p, l3)
    ensures HeaderLength(q, l3) == HeaderLength(p, l3) && q[l3 + 9] == p[l3 + 9]
    ensures HasPorts(q, l3) == HasPorts(p, l3) && (HasPorts(p, l3) ==> FlowAt(q, l3) == FlowAt(p, l3))
  {
    hide Join, Le32;
    assert q[l3] == p[l3] && q[l3 + 9] == p[l3 + 9];
    if HasPorts(p, l3) {
      var l4 := l3 + HeaderLength(p, l3);
      assert q[l4] == p[l4] && q[l4 + 1] == p[l4 + 1] && q[l4 + 2] == p[l4 + 2] && q[l4 + 3] == p[l4 + 3];
    }
  }

  lemma SameTransport(cfg: Config, p: Packet, q: Packet, l3: nat)
    requires SameButFragment(p, q, l3)
    ensures DnsAt(cfg, q, l3) == DnsAt(cfg, p, l3) && BareSynAt(q, l3) == BareSynAt(p, l3)
    ensures WatchedPayloadAt(cfg, q, l3) == WatchedPayloadAt(cfg, p, l3)
  {
    SameFlow(p, q, l3);
    hide HasPorts, HeaderLength, FlowAt;
    if HasPorts(p, l3) {
      PortsBehindHeader(p, l3);
      var l4 := L4At(p, l3);
      assert l4 + 14 <= |p| ==> q[l4 + 12] == p[l4 + 12] && q[l4 + 13] == p[l4 + 13];
    }
  }

  lemma PortsBehindHeader(p: Packet, l3: nat)
    requires HasPorts(p, l3)
    ensures l3 + 20 <= L4At(p, l3)
  {
  }

  /** The fragment field is never read, so a fragment is classified like a whole packet: the
      documented rule that later fragments are not flow heads does not hold of the code. */
  lemma FragmentFieldIgnored(r: Rules, ks: seq<u64>, p: Packet, hi: byte, lo: byte)
    requires IsIpv4(r.cfg, p)
    ensures var q := WithFragmentField(p, L3(r.cfg, p), hi, lo);
            ClassAfter(r, ks, q) == ClassAfter(r, ks, p) && Counted(r, ks, q) == Counted(r, ks, p)
  {
    hide Located, DnsAt, BareSynAt, WatchedPayloadAt, HasPorts, Streak, FlowAt, Source, Destination, Key;
    var l3 := L3(r.cfg, p);
    SameHeaderFound(r.cfg.l2Off, p, l3, hi, lo);
    SameFlow(p, WithFragmentField(p, l3, hi, lo), l3);
    SameTransport(r.cfg, p, WithFragmentField(p, l3, hi, lo), l3);
    assert L3(r.cfg, WithFragmentField(p, l3, hi, lo)) == l3;
  }

  /** The fragment offset of a header at l3, in units of eight bytes. */
  function FragmentOffset(p: Packet, l3: nat): nat
    requires l3 + 20 <= |p|
  {
    0x100 * (p[l3 + 6] % 32) as int + p[l3 + 7] as int
  }

  predicate IsLaterFragment(cfg: Config, p: Packet) {
    IsIpv4(cfg, p) && FragmentOffset(p, L3(cfg, p)) > 0
  }

  /** No run over packets of `universe` reports a later fragment as a flow head. */
  ghost predicate SparesFragments(r: Rules, universe: iset<Packet>) {
    forall pkts: seq<Packet>, p: Packet ::
      (forall q :: q in pkts ==> q in universe) && p in universe && IsLaterFragment(r.cfg, p)
      ==> ClassAfter(r, CountedKeys(r, pkts), p) != HeadClass(r)
  }

  /** The documented rule holds on a set of packets exactly when none of its later fragments reaches
      the flow counter, or the cutoff is 0. */
  lemma FragmentsSparedIffUncounted(r: Rules, universe: iset<Packet>)
    ensures SparesFragments(r, universe) <==>
            r.cutoff == 0
            || forall p :: p in universe && IsIpv4(r.cfg, p) && FragmentOffset(p, L3(r.cfg, p)) > 0 ==> !IsCounted(r, p)
  {
    hide ClassAfter, IsCounted, IsIpv4, L3, FragmentOffset, HasFlow, FlowOf, HeadClass, Key, IsHead;
    if SparesFragments(r, universe) && r.cutoff > 0 {
      forall p | p in universe && IsLaterFragment(r.cfg, p)
        ensures !IsCounted(r, p)
      {
        if IsCounted(r, p) {
          NoFlowHeadHidden(r, [], p);
        }
      }
    }
    if r.cutoff == 0 || forall p :: p in universe && IsLaterFragment(r.cfg, p) ==> !IsCounted(r, p) {
      forall pkts: seq<Packet>, p | (forall q :: q in pkts ==> q in universe) && p in universe && IsLaterFragment(r.cfg, p)
        ensures ClassAfter(r, CountedKeys(r, pkts), p) != HeadClass(r)
      {
        HeadClassIff(r, CountedKeys(r, pkts), p);
        if r.cutoff == 0 && IsCounted(r, p) {
          NoCutoffNoHead(CountedKeys(r, pkts), Key(FlowOf(r.cfg, p)));
        }
      }
    }
  }

  lemma NoCutoffNoHead(ks: seq<u64>, key: u64)
    ensures !IsHead(TABLE_BITS, 0, ks, key)
  {
  }
}
