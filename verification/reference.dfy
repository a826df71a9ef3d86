/** The exact Python reference the capture path is measured against, and how far the two agree. */
module Reference {
  import opened Words
  import opened Counting
  import opened FlowKey
  import opened FlowTab
  import opened Headers
  import AddressSet
  import opened Classifier
  import opened Runs
  import opened Records
  import opened Delivery
  import opened Buffer

  const L2_OFFSET: nat := 14

  /** parse_ipv4's result; addresses and ports are read in network order. */
  datatype Parsed = Parsed(proto: byte, src: u32, dst: u32, sport: u16, dport: u16)

  predicate IsTag(ethertype: u16) { ethertype == 0x8100 || ethertype == 0x88A8 }

  /** Following ethertypes over any number of tags: the offset after the last tag and the ethertype there. */
  function TagWalk(p: Packet, off: nat, ethertype: u16): Option<(nat, u16)>
    decreases |p| - off
  {
    if !IsTag(ethertype) then Some((off, ethertype))
    else if |p| < off + 4 then None
    else TagWalk(p, off + 4, Be16At(p, off + 2))
  }

  /** Where the payload of an Ethernet frame starts, and its ethertype. */
  function EtherPayload(p: Packet): Option<(nat, u16)> {
    if |p| < L2_OFFSET then None else TagWalk(p, L2_OFFSET, Be16At(p, 12))
  }

  /** A complete IPv4 header at off. */
  predicate CompleteHeader(p: Packet, off: nat) {
    HeaderAt(p, off) && 20 <= HeaderLength(p, off) && off + HeaderLength(p, off) <= |p|
  }

  function FieldsAt(p: Packet, off: nat): Parsed
    requires CompleteHeader(p, off)
  {
    var l4 := off + HeaderLength(p, off);
    var ports := if (p[off + 9] == 6 || p[off + 9] == 17) && l4 + 4 <= |p| then (Be16At(p, l4), Be16At(p, l4 + 2)) else (0, 0);
    Parsed(p[off + 9], Be32At(p, off + 12), Be32At(p, off + 16), ports.0, ports.1)
  }

  /** What parse_ipv4 returns. */
  function Parse(p: Packet): Option<Parsed> {
    match EtherPayload(p)
    case None => None
    case Some((off, ethertype)) =>
      if ethertype == 0x0800 && CompleteHeader(p, off) then Some(FieldsAt(p, off)) else None
  }

  method ParseIpv4(buf: Packet) returns (r: Option<Parsed>)
    ensures r == Parse(buf)
  {
    var n := |buf|;
    if n < L2_OFFSET {
      return None;
    }
    var ethertype := Be16At(buf, 12);
    var off: nat := L2_OFFSET;
    while ethertype == 0x8100 || ethertype == 0x88A8
      invariant EtherPayload(buf) == TagWalk(buf, off, ethertype)
      decreases n - off
    {
      if n < off + 4 {
        return None;
      }
      ethertype := Be16At(buf, off + 2);
      off := off + 4;
    }
    if ethertype != 0x0800 {
      return None;
    }
    if n < off + 20 {
      return None;
    }
    var vhl := buf[off];
    if vhl / 16 != 4 {
      return None;
    }
    var ihl := (vhl % 16) * 4;
    if ihl < 20 || n < off + ihl {
      return None;
    }
    var proto := buf[off + 9];
    var src, dst := Be32At(buf, off + 12), Be32At(buf, off + 16);
    var sport: u16, dport: u16 := 0, 0;
    if proto == 6 || proto == 17 {
      var l4 := off + ihl;
      if n >= l4 + 4 {
        sport, dport := Be16At(buf, l4), Be16At(buf, l4 + 2);
      }
    }
    return Some(Parsed(proto, src, dst, sport, dport));
  }

  // ---- where the two header walks agree ----

  /** The tag control word at each of the first t tags has a top nibble other than 4. */
  ghost predicate TagsUnlikeIpv4(p: Packet, t: nat) {
    forall s: nat :: s < t && L2_OFFSET + 4 * s < |p| ==> p[L2_OFFSET + 4 * s] / 16 != 4
  }

  lemma {:induction false} WalkAdvances(p: Packet, off: nat, ethertype: u16)
    requires TagWalk(p, off, ethertype).Some?
    ensures TagWalk(p, off, ethertype).value.0 >= off
    ensures IsTag(ethertype) ==> TagWalk(p, off, ethertype).value.0 >= off + 4
    decreases |p| - off
  {
    if !IsTag(ethertype) {
    } else {
      WalkAdvances(p, off + 4, Be16At(p, off + 2));
    }
  }

  /** The ethertype positions of a frame with at most two tags. */
  lemma TagPositions(p: Packet, t: nat)
    requires EtherPayload(p).Some? && EtherPayload(p).value.0 == L2_OFFSET + 4 * t && t <= 2
    requires L2_OFFSET + 4 * t <= |p|
    ensures EtherPayload(p).value.1 == Be16At(p, 12 + 4 * t) && !IsTag(Be16At(p, 12 + 4 * t))
    ensures (t >= 1 ==> IsTag(Be16At(p, 12))) && (t >= 2 ==> IsTag(Be16At(p, 16)))
  {
    WalkAdvances(p, 14, Be16At(p, 12));
    if IsTag(Be16At(p, 12)) {
      WalkAdvances(p, 18, Be16At(p, 16));
      if IsTag(Be16At(p, 16)) {
        WalkAdvances(p, 22, Be16At(p, 20));
      }
    }
  }

  lemma TagBeforeIff(p: Packet, o: nat)
    requires 2 <= o <= |p|
    ensures TagBefore(p, o) <==> IsTag(Be16At(p, o - 2))
  {
  }

  /** On a frame with at most two tags and room for a header behind them, the version-nibble walk
      finds exactly the ethertype walk's payload, if that starts with nibble 4, provided no tag
      control word starts with nibble 4; with one that does, it stops early. */
  lemma WalksAgree(p: Packet, t: nat)
    requires EtherPayload(p).Some? && EtherPayload(p).value.0 == L2_OFFSET + 4 * t && t <= 2
    requires L2_OFFSET + 4 * t + 20 <= |p|
    ensures TagsUnlikeIpv4(p, t) ==>
              Located(L2_OFFSET, p) == if p[L2_OFFSET + 4 * t] / 16 == 4 then Some(L2_OFFSET + 4 * t) else None
    ensures !TagsUnlikeIpv4(p, t) ==>
              Located(L2_OFFSET, p).Some? && Located(L2_OFFSET, p).value < L2_OFFSET + 4 * t
  {
    TagPositions(p, t);
    TagBeforeIff(p, L2_OFFSET + 4 * t);
    assert !SkippedAt(p, L2_OFFSET + 4 * t);
    if t == 1 {
      TagBeforeIff(p, 14);
    } else if t == 2 {
      TagBeforeIff(p, 14);
      TagBeforeIff(p, 18);
    }
    NibbleWalk(L2_OFFSET, p, t);
  }

  /** The version-nibble walk finds the payload of the ethertype walk, at any number t of tags, exactly
      when there are at most two, no tag control word starts with nibble 4, and the payload does. */
  lemma WalkFindsPayloadIff(p: Packet, t: nat)
    requires EtherPayload(p).Some? && EtherPayload(p).value.0 == L2_OFFSET + 4 * t
    requires L2_OFFSET + 4 * t + 20 <= |p|
    ensures Located(L2_OFFSET, p) == Some(L2_OFFSET + 4 * t) <==>
            t <= 2 && TagsUnlikeIpv4(p, t) && p[L2_OFFSET + 4 * t] / 16 == 4
  {
    if t <= 2 {
      WalksAgree(p, t);
    }
  }

  /** The version-nibble walk over t tag positions that are followed by no further tag. */
  lemma NibbleWalk(l2: nat, p: Packet, t: nat)
    requires t <= 2 && l2 + 4 * t + 20 <= |p| && !SkippedAt(p, l2 + 4 * t)
    requires forall s: nat :: s < t ==> TagBefore(p, l2 + 4 * s)
    ensures (forall s: nat :: s < t ==> p[l2 + 4 * s] / 16 != 4) ==>
              Located(l2, p) == if p[l2 + 4 * t] / 16 == 4 then Some(l2 + 4 * t) else None
    ensures (exists s: nat :: s < t && p[l2 + 4 * s] / 16 == 4) ==>
              Located(l2, p).Some? && Located(l2, p).value < l2 + 4 * t
  {
    assert t >= 1 ==> TagBefore(p, l2 + 4 * 0);
    assert t >= 2 ==> TagBefore(p, l2 + 4 * 1);
    assert AfterTags(l2, p, 1) ==> SkippedAt(p, l2 + 4 * 0);
    assert AfterTags(l2, p, 2) ==> SkippedAt(p, l2 + 4 * 0) && SkippedAt(p, l2 + 4 * 1);
  }

  /** A frame both parsers read the same way: too short for any IPv4 header, or with at most two
      tags whose control words do not start with nibble 4, carrying either a complete IPv4 packet
      with its ports captured, or something else that does not start with nibble 4, or too little
      for a header. */
  ghost predicate Regular(p: Packet) {
    || |p| < L2_OFFSET + 20
    || exists t: nat :: RegularAfter(p, t)
  }

  ghost predicate RegularAfter(p: Packet, t: nat) {
    && t <= 2 && EtherPayload(p).Some? && EtherPayload(p).value.0 == L2_OFFSET + 4 * t
    && TagsUnlikeIpv4(p, t)
    && var off := L2_OFFSET + 4 * t;
       if |p| < off + 20 then true
       else if EtherPayload(p).value.1 == 0x0800
       then CompleteHeader(p, off) && (p[off + 9] == 6 || p[off + 9] == 17 ==> off + HeaderLength(p, off) + 4 <= |p|)
       else p[off] / 16 != 4
  }

  lemma CutBehindTags(p: Packet, t: nat)
    requires RegularAfter(p, t) && L2_OFFSET + 20 <= |p| < L2_OFFSET + 4 * t + 20
    ensures Parse(p) == None && Located(L2_OFFSET, p) == None
  {
    assert !HeaderAt(p, L2_OFFSET + 4 * 0);
    assert AfterTags(L2_OFFSET, p, 1) ==> HeaderAt(p, L2_OFFSET + 4 * 1);
    assert AfterTags(L2_OFFSET, p, 2) ==> HeaderAt(p, L2_OFFSET + 4 * 2);
  }

  function ToFlow(q: Parsed): Flow { Flow(ToWord(q.src), ToWord(q.dst), q.sport, q.dport, q.proto) }

  lemma ToFlowInjective(q: Parsed, q': Parsed)
    ensures ToFlow(q) == ToFlow(q') ==> q == q'
  {
    ToWordInvolutive(q.src);
    ToWordInvolutive(q.dst);
    ToWordInvolutive(q'.src);
    ToWordInvolutive(q'.dst);
  }

  predicate HasTransport(q: Parsed) { q.proto == 6 || q.proto == 17 }

  lemma WordsReverse(p: Packet, i: nat)
    requires i + 4 <= |p|
    ensures Le32At(p, i) == ToWord(Be32At(p, i))
  {
    ToWordReverses(p[i + 3], p[i + 2], p[i + 1], p[i]);
  }

  lemma FieldsAgree(p: Packet, off: nat)
    requires CompleteHeader(p, off)
    requires p[off + 9] == 6 || p[off + 9] == 17 ==> off + HeaderLength(p, off) + 4 <= |p|
    ensures var q := FieldsAt(p, off);
            && Source(p, off) == ToWord(q.src) && Destination(p, off) == ToWord(q.dst) && p[off + 9] == q.proto
            && (HasPorts(p, off) <==> HasTransport(q))
            && (HasPorts(p, off) ==> FlowAt(p, off) == ToFlow(q))
  {
    hide ToWord, Le32, Join;
    WordsReverse(p, off + 12);
    WordsReverse(p, off + 16);
  }

  /** On a regular frame the C header walk and the Python parser agree on everything they read. */
  lemma ParsersAgree(p: Packet)
    requires Regular(p)
    ensures Parse(p).Some? <==> Located(L2_OFFSET, p).Some?
    ensures Parse(p).Some? ==>
              var l3, q := Located(L2_OFFSET, p).value, Parse(p).value;
              && l3 + 20 <= |p|
              && Source(p, l3) == ToWord(q.src) && Destination(p, l3) == ToWord(q.dst) && p[l3 + 9] == q.proto
              && (HasPorts(p, l3) <==> HasTransport(q))
              && (HasPorts(p, l3) ==> FlowAt(p, l3) == ToFlow(q))
  {
    hide Located, TagWalk, FieldsAt, HasPorts, Source, Destination, FlowAt, ToFlow, ToWord, HeaderLength;
    if |p| >= L2_OFFSET + 20 {
      var t: nat :| RegularAfter(p, t);
      if |p| < L2_OFFSET + 4 * t + 20 {
        CutBehindTags(p, t);
        return;
      }
      WalksAgree(p, t);
      if EtherPayload(p).value.1 == 0x0800 {
        FieldsAgree(p, L2_OFFSET + 4 * t);
      }
    } else {
      WalkTooShort(p);
    }
  }

  lemma WalkTooShort(p: Packet)
    requires |p| < L2_OFFSET + 20
    ensures Parse(p) == None && Located(L2_OFFSET, p) == None
  {
    if EtherPayload(p).Some? {
      WalkAdvances(p, L2_OFFSET, Be16At(p, 12));
    }
  }

  // ---- the reference loops ----

  predicate Matches(p: Packet, addrs: set<u32>) {
    Parse(p).Some? && (Parse(p).value.src in addrs || Parse(p).value.dst in addrs)
  }

  function MatchCount(frames: seq<Packet>, addrs: set<u32>): nat {
    if frames == [] then 0
    else MatchCount(frames[..|frames| - 1], addrs) + if Matches(frames[|frames| - 1], addrs) then 1 else 0
  }

  method AddrSetMatch(frames: seq<Packet>, addrs: set<u32>) returns (admitted: nat)
    ensures admitted == MatchCount(frames, addrs)
  {
    admitted := 0;
    assert frames[..0] == [];
    for i := 0 to |frames|
      invariant admitted == MatchCount(frames[..i], addrs)
    {
      assert frames[..i + 1][..i] == frames[..i];
      var r := ParseIpv4(frames[i]);
      if r.Some? && (r.value.src in addrs || r.value.dst in addrs) {
        admitted := admitted + 1;
      }
    }
    assert frames[..|frames|] == frames;
  }

  /** The 5-tuples the reference counts, in order. */
  function Tuples(frames: seq<Packet>): seq<Parsed> {
    if frames == [] then []
    else
      var prev, r := Tuples(frames[..|frames| - 1]), Parse(frames[|frames| - 1]);
      if r.Some? && HasTransport(r.value) then prev + [r.value] else prev
  }

  /** The dictionary accounting admits exactly the first `cutoff` packets of every 5-tuple. */
  method FlowHeads(frames: seq<Packet>, cutoff: nat) returns (admitted: nat)
    ensures admitted == |FirstCopies(cutoff, Tuples(frames))| == SumOfMinima(cutoff, Tuples(frames))
  {
    hide Parse, SumOfMinima;
    var seen: map<Parsed, nat> := map[];
    admitted := 0;
    assert frames[..0] == [];
    for i := 0 to |frames|
      invariant forall q :: (if q in seen then seen[q] else 0) == Occ(Tuples(frames[..i]), q)
      invariant admitted == |FirstCopies(cutoff, Tuples(frames[..i]))|
    {
      assert frames[..i + 1][..i] == frames[..i];
      var r := ParseIpv4(frames[i]);
      if r.None? || (r.value.proto != 6 && r.value.proto != 17) {
        continue;
      }
      var key := r.value;
      var n := (if key in seen then seen[key] else 0) + 1;
      ghost var before := Tuples(frames[..i]);
      FirstCopiesSnoc(cutoff, before, key);
      forall q
        ensures Occ(before + [key], q) == Occ(before, q) + if q == key then 1 else 0
      {
        OccSnoc(before, key, q);
      }
      seen := seen[key := n];
      if n <= cutoff {
        admitted := admitted + 1;
      }
    }
    assert frames[..|frames|] == frames;
    ExactHeadTotal(cutoff, Tuples(frames));
  }

  // ---- end to end ----

  ghost predicate AllRegular(frames: seq<Packet>) {
    forall i :: 0 <= i < |frames| ==> Regular(frames[i])
  }

  /** Generic-profile rules for Ethernet. */
  ghost predicate EthernetRules(r: Rules) {
    r.cfg.l2Off == L2_OFFSET && r.cfg.profile != 1
  }

  /** The reference set holds the watched addresses; address 0 is in neither. */
  ghost predicate SameAddresses(r: Rules, addrs: set<u32>) {
    forall a: u32 :: a in addrs <==> ToWord(a) in r.watched
  }

  /** With the same addresses, the C path matches exactly the packets the reference does. */
  lemma {:induction false} SetMatchesAgree(r: Rules, addrs: set<u32>, frames: seq<Packet>)
    requires EthernetRules(r) && AllRegular(frames) && SameAddresses(r, addrs)
    ensures forall i :: 0 <= i < |frames| ==> (Classes(r, frames)[i] == 2 <==> Matches(frames[i], addrs))
    ensures Occ(Classes(r, frames), 2) == MatchCount(frames, addrs)
  {
    hide Matches, Regular, EthernetRules, SameAddresses;
    if frames == [] {
    } else {
      var prev, p := frames[..|frames| - 1], frames[|frames| - 1];
      SetMatchesAgree(r, addrs, prev);
      MatchIsClass(r, addrs, CountedKeys(r, prev), p);
      OccSnoc(Classes(r, prev), ClassAfter(r, CountedKeys(r, prev), p), 2);
    }
  }

  lemma MatchIsClass(r: Rules, addrs: set<u32>, ks: seq<u64>, p: Packet)
    requires EthernetRules(r) && Regular(p) && SameAddresses(r, addrs)
    ensures ClassAfter(r, ks, p) == 2 <==> Matches(p, addrs)
    ensures ClassAfter(r, ks, p) < 3
  {
    MatchIsHit(r, addrs, p);
    hide Matches, IsAddressHit, IsCounted;
  }

  lemma MatchIsHit(r: Rules, addrs: set<u32>, p: Packet)
    requires EthernetRules(r) && Regular(p) && SameAddresses(r, addrs)
    ensures Matches(p, addrs) <==> IsAddressHit(r, p)
  {
    ParsersAgree(p);
  }

  lemma CountedIffTransport(r: Rules, p: Packet)
    requires EthernetRules(r) && Regular(p) && r.flows && r.cutoff > 0 && r.watched == iset{}
    ensures IsCounted(r, p) <==> Parse(p).Some? && HasTransport(Parse(p).value)
    ensures IsCounted(r, p) ==> FlowOf(r.cfg, p) == ToFlow(Parse(p).value)
  {
    ParsersAgree(p);
  }

  lemma {:induction false} CountedAreTuples(r: Rules, frames: seq<Packet>)
    requires EthernetRules(r) && AllRegular(frames) && r.flows && r.cutoff > 0 && r.watched == iset{}
    ensures |CountedFlows(r, frames)| == |Tuples(frames)|
    ensures forall i :: 0 <= i < |Tuples(frames)| ==> CountedFlows(r, frames)[i] == ToFlow(Tuples(frames)[i])
  {
    if frames == [] {
    } else {
      CountedAreTuples(r, frames[..|frames| - 1]);
      CountedIffTransport(r, frames[|frames| - 1]);
    }
  }

  /** The whole path against the reference: on a capture of regular frames whose 5-tuples have
      distinct keys, the C path reports at least the heads the dictionary reports, at most cutoff
      more per eviction and per counter wrap, and exactly as many when no two keys share a slot and
      no counter wraps. */
  lemma FlowHeadsAgainstReference(r: Rules, frames: seq<Packet>)
    requires EthernetRules(r) && AllRegular(frames) && r.flows && r.cutoff > 0 && r.watched == iset{}
    requires KeysSeparate(CountedFlows(r, frames))
    ensures var heads, exact := Occ(Classes(r, frames), 1), |FirstCopies(r.cutoff, Tuples(frames))|;
            var victims, wraps := Victims(TABLE_BITS, CountedKeys(r, frames)), Wraps(TABLE_BITS, CountedKeys(r, frames));
            && exact <= heads <= exact + r.cutoff * (|victims| + |wraps|)
            && (SlotsUnshared(TABLE_BITS, CountedKeys(r, frames)) && wraps == [] ==> heads == exact)
  {
    hide Victims, Wraps, FirstCopies, SumOfMinima, Classes, AllRegular, ToFlow, SlotsUnshared, KeysSeparate;
    var flows, tuples := CountedFlows(r, frames), Tuples(frames);
    FlowHeadsAgainstExact(r, frames);
    CountedAreTuples(r, frames);
    forall i, j | 0 <= i < |tuples| && 0 <= j < |tuples| && flows[i] == flows[j]
      ensures tuples[i] == tuples[j]
    {
      ToFlowInjective(tuples[i], tuples[j]);
    }
    RenamingKeepsFirstCopies(r.cutoff, tuples, flows);
    ExactHeadTotal(r.cutoff, flows);
  }

  // ---- the reference buffer ----

  /** The records buffer_addr_set means to write. */
  function MatchRecords(frames: seq<Payload>, addrs: set<u32>): seq<Record> {
    if frames == [] then []
    else
      var m := |frames| - 1;
      MatchRecords(frames[..m], addrs) + if Matches(frames[m], addrs) then [Record(2, frames[m])] else []
  }

  /** Writes one record at pos: the packed head, then the bytes. */
  method PackInto(buf: array<byte>, pos: nat, data: Payload, cls: byte)
    requires pos + 5 + |data| <= buf.Length
    modifies buf
    ensures buf[..] == old(buf[..pos]) + Encode1(Record(cls, data)) + old(buf[pos + 5 + |data|..])
  {
    hide LeBytes;
    ghost var before := buf[..];
    CopyInto(buf, pos, LeBytes(|data|, 4) + [cls]);
    CopyInto(buf, pos + 5, data);
    HeadThenBody(before, pos, LeBytes(|data|, 4) + [cls], data);
  }

  lemma HeadThenBody(b: seq<byte>, pos: nat, head: seq<byte>, body: seq<byte>)
    requires |head| == 5 && pos + 5 + |body| <= |b|
    ensures var b1 := b[..pos] + head + b[pos + 5..];
            b1[..pos + 5] + body + b1[pos + 5 + |body|..] == b[..pos] + (head + body) + b[pos + 5 + |body|..]
  {
  }

  /** buffer_addr_set keeps the matching packets that fit, as class-2 records, and counts the others. */
  method BufferAddrSet(frames: seq<Payload>, buf: array<byte>, addrs: set<u32>)
    returns (written: nat, overflow: nat, pos: nat)
    modifies buf
    ensures var rs := MatchRecords(frames, addrs); var kept := Kept(buf.Length, rs);
            && pos == Size(kept) && written == |kept| && overflow == |rs| - |kept|
            && Holds(buf[..], old(buf[..]), kept)
  {
    hide Parse, Kept, Size, Encode, Holds;
    written, overflow, pos := 0, 0, 0;
    ghost var initial := buf[..];
    NothingHeld(initial);
    assert frames[..0] == [];
    for i := 0 to |frames|
      invariant var rs := MatchRecords(frames[..i], addrs); var kept := Kept(buf.Length, rs);
                && pos == Size(kept) && written == |kept| && overflow == |rs| - |kept|
                && Holds(buf[..], initial, kept)
    {
      assert frames[..i + 1][..i] == frames[..i];
      var r := ParseIpv4(frames[i]);
      ghost var rs := MatchRecords(frames[..i], addrs);
      assert Matches(frames[i], addrs) <==> r.Some? && (r.value.src in addrs || r.value.dst in addrs);
      if r.None? || !(r.value.src in addrs || r.value.dst in addrs) {
        assert MatchRecords(frames[..i + 1], addrs) == rs;
        continue;
      }
      assert MatchRecords(frames[..i + 1], addrs) == rs + [Record(2, frames[i])];
      KeptSnoc(buf.Length, rs, Record(2, frames[i]));
      var n := |frames[i]|;
      if pos + 5 + n > buf.Length {
        overflow := overflow + 1;
        continue;
      }
      ghost var image := buf[..];
      PackInto(buf, pos, frames[i], 2);
      HoldsNext(image, buf[..], initial, Kept(buf.Length, rs), Record(2, frames[i]));
      pos := pos + 5 + n;
      written := written + 1;
    }
    assert frames[..|frames|] == frames;
  }

  lemma NothingHeld(initial: seq<byte>)
    ensures Holds(initial, initial, []) && Size([]) == 0 && Kept(|initial|, []) == [] && MatchRecords([], {}) == []
  {
  }

  /** Admitting class 2 alone, the generic profile delivers the records the reference writes. */
  lemma {:induction false} AdmittedAreMatches(r: Rules, addrs: set<u32>, frames: seq<Payload>)
    requires EthernetRules(r) && AllRegular(frames) && SameAddresses(r, addrs)
    ensures Admitted(r, 4, frames) == MatchRecords(frames, addrs)
  {
    hide Matches, Regular, SameAddresses, Admits, ClassAfter;
    if frames == [] {
    } else {
      var m := |frames| - 1;
      AdmittedAreMatches(r, addrs, frames[..m]);
      assert Classes(r, frames)[..m] == Classes(r, frames[..m]);
      MatchIsClass(r, addrs, CountedKeys(r, frames[..m]), frames[m]);
      OnlyClassTwo(ClassAfter(r, CountedKeys(r, frames[..m]), frames[m]));
    }
  }

  lemma OnlyClassTwo(c: nat)
    requires c < 3
    ensures Admits(4, c) <==> c == 2
  {
    assert !Admits(4, 0) && Admits(4, 1) == Admits(2, 0) && Admits(4, 2) == Admits(2, 1) == Admits(1, 0);
  }

  /** The C path and the reference fill two equal buffers with the same bytes, when they watch the same
      addresses and every frame is regular. */
  method BuffersAgree(cfg: Config, packed: seq<byte>, frames: seq<Small>, addrs: set<u32>, a: array<byte>, b: array<byte>)
    returns (used: nat, pos: nat)
    requires |packed| / 4 < 0x8000_0000 && cfg.l2Off == L2_OFFSET && cfg.profile != 1 && AllRegular(frames)
    requires forall x: u32 :: x in addrs <==> ToWord(x) in AddressSet.Addresses(packed)
    requires a != b && a[..] == b[..]
    modifies a, b
    ensures a[..] == b[..] && used == pos
  {
    hide Classes, AddressSet.Addresses, Kept, Encode, Size, ToWord, Regular, MatchRecords, Select;
    ghost var r, initial := RulesFor(cfg, packed, 0, Memory(true, true)), a[..];
    assert a.Length == |a[..]| == |b[..]| == b.Length;
    var written, dropped, overflow, cls;
    written, dropped, overflow, used, cls := LoopToBuffer(cfg, packed, 0, 4, frames, a, Memory(true, true));
    var writtenRef, overflowRef;
    writtenRef, overflowRef, pos := BufferAddrSet(frames, b, addrs);
    AdmittedAreMatches(r, addrs, frames);
    assert a[..] == a[..used] + a[used..];
    assert b[..] == b[..pos] + b[pos..];
  }
}
