/** loop_to_buffer: admitted packets written back to back into a buffer the caller provides. */
module Buffer {
  import opened Words
  import opened Counting
  import opened FlowTab
  import opened Classifier
  import opened Runs
  import opened Records
  import opened Delivery

  /** Packets whose record size 5 + caplen does not wrap in 32 bits. */
  type Small = b: Payload | |b| < 0xffff_fffb witness []

  /** The image starts with the encoded records and is otherwise what the buffer held before. */
  ghost predicate Holds(image: seq<byte>, initial: seq<byte>, kept: seq<Record>) {
    var used := Size(kept);
    |image| == |initial| && used <= |image| && image[..used] == Encode(kept) && image[used..] == initial[used..]
  }

  lemma HoldsNext(image: seq<byte>, image': seq<byte>, initial: seq<byte>, kept: seq<Record>, r: Record)
    requires Holds(image, initial, kept) && Size(kept) + 5 + |r.bytes| <= |image|
    requires var used := Size(kept); image' == image[..used] + Encode1(r) + image[used + 5 + |r.bytes|..]
    ensures Holds(image', initial, kept + [r]) && Size(kept + [r]) == Size(kept) + 5 + |r.bytes|
  {
    EncodeSnoc(kept, r);
    var used, e := Size(kept), Encode1(r);
    assert image'[..used + |e|] == Encode(kept) + e;
    assert image'[used + |e|..] == image[used..][|e|..] == initial[used..][|e|..];
  }

  ghost predicate ClassCounts(cls: seq<u64>, cs: seq<nat>) {
    |cls| == 6 && forall c :: 0 <= c < 6 ==> cls[c] == Wrap64(Occ(cs, c))
  }

  /** The counters of a buffer run. */
  ghost predicate Accounted(written: u64, dropped: u64, overflow: u64, cls: seq<u64>,
                            cap: nat, rs: seq<Record>, cs: seq<nat>) {
    && |rs| <= |cs|
    && written == Wrap64(|Kept(cap, rs)|)
    && overflow == Wrap64(|rs| - |Kept(cap, rs)|)
    && dropped == Wrap64(|cs| - |rs|)
    && ClassCounts(cls, cs)
  }

  lemma ClassCountNext(cls: seq<u64>, cs: seq<nat>, idx: nat)
    requires ClassCounts(cls, cs) && idx < 6
    ensures ClassCounts(cls[idx := Increment(cls[idx])], cs + [idx])
  {
    forall c | 0 <= c < 6
      ensures cls[idx := Increment(cls[idx])][c] == Wrap64(Occ(cs + [idx], c))
    {
      OccSnoc(cs, idx, c);
      WrapsOnce(Occ(cs, c));
    }
  }

  lemma RecordSpliced(b: seq<byte>, off: nat, head: seq<byte>, id: byte, p: seq<byte>)
    requires |head| == 4 && off + 5 + |p| <= |b|
    ensures var b1 := b[..off] + head + b[off + 4..];
            var b2 := b1[off + 4 := id];
            b2[..off + 5] + p + b2[off + 5 + |p|..] == b[..off] + (head + [id] + p) + b[off + 5 + |p|..]
  {
  }

  class BufferContext {
    const engine: Engine
    const mask: int
    const buf: array<byte>
    const cls: array<u64>
    var used: nat
    var written: u64
    var dropped: u64
    var overflow: u64
    ghost const initial: seq<byte>

    ghost predicate Valid()
      reads this, buf, cls, engine, engine.repr
    {
      && buf as object != cls as object
      && buf !in engine.repr && cls !in engine.repr && this !in engine.repr
      && engine.Valid()
      && Stored(engine.classes, engine.seen)
    }

    /** The contents and counters that packets pkts of classes cs must have led to. */
    ghost predicate Stored(cs: seq<nat>, pkts: seq<Payload>)
      reads this, buf, cls
    {
      && ClassList(cs, pkts)
      && var rs := Select(engine.cfg, mask, cs, pkts);
      && Placed(rs)
      && |rs| <= |cs| && dropped == Wrap64(|cs| - |rs|)
      && ClassCounts(cls[..], cs)
    }

    /** The buffer and its two counters after the admitted records rs. */
    ghost predicate Placed(rs: seq<Record>)
      reads this`used, this`written, this`overflow, buf
    {
      && used == Size(Kept(buf.Length, rs))
      && Holds(buf[..], initial, Kept(buf.Length, rs))
      && written == Wrap64(|Kept(buf.Length, rs)|)
      && overflow == Wrap64(|rs| - |Kept(buf.Length, rs)|)
    }

    constructor (engine: Engine, mask: int, buf: array<byte>)
      requires engine.Valid() && engine.seen == [] && engine.classes == [] && buf !in engine.repr
      ensures Valid() && fresh(cls) && this.engine == engine && this.mask == mask && this.buf == buf && initial == buf[..]
    {
      this.engine, this.mask, this.buf := engine, mask, buf;
      cls := new u64[6](_ => 0);
      used, written, dropped, overflow := 0, 0, 0, 0;
      initial := buf[..];
    }

    /** Appends one record: four length bytes, the class byte, the packet. */
    method Append(p: Small, id: byte)
      requires used + 5 + |p| <= buf.Length
      modifies buf
      ensures buf[..] == old(buf[..used]) + Encode1(Record(id, p)) + old(buf[used + 5 + |p|..])
    {
      hide LeBytes;
      ghost var before := buf[..];
      var head := LeBytes(|p|, 4);
      RecordSpliced(before, used, head, id, p);
      CopyInto(buf, used, head);
      ghost var b1 := buf[..];
      buf[used + 4] := id;
      ghost var b2 := b1[used + 4 := id];
      assert buf[..] == b2;
      CopyInto(buf, used + 5, p);
      assert buf[..] == b2[..used + 5] + p + b2[used + 5 + |p|..];
    }

    /** Stores one admitted packet if it fits. */
    method Place(p: Small, id: byte, ghost rs: seq<Record>)
      requires Placed(rs)
      modifies this`used, this`written, this`overflow, buf
      ensures Placed(rs + [Record(id, p)])
    {
      hide Kept, Size, Encode, Wrap64, Holds;
      ghost var kept, r, image := Kept(buf.Length, rs), Record(id, p), buf[..];
      ghost var kept' := Kept(buf.Length, rs + [r]);
      KeptSnoc(buf.Length, rs, r);
      WrapsOnce(|rs| - |kept|);
      WrapsOnce(|kept|);
      var need := Wrap32(5 + |p|);
      assert need == 5 + |p|;
      if used + need > buf.Length {
        assert kept' == kept;
        overflow := Increment(overflow);
      } else {
        assert kept' == kept + [r];
        Append(p, id);
        HoldsNext(image, buf[..], initial, kept, r);
        used := used + need;
        written := Increment(written);
      }
    }

    /** Counting and storing of one classified packet. */
    method Store(idx: nat, p: Small, ghost cs: seq<nat>, ghost pkts: seq<Payload>)
      requires Stored(cs, pkts) && idx < 6 && buf as object != cls as object
      modifies this`used, this`written, this`dropped, this`overflow, buf, cls
      ensures Stored(cs + [idx], pkts + [p])
    {
      hide Select, Kept, Size, Encode, Admits, Wrap64, Occ, Holds;
      ghost var rs := Select(engine.cfg, mask, cs, pkts);
      SelectSnoc(engine.cfg, mask, cs, pkts, idx, p);
      WrapsOnce(|cs| - |rs|);
      assert rs + [] == rs;
      ghost var counts := cls[..];
      ClassCountNext(counts, cs, idx);
      cls[idx] := Increment(cls[idx]);
      assert cls[..] == counts[idx := Increment(counts[idx])];
      ghost var rs' := Select(engine.cfg, mask, cs + [idx], pkts + [p]);
      if Admits(mask, idx) {
        assert rs' == rs + [Record(ProfileBase(engine.cfg) + idx, p)];
        Place(p, ProfileBase(engine.cfg) + idx, rs);
      } else {
        assert rs' == rs;
        dropped := Increment(dropped);
      }
    }

    method BufferCallBack(p: Small)
      requires Valid()
      modifies this`used, this`written, this`dropped, this`overflow, buf, cls, engine.repr
      ensures Valid() && engine.seen == old(engine.seen) + [p]
    {
      hide CountedKeys, Classes, RulesOf, WatchedBy, Ready, Stored, State;
      ghost var cs, pkts := engine.classes, engine.seen;
      var idx := engine.Classify(p);
      label classified:
      Store(idx, p, cs, pkts);
      engine.StillValid@classified();
    }

    /** pcap_loop over a finite capture. */
    method Loop(pkts: seq<Small>)
      requires Valid() && engine.seen == []
      modifies this`used, this`written, this`dropped, this`overflow, buf, cls, engine.repr
      ensures Valid() && engine.seen == pkts
    {
      hide CountedKeys, Classes, RulesOf, WatchedBy, Ready, Stored, State;
      assert pkts[..0] == [];
      for i := 0 to |pkts|
        invariant Valid() && engine.seen == pkts[..i]
      {
        assert pkts[..i + 1] == pkts[..i] + [pkts[i]];
        BufferCallBack(pkts[i]);
      }
      assert pkts[..|pkts|] == pkts;
    }
  }

  /** The run itself: set-up, the loop, and the counters it leaves. */
  method RunIntoBuffer(cfg: Config, packed: seq<byte>, flowCutoff: int, mask: int, pkts: seq<Small>, buf: array<byte>, memory: Memory)
    returns (written: u64, dropped: u64, overflow: u64, used: nat, cls: seq<u64>)
    requires |packed| / 4 < 0x8000_0000
    modifies buf
    ensures var r := RulesFor(cfg, packed, flowCutoff, memory); var rs := Admitted(r, mask, pkts);
            && used == Size(Kept(buf.Length, rs)) <= buf.Length
            && buf[..used] == Encode(Kept(buf.Length, rs)) && buf[used..] == old(buf[..])[used..]
            && Accounted(written, dropped, overflow, cls, buf.Length, rs, Classes(r, pkts))
  {
    hide CountedKeys, Classes, RulesOf, WatchedBy, Ready, State, Select, Size, Kept, Encode;
    var engine := SetUp(cfg, packed, flowCutoff, memory);
    var c := new BufferContext(engine, mask, buf);
    c.Loop(pkts);
    KeptFits(buf.Length, Admitted(engine.rules, mask, pkts));
    written, dropped, overflow, used, cls := c.written, c.dropped, c.overflow, c.used, c.cls[..];
  }

  /** What a run admits, and what its head counter says, in terms of its arguments. */
  lemma AdmittedByArguments(cfg: Config, packed: seq<byte>, flowCutoff: int, mask: int, pkts: seq<Small>, memory: Memory, cls: seq<u64>)
    requires ClassCounts(cls, Classes(RulesFor(cfg, packed, flowCutoff, memory), pkts))
    ensures var r := RulesFor(cfg, packed, flowCutoff, memory);
            var cs, rs := Classes(r, pkts), Admitted(r, mask, pkts); var at := Positions(mask, cs);
            && |rs| == |at| && |rs| <= |pkts|
            && forall k :: 0 <= k < |rs| ==>
                 rs[k].bytes == pkts[at[k]] && rs[k].cls == cs[at[k]] + if cfg.profile == 1 then 100 else 0
    ensures var head := if cfg.profile == 1 then 4 else 1;
            |pkts| < TWO64 ==>
              && (flowCutoff <= 0 || !memory.table ==> cls[head] == 0)
              && var r := RulesFor(cfg, packed, flowCutoff, memory);
                 (flowCutoff > 0 && memory.table && KeysSeparate(CountedFlows(r, pkts)) ==>
                    && SumOfMinima(flowCutoff, CountedFlows(r, pkts)) <= cls[head]
                    && (SlotsUnshared(20, CountedKeys(r, pkts)) && Wraps(20, CountedKeys(r, pkts)) == [] ==>
                          cls[head] == SumOfMinima(flowCutoff, CountedFlows(r, pkts))))
  {
    assert RulesFor(cfg, packed, flowCutoff, memory).cfg == cfg;
    hide CountedKeys, CountedFlows, Classes, RulesFor, Select, Positions, SumOfMinima, SlotsUnshared, KeysSeparate, Wraps;
    hide Admits, Occ, Wrap64;
    var cs := Classes(RulesFor(cfg, packed, flowCutoff, memory), pkts);
    SelectAt(cfg, mask, cs, pkts);
    AdmittedCountIsLength(cfg, mask, cs, pkts);
    HeadsForArguments(cfg, packed, flowCutoff, memory, pkts);
    OccWithin(cs, if cfg.profile == 1 then 4 else 1);
  }

  /** loop_to_buffer over a finite capture: the buffer starts with the encoding of the admitted
      packets kept by greedy fit, every byte past `used` is untouched, and every packet is
      accounted for. */
  method LoopToBuffer(cfg: Config, packed: seq<byte>, flowCutoff: int, mask: int, pkts: seq<Small>, buf: array<byte>, memory: Memory)
    returns (written: u64, dropped: u64, overflow: u64, used: nat, cls: seq<u64>)
    requires |packed| / 4 < 0x8000_0000
    modifies buf
    ensures var r := RulesFor(cfg, packed, flowCutoff, memory);
            var cs, rs := Classes(r, pkts), Admitted(r, mask, pkts); var at, kept := Positions(mask, cs), Kept(buf.Length, rs);
            // the admitted packets, with the class ids of the profile
            && |rs| == |at| && |cs| == |pkts|
            && (forall k :: 0 <= k < |rs| ==>
                  rs[k].bytes == pkts[at[k]] && rs[k].cls == cs[at[k]] + if cfg.profile == 1 then 100 else 0)
            // the buffer
            && used == Size(kept) <= buf.Length
            && buf[..used] == Encode(kept) && buf[used..] == old(buf[..])[used..]
            // the counters
            && |kept| <= |rs| <= |pkts|
            && written == Wrap64(|kept|) && overflow == Wrap64(|rs| - |kept|) && dropped == Wrap64(|pkts| - |rs|)
            && |cls| == 6 && (forall c :: 0 <= c < 6 ==> cls[c] == Wrap64(Occ(cs, c)))
    ensures var r := RulesFor(cfg, packed, flowCutoff, memory);
            Accounted(written, dropped, overflow, cls, buf.Length, Admitted(r, mask, pkts), Classes(r, pkts))
    // the head counter follows the cutoff asked for
    ensures var head := if cfg.profile == 1 then 4 else 1;
            |cls| == 6 && |pkts| < TWO64 ==>
              && (flowCutoff <= 0 || !memory.table ==> cls[head] == 0)
              && var r := RulesFor(cfg, packed, flowCutoff, memory);
                 (flowCutoff > 0 && memory.table && KeysSeparate(CountedFlows(r, pkts)) ==>
                    && SumOfMinima(flowCutoff, CountedFlows(r, pkts)) <= cls[head]
                    && (SlotsUnshared(20, CountedKeys(r, pkts)) && Wraps(20, CountedKeys(r, pkts)) == [] ==>
                          cls[head] == SumOfMinima(flowCutoff, CountedFlows(r, pkts))))
  {
    hide CountedKeys, CountedFlows, Classes, RulesFor, Select, Size, Kept, Encode, Positions;
    hide SumOfMinima, SlotsUnshared, KeysSeparate, Wraps, Occ, Wrap64;
    written, dropped, overflow, used, cls := RunIntoBuffer(cfg, packed, flowCutoff, mask, pkts, buf, memory);
    AdmittedByArguments(cfg, packed, flowCutoff, mask, pkts, memory, cls);
  }

  lemma {:induction false} SizeCountsHeads(rs: seq<Record>)
    ensures 5 * |rs| <= Size(rs)
  {
    if rs == [] {
    } else {
      SizeCountsHeads(rs[..|rs| - 1]);
    }
  }

  /** Filling a buffer and then decoding it by the counts returned gives the admitted packets kept by
      greedy fit, in order, and ends at `used`; when they all fit, that is the callback sequence. The
      buffer's size is a 64-bit word. */
  method FillThenDecode(cfg: Config, packed: seq<byte>, flowCutoff: int, mask: int, pkts: seq<Small>, buf: array<byte>, memory: Memory)
    returns (decoded: Decoded, used: nat)
    requires |packed| / 4 < 0x8000_0000 && buf.Length < TWO64
    modifies buf
    ensures var rs := Admitted(RulesFor(cfg, packed, flowCutoff, memory), mask, pkts);
            && decoded == Some((Pairs(Kept(buf.Length, rs)), used))
            && (Size(rs) <= buf.Length ==> decoded == Some((Pairs(rs), Size(rs))))
    // in terms of positions: with room for all, item k is the class id and the bytes of the k-th admitted packet
    ensures var r := RulesFor(cfg, packed, flowCutoff, memory);
            var cs := Classes(r, pkts); var at := Positions(mask, cs);
            |cs| == |pkts| && (Size(Admitted(r, mask, pkts)) <= buf.Length ==>
              && decoded.Some? && |decoded.value.0| == |at|
              && forall k :: 0 <= k < |at| ==>
                   && decoded.value.0[k].0 == cs[at[k]] + (if cfg.profile == 1 then 100 else 0)
                   && decoded.value.0[k].1 == pkts[at[k]])
  {
    hide Classes, RulesFor, Select, Kept, Encode, Walk, Positions, SumOfMinima, KeysSeparate, SlotsUnshared, Wraps;
    ghost var rs := Admitted(RulesFor(cfg, packed, flowCutoff, memory), mask, pkts);
    var written, dropped, overflow, cls;
    written, dropped, overflow, used, cls := LoopToBuffer(cfg, packed, flowCutoff, mask, pkts, buf, memory);
    SizeCountsHeads(Kept(buf.Length, rs));
    WrapsOnce(|Kept(buf.Length, rs)|);
    assert Encode(Kept(buf.Length, rs)) <= buf[..];
    WalkDecodes(buf[..], Kept(buf.Length, rs));
    KeptAll(buf.Length, rs);
    decoded := Decode(buf[..], written);
  }

  /** Of fewer than 2^64 packets each is either written, dropped by the mask, or overflowed, and
      each is counted in exactly one class. */
  lemma EveryPacketAccounted(written: u64, dropped: u64, overflow: u64, cls: seq<u64>, cap: nat, rs: seq<Record>, cs: seq<nat>)
    requires Accounted(written, dropped, overflow, cls, cap, rs, cs) && |cs| < TWO64
    requires forall i :: 0 <= i < |cs| ==> cs[i] < 6
    ensures written as int + dropped as int + overflow as int == |cs|
    ensures cls[0] as int + cls[1] as int + cls[2] as int + cls[3] as int + cls[4] as int + cls[5] as int == |cs|
  {
    ClassCountsAddUp(cs);
    KeptFits(cap, rs);
    WrapsOnce(|Kept(cap, rs)|);
    WrapsOnce(|rs| - |Kept(cap, rs)|);
    WrapsOnce(|cs| - |rs|);
    assert cls[0] == Occ(cs, 0) by { WrapsOnce(Occ(cs, 0)); }
    assert cls[1] == Occ(cs, 1) by { WrapsOnce(Occ(cs, 1)); }
    assert cls[2] == Occ(cs, 2) by { WrapsOnce(Occ(cs, 2)); }
    assert cls[3] == Occ(cs, 3) by { WrapsOnce(Occ(cs, 3)); }
    assert cls[4] == Occ(cs, 4) by { WrapsOnce(Occ(cs, 4)); }
    assert cls[5] == Occ(cs, 5) by { WrapsOnce(Occ(cs, 5)); }
  }

  /** Both paths agree: with room for everything, decoding the buffer gives the callback sequence. */
  lemma BufferHoldsCallbackSequence(r: Rules, mask: int, pkts: seq<Payload>, buf: seq<byte>, cap: nat)
    requires StartsWith(buf, Kept(cap, Admitted(r, mask, pkts)))
    requires Size(Admitted(r, mask, pkts)) <= cap
    ensures Walk(buf, 0, |Admitted(r, mask, pkts)|)
         == Some((Pairs(Admitted(r, mask, pkts)), Size(Admitted(r, mask, pkts))))
  {
    KeptAll(cap, Admitted(r, mask, pkts));
    WalkDecodes(buf, Admitted(r, mask, pkts));
  }
}
