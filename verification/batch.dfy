/** next_batch: packets appended to a growing buffer, with one fixed-size index record each. */
module Batch {
  import opened Words
  import opened Records

  /** One captured packet as libpcap hands it over. */
  datatype Captured = Captured(sec: nat, usec: nat, bytes: Payload)

  datatype Meta = Meta(sec: u32, usec: u32, off: u32, len: u32)

  const INITIAL_CAPACITY: nat := 65536

  function Bytes(ds: seq<Captured>): seq<byte> {
    if ds == [] then [] else Bytes(ds[..|ds| - 1]) + ds[|ds| - 1].bytes
  }

  /** The index record of a packet that starts at byte off; every field is stored in 32 bits. */
  function MetaOf(d: Captured, off: nat): Meta {
    Meta(Wrap32(d.sec), Wrap32(d.usec), Wrap32(off), |d.bytes|)
  }

  /** The index records of a batch: each packet starts where the one before it ends. */
  function Index(ds: seq<Captured>): (ms: seq<Meta>)
    ensures |ms| == |ds|
  {
    if ds == [] then []
    else Index(ds[..|ds| - 1]) + [MetaOf(ds[|ds| - 1], |Bytes(ds[..|ds| - 1])|)]
  }

  lemma BatchSnoc(ds: seq<Captured>, d: Captured)
    ensures Bytes(ds + [d]) == Bytes(ds) + d.bytes
    ensures Index(ds + [d]) == Index(ds) + [MetaOf(d, |Bytes(ds)|)]
  {
    assert (ds + [d])[..|ds|] == ds;
  }

  // ---- the consumer ----

  lemma {:induction false} PrefixOfBatch(ds: seq<Captured>, i: nat)
    requires i <= |ds|
    ensures Bytes(ds[..i]) <= Bytes(ds) && Index(ds[..i]) <= Index(ds)
    decreases |ds|
  {
    if i < |ds| {
      PrefixOfBatch(ds[..|ds| - 1], i);
      assert ds[..|ds| - 1][..i] == ds[..i];
    } else {
      assert ds[..i] == ds;
    }
  }

  lemma IndexAt(ds: seq<Captured>, i: nat)
    requires i < |ds|
    ensures Index(ds)[i] == MetaOf(ds[i], |Bytes(ds[..i])|)
    ensures |Bytes(ds[..i + 1])| == |Bytes(ds[..i])| + |ds[i].bytes| <= |Bytes(ds)|
    ensures Bytes(ds)[|Bytes(ds[..i])|..|Bytes(ds[..i])| + |ds[i].bytes|] == ds[i].bytes
  {
    hide Bytes, Index;
    assert ds[..i + 1] == ds[..i] + [ds[i]];
    BatchSnoc(ds[..i], ds[i]);
    PrefixOfBatch(ds, i + 1);
    assert Index(ds)[i] == Index(ds[..i + 1])[i];
  }

  lemma OffsetAt(ds: seq<Captured>, i: nat)
    requires i < |ds| && |Bytes(ds)| < TWO32
    ensures |Bytes(ds[..i])| + |ds[i].bytes| == |Bytes(ds[..i + 1])| <= |Bytes(ds)|
    ensures Index(ds)[i] == Meta(Wrap32(ds[i].sec), Wrap32(ds[i].usec), |Bytes(ds[..i])|, |ds[i].bytes|)
    ensures Bytes(ds)[|Bytes(ds[..i])|..|Bytes(ds[..i + 1])|] == ds[i].bytes
  {
    hide Bytes, Index;
    IndexAt(ds, i);
  }

  /** Slicing by the index returns each packet with its time, in order, as long as the batch is
      shorter than 2^32 bytes. */
  lemma SlicingRecovers(ds: seq<Captured>, i: nat)
    requires i < |ds| && |Bytes(ds)| < TWO32
    ensures var m := Index(ds)[i];
            && m.off + m.len <= |Bytes(ds)| && Bytes(ds)[m.off..m.off + m.len] == ds[i].bytes
            && m.sec == Wrap32(ds[i].sec) && m.usec == Wrap32(ds[i].usec)
  {
    hide Bytes, Index, Wrap32;
    OffsetAt(ds, i);
  }

  /** The index tiles the bytes without gap or overlap. */
  lemma IndexTiles(ds: seq<Captured>)
    requires ds != [] && |Bytes(ds)| < TWO32
    ensures Index(ds)[0].off == 0
    ensures forall i :: 0 <= i < |ds| - 1 ==> Index(ds)[i + 1].off == Index(ds)[i].off + Index(ds)[i].len
    ensures Index(ds)[|ds| - 1].off + Index(ds)[|ds| - 1].len == |Bytes(ds)|
  {
    assert ds[..0] == [] && Bytes([]) == [] && ds[..|ds|] == ds;
    hide Bytes, Index, Wrap32;
    OffsetAt(ds, 0);
    OffsetAt(ds, |ds| - 1);
    forall i | 0 <= i < |ds| - 1
      ensures Index(ds)[i + 1].off == Index(ds)[i].off + Index(ds)[i].len
    {
      OffsetAt(ds, i);
      OffsetAt(ds, i + 1);
    }
  }

  // ---- the packed index ----

  /** One 16-byte index record: time stamp, offset and length as little-endian words. */
  function PackRecord(m: Meta): (s: seq<byte>)
    ensures |s| == 16
  {
    LeBytes(m.sec, 4) + LeBytes(m.usec, 4) + LeBytes(m.off, 4) + LeBytes(m.len, 4)
  }

  function Pack(ms: seq<Meta>): (s: seq<byte>)
    ensures |s| == 16 * |ms|
  {
    if ms == [] then [] else Pack(ms[..|ms| - 1]) + PackRecord(ms[|ms| - 1])
  }

  lemma WordReads(s: seq<byte>, p: nat, x: u32)
    requires p + 4 <= |s| && s[p..p + 4] == LeBytes(x, 4)
    ensures Le32At(s, p) == x
  {
    LeBytesOf32(x);
    var t := s[p..p + 4];
    assert s[p] == t[0] && s[p + 1] == t[1] && s[p + 2] == t[2] && s[p + 3] == t[3];
    assert Le32At(t, 0) == x;
  }

  lemma RecordReads(s: seq<byte>, p: nat, m: Meta)
    requires p + 16 <= |s| && s[p..p + 16] == PackRecord(m)
    ensures Le32At(s, p) == m.sec && Le32At(s, p + 4) == m.usec && Le32At(s, p + 8) == m.off && Le32At(s, p + 12) == m.len
  {
    FieldsOfRecord(m);
    hide LeBytes, Le32At, PackRecord;
    SubSlice(s, p, p + 16, 0, 4);
    SubSlice(s, p, p + 16, 4, 8);
    SubSlice(s, p, p + 16, 8, 12);
    SubSlice(s, p, p + 16, 12, 16);
    WordReads(s, p, m.sec);
    WordReads(s, p + 4, m.usec);
    WordReads(s, p + 8, m.off);
    WordReads(s, p + 12, m.len);
  }

  lemma FieldsOfRecord(m: Meta)
    ensures var t := PackRecord(m);
            t[0..4] == LeBytes(m.sec, 4) && t[4..8] == LeBytes(m.usec, 4)
            && t[8..12] == LeBytes(m.off, 4) && t[12..16] == LeBytes(m.len, 4)
  {
    hide LeBytes;
  }

  /** Reading the packed index as words gives the four fields of every record. */
  lemma {:induction false} PackedAt(ms: seq<Meta>, i: nat)
    requires i < |ms|
    ensures var s := Pack(ms);
            && Le32At(s, 16 * i) == ms[i].sec && Le32At(s, 16 * i + 4) == ms[i].usec
            && Le32At(s, 16 * i + 8) == ms[i].off && Le32At(s, 16 * i + 12) == ms[i].len
  {
    PieceOfPack(ms, i);
    RecordReads(Pack(ms), 16 * i, ms[i]);
  }

  lemma {:induction false} PieceOfPack(ms: seq<Meta>, i: nat)
    requires i < |ms|
    ensures Pack(ms)[16 * i..16 * i + 16] == PackRecord(ms[i])
  {
    hide PackRecord;
    var m := |ms| - 1;
    var before, last := Pack(ms[..m]), PackRecord(ms[m]);
    assert Pack(ms) == before + last;
    if i == m {
      assert (before + last)[16 * m..16 * m + 16] == last;
    } else {
      PieceOfPack(ms[..m], i);
      assert (before + last)[16 * i..16 * i + 16] == before[16 * i..16 * i + 16];
    }
  }

  /** What a consumer does: it reads record i of the packed index as four words and slices the bytes; it
      gets the time stamp and the bytes of packet i, as long as the batch is shorter than 2^32 bytes. */
  lemma ConsumerRecovers(ds: seq<Captured>, i: nat)
    requires i < |ds| && |Bytes(ds)| < TWO32
    ensures var s := Pack(Index(ds));
            var sec, usec, off, len := Le32At(s, 16 * i), Le32At(s, 16 * i + 4), Le32At(s, 16 * i + 8), Le32At(s, 16 * i + 12);
            && sec == ds[i].sec % 0x1_0000_0000 && usec == ds[i].usec % 0x1_0000_0000
            && off + len <= |Bytes(ds)| && Bytes(ds)[off..off + len] == ds[i].bytes
  {
    hide Bytes, Index, Pack, Le32At, Wrap32;
    PackedAt(Index(ds), i);
    SlicingRecovers(ds, i);
    WrapIsMod(ds[i].sec);
    WrapIsMod(ds[i].usec);
  }

  // ---- the producer ----

  /** realloc: a larger block with the old contents at its start. */
  method Resize<T(0)>(old_: array<T>, size: nat) returns (block: array<T>)
    requires old_.Length <= size
    ensures fresh(block) && block.Length == size && block[..old_.Length] == old_[..]
  {
    block := new T[size];
    for i := 0 to old_.Length
      invariant block[..i] == old_[..i]
    {
      block[i] := old_[i];
    }
  }

  class BatchContext {
    var buf: array<byte>
    var used: nat
    var meta: array<Meta>
    var n: nat
    /** the packets stored, the bytes of packets the buffer was grown for in vain, the bytes
        reallocation has copied */
    ghost var stored: seq<Captured>
    ghost var wasted: nat
    ghost var moved: nat

    /** Buffer and index hold the packets stored. */
    ghost predicate Holds()
      reads this`buf, this`used, this`meta, this`n, this`stored, buf, meta
    {
      && used == |Bytes(stored)| <= buf.Length && buf[..used] == Bytes(stored)
      && n == |stored| <= meta.Length && meta[..n] == Index(stored)
    }

    /** The capacity is in proportion to the bytes seen, and pays for all copying so far. */
    ghost predicate Proportionate(bytes: nat)
      reads this`buf, this`moved
    {
      && INITIAL_CAPACITY <= buf.Length <= Max(INITIAL_CAPACITY, 2 * bytes)
      && moved + INITIAL_CAPACITY <= buf.Length
    }

    ghost predicate Valid()
      reads this, buf, meta
    {
      Holds() && Proportionate(used + wasted)
    }

    constructor (maxN: nat)
      ensures Valid() && fresh(buf) && fresh(meta) && meta.Length == maxN && buf.Length == INITIAL_CAPACITY
      ensures stored == [] && wasted == 0
    {
      buf := new byte[INITIAL_CAPACITY];
      used, n := 0, 0;
      meta := new Meta[maxN];
      stored, wasted, moved := [], 0, 0;
    }

    /** Makes room for cl more bytes; false, with the buffer as it was, when the allocation is refused. */
    method Reserve(cl: nat, granted: bool) returns (ok: bool)
      requires Valid()
      modifies this`buf, this`moved
      ensures ok <==> granted || used + cl <= old(buf.Length)
      ensures buf == old(buf) || fresh(buf)
      ensures buf.Length == if ok then Room(used, old(buf.Length), cl) else old(buf.Length)
      ensures Holds() && (if ok then Proportionate(used + wasted + cl) else Proportionate(used + wasted))
      ensures ok ==> used + cl <= buf.Length
    {
      ok := true;
      if used + cl > buf.Length {
        var nc := buf.Length * 2;
        if nc < used + cl + 4096 {
          nc := used + cl + 4096;
        }
        if !granted {
          return false;
        }
        ghost var before := buf[..];
        var nb := Resize(buf, nc);
        moved := moved + buf.Length;
        assert nb[..used] == nb[..|before|][..used];
        buf := nb;
      }
    }

    /** Makes room for one more index record. */
    method ReserveMeta(granted: bool) returns (ok: bool)
      requires Holds() && (n < meta.Length || meta.Length < 0x8000_0000)
      modifies this`meta
      ensures ok <==> granted || n < old(meta.Length)
      ensures meta == old(meta) || fresh(meta)
      ensures Holds() && (ok ==> n < meta.Length)
      ensures n < old(meta.Length) ==> meta == old(meta)
    {
      ok := true;
      if n >= meta.Length {
        var nm := Wrap32(meta.Length * 2);
        if nm == 0 {
          nm := 256;
        }
        if !granted {
          return false;
        }
        ghost var before := meta[..];
        var nmeta := Resize(meta, nm);
        assert nmeta[..n] == before;
        meta := nmeta;
      }
    }

    /** Stores one packet for which there is room. */
    method Put(d: Captured)
      requires Holds() && used + |d.bytes| <= buf.Length && n < meta.Length
      modifies this`used, this`n, this`stored, buf, meta
      ensures Holds() && stored == old(stored) + [d] && used == old(used) + |d.bytes|
    {
      hide Bytes, Index, Wrap32;
      BatchSnoc(stored, d);
      ghost var before := buf[..];
      CopyInto(buf, used, d.bytes);
      assert buf[..used + |d.bytes|] == before[..used] + d.bytes;
      meta[n] := Meta(Wrap32(d.sec), Wrap32(d.usec), Wrap32(used), |d.bytes|);
      assert meta[..n + 1] == meta[..n] + [meta[n]];
      used, n := used + |d.bytes|, n + 1;
      stored := stored + [d];
    }

    /** One packet. It is stored unless an allocation it needs is refused, and then only it is lost;
        the buffer stays as large as it was unless it was grown for this packet. */
    method BatchCallBack(d: Captured, granted: bool, grantedMeta: bool)
      requires Valid() && (n < meta.Length || meta.Length < 0x8000_0000)
      modifies this, buf, meta
      ensures Valid() && (buf == old(buf) || fresh(buf)) && (meta == old(meta) || fresh(meta))
      ensures old(n) < old(meta.Length) ==> meta == old(meta)
      ensures old(n) < old(meta.Length) ==>
                Outcome(stored, buf.Length) == Next(Outcome(old(stored), old(buf.Length)), d, !granted)
      ensures var fits, room := old(used) + |d.bytes| <= old(buf.Length), old(n) < old(meta.Length);
              && stored == old(stored) + (if (granted || fits) && (grantedMeta || room) then [d] else [])
              && buf.Length == (if granted then Room(old(used), old(buf.Length), |d.bytes|) else old(buf.Length))
              && wasted == old(wasted) + (if (granted || fits) && !(grantedMeta || room) then |d.bytes| else 0)
    {
      hide Holds;
      var ok := Reserve(|d.bytes|, granted);
      if ok {
        ok := ReserveMeta(grantedMeta);
        if ok {
          Put(d);
        } else {
          wasted := wasted + |d.bytes|;
        }
      }
    }
  }

  /** The capacity of a buffer with `used` of `cap` bytes taken once cl more have room. */
  function Room(used: nat, cap: nat, cl: nat): nat {
    if used + cl <= cap then cap else Max(2 * cap, used + cl + 4096)
  }

  // ---- whole batches ----

  /** What is left of the dispatched packets, and the capacity of the buffer. */
  datatype Outcome = Outcome(kept: seq<Captured>, cap: nat)

  /** Packet d at a position where growth is refused or not: it is lost exactly when it would need growth
      and growth is refused. */
  function Next(o: Outcome, d: Captured, refused: bool): Outcome {
    var used := |Bytes(o.kept)|;
    if refused && used + |d.bytes| > o.cap then o
    else Outcome(o.kept + [d], Room(used, o.cap, |d.bytes|))
  }

  /** The outcome of dispatching packets when the buffer is refused any growth at the given positions. */
  function Dispatch(pkts: seq<Captured>, refused: set<nat>): Outcome {
    if pkts == [] then Outcome([], INITIAL_CAPACITY)
    else
      var m := |pkts| - 1;
      Next(Dispatch(pkts[..m], refused), pkts[m], m in refused)
  }

  lemma DispatchNext(pkts: seq<Captured>, i: nat, refused: set<nat>)
    requires i < |pkts|
    ensures Dispatch(pkts[..i + 1], refused) == Next(Dispatch(pkts[..i], refused), pkts[i], i in refused)
  {
    assert pkts[..i + 1][..i] == pkts[..i];
  }

  /** The buffer a first packet leaves: as large as at the start if it fits, else twice as large or 4096 bytes
      more than needed, whichever is more, and unchanged when that is refused. */
  lemma FirstGrowth(d: Captured, refused: bool)
    ensures Dispatch([d], if refused then {0} else {}) ==
            if |d.bytes| <= 65536 then Outcome([d], 65536)
            else if refused then Outcome([], 65536)
            else Outcome([d], if |d.bytes| + 4096 <= 131072 then 131072 else |d.bytes| + 4096)
  {
    assert [d][..0] == [];
    assert Bytes([]) == [];
  }

  /** Packet i, behind all packets before it, needs no growth that is refused. */
  predicate FitsAt(pkts: seq<Captured>, refused: set<nat>, i: nat)
    requires i < |pkts|
  {
    i in refused ==> |Bytes(pkts[..i])| + |pkts[i].bytes| <= Dispatch(pkts[..i], refused).cap
  }

  lemma NextKeeps(o: Outcome, before: seq<Captured>, d: Captured, refused: bool)
    requires |o.kept| <= |before|
    ensures |Next(o, d, refused).kept| <= |before| + 1
    ensures Next(o, d, refused).kept == before + [d] <==>
            o.kept == before && (refused ==> |Bytes(before)| + |d.bytes| <= o.cap)
  {
    hide Bytes;
    if o.kept + [d] == before + [d] {
      assert (o.kept + [d])[..|o.kept|] == (before + [d])[..|before|];
    }
  }

  lemma FitsBefore(pkts: seq<Captured>, refused: set<nat>, m: nat, i: nat)
    requires i < m <= |pkts|
    ensures FitsAt(pkts[..m], refused, i) <==> FitsAt(pkts, refused, i)
  {
    assert pkts[..m][..i] == pkts[..i];
  }

  lemma DispatchAll(pkts: seq<Captured>, refused: set<nat>)
    requires pkts != []
    ensures var m := |pkts| - 1;
            var o := Dispatch(pkts[..m], refused);
            && Dispatch(pkts, refused) == Next(o, pkts[m], m in refused)
            && pkts == pkts[..m] + [pkts[m]]
            && (FitsAt(pkts, refused, m) <==> (m in refused ==> |Bytes(pkts[..m])| + |pkts[m].bytes| <= o.cap))
  {
    hide Bytes, Next;
  }

  /** Nothing is lost exactly when every packet whose growth is refused fits in the room there is. */
  lemma {:induction false} NothingLostIff(pkts: seq<Captured>, refused: set<nat>)
    ensures |Dispatch(pkts, refused).kept| <= |pkts|
    ensures Dispatch(pkts, refused).kept == pkts <==> forall i :: 0 <= i < |pkts| ==> FitsAt(pkts, refused, i)
  {
    if pkts == [] {
    } else {
      hide Bytes, Dispatch, Next, FitsAt;
      var m := |pkts| - 1;
      NothingLostIff(pkts[..m], refused);
      DispatchAll(pkts, refused);
      NextKeeps(Dispatch(pkts[..m], refused), pkts[..m], pkts[m], m in refused);
      forall i | 0 <= i < m
        ensures FitsAt(pkts[..m], refused, i) <==> FitsAt(pkts, refused, i)
      {
        FitsBefore(pkts, refused, m, i);
      }
    }
  }

  lemma NoneRefused(pkts: seq<Captured>, refused: set<nat>)
    requires refused == {}
    ensures Dispatch(pkts, refused).kept == pkts
  {
    NothingLostIff(pkts, refused);
  }

  /** next_batch over the packets one dispatch delivers, at most as many as asked for. Whatever growth
      is refused, the capacity is at most max(65536, twice the bytes returned), and reallocation copies
      at most twice those bytes. `refused` holds the positions at which the buffer is refused any growth. */
  method NextBatch(maxN: int, pkts: seq<Captured>, refused: set<nat>)
    returns (bytes: seq<byte>, meta: seq<byte>, ghost capacity: nat, ghost moved: nat)
    requires |pkts| <= (if maxN <= 0 then 256 else maxN)
    ensures bytes == Bytes(Dispatch(pkts, refused).kept)
    ensures meta == Pack(Index(Dispatch(pkts, refused).kept))
    ensures refused == {} ==> bytes == Bytes(pkts) && meta == Pack(Index(pkts))
    ensures capacity == Dispatch(pkts, refused).cap <= Max(INITIAL_CAPACITY, 2 * |bytes|)
    ensures moved <= 2 * |bytes|
  {
    assert Dispatch(pkts[..0], refused) == Outcome([], INITIAL_CAPACITY);
    hide Bytes, Index, Pack, Dispatch, Next, Room, FitsAt;
    var max := if maxN <= 0 then 256 else maxN;
    var b := new BatchContext(max);
    for i := 0 to |pkts|
      invariant b.Valid() && fresh(b) && fresh(b.buf) && fresh(b.meta) && b.meta.Length == max
      invariant Outcome(b.stored, b.buf.Length) == Dispatch(pkts[..i], refused) && |b.stored| <= i && b.wasted == 0
    {
      DispatchNext(pkts, i, refused);
      b.BatchCallBack(pkts[i], i !in refused, false);
    }
    assert pkts[..|pkts|] == pkts;
    if refused == {} {
      NoneRefused(pkts, refused);
    }
    bytes, meta := b.buf[..b.used], Pack(b.meta[..b.n]);
    capacity, moved := b.buf.Length, b.moved;
  }
}
