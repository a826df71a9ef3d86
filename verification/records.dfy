/** The record buffer of loop_to_buffer: layout, greedy fit, and the decoders that walk it. */
module Records {
  import opened Words
  import opened Counting

  /** A captured packet; the capture length is a 32-bit word. */
  type Payload = b: seq<byte> | |b| < 0x1_0000_0000 witness []

  datatype Record = Record(cls: byte, bytes: Payload)

  /** [u32 caplen little-endian][u8 class][caplen bytes] */
  function Encode1(r: Record): (s: seq<byte>)
    ensures |s| == 5 + |r.bytes|
  {
    LeBytes(|r.bytes|, 4) + [r.cls] + r.bytes
  }

  /** Bytes the records take. */
  function Size(rs: seq<Record>): nat {
    if rs == [] then 0 else Size(rs[..|rs| - 1]) + 5 + |rs[|rs| - 1].bytes|
  }

  function Encode(rs: seq<Record>): (s: seq<byte>)
    ensures |s| == Size(rs)
  {
    if rs == [] then [] else Encode(rs[..|rs| - 1]) + Encode1(rs[|rs| - 1])
  }

  /** The records that fit, taking each one whenever the room left is large enough. */
  function Kept(cap: nat, rs: seq<Record>): (ks: seq<Record>)
    ensures |ks| <= |rs|
  {
    if rs == [] then []
    else
      var ks, r := Kept(cap, rs[..|rs| - 1]), rs[|rs| - 1];
      if Size(ks) + 5 + |r.bytes| <= cap then ks + [r] else ks
  }

  lemma EncodeSnoc(rs: seq<Record>, r: Record)
    ensures Encode(rs + [r]) == Encode(rs) + Encode1(r) && Size(rs + [r]) == Size(rs) + 5 + |r.bytes|
  {
    assert (rs + [r])[..|rs|] == rs;
  }

  lemma KeptSnoc(cap: nat, rs: seq<Record>, r: Record)
    ensures Kept(cap, rs + [r]) ==
            if Size(Kept(cap, rs)) + 5 + |r.bytes| <= cap then Kept(cap, rs) + [r] else Kept(cap, rs)
  {
    assert (rs + [r])[..|rs|] == rs;
  }

  lemma {:induction false} KeptFits(cap: nat, rs: seq<Record>)
    ensures Size(Kept(cap, rs)) <= cap
  {
    if rs == [] {
    } else {
      var ks := Kept(cap, rs[..|rs| - 1]);
      KeptFits(cap, rs[..|rs| - 1]);
      EncodeSnoc(ks, rs[|rs| - 1]);
    }
  }

  // ---- writing ----

  /** memcpy into a byte buffer. */
  method CopyInto(buf: array<byte>, off: nat, bytes: seq<byte>)
    requires off + |bytes| <= buf.Length
    modifies buf
    ensures buf[..] == old(buf[..off]) + bytes + old(buf[off + |bytes|..])
  {
    ghost var before := buf[..];
    assert before == before[..off] + bytes[..0] + before[off..];
    for i := 0 to |bytes|
      invariant buf[..] == before[..off] + bytes[..i] + before[off + i..]
    {
      CopyStep(before, off, bytes, i);
      ghost var current := buf[..];
      buf[off + i] := bytes[i];
      assert buf[..] == current[off + i := bytes[i]];
    }
    assert bytes[..|bytes|] == bytes;
  }

  lemma CopyStep(before: seq<byte>, off: nat, bytes: seq<byte>, i: nat)
    requires off + |bytes| <= |before| && i < |bytes|
    ensures (before[..off] + bytes[..i] + before[off + i..])[off + i := bytes[i]]
         == before[..off] + bytes[..i + 1] + before[off + i + 1..]
  {
  }

  // ---- decoding ----

  /** A Python slice: bounds beyond the end are clamped. */
  function Slice(s: seq<byte>, lo: nat, hi: nat): seq<byte> {
    if lo <= hi <= |s| then s[lo..hi] else if lo <= |s| && lo <= hi then s[lo..] else []
  }

  /** The (class, bytes) pairs read and the position behind them; None for an index error. */
  type Decoded = Option<(seq<(byte, seq<byte>)>, nat)>

  /** The length walk: n records from off on, or None where an index is out of range. */
  function Walk(buf: seq<byte>, off: nat, n: nat): Decoded
    decreases n
  {
    if n == 0 then Some(([], off))
    else if off + 5 > |buf| then None
    else
      var length := Le32At(buf, off);
      match Walk(buf, off + 5 + length, n - 1)
      case None => None
      case Some((rest, end)) => Some(([(buf[off + 4], Slice(buf, off + 5, off + 5 + length))] + rest, end))
  }

  function Pairs(rs: seq<Record>): (ps: seq<(byte, seq<byte>)>)
    ensures |ps| == |rs|
  {
    seq(|rs|, i requires 0 <= i < |rs| => (rs[i].cls, rs[i].bytes))
  }

  ghost predicate StartsWith(buf: seq<byte>, rs: seq<Record>) { Encode(rs) <= buf }

  lemma {:induction false} EncodePrefix(rs: seq<Record>, i: nat)
    requires i <= |rs|
    ensures Encode(rs[..i]) <= Encode(rs)
    decreases |rs|
  {
    if i < |rs| {
      EncodePrefix(rs[..|rs| - 1], i);
      assert rs[..|rs| - 1][..i] == rs[..i];
    } else {
      assert rs[..i] == rs;
    }
  }

  ghost predicate LiesAt(buf: seq<byte>, off: nat, r: Record) {
    && off + 5 + |r.bytes| <= |buf|
    && Le32At(buf, off) == |r.bytes| && buf[off + 4] == r.cls && buf[off + 5..off + 5 + |r.bytes|] == r.bytes
  }

  lemma FieldsOf(s: seq<byte>, r: Record)
    requires s == Encode1(r)
    ensures Le32At(s, 0) == |r.bytes| && s[4] == r.cls && s[5..] == r.bytes
  {
    LeBytesOf32(|r.bytes|);
    assert s[..4] == LeBytes(|r.bytes|, 4) && Le32At(s, 0) == Le32At(s[..4], 0);
  }

  /** Record i of an encoded sequence lies right after the encoding of the records before it: four length
      bytes, least significant first, one class byte, and the packet. */
  lemma RecordAt(buf: seq<byte>, rs: seq<Record>, i: nat)
    requires StartsWith(buf, rs) && i < |rs|
    ensures LiesAt(buf, Size(rs[..i]), rs[i]) && Size(rs[..i + 1]) == Size(rs[..i]) + 5 + |rs[i].bytes| <= Size(rs)
    ensures Size([]) == 0
    ensures var off, r := Size(rs[..i]), rs[i];
            && off + 5 + |r.bytes| <= |buf|
            && buf[off] as int + 0x100 * buf[off + 1] as int + 0x1_0000 * buf[off + 2] as int + 0x100_0000 * buf[off + 3] as int
               == |r.bytes|
            && buf[off + 4] == r.cls && buf[off + 5..off + 5 + |r.bytes|] == r.bytes
  {
    assert rs[..i + 1] == rs[..i] + [rs[i]];
    EncodeSnoc(rs[..i], rs[i]);
    EncodePrefix(rs, i + 1);
    PieceLiesAt(buf, Encode(rs[..i]), rs[i]);
  }

  lemma PieceLiesAt(buf: seq<byte>, before: seq<byte>, r: Record)
    requires before + Encode1(r) <= buf
    ensures LiesAt(buf, |before|, r)
  {
    hide LeBytes;
    var off, e := |before|, Encode1(r);
    var s := buf[off..off + |e|];
    assert s == (before + e)[off..] == e;
    FieldsOf(s, r);
    assert s[5..] == buf[off + 5..off + |e|];
    assert Le32At(s, 0) == Le32At(buf, off);
  }

  ghost function OffsetsOf(rs: seq<Record>): (offs: seq<nat>)
    ensures |offs| == |rs| + 1
    ensures forall i :: 0 <= i <= |rs| ==> offs[i] == Size(rs[..i])
  {
    seq(|rs| + 1, i requires 0 <= i <= |rs| => Size(rs[..i]))
  }

  ghost predicate SlotAt(buf: seq<byte>, rs: seq<Record>, offs: seq<nat>, i: nat)
    requires i < |rs| && |offs| == |rs| + 1
  {
    LiesAt(buf, offs[i], rs[i]) && offs[i + 1] == offs[i] + 5 + |rs[i].bytes|
  }

  /** The records lie one after the other at the given boundaries. */
  ghost predicate LaidOut(buf: seq<byte>, rs: seq<Record>, offs: seq<nat>) {
    && |offs| == |rs| + 1 && offs[0] == 0
    && forall i :: 0 <= i < |rs| ==> SlotAt(buf, rs, offs, i)
  }

  lemma EncodedIsLaidOut(buf: seq<byte>, rs: seq<Record>)
    requires StartsWith(buf, rs)
    ensures LaidOut(buf, rs, OffsetsOf(rs)) && OffsetsOf(rs)[|rs|] == Size(rs)
  {
    var offs := OffsetsOf(rs);
    assert rs[..0] == [] && rs[..|rs|] == rs;
    forall i | 0 <= i < |rs|
      ensures SlotAt(buf, rs, offs, i)
    {
      RecordAt(buf, rs, i);
      assert offs[i + 1] == Size(rs[..i + 1]);
    }
  }

  lemma WalkStep(buf: seq<byte>, off: nat, n: nat, r: Record, rest: seq<(byte, seq<byte>)>, end: nat)
    requires n > 0 && LiesAt(buf, off, r) && Walk(buf, off + 5 + |r.bytes|, n - 1) == Some((rest, end))
    ensures Walk(buf, off, n) == Some(([(r.cls, r.bytes)] + rest, end))
  {
  }

  lemma {:induction false} WalkFrom(buf: seq<byte>, rs: seq<Record>, offs: seq<nat>, i: nat)
    requires LaidOut(buf, rs, offs) && i <= |rs|
    ensures Walk(buf, offs[i], |rs| - i) == Some((Pairs(rs)[i..], offs[|rs|]))
    decreases |rs| - i
  {
    if i < |rs| {
      WalkFrom(buf, rs, offs, i + 1);
      assert SlotAt(buf, rs, offs, i);
      WalkStep(buf, offs[i], |rs| - i, rs[i], Pairs(rs)[i + 1..], offs[|rs|]);
      assert Pairs(rs)[i..] == [(rs[i].cls, rs[i].bytes)] + Pairs(rs)[i + 1..];
    } else {
      assert Pairs(rs)[i..] == [];
    }
  }

  /** Decoding an encoded buffer yields the records, in order, and ends where they end, whatever
      bytes follow. */
  lemma WalkDecodes(buf: seq<byte>, rs: seq<Record>)
    requires StartsWith(buf, rs)
    ensures Walk(buf, 0, |rs|) == Some((Pairs(rs), Size(rs)))
  {
    EncodedIsLaidOut(buf, rs);
    WalkFrom(buf, rs, OffsetsOf(rs), 0);
  }

  /** The items read so far in front of what a walk of the rest yields. */
  function Behind(items: seq<(byte, seq<byte>)>, walk: Decoded): Decoded {
    match walk
    case None => None
    case Some((rest, end)) => Some((items + rest, end))
  }

  lemma BehindStep(items: seq<(byte, seq<byte>)>, buf: seq<byte>, off: nat, n: nat)
    requires n > 0
    ensures off + 5 > |buf| ==> Behind(items, Walk(buf, off, n)) == None
    ensures off + 5 <= |buf| ==>
              var length := Le32At(buf, off);
              var item := (buf[off + 4], Slice(buf, off + 5, off + 5 + length));
              Behind(items, Walk(buf, off, n)) == Behind(items + [item], Walk(buf, off + 5 + length, n - 1))
  {
    hide Slice;
    if off + 5 <= |buf| {
      var walk := Walk(buf, off + 5 + Le32At(buf, off), n - 1);
      var item := (buf[off + 4], Slice(buf, off + 5, off + 5 + Le32At(buf, off)));
      if walk.Some? {
        assert items + ([item] + walk.value.0) == (items + [item]) + walk.value.0;
      }
    }
  }

  lemma BehindNothing(items: seq<(byte, seq<byte>)>, buf: seq<byte>, off: nat, n: nat)
    ensures Behind([], Walk(buf, off, n)) == Walk(buf, off, n) && Behind(items, Walk(buf, off, 0)) == Some((items, off))
  {
    if Walk(buf, off, n).Some? {
      assert [] + Walk(buf, off, n).value.0 == Walk(buf, off, n).value.0;
    }
    assert items + [] == items;
  }

  /** The decoder of the test suite. */
  method Decode(buf: seq<byte>, n: nat) returns (out: Decoded)
    ensures out == Walk(buf, 0, n)
  {
    hide Walk, Behind, Slice;
    var items: seq<(byte, seq<byte>)>, off: nat := [], 0;
    BehindNothing(items, buf, 0, n);
    for i := 0 to n
      invariant Walk(buf, 0, n) == Behind(items, Walk(buf, off, n - i))
    {
      BehindStep(items, buf, off, n - i);
      if off + 5 > |buf| {
        return None;
      }
      var length := Le32At(buf, off);
      items := items + [(buf[off + 4], Slice(buf, off + 5, off + 5 + length))];
      off := off + 5 + length;
    }
    BehindNothing(items, buf, off, 0);
    return Some((items, off));
  }

  // ---- workers ----

  /** The record head every decoder reads. */
  method ReadHead(buf: seq<byte>, off: nat, ghost r: Record) returns (length: nat, cls: byte)
    requires LiesAt(buf, off, r)
    ensures length == |r.bytes| && cls == r.cls
  {
    length, cls := Le32At(buf, off), buf[off + 4];
  }

  /** The record boundaries of a filled buffer. */
  method SlotOffsets(buf: seq<byte>, written: nat, ghost rs: seq<Record>) returns (offs: seq<nat>)
    requires StartsWith(buf, rs) && written == |rs|
    ensures offs == OffsetsOf(rs)
  {
    var off: nat := 0;
    offs := [];
    ghost var all := OffsetsOf(rs);
    EncodedIsLaidOut(buf, rs);
    for i := 0 to written
      invariant off == all[i] && offs == all[..i]
    {
      assert SlotAt(buf, rs, all, i);
      var length, _ := ReadHead(buf, off, rs[i]);
      offs := offs + [off];
      off := off + 5 + length;
    }
    offs := offs + [off];
  }

  ghost function ClassesOf(rs: seq<Record>): (cs: seq<byte>)
    ensures |cs| == |rs|
  {
    seq(|rs|, i requires 0 <= i < |rs| => rs[i].cls)
  }

  function CountIn(counts: map<byte, nat>, c: byte): nat { if c in counts then counts[c] else 0 }

  function Bump(counts: map<byte, nat>, cls: byte): (r: map<byte, nat>)
    ensures forall c: byte :: CountIn(r, c) == CountIn(counts, c) + if c == cls then 1 else 0
  {
    counts[cls := CountIn(counts, cls) + 1]
  }

  lemma TallyStep(rs: seq<Record>, lo: nat, i: nat)
    requires lo <= i < |rs|
    ensures forall c: byte ::
              Occ(ClassesOf(rs[lo..i + 1]), c) == Occ(ClassesOf(rs[lo..i]), c) + if c == rs[i].cls then 1 else 0
  {
    assert ClassesOf(rs[lo..i + 1]) == ClassesOf(rs[lo..i]) + [rs[i].cls];
    forall c: byte
      ensures Occ(ClassesOf(rs[lo..i + 1]), c) == Occ(ClassesOf(rs[lo..i]), c) + if c == rs[i].cls then 1 else 0
    {
      OccSnoc(ClassesOf(rs[lo..i]), rs[i].cls, c);
    }
  }

  lemma TallySplit(rs: seq<Record>, a: nat, b: nat)
    requires a <= b <= |rs|
    ensures forall c: byte ::
              Occ(ClassesOf(rs[..b]), c) == Occ(ClassesOf(rs[..a]), c) + Occ(ClassesOf(rs[a..b]), c)
  {
    assert ClassesOf(rs[..b]) == ClassesOf(rs[..a]) + ClassesOf(rs[a..b]);
    forall c: byte
      ensures Occ(ClassesOf(rs[..b]), c) == Occ(ClassesOf(rs[..a]), c) + Occ(ClassesOf(rs[a..b]), c)
    {
      OccConcat(ClassesOf(rs[..a]), ClassesOf(rs[a..b]), c);
    }
  }

  /** One worker: the per-class tally of the records between two boundaries. */
  method Consume(buf: seq<byte>, start: nat, end: nat, ghost rs: seq<Record>, ghost offs: seq<nat>, ghost lo: nat, ghost hi: nat)
    returns (counts: map<byte, nat>)
    requires LaidOut(buf, rs, offs) && lo <= hi <= |rs| && start == offs[lo] && end == offs[hi]
    ensures forall c: byte :: CountIn(counts, c) == Occ(ClassesOf(rs[lo..hi]), c)
  {
    var off: nat := start;
    counts := map[];
    ghost var i := lo;
    BoundariesIncrease(buf, rs, offs, lo, hi);
    while off < end
      invariant lo <= i <= hi && off == offs[i]
      invariant forall c: byte :: CountIn(counts, c) == Occ(ClassesOf(rs[lo..i]), c)
      decreases end - off
    {
      assert SlotAt(buf, rs, offs, i);
      var length, cls := ReadHead(buf, off, rs[i]);
      TallyStep(rs, lo, i);
      counts := Bump(counts, cls);
      off := off + 5 + length;
      i := i + 1;
    }
    BoundariesIncrease(buf, rs, offs, i, hi);
  }

  lemma {:induction false} BoundariesIncrease(buf: seq<byte>, rs: seq<Record>, offs: seq<nat>, lo: nat, hi: nat)
    requires LaidOut(buf, rs, offs) && lo <= hi <= |rs|
    ensures offs[lo] <= offs[hi] && (lo < hi ==> offs[lo] < offs[hi])
    decreases hi - lo
  {
    if lo == hi {
    } else {
      BoundariesIncrease(buf, rs, offs, lo, hi - 1);
      assert SlotAt(buf, rs, offs, hi - 1);
    }
  }

  lemma ShareIsMonotone(written: nat, k: nat, workers: nat)
    requires k < workers
    ensures 0 <= written * k / workers <= written * (k + 1) / workers <= written
  {
    MulMonotone(k, k + 1, written);
    MulMonotone(k + 1, workers, written);
    DivMonotone(written * k, written * (k + 1), workers);
    DivMonotone(written * (k + 1), written * workers, workers);
    DivModUnique(written * workers, workers, written, 0);
  }

  lemma ShareAtEnds(written: nat, workers: nat)
    requires workers > 0
    ensures written * 0 / workers == 0 && written * workers / workers == written
  {
    DivModUnique(written * 0, workers, 0, 0);
    DivModUnique(written * workers, workers, written, 0);
  }

  /** The buffer split evenly over the workers: together they tally every record exactly once. */
  method SplitOverWorkers(buf: seq<byte>, written: nat, workers: nat, ghost rs: seq<Record>) returns (totals: map<byte, nat>)
    requires StartsWith(buf, rs) && written == |rs| && workers > 0
    ensures forall c: byte :: CountIn(totals, c) == Occ(ClassesOf(rs), c)
  {
    var offs := SlotOffsets(buf, written, rs);
    EncodedIsLaidOut(buf, rs);
    totals := map[];
    ShareAtEnds(written, workers);
    for k := 0 to workers
      invariant 0 <= written * k / workers <= written
      invariant forall c: byte :: CountIn(totals, c) == Occ(ClassesOf(rs[..written * k / workers]), c)
    {
      ShareIsMonotone(written, k, workers);
      var a, b := written * k / workers, written * (k + 1) / workers;
      var counts := Consume(buf, offs[a], offs[b], rs, offs, a, b);
      var before := totals;
      totals := map c | c in before.Keys + counts.Keys :: CountIn(before, c) + CountIn(counts, c);
      TallySplit(rs, a, b);
    }
    assert rs[..written] == rs;
  }

  // ---- what a full buffer keeps ----

  /** A buffer with room for everything keeps everything. */
  lemma {:induction false} KeptAll(cap: nat, rs: seq<Record>)
    ensures Kept(cap, rs) == rs <==> Size(rs) <= cap
  {
    KeptFits(cap, rs);
    if rs == [] {
    } else {
      KeptAll(cap, rs[..|rs| - 1]);
      assert rs == rs[..|rs| - 1] + [rs[|rs| - 1]];
    }
  }

  /** Every record after the first m is larger than the room the first m leave. */
  ghost predicate NothingFitsAfter(cap: nat, rs: seq<Record>, m: nat)
    requires m <= |rs|
  {
    forall i :: m <= i < |rs| ==> Size(rs[..m]) + 5 + |rs[i].bytes| > cap
  }

  lemma {:induction false} KeptStops(cap: nat, rs: seq<Record>, m: nat)
    requires m <= |rs| && Size(rs[..m]) <= cap && NothingFitsAfter(cap, rs, m)
    ensures Kept(cap, rs) == rs[..m]
    decreases |rs|
  {
    if m == |rs| {
      KeptAll(cap, rs);
      assert rs[..m] == rs;
    } else {
      var prev := rs[..|rs| - 1];
      assert prev[..m] == rs[..m];
      KeptStops(cap, prev, m);
    }
  }

  lemma {:induction false} KeptLength(cap: nat, rs: seq<Record>, m: nat)
    requires m <= |rs| && Kept(cap, rs) == rs[..m]
    ensures Size(rs[..m]) <= cap && NothingFitsAfter(cap, rs, m)
    decreases |rs|
  {
    KeptFits(cap, rs);
    if m == |rs| {
    } else {
      var prev, last := rs[..|rs| - 1], rs[|rs| - 1];
      KeptTail(cap, rs, m);
      KeptLength(cap, prev, m);
      assert prev[..m] == rs[..m];
      forall i | m <= i < |rs|
        ensures Size(rs[..m]) + 5 + |rs[i].bytes| > cap
      {
        if i < |rs| - 1 {
          assert rs[i] == prev[i];
        }
      }
    }
  }

  /** The last record is only kept as the last element, so a shorter kept prefix did not keep it. */
  lemma {:induction false} KeptTail(cap: nat, rs: seq<Record>, m: nat)
    requires m < |rs| && Kept(cap, rs) == rs[..m]
    ensures Kept(cap, rs[..|rs| - 1]) == rs[..m]
    decreases |rs|, 0
  {
    var prev, last := rs[..|rs| - 1], rs[|rs| - 1];
    var ks := Kept(cap, prev);
    if Size(ks) + 5 + |last.bytes| <= cap {
      assert ks + [last] == rs[..m];
      assert ks == rs[..m - 1] && prev[..m - 1] == rs[..m - 1];
      SkippedIsLarger(cap, prev, m - 1);
    }
  }

  /** The first record that was not kept did not fit. */
  lemma {:induction false} SkippedIsLarger(cap: nat, rs: seq<Record>, m: nat)
    requires m < |rs| && Kept(cap, rs) == rs[..m]
    ensures Size(rs[..m]) + 5 + |rs[m].bytes| > cap
    decreases |rs|, 1
  {
    if |rs| > m + 1 {
      KeptTail(cap, rs, m);
      assert rs[..|rs| - 1][..m] == rs[..m];
      SkippedIsLarger(cap, rs[..|rs| - 1], m);
    } else {
      var prev := rs[..|rs| - 1];
      assert prev == rs[..m];
      KeptAll(cap, prev);
    }
  }

  /** Writing stops for good at the first record that does not fit exactly when every later record
      is too large for the room left at that point; it is not a property of the code. */
  lemma WritingStopsIff(cap: nat, rs: seq<Record>, m: nat)
    requires m <= |rs|
    ensures Kept(cap, rs) == rs[..m] <==> Size(rs[..m]) <= cap && NothingFitsAfter(cap, rs, m)
  {
    if Kept(cap, rs) == rs[..m] {
      KeptLength(cap, rs, m);
    } else if Size(rs[..m]) <= cap && NothingFitsAfter(cap, rs, m) {
      KeptStops(cap, rs, m);
    }
  }

  /** A packet that overflows does not stop a later, smaller one from being written. */
  lemma LaterSmallerRecordIsWritten(small: Record, large: Record)
    requires |small.bytes| < |large.bytes|
    ensures Kept(5 + |small.bytes|, [large, small]) == [small]
  {
    var cap := 5 + |small.bytes|;
    assert Kept(cap, []) == [];
    KeptSnoc(cap, [], large);
    assert [] + [large] == [large] && [large] + [small] == [large, small];
    KeptSnoc(cap, [large], small);
  }
}
