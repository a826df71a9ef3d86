/** The probe-count analysis of the address table, for the old and the current index. */
module ProbeAnalysis {
  import opened Words
  import opened Counting
  import opened SlotTable
  import opened SlotIndex
  import AddressSet

  datatype Index = Old | New

  function WordList(ips: seq<u32>): (ws: seq<u32>)
    ensures |ws| == |ips|
  {
    seq(|ips|, i requires 0 <= i < |ips| => ToWord(ips[i]))
  }

  function IndexOf(ix: Index, v: u32, mask: nat, bits: nat): nat
    requires bits <= 32
  {
    match ix
    case Old => OldSlot(mask, v)
    case New => Slot(32 - bits, v)
  }

  function HomeOf(ix: Index, bits: nat): Home
    requires bits <= 32
  {
    match ix
    case Old => LowBits(bits)
    case New => HighBits(bits)
  }

  /** Probes a lookup of the key in slot j needs. */
  ghost function Depth(slots: seq<u32>, home: Home, j: nat): nat
    requires j < |slots| && home(slots[j]) < |slots|
  {
    Dist(|slots|, home(slots[j]), j) + 1
  }

  /** worst is the largest number of probes any stored key needs, and 0 for an empty table. */
  ghost predicate Worst(slots: seq<u32>, home: Home, worst: nat) {
    && InRange(|slots|, home)
    && (forall j :: 0 <= j < |slots| && slots[j] != 0 ==> Depth(slots, home, j) <= worst)
    && (worst != 0 ==> exists j :: 0 <= j < |slots| && slots[j] != 0 && Depth(slots, home, j) == worst)
  }

  lemma EmptyTableNeedsNoProbe(cap: nat, home: Home)
    requires InRange(cap, home)
    ensures Worst(seq(cap, _ => 0), home, 0)
  {
  }

  /** Keys never move, so the probes of an insertion are the probes of every later lookup. */
  lemma WorstAfterInsert(slots: seq<u32>, home: Home, w: u32, j: nat, worst: nat)
    requires Worst(slots, home, worst) && w != 0 && j < |slots| && (slots[j] == 0 || slots[j] == w)
    ensures Worst(slots[j := w], home, Max(worst, Dist(|slots|, home(w), j) + 1))
  {
    var s, d := slots[j := w], Dist(|slots|, home(w), j) + 1;
    assert Depth(s, home, j) == d;
    forall i | 0 <= i < |s| && s[i] != 0
      ensures Depth(s, home, i) <= Max(worst, d)
    {
      if i != j {
        assert Depth(s, home, i) == Depth(slots, home, i);
      }
    }
    if d < worst {
      var i :| 0 <= i < |slots| && slots[i] != 0 && Depth(slots, home, i) == worst;
      assert s[i] == slots[i];
      assert Depth(s, home, i) == worst;
    }
  }

  /** Size of the table built for n addresses: more than twice as many slots, up to 2^31 of them. */
  method Grow(n: nat) returns (cap: nat, bits: nat)
    ensures bits == GrowBits(n, 4) && cap == Pow2(bits) && 4 <= bits <= 31
    ensures if n < 0x4000_0000 then 2 * n < cap else cap == 0x8000_0000
  {
    cap, bits := 16, 4;
    while cap < n * 2 + 1 && bits < 31
      invariant 4 <= bits <= 31 && cap == Pow2(bits)
      invariant GrowBits(n, 4) == GrowBits(n, bits)
      decreases 31 - bits
    {
      cap, bits := 2 * cap, bits + 1;
    }
    GrowBitsFits(n, bits);
  }

  /** The search for v stops at slot j, with p probes counting the one that stops it. */
  ghost predicate StopsAt(slots: seq<u32>, home: Home, v: u32, j: nat, p: nat) {
    && InRange(|slots|, home) && j < |slots| && (slots[j] == 0 || slots[j] == v)
    && Probed(slots, home, v, j) && p == Dist(|slots|, home(v), j) + 1
  }

  /** A lookup of v takes p probes. */
  ghost predicate Takes(slots: seq<u32>, home: Home, v: u32, p: nat) {
    exists j :: StopsAt(slots, home, v, j, p)
  }

  /** One probing walk: stops at v or at an empty slot after p probes. */
  method Walk(slots: array<u32>, ix: Index, mask: nat, bits: nat, v: u32) returns (j: nat, p: nat)
    requires bits <= 32 && slots.Length == Pow2(bits) == mask + 1
    requires Sound(slots[..], HomeOf(ix, bits)) && |SlotTable.Members(slots[..])| < slots.Length
    ensures StopsAt(slots[..], HomeOf(ix, bits), v, j, p)
  {
    hide Sound, Probed, Slot, OldSlot;
    ghost var view, home := slots[..], HomeOf(ix, bits);
    ghost var e := SearchStarts(view, home, v);
    j, p := IndexOf(ix, v, mask, bits), 1;
    while slots[j] != 0 && slots[j] != v
      invariant j < |view| == slots.Length && view == slots[..] && Searching(view, home, v, j, e)
      invariant p == Dist(|view|, home(v), j) + 1
      decreases Dist(|view|, j, e)
    {
      MaskedStep(bits, j);
      ProbeStep(view, home, v, j, e);
      j := And(j + 1, mask);
      p := p + 1;
    }
  }

  /** One round of the build loop for a non-zero word. */
  method InsertWord(slots: array<u32>, ix: Index, mask: nat, bits: nat, v: u32, worst: nat) returns (worst': nat)
    requires bits <= 32 && slots.Length == Pow2(bits) == mask + 1 && v != 0
    requires Sound(slots[..], HomeOf(ix, bits)) && |SlotTable.Members(slots[..])| < slots.Length
    requires Worst(slots[..], HomeOf(ix, bits), worst)
    modifies slots
    ensures Sound(slots[..], HomeOf(ix, bits)) && Worst(slots[..], HomeOf(ix, bits), worst')
    ensures SlotTable.Members(slots[..]) == old(SlotTable.Members(slots[..])) + {v}
  {
    ghost var view, home := slots[..], HomeOf(ix, bits);
    var j, p := Walk(slots, ix, mask, bits, v);
    PlaceKeepsSound(view, home, v, j);
    WorstAfterInsert(view, home, v, j, worst);
    slots[j] := v;
    assert slots[..] == view[j := v];
    worst' := Max(worst, p);
  }

  /** The table of a list of addresses. With 2^31 different ones the last insertion would fill the
      table, and the next search for anything else would not end. */
  method BuildTable(ips: seq<u32>, ix: Index) returns (slots: array<u32>, mask: nat, bits: nat, worst: nat)
    requires |AddressSet.NonZero(WordList(ips))| < 0x8000_0000
    ensures fresh(slots) && bits == GrowBits(|ips|, 4) <= 31 && slots.Length == Pow2(bits) == mask + 1
    ensures Sound(slots[..], HomeOf(ix, bits))
    ensures SlotTable.Members(slots[..]) == AddressSet.NonZero(WordList(ips))
    ensures |SlotTable.Members(slots[..])| < slots.Length
    ensures |ips| < 0x4000_0000 ==> 2 * |SlotTable.Members(slots[..])| < slots.Length
    ensures Worst(slots[..], HomeOf(ix, bits), worst)
  {
    hide Sound, Worst, SlotTable.Members, InRange, ToWord, GrowBits, HighBits, LowBits;
    var cap;
    cap, bits := Grow(|ips|);
    slots := new u32[cap](_ => 0);
    mask, worst := cap - 1, 0;
    ghost var words, home := WordList(ips), HomeOf(ix, bits);
    AddressSet.NonZeroSize(words);
    HomesInRange(bits);
    EmptyTableIsSound(cap, home);
    EmptyTableNeedsNoProbe(cap, home);
    assert slots[..] == seq(cap, _ => 0);
    for i := 0 to |ips|
      invariant Sound(slots[..], home) && Worst(slots[..], home, worst)
      invariant SlotTable.Members(slots[..]) == AddressSet.NonZero(words[..i])
    {
      var v := ToWord(ips[i]);
      assert v == words[i];
      AddressSet.NonZeroGrows(words, i);
      SubsetSize(AddressSet.NonZero(words[..i]), AddressSet.NonZero(words));
      if v != 0 {
        worst := InsertWord(slots, ix, mask, bits, v, worst);
      }
    }
    assert words[..|ips|] == words;
  }

  /** Probes per lookup: up to the key for a member, up to the first empty slot otherwise. */
  method ProbeCounts(slots: array<u32>, mask: nat, bits: nat, ix: Index, keys: seq<u32>) returns (counts: seq<nat>)
    requires bits <= 32 && slots.Length == Pow2(bits) == mask + 1
    requires Sound(slots[..], HomeOf(ix, bits)) && |SlotTable.Members(slots[..])| < slots.Length
    ensures |counts| == |keys|
    ensures forall i :: 0 <= i < |keys| ==> Takes(slots[..], HomeOf(ix, bits), ToWord(keys[i]), counts[i])
  {
    hide ToWord, StopsAt;
    counts := [];
    for i := 0 to |keys|
      invariant |counts| == i
      invariant forall k :: 0 <= k < i ==> Takes(slots[..], HomeOf(ix, bits), ToWord(keys[k]), counts[k])
    {
      var v := ToWord(keys[i]);
      var s, p := Walk(slots, ix, mask, bits, v);
      assert Takes(slots[..], HomeOf(ix, bits), v, p);
      counts := counts + [p];
    }
  }

  /** The number of probes is determined, and for a stored key it is the key's depth; the slot
      where the lookup stops holds the key exactly when the key is a member. */
  lemma StopIsDepth(slots: seq<u32>, home: Home, v: u32, j: nat, p: nat)
    requires Sound(slots, home) && v != 0 && StopsAt(slots, home, v, j, p)
    ensures slots[j] == v <==> v in SlotTable.Members(slots)
    ensures slots[j] == v ==> p == Depth(slots, home, j)
    ensures forall q :: Takes(slots, home, v, q) ==> q == p
  {
    StopDecidesMembership(slots, home, v, j);
    forall i, q | StopsAt(slots, home, v, i, q)
      ensures i == j
    {
      assert i == j || Between(home(v), i, j) || Between(home(v), j, i);
    }
  }

  // ---- the reported statistics ----

  function Insert(xs: seq<nat>, x: nat): seq<nat> {
    if xs == [] || xs[|xs| - 1] <= x then xs + [x] else Insert(xs[..|xs| - 1], x) + [xs[|xs| - 1]]
  }

  /** list.sort */
  function Sorted(xs: seq<nat>): seq<nat> {
    if xs == [] then [] else Insert(Sorted(xs[..|xs| - 1]), xs[|xs| - 1])
  }

  predicate Ascending(xs: seq<nat>) { forall i, j :: 0 <= i <= j < |xs| ==> xs[i] <= xs[j] }

  lemma {:induction false} InsertKeeps(xs: seq<nat>, x: nat)
    ensures multiset(Insert(xs, x)) == multiset(xs) + multiset{x}
  {
    if xs == [] || xs[|xs| - 1] <= x {
    } else {
      InsertKeeps(xs[..|xs| - 1], x);
      assert xs == xs[..|xs| - 1] + [xs[|xs| - 1]];
    }
  }

  lemma {:induction false} InsertSorts(xs: seq<nat>, x: nat)
    requires Ascending(xs)
    ensures Ascending(Insert(xs, x))
  {
    if xs == [] || xs[|xs| - 1] <= x {
    } else {
      var init, last := xs[..|xs| - 1], xs[|xs| - 1];
      InsertSorts(init, x);
      forall y | y in Insert(init, x)
        ensures y <= last
      {
        InsertKeeps(init, x);
        assert y in multiset(Insert(init, x));
      }
      AscendingSnoc(Insert(init, x), last);
    }
  }

  lemma AscendingSnoc(xs: seq<nat>, x: nat)
    requires Ascending(xs) && forall y :: y in xs ==> y <= x
    ensures Ascending(xs + [x])
  {
    forall i, j | 0 <= i <= j < |xs + [x]|
      ensures (xs + [x])[i] <= (xs + [x])[j]
    {
      if i < |xs| {
        assert xs[i] in xs;
      }
    }
  }

  lemma {:induction false} SortSorts(xs: seq<nat>)
    ensures Ascending(Sorted(xs)) && multiset(Sorted(xs)) == multiset(xs)
  {
    if xs == [] {
    } else {
      SortSorts(xs[..|xs| - 1]);
      InsertSorts(Sorted(xs[..|xs| - 1]), xs[|xs| - 1]);
      InsertKeeps(Sorted(xs[..|xs| - 1]), xs[|xs| - 1]);
      assert xs == xs[..|xs| - 1] + [xs[|xs| - 1]];
    }
  }

  datatype Stats = Stats(mean: real, median: nat, max: nat)

  ghost predicate IsMean(counts: seq<nat>, x: real) {
    x * (|counts| as real) == Sum(counts) as real
  }

  function Mean(counts: seq<nat>): (x: real)
    requires counts != []
    ensures IsMean(counts, x)
  {
    Sum(counts) as real / |counts| as real
  }

  ghost predicate IsMedian(counts: seq<nat>, x: nat) {
    exists order: seq<nat> ::
      Ascending(order) && multiset(order) == multiset(counts) && |order| > 0 && x == order[|order| / 2]
  }

  /** The statistics of non-empty counts: the middle one of the counts in ascending order, and one
      that none exceeds. */
  ghost predicate Describe(counts: seq<nat>, stats: Stats) {
    && IsMean(counts, stats.mean) && IsMedian(counts, stats.median)
    && stats.max in counts && forall c :: c in counts ==> c <= stats.max
  }

  /** The statistics are those of the probe counts of the keys. */
  ghost predicate Summarise(slots: seq<u32>, home: Home, keys: seq<u32>, stats: Stats) {
    exists counts: seq<nat> :: CountsOf(slots, home, keys, counts) && Describe(counts, stats)
  }

  ghost predicate CountsOf(slots: seq<u32>, home: Home, keys: seq<u32>, counts: seq<nat>) {
    |counts| == |keys| && forall i :: 0 <= i < |keys| ==> Takes(slots, home, ToWord(keys[i]), counts[i])
  }

  /** probe_stats without its percentile; no statistics of no keys. */
  method ProbeStats(slots: array<u32>, mask: nat, bits: nat, ix: Index, keys: seq<u32>) returns (stats: Option<Stats>)
    requires bits <= 32 && slots.Length == Pow2(bits) == mask + 1
    requires Sound(slots[..], HomeOf(ix, bits)) && |SlotTable.Members(slots[..])| < slots.Length
    ensures if keys == [] then stats == None
            else stats.Some? && Summarise(slots[..], HomeOf(ix, bits), keys, stats.value)
  {
    var cs := ProbeCounts(slots, mask, bits, ix, keys);
    assert CountsOf(slots[..], HomeOf(ix, bits), keys, cs);
    if keys == [] {
      return None;
    }
    hide CountsOf, HomeOf, Describe, Sorted, Mean;
    SortDescribes(cs);
    var order, n := Sorted(cs), |cs|;
    stats := Some(Stats(Mean(cs), order[n / 2], order[n - 1]));
  }

  lemma SortDescribes(cs: seq<nat>)
    requires cs != []
    ensures var order := Sorted(cs);
            |order| == |cs| && Describe(cs, Stats(Mean(cs), order[|cs| / 2], order[|cs| - 1]))
  {
    hide Sorted, Mean, IsMean, IsMedian;
    SortSorts(cs);
    SameMembers(Sorted(cs), cs);
    MiddleIsMedian(Sorted(cs), cs);
    LastIsLargest(Sorted(cs));
  }

  lemma MiddleIsMedian(order: seq<nat>, cs: seq<nat>)
    requires Ascending(order) && multiset(order) == multiset(cs) && order != []
    ensures IsMedian(cs, order[|order| / 2])
  {
  }

  /** Of two counts the median is the larger one, as it is the element at half the length of the sorted list. */
  lemma MedianOfTwo(a: nat, b: nat, x: nat)
    requires a <= b
    ensures IsMedian([a, b], x) <==> x == b
  {
    assert Ascending([a, b]) && [a, b][|[a, b]| / 2] == b;
    if IsMedian([a, b], x) {
      var order: seq<nat> :| Ascending(order) && multiset(order) == multiset([a, b]) && |order| > 0 && x == order[|order| / 2];
      SameMembers(order, [a, b]);
      assert order == [order[0], order[1]];
      assert multiset(order)[a] == multiset([a, b])[a];
      assert b in order && order[0] <= order[1];
    }
  }

  lemma LastIsLargest(order: seq<nat>)
    requires Ascending(order) && order != []
    ensures order[|order| - 1] in order && forall c :: c in order ==> c <= order[|order| - 1]
  {
  }

  lemma SameMembers(xs: seq<nat>, ys: seq<nat>)
    requires multiset(xs) == multiset(ys)
    ensures |xs| == |ys| && forall x :: x in xs <==> x in ys
  {
    assert |multiset(xs)| == |xs| && |multiset(ys)| == |ys|;
    assert forall x :: x in xs <==> x in multiset(xs);
    assert forall x :: x in ys <==> x in multiset(ys);
  }

  /** Looking up exactly the stored addresses, the largest count is the worst insertion of the build. */
  lemma MaxIsWorst(slots: seq<u32>, home: Home, worst: nat, keys: seq<u32>, stats: Stats)
    requires Sound(slots, home) && Worst(slots, home, worst) && Summarise(slots, home, keys, stats)
    requires forall w :: w in WordList(keys) <==> w in SlotTable.Members(slots)
    ensures stats.max == worst
  {
    hide Sound, Worst, Takes, Attains, ToWord;
    var counts: seq<nat> :| CountsOf(slots, home, keys, counts) && Describe(counts, stats);
    var i :| 0 <= i < |counts| && counts[i] == stats.max;
    StoredKeyTakesDepth(slots, home, worst, WordList(keys)[i], counts[i]);
    if worst != 0 {
      var w := WorstIsAttained(slots, home, worst);
      var k :| 0 <= k < |keys| && WordList(keys)[k] == w;
      assert counts[k] in counts;
      StoredKeyTakesWorst(slots, home, worst, w, counts[k]);
    }
  }

  lemma StoredKeyTakesDepth(slots: seq<u32>, home: Home, worst: nat, v: u32, p: nat)
    requires Sound(slots, home) && Worst(slots, home, worst) && v in SlotTable.Members(slots) && Takes(slots, home, v, p)
    ensures p <= worst
  {
    hide Sound, Probed;
    var j :| StopsAt(slots, home, v, j, p);
    StopIsDepth(slots, home, v, j, p);
  }

  ghost predicate Attains(slots: seq<u32>, home: Home, v: u32, p: nat) {
    exists j :: 0 <= j < |slots| && slots[j] == v && home(v) < |slots| && Depth(slots, home, j) == p
  }

  /** A key that needs the worst number of probes. */
  lemma WorstIsAttained(slots: seq<u32>, home: Home, worst: nat) returns (w: u32)
    requires Worst(slots, home, worst) && worst != 0
    ensures w in SlotTable.Members(slots)
    ensures Attains(slots, home, w, worst)
  {
    var j :| 0 <= j < |slots| && slots[j] != 0 && Depth(slots, home, j) == worst;
    w := slots[j];
  }

  lemma StoredKeyTakesWorst(slots: seq<u32>, home: Home, worst: nat, v: u32, p: nat)
    requires Sound(slots, home) && v in SlotTable.Members(slots) && Takes(slots, home, v, p)
    requires Attains(slots, home, v, worst)
    ensures p == worst
  {
    hide Probed;
    var j :| StopsAt(slots, home, v, j, p);
    StopIsDepth(slots, home, v, j, p);
  }

  // ---- the two indexes on a /24 ----

  ghost function FirstOf(a: byte, b: byte, c: byte, n: nat): set<u32>
    requires n <= 256
  {
    set d: byte | d < n :: AddressWord(a, b, c, d)
  }

  lemma {:induction false} FirstOfSize(a: byte, b: byte, c: byte, n: nat)
    requires n <= 256
    ensures |FirstOf(a, b, c, n)| == n
  {
    if n == 0 {
    } else {
      FirstOfSize(a, b, c, n - 1);
      assert FirstOf(a, b, c, n) == FirstOf(a, b, c, n - 1) + {AddressWord(a, b, c, n - 1)};
      assert forall d: byte | d < n - 1 :: AddressWord(a, b, c, d) != AddressWord(a, b, c, n - 1);
    }
  }

  /** The 256 addresses of a.b.c.0/24 in order, as dotted-quad values. */
  function Slash24List(a: byte, b: byte, c: byte): seq<u32> {
    seq(256, d requires 0 <= d < 256 => Le32(d, c, b, a))
  }

  lemma Slash24WordAt(a: byte, b: byte, c: byte, d: byte)
    ensures WordList(Slash24List(a, b, c))[d] == AddressWord(a, b, c, d)
  {
    ToWordReverses(d, c, b, a);
  }

  lemma ZeroInSlash24(a: byte, b: byte, c: byte)
    ensures 0 in Slash24(a, b, c) <==> a == b == c == 0
  {
    if 0 in Slash24(a, b, c) {
      var d: byte :| AddressWord(a, b, c, d) == 0;
      Le32Injective(a, b, c, d, 0, 0, 0, 0);
    }
    if a == b == c == 0 {
      assert AddressWord(a, b, c, 0) == 0;
    }
  }

  lemma Slash24Words(a: byte, b: byte, c: byte)
    ensures AddressSet.NonZero(WordList(Slash24List(a, b, c))) == Slash24(a, b, c) - {0}
    ensures |Slash24(a, b, c) - {0}| == if a == b == c == 0 then 255 else 256
  {
    hide AddressWord, ToWord;
    var ws := WordList(Slash24List(a, b, c));
    forall w
      ensures w in ws <==> w in Slash24(a, b, c)
    {
      if w in ws {
        var d: byte :| d < |ws| && ws[d] == w;
        Slash24WordAt(a, b, c, d);
      }
      if w in Slash24(a, b, c) {
        var d: byte :| w == AddressWord(a, b, c, d);
        Slash24WordAt(a, b, c, d);
      }
    }
    FirstOfSize(a, b, c, 256);
    assert FirstOf(a, b, c, 256) == Slash24(a, b, c);
    ZeroInSlash24(a, b, c);
  }

  /** On a whole /24 the current index never probes twice, while under the original index the
      last address costs as many probes as the table has entries. */
  method Slash24Comparison(a: byte, b: byte, c: byte) returns (oldWorst: nat, newWorst: nat)
    ensures newWorst == 1
    ensures oldWorst == if a == b == c == 0 then 255 else 256
  {
    var ips := Slash24List(a, b, c);
    Slash24Words(a, b, c);
    assert GrowBits(256, 4) == 10 by {
      assert Pow2(9) == 512 && Pow2(10) == 1024;
      assert GrowBits(256, 9) == 10;
      assert GrowBits(256, 6) == GrowBits(256, 9);
    }
    var old_, mask, bits, w := BuildTable(ips, Old);
    oldWorst := w;
    Slash24Collapses(bits, a, b, c);
    SharedHomeWorst(old_[..], LowBits(bits), LowBits(bits)(AddressWord(a, b, c, 0)), oldWorst);
    var new_;
    new_, mask, bits, newWorst := BuildTable(ips, New);
    Slash24Spreads(bits, a, b, c);
    DistinctHomesWorst(new_[..], HighBits(bits), newWorst);
  }

  lemma DistinctHomesWorst(slots: seq<u32>, home: Home, worst: nat)
    requires Sound(slots, home) && 0 < |SlotTable.Members(slots)| < |slots|
    requires HomesDistinct(SlotTable.Members(slots), home) && Worst(slots, home, worst)
    ensures worst == 1
  {
    FirstProbeIffHomesDistinct(slots, home);
    var w :| w in SlotTable.Members(slots);
    var i :| 0 <= i < |slots| && slots[i] == w;
    assert Depth(slots, home, i) == 1;
  }

  /** When all keys share one home, the worst lookup probes as often as there are keys. */
  lemma SharedHomeWorst(slots: seq<u32>, home: Home, h: nat, worst: nat)
    requires Sound(slots, home) && 0 < |SlotTable.Members(slots)| < |slots| && h < |slots|
    requires forall w :: w in SlotTable.Members(slots) ==> home(w) == h
    requires Worst(slots, home, worst)
    ensures worst == |SlotTable.Members(slots)|
  {
    var m := |SlotTable.Members(slots)|;
    SharedHomeIsLinearScan(slots, home, h);
    var last := if h + (m - 1) < |slots| then h + (m - 1) else h + (m - 1) - |slots|;
    assert last in Run(|slots|, h, m);
    assert last in Occupied(slots);
    assert slots[last] in SlotTable.Members(slots);
    assert Depth(slots, home, last) == m;
    var i :| 0 <= i < |slots| && slots[i] != 0 && Depth(slots, home, i) == worst;
    assert i in Occupied(slots) && slots[i] in SlotTable.Members(slots);
  }
}
