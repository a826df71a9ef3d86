/** The direct-mapped flow table: one key and one 32-bit counter per slot, overwritten on collision. */
module FlowTab {
  import opened Words
  import opened Counting

  /** The low bits of the key. */
  function SlotOf(bits: nat, key: u64): (s: nat)
    ensures s < Pow2(bits)
  {
    Wrap32(key) % Pow2(bits)
  }

  /** In a table of up to 2^32 slots, two keys share a slot exactly when they agree modulo its size. */
  lemma SlotIsRemainder(bits: nat, key: u64)
    requires bits <= 32
    ensures SlotOf(bits, key) == key % Pow2(bits)
  {
    WrapIsMod(key);
    Pow2Adds(bits, 32 - bits);
    Pow2OfTableBits();
    RemainderOfRemainder(key, Pow2(bits), Pow2(32 - bits));
  }

  lemma RemainderOfRemainder(x: nat, a: nat, b: nat)
    requires a > 0 && b > 0
    ensures a * b > 0 && (x % (a * b)) % a == x % a
  {
    MulMonotone(1, a, b);
    var q, r := x / (a * b), x % (a * b);
    assert x == (a * b) * q + r;
    assert (a * b) * q == (b * q) * a;
    var p, s := r / a, r % a;
    assert (b * q + p) * a == (b * q) * a + p * a;
    DivModUnique(x, a, b * q + p, s);
  }

  datatype Table = Table(keys: seq<u64>, cnt: seq<u32>)

  function Cleared(bits: nat): Table {
    Table(seq(Pow2(bits), _ => 0), seq(Pow2(bits), _ => 0))
  }

  ghost predicate Shaped(bits: nat, t: Table) {
    |t.keys| == Pow2(bits) && |t.cnt| == Pow2(bits)
  }

  /** The count a packet with this key is given: 0 when the slot belongs to another key. */
  function CountFor(bits: nat, t: Table, key: u64): u32
    requires Shaped(bits, t)
  {
    var s := SlotOf(bits, key);
    if t.keys[s] == key then t.cnt[s] else 0
  }

  function Touch(bits: nat, t: Table, key: u64): (t': Table)
    requires Shaped(bits, t)
    ensures Shaped(bits, t')
  {
    var s := SlotOf(bits, key);
    Table(t.keys[s := key], t.cnt[s := Wrap32(CountFor(bits, t, key) + 1)])
  }

  /** The table after a run of keys. */
  function After(bits: nat, ks: seq<u64>): (t: Table)
    ensures Shaped(bits, t)
  {
    if ks == [] then Cleared(bits) else Touch(bits, After(bits, ks[..|ks| - 1]), ks[|ks| - 1])
  }

  lemma AfterSnoc(bits: nat, ks: seq<u64>, key: u64)
    ensures After(bits, ks + [key]) == Touch(bits, After(bits, ks), key)
  {
    assert (ks + [key])[..|ks|] == ks;
  }

  // ---- what a run leaves behind, stated on the run alone ----

  /** The last key of the run that maps to slot s. */
  function LastIn(bits: nat, ks: seq<u64>, s: nat): Option<u64> {
    if ks == [] then None
    else if SlotOf(bits, ks[|ks| - 1]) == s then Some(ks[|ks| - 1])
    else LastIn(bits, ks[..|ks| - 1], s)
  }

  /** Length of the unbroken run of key at the end of its slot's subsequence of ks. */
  function Streak(bits: nat, ks: seq<u64>, key: u64): nat {
    if ks == [] then 0
    else
      var prev, last := ks[..|ks| - 1], ks[|ks| - 1];
      if SlotOf(bits, last) != SlotOf(bits, key) then Streak(bits, prev, key)
      else if last == key then Streak(bits, prev, key) + 1
      else 0
  }

  lemma CountStep(bits: nat, t: Table, k: u64, key: u64)
    requires Shaped(bits, t)
    ensures CountFor(bits, Touch(bits, t, k), key) ==
            if SlotOf(bits, k) != SlotOf(bits, key) then CountFor(bits, t, key)
            else if k == key then Wrap32(CountFor(bits, t, key) + 1) else 0
  {
  }

  /** The counts handed out for key and its streak agree modulo 2^32, whatever was evicted; this
      includes key 0, although cleared slots hold 0 as well. */
  lemma {:induction false} CountIsStreak(bits: nat, ks: seq<u64>, key: u64)
    ensures CountFor(bits, After(bits, ks), key) == Wrap32(Streak(bits, ks, key))
  {
    if ks == [] {
    } else {
      var prev, k := ks[..|ks| - 1], ks[|ks| - 1];
      assert ks == prev + [k];
      CountIsStreak(bits, prev, key);
      CountStep(bits, After(bits, prev), k, key);
      StreakStep(bits, prev, k, key);
      WrapsOnce(Streak(bits, prev, key));
    }
  }

  lemma StreakStep(bits: nat, ks: seq<u64>, k: u64, key: u64)
    ensures Streak(bits, ks + [k], key) ==
            if SlotOf(bits, k) != SlotOf(bits, key) then Streak(bits, ks, key)
            else if k == key then Streak(bits, ks, key) + 1 else 0
  {
    assert (ks + [k])[..|ks|] == ks;
  }

  /** A key with a running streak is the one its slot holds. */
  lemma {:induction false} StreakIsResident(bits: nat, ks: seq<u64>, key: u64)
    ensures Streak(bits, ks, key) > 0 <==> LastIn(bits, ks, SlotOf(bits, key)) == Some(key)
  {
    if ks == [] {
    } else {
      StreakIsResident(bits, ks[..|ks| - 1], key);
    }
  }

  lemma {:induction false} SlotHoldsLast(bits: nat, ks: seq<u64>, s: nat)
    requires s < Pow2(bits)
    ensures match LastIn(bits, ks, s)
            case None => After(bits, ks).keys[s] == 0 && After(bits, ks).cnt[s] == 0
            case Some(k) => SlotOf(bits, k) == s && After(bits, ks).keys[s] == k
  {
    if ks == [] {
    } else {
      SlotHoldsLast(bits, ks[..|ks| - 1], s);
    }
  }

  /** Every used slot holds the last key mapped to it with that key's streak; every other slot is clear. */
  lemma SlotContents(bits: nat, ks: seq<u64>, s: nat)
    requires s < Pow2(bits)
    ensures match LastIn(bits, ks, s)
            case None => After(bits, ks).keys[s] == 0 && After(bits, ks).cnt[s] == 0
            case Some(k) => SlotOf(bits, k) == s && Streak(bits, ks, k) > 0
                            && After(bits, ks).keys[s] == k && After(bits, ks).cnt[s] == Wrap32(Streak(bits, ks, k))
  {
    SlotHoldsLast(bits, ks, s);
    var last := LastIn(bits, ks, s);
    if last.Some? {
      CountIsStreak(bits, ks, last.value);
      StreakIsResident(bits, ks, last.value);
    }
  }

  lemma {:induction false} StreakWithinOccurrences(bits: nat, ks: seq<u64>, key: u64)
    ensures Streak(bits, ks, key) <= Occ(ks, key) <= |ks|
  {
    if ks == [] {
    } else {
      StreakWithinOccurrences(bits, ks[..|ks| - 1], key);
    }
  }

  // ---- flow heads over whole runs ----

  /** The lossy verdict on the packet that follows ks. */
  predicate IsHead(bits: nat, n: nat, ks: seq<u64>, key: u64) {
    CountFor(bits, After(bits, ks), key) < n
  }

  /** The keys of a run whose packets are reported as heads. */
  function Heads(bits: nat, n: nat, ks: seq<u64>): seq<u64> {
    if ks == [] then []
    else
      var prev, k := ks[..|ks| - 1], ks[|ks| - 1];
      if IsHead(bits, n, prev, k) then Heads(bits, n, prev) + [k] else Heads(bits, n, prev)
  }

  /** The keys evicted during a run, one entry per eviction. */
  function Victims(bits: nat, ks: seq<u64>): seq<u64> {
    if ks == [] then []
    else
      var prev, k := ks[..|ks| - 1], ks[|ks| - 1];
      match LastIn(bits, prev, SlotOf(bits, k))
      case None => Victims(bits, prev)
      case Some(evicted) => if evicted == k then Victims(bits, prev) else Victims(bits, prev) + [evicted]
  }

  /** No head is hidden: a packet among the first n of its key is reported, after any run,
      including runs long enough to wrap a counter. */
  lemma NoHeadHidden(bits: nat, n: nat, ks: seq<u64>, key: u64)
    requires Occ(ks, key) < n
    ensures IsHead(bits, n, ks, key)
  {
    CountIsStreak(bits, ks, key);
    StreakWithinOccurrences(bits, ks, key);
  }

  /** Exactly the packets whose current streak is short, modulo 2^32, are reported. */
  lemma HeadIffShortStreak(bits: nat, n: nat, ks: seq<u64>, key: u64)
    ensures IsHead(bits, n, ks, key) <==> Wrap32(Streak(bits, ks, key)) < n
  {
    CountIsStreak(bits, ks, key);
  }

  /** The lossy table reports at least as many heads as exact accounting. */
  lemma {:induction false} AtLeastExactHeads(bits: nat, n: nat, ks: seq<u64>)
    ensures |Heads(bits, n, ks)| >= |FirstCopies(n, ks)| == SumOfMinima(n, ks)
  {
    if ks == [] {
    } else {
      var prev, k := ks[..|ks| - 1], ks[|ks| - 1];
      AtLeastExactHeads(bits, n, prev);
      if Occ(prev, k) < n {
        NoHeadHidden(bits, n, prev, k);
      }
    }
    ExactHeadTotal(n, ks);
  }

  /** The evictions of one key: it is evicted when another key arrives while its streak is running. */
  lemma VictimStep(bits: nat, ks: seq<u64>, k: u64, key: u64)
    ensures Occ(Victims(bits, ks + [k]), key) == Occ(Victims(bits, ks), key)
              + if k != key && SlotOf(bits, k) == SlotOf(bits, key) && Streak(bits, ks, key) > 0 then 1 else 0
  {
    assert (ks + [k])[..|ks|] == ks;
    StreakIsResident(bits, ks, key);
    LastInOccurs(bits, ks, SlotOf(bits, k));
    var last := LastIn(bits, ks, SlotOf(bits, k));
    if last.Some? {
      OccSnoc(Victims(bits, ks), last.value, key);
    }
  }

  // ---- counter wraps ----

  /** The counter reads 0 although the key's run goes on: it has wrapped. */
  predicate WrapsAt(bits: nat, ks: seq<u64>, key: u64) {
    Streak(bits, ks, key) > 0 && Wrap32(Streak(bits, ks, key)) == 0
  }

  /** The keys whose counter has wrapped when the next packet is counted, one entry per wrap. */
  function Wraps(bits: nat, ks: seq<u64>): seq<u64> {
    if ks == [] then []
    else
      var prev, k := ks[..|ks| - 1], ks[|ks| - 1];
      if WrapsAt(bits, prev, k) then Wraps(bits, prev) + [k] else Wraps(bits, prev)
  }

  /** Packets of the run counted since the counter last started at 0. */
  function Cycle(streak: nat): nat {
    if streak == 0 then 0 else Wrap32(streak - 1) + 1
  }

  lemma CycleStep(streak: nat)
    ensures Cycle(streak + 1) == Wrap32(streak) + 1
    ensures streak == 0 || Wrap32(streak) != 0 ==> Cycle(streak) == Wrap32(streak)
  {
    if streak > 0 {
      WrapsOnce(streak - 1);
    }
  }

  /** No counter wraps while no key has more than 2^32 packets. */
  lemma {:induction false} NoWrapBelow(bits: nat, ks: seq<u64>)
    requires forall k :: Occ(ks, k) <= TWO32
    ensures Wraps(bits, ks) == []
  {
    if ks == [] {
    } else {
      var prev, k := ks[..|ks| - 1], ks[|ks| - 1];
      forall x
        ensures Occ(prev, x) <= TWO32
      {
        assert Occ(prev, x) <= Occ(ks, x);
      }
      NoWrapBelow(bits, prev);
      assert Occ(prev, k) < Occ(ks, k) <= TWO32;
      StreakWithinOccurrences(bits, prev, k);
    }
  }

  /** What one packet adds to the heads and the wraps of a key. */
  lemma HeadStep(bits: nat, n: nat, ks: seq<u64>, k: u64, key: u64)
    ensures Occ(Heads(bits, n, ks + [k]), key) == Occ(Heads(bits, n, ks), key)
              + if k == key && Wrap32(Streak(bits, ks, key)) < n then 1 else 0
    ensures Occ(Wraps(bits, ks + [k]), key) == Occ(Wraps(bits, ks), key)
              + if k == key && WrapsAt(bits, ks, key) then 1 else 0
  {
    assert (ks + [k])[..|ks|] == ks;
    HeadIffShortStreak(bits, n, ks, k);
    OccSnoc(Heads(bits, n, ks), k, key);
    OccSnoc(Wraps(bits, ks), k, key);
  }

  /** The times a key starts over: its evictions and the wraps of its counter. */
  function Restarts(bits: nat, ks: seq<u64>, key: u64): nat {
    Occ(Victims(bits, ks), key) + Occ(Wraps(bits, ks), key)
  }

  /** A packet of key k makes room for the head it may add: it extends the cycle or restarts the key. */
  lemma RestartStep(bits: nat, n: nat, ks: seq<u64>, k: u64, key: u64)
    ensures var cycle, cycle' := Cycle(Streak(bits, ks, key)), Cycle(Streak(bits, ks + [k], key));
            var restarts, restarts' := Restarts(bits, ks, key), Restarts(bits, ks + [k], key);
            && restarts <= restarts' <= restarts + 1
            && (if k == key && Wrap32(Streak(bits, ks, key)) < n then 1 else 0) + Min(n, cycle)
            <= (if restarts' == restarts then 0 else n) + Min(n, cycle')
  {
    HeadStep(bits, n, ks, k, key);
    StreakStep(bits, ks, k, key);
    VictimStep(bits, ks, k, key);
    CycleStep(Streak(bits, ks, key));
    hide Heads, Victims, Wraps, Streak, Wrap32, Occ, SlotOf;
  }

  lemma ChargeAddsUp(n: nat, heads: nat, restarts: nat, cycle: nat, head: nat, restarts': nat, cycle': nat)
    requires heads <= n * restarts + Min(n, cycle) && restarts <= restarts' <= restarts + 1
    requires head + Min(n, cycle) <= (if restarts' == restarts then 0 else n) + Min(n, cycle')
    ensures heads + head <= n * restarts' + Min(n, cycle')
  {
    if restarts' != restarts {
      assert n * restarts' == n * restarts + n;
    }
  }

  /** Heads of one key: n for each eviction of the key and each wrap of its counter, plus those of
      the counter's current cycle. */
  lemma {:induction false} HeadsPerKey(bits: nat, n: nat, ks: seq<u64>, key: u64)
    ensures Occ(Heads(bits, n, ks), key) <= n * Restarts(bits, ks, key) + Min(n, Cycle(Streak(bits, ks, key)))
  {
    if ks == [] {
      assert Occ(Heads(bits, n, ks), key) == 0;
    } else {
      hide Heads, Restarts, Streak, Wrap32, Occ, Cycle, SlotOf;
      var prev, k := ks[..|ks| - 1], ks[|ks| - 1];
      HeadsPerKey(bits, n, prev, key);
      HeadStep(bits, n, prev, k, key);
      RestartStep(bits, n, prev, k, key);
      assert ks == prev + [k];
      ChargeAddsUp(n, Occ(Heads(bits, n, prev), key), Restarts(bits, prev, key), Cycle(Streak(bits, prev, key)),
                   if k == key && Wrap32(Streak(bits, prev, key)) < n then 1 else 0,
                   Restarts(bits, ks, key), Cycle(Streak(bits, ks, key)));
    }
  }

  lemma CycleWithinStreak(streak: nat)
    ensures Cycle(streak) <= streak
  {
    if streak > 0 {
      WrapIsMod(streak - 1);
    }
  }

  lemma HeadsWithinBounds(bits: nat, n: nat, ks: seq<u64>, key: u64)
    ensures Occ(Heads(bits, n, ks), key)
         <= Occ(FirstCopies(n, ks), key) + n * Occ(Victims(bits, ks) + Wraps(bits, ks), key)
  {
    hide Heads, Victims, Wraps, Streak, FirstCopies, Occ, Cycle;
    HeadsPerKey(bits, n, ks, key);
    StreakWithinOccurrences(bits, ks, key);
    CycleWithinStreak(Streak(bits, ks, key));
    FirstCopiesCounts(n, ks, key);
    OccConcat(Victims(bits, ks), Wraps(bits, ks), key);
  }

  /** The excess over exact accounting is at most n per eviction and n per counter wrap. */
  lemma ExcessBounded(bits: nat, n: nat, ks: seq<u64>)
    ensures SumOfMinima(n, ks) <= |Heads(bits, n, ks)|
         <= SumOfMinima(n, ks) + n * (|Victims(bits, ks)| + |Wraps(bits, ks)|)
  {
    hide Heads, Victims, Wraps, FirstCopies, Occ, SumOfMinima;
    AtLeastExactHeads(bits, n, ks);
    forall k
      ensures Occ(Heads(bits, n, ks), k) <= Occ(FirstCopies(n, ks), k) + n * Occ(Victims(bits, ks) + Wraps(bits, ks), k)
    {
      HeadsWithinBounds(bits, n, ks, k);
    }
    CountsBoundLength(Heads(bits, n, ks), FirstCopies(n, ks), n, Victims(bits, ks) + Wraps(bits, ks));
  }

  ghost predicate SlotsUnshared(bits: nat, ks: seq<u64>) {
    forall i, j :: 0 <= i < |ks| && 0 <= j < |ks| && SlotOf(bits, ks[i]) == SlotOf(bits, ks[j]) ==> ks[i] == ks[j]
  }

  lemma {:induction false} LastInOccurs(bits: nat, ks: seq<u64>, s: nat)
    ensures LastIn(bits, ks, s).Some? ==> LastIn(bits, ks, s).value in ks && SlotOf(bits, LastIn(bits, ks, s).value) == s
  {
    if ks == [] {
    } else {
      LastInOccurs(bits, ks[..|ks| - 1], s);
    }
  }

  /** Keys are evicted exactly when two keys of the run share a slot. */
  lemma {:induction false} EvictionsIffSlotsShared(bits: nat, ks: seq<u64>)
    ensures Victims(bits, ks) == [] <==> SlotsUnshared(bits, ks)
  {
    if ks == [] {
    } else {
      var prev, k := ks[..|ks| - 1], ks[|ks| - 1];
      EvictionsIffSlotsShared(bits, prev);
      LastInOccurs(bits, prev, SlotOf(bits, k));
      if SlotsUnshared(bits, ks) {
        assert SlotsUnshared(bits, prev) by {
          forall i, j | 0 <= i < |prev| && 0 <= j < |prev| && SlotOf(bits, prev[i]) == SlotOf(bits, prev[j])
            ensures prev[i] == prev[j]
          {
            assert ks[i] == prev[i] && ks[j] == prev[j];
          }
        }
        var last := LastIn(bits, prev, SlotOf(bits, k));
        if last.Some? {
          var i :| 0 <= i < |prev| && prev[i] == last.value;
          assert ks[i] == last.value;
        }
      }
      if Victims(bits, ks) == [] {
        forall i | 0 <= i < |prev| && SlotOf(bits, prev[i]) == SlotOf(bits, k)
          ensures prev[i] == k
        {
          LastInSome(bits, prev, i);
          var last := LastIn(bits, prev, SlotOf(bits, k));
          var j :| 0 <= j < |prev| && prev[j] == last.value;
          assert prev[i] == prev[j];
        }
        forall i, j | 0 <= i < |ks| && 0 <= j < |ks| && SlotOf(bits, ks[i]) == SlotOf(bits, ks[j])
          ensures ks[i] == ks[j]
        {
          assert i < |prev| ==> ks[i] == prev[i];
          assert j < |prev| ==> ks[j] == prev[j];
        }
      }
    }
  }

  lemma {:induction false} LastInSome(bits: nat, ks: seq<u64>, i: nat)
    requires i < |ks|
    ensures LastIn(bits, ks, SlotOf(bits, ks[i])).Some?
  {
    if i == |ks| - 1 {
    } else {
      LastInSome(bits, ks[..|ks| - 1], i);
    }
  }

  /** When no two keys share a slot and no counter wraps, the lossy table is exact. */
  lemma ExactWhenSlotsUnshared(bits: nat, n: nat, ks: seq<u64>)
    requires SlotsUnshared(bits, ks) && Wraps(bits, ks) == []
    ensures |Heads(bits, n, ks)| == SumOfMinima(n, ks)
  {
    EvictionsIffSlotsShared(bits, ks);
    ExcessBounded(bits, n, ks);
  }

  // ---- when every run is exact ----

  /** Every run over the keys of `universe` in which no counter wraps reports exactly the exact heads. */
  ghost predicate ExactOn(bits: nat, n: nat, universe: iset<u64>) {
    forall ks: seq<u64> :: (forall k :: k in ks ==> k in universe) && Wraps(bits, ks) == [] ==>
      |Heads(bits, n, ks)| == SumOfMinima(n, ks)
  }

  ghost predicate SlotsUnsharedOn(bits: nat, universe: iset<u64>) {
    forall a, b :: a in universe && b in universe && SlotOf(bits, a) == SlotOf(bits, b) ==> a == b
  }

  /** The table is exact on every run over a set of keys if and only if no two of them share a slot. */
  lemma ExactIffSlotsUnshared(bits: nat, n: nat, universe: iset<u64>)
    requires 0 < n < TWO32
    ensures ExactOn(bits, n, universe) <==> SlotsUnsharedOn(bits, universe)
  {
    hide SlotOf, Heads, SumOfMinima, Wraps;
    if SlotsUnsharedOn(bits, universe) {
      forall ks: seq<u64> | (forall k :: k in ks ==> k in universe) && Wraps(bits, ks) == []
        ensures |Heads(bits, n, ks)| == SumOfMinima(n, ks)
      {
        ExactWhenSlotsUnshared(bits, n, ks);
      }
    }
    if ExactOn(bits, n, universe) {
      forall a, b | a in universe && b in universe && SlotOf(bits, a) == SlotOf(bits, b)
        ensures a == b
      {
        if a != b {
          SharedSlotOvercounts(bits, n, a, b);
        }
      }
    }
  }

  function Copies(a: u64, n: nat): (ks: seq<u64>)
    ensures |ks| == n && forall k :: k in ks ==> k == a
  {
    if n == 0 then [] else Copies(a, n - 1) + [a]
  }

  lemma {:induction false} CopiesOcc(a: u64, n: nat, k: u64)
    ensures Occ(Copies(a, n), k) == if k == a then n else 0
  {
    if n == 0 {
    } else {
      CopiesOcc(a, n - 1, k);
      OccSnoc(Copies(a, n - 1), a, k);
    }
  }

  /** n packets of a, then b, then a again. */
  function Contended(n: nat, a: u64, b: u64): seq<u64> { Copies(a, n) + [b] + [a] }

  lemma ContendedOcc(n: nat, a: u64, b: u64, k: u64)
    requires a != b
    ensures Occ(Contended(n, a, b), k) == (if k == a then n + 1 else if k == b then 1 else 0)
    ensures Occ(Copies(a, n) + [b], a) == n
  {
    CopiesOcc(a, n, k);
    CopiesOcc(a, n, a);
    OccSnoc(Copies(a, n), b, k);
    OccSnoc(Copies(a, n), b, a);
    OccSnoc(Copies(a, n) + [b], a, k);
  }

  /** When the two share a slot, that run reports a once too often, without any counter wrap. */
  lemma SharedSlotOvercounts(bits: nat, n: nat, a: u64, b: u64)
    requires 0 < n < TWO32 && a != b && SlotOf(bits, a) == SlotOf(bits, b)
    ensures forall k :: k in Contended(n, a, b) ==> k == a || k == b
    ensures Wraps(bits, Contended(n, a, b)) == []
    ensures |Heads(bits, n, Contended(n, a, b))| > SumOfMinima(n, Contended(n, a, b))
  {
    var run := Copies(a, n) + [b];
    StreakStep(bits, Copies(a, n), b, a);
    hide SlotOf, Copies, Occ, Wraps, Streak, FirstCopies, SumOfMinima, Heads, IsHead;
    forall k
      ensures Occ(Contended(n, a, b), k) <= TWO32
    {
      ContendedOcc(n, a, b, k);
    }
    NoWrapBelow(bits, Contended(n, a, b));
    AtLeastExactHeads(bits, n, run);
    HeadIffShortStreak(bits, n, run, a);
    ContendedOcc(n, a, b, a);
    FirstCopiesSnoc(n, run, a);
    ExactHeadTotal(n, Contended(n, a, b));
    HeadAppends(bits, n, run, a);
  }

  lemma HeadAppends(bits: nat, n: nat, ks: seq<u64>, k: u64)
    requires IsHead(bits, n, ks, k)
    ensures Heads(bits, n, ks + [k]) == Heads(bits, n, ks) + [k]
  {
    assert (ks + [k])[..|ks|] == ks;
  }

  // ---- the table object ----

  class FlowTable {
    const keys: array<u64>
    const cnt: array<u32>
    const mask: nat
    ghost const bits: nat
    /** the keys counted so far */
    ghost var history: seq<u64>

    ghost predicate Valid()
      reads this, keys, cnt
    {
      && keys as object != cnt as object
      && mask == Pow2(bits) - 1
      && Table(keys[..], cnt[..]) == After(bits, history)
    }

    /** calloc of both arrays: the table of the empty run. */
    constructor (b: nat)
      ensures Valid() && fresh(keys) && fresh(cnt) && bits == b && history == []
    {
      keys := new u64[Pow2(b)](_ => 0);
      cnt := new u32[Pow2(b)](_ => 0);
      mask := Pow2(b) - 1;
      bits := b;
      history := [];
      new;
      assert keys[..] == Cleared(b).keys;
      assert cnt[..] == Cleared(b).cnt;
    }

    /** Returns how many packets of key were counted without interruption, modulo 2^32, and counts this one. */
    method Seen(key: u64) returns (count: u32)
      requires Valid()
      modifies this`history, keys, cnt
      ensures Valid() && history == old(history) + [key]
      ensures count == Wrap32(Streak(bits, old(history), key))
    {
      ghost var before := After(bits, history);
      CountIsStreak(bits, history, key);
      AndMaskIsMod(Wrap32(key), bits);
      var slot := And(Wrap32(key), mask);
      assert slot == SlotOf(bits, key) && before == Table(keys[..], cnt[..]);
      assert keys[slot] == before.keys[slot] && cnt[slot] == before.cnt[slot];
      if keys[slot] != key {
        keys[slot] := key;
        cnt[slot] := 0;
      }
      count := cnt[slot];
      cnt[slot] := Wrap32(count + 1);
      assert Table(keys[..], cnt[..]) == Touch(bits, before, key);
      AfterSnoc(bits, history, key);
      history := history + [key];
    }
  }
}
