/** filtered_stats read from another thread: the capture loop as a machine that updates one counter
    per step, and readers that fetch one counter at a time. */
module Snapshot {
  import opened Words
  import opened Counting
  import opened Runs
  import opened Delivery

  /** Idle between packets; Classified after the class counter and before admitted/dropped. */
  datatype Phase = Idle | Classified(idx: nat)

  /** The counters [admitted, dropped, class 0 .. class 5]; `classes` records the history. */
  datatype World = World(live: seq<u64>, phase: Phase, classes: seq<nat>)

  ghost predicate Start(w: World) {
    w == World(seq(8, _ => 0), Idle, [])
  }

  function OutcomeSlot(mask: int, idx: nat): nat { if Admits(mask, idx) then 0 else 1 }

  /** One step of the capture loop: it counts the class of some packet, or its outcome. */
  ghost predicate Step(mask: int, w: World, w': World)
    requires |w.live| == 8
  {
    match w.phase
    case Idle =>
      exists idx :: 0 <= idx < 6
        && w' == World(w.live[2 + idx := Increment(w.live[2 + idx])], Classified(idx), w.classes + [idx])
    case Classified(idx) =>
      w' == World(w.live[OutcomeSlot(mask, idx) := Increment(w.live[OutcomeSlot(mask, idx)])], Idle, w.classes)
  }

  /** A run of the capture loop from the reset on. */
  ghost predicate Run(mask: int, ws: seq<World>) {
    && ws != [] && Start(ws[0])
    && (forall i :: 0 <= i < |ws| ==> |ws[i].live| == 8)
    && forall i :: 0 < i < |ws| ==> Step(mask, ws[i - 1], ws[i])
  }

  function ClassSum(live: seq<u64>): nat
    requires |live| == 8
  {
    live[2] as int + live[3] as int + live[4] as int + live[5] as int + live[6] as int + live[7] as int
  }

  /** The packets whose outcome has been counted. */
  ghost function Settled(w: World): seq<nat> {
    if w.phase.Classified? && w.classes != [] then w.classes[..|w.classes| - 1] else w.classes
  }

  ghost predicate ClassesCounted(live: seq<u64>, cs: seq<nat>) {
    |live| == 8 && forall c :: 0 <= c < 6 ==> live[2 + c] == Wrap64(Occ(cs, c))
  }

  ghost predicate OutcomesCounted(mask: int, live: seq<u64>, cs: seq<nat>) {
    && |live| == 8 && AdmittedCount(mask, cs) <= |cs|
    && live[0] == Wrap64(AdmittedCount(mask, cs)) && live[1] == Wrap64(|cs| - AdmittedCount(mask, cs))
  }

  /** The class counters count the packets classified so far, the outcome counters those settled. */
  ghost predicate Good(mask: int, w: World) {
    && ClassesCounted(w.live, w.classes)
    && (forall c :: c in w.classes ==> c < 6)
    && (w.phase.Classified? ==> w.phase.idx < 6 && w.classes != [] && w.classes[|w.classes| - 1] == w.phase.idx)
    && OutcomesCounted(mask, w.live, Settled(w))
  }

  lemma ClassCounted(live: seq<u64>, cs: seq<nat>, idx: nat)
    requires ClassesCounted(live, cs) && idx < 6
    ensures ClassesCounted(live[2 + idx := Increment(live[2 + idx])], cs + [idx])
  {
    forall c | 0 <= c < 6
      ensures live[2 + idx := Increment(live[2 + idx])][2 + c] == Wrap64(Occ(cs + [idx], c))
    {
      OccSnoc(cs, idx, c);
      WrapsOnce(Occ(cs, c));
    }
  }

  lemma OutcomeCounted(mask: int, live: seq<u64>, cs: seq<nat>, idx: nat)
    requires OutcomesCounted(mask, live, cs)
    ensures OutcomesCounted(mask, live[OutcomeSlot(mask, idx) := Increment(live[OutcomeSlot(mask, idx)])], cs + [idx])
  {
    assert (cs + [idx])[..|cs|] == cs;
    WrapsOnce(AdmittedCount(mask, cs));
    WrapsOnce(|cs| - AdmittedCount(mask, cs));
  }

  lemma StepKeepsGood(mask: int, w: World, w': World)
    requires Good(mask, w) && Step(mask, w, w')
    ensures Good(mask, w')
  {
    hide Admits, Increment, Occ, AdmittedCount;
    if w.phase.Idle? {
      var idx :| 0 <= idx < 6
        && w' == World(w.live[2 + idx := Increment(w.live[2 + idx])], Classified(idx), w.classes + [idx]);
      ClassCounted(w.live, w.classes, idx);
      assert Settled(w') == w.classes;
    } else {
      OutcomeCounted(mask, w.live, Settled(w), w.phase.idx);
      assert Settled(w') == w.classes == Settled(w) + [w.phase.idx];
    }
  }

  /** At every moment of a run the counters are those of a sequential count of the packets classified
      so far, modulo 2^64, with at most the outcome of the last one still missing. */
  lemma {:induction false} EveryMomentGood(mask: int, ws: seq<World>, i: nat)
    requires Run(mask, ws) && i < |ws|
    ensures Good(mask, ws[i])
  {
    if i == 0 {
    } else {
      EveryMomentGood(mask, ws, i - 1);
      StepKeepsGood(mask, ws[i - 1], ws[i]);
    }
  }

  /** Between packets the machine's counters are those the callback leaves. */
  lemma IdleIsTallied(mask: int, ws: seq<World>, i: nat)
    requires Run(mask, ws) && i < |ws| && ws[i].phase.Idle?
    ensures Tallied(ws[i].live, mask, ws[i].classes)
  {
    EveryMomentGood(mask, ws, i);
  }

  /** The callback's updates are two steps of the machine: the class first, then the outcome. */
  lemma TwoStepsPerPacket(mask: int, w: World, idx: nat)
    requires Good(mask, w) && w.phase.Idle? && idx < 6
    ensures var counted := World(w.live[2 + idx := Increment(w.live[2 + idx])], Classified(idx), w.classes + [idx]);
            var slot := if Admits(mask, idx) then 0 else 1;
            var done := World(counted.live[slot := Increment(counted.live[slot])], Idle, w.classes + [idx]);
            Step(mask, w, counted) && Step(mask, counted, done) && Good(mask, done)
  {
    var counted := World(w.live[2 + idx := Increment(w.live[2 + idx])], Classified(idx), w.classes + [idx]);
    var slot := if Admits(mask, idx) then 0 else 1;
    var done := World(counted.live[slot := Increment(counted.live[slot])], Idle, w.classes + [idx]);
    assert Step(mask, w, counted);
    assert Step(mask, counted, done);
    StepKeepsGood(mask, w, counted);
    StepKeepsGood(mask, counted, done);
  }

  // ---- runs of fewer than 2^64 packets ----

  ghost predicate Short(ws: seq<World>) {
    ws != [] && |ws[|ws| - 1].classes| < TWO64
  }

  lemma {:induction false} PacketsOnlyGrow(mask: int, ws: seq<World>, i: nat, j: nat)
    requires Run(mask, ws) && i <= j < |ws|
    ensures |ws[i].classes| <= |ws[j].classes|
    decreases j - i
  {
    if i == j {
    } else {
      PacketsOnlyGrow(mask, ws, i, j - 1);
      assert Step(mask, ws[j - 1], ws[j]);
    }
  }

  lemma NotWrapped(x: nat)
    requires x < TWO64
    ensures Wrap64(x) == x
  {
  }

  /** Class sum minus outcomes is 1 while a packet is between its two updates, and 0 otherwise. */
  lemma OutcomeLagsByAtMostOne(mask: int, ws: seq<World>, i: nat)
    requires Run(mask, ws) && Short(ws) && i < |ws|
    ensures ClassSum(ws[i].live) == ws[i].live[0] as int + ws[i].live[1] as int + if ws[i].phase.Idle? then 0 else 1
  {
    EveryMomentGood(mask, ws, i);
    PacketsOnlyGrow(mask, ws, i, |ws| - 1);
    SumsOfGood(mask, ws[i]);
  }

  lemma SumsOfGood(mask: int, w: World)
    requires Good(mask, w) && |w.classes| < TWO64
    ensures ClassSum(w.live) == |w.classes| && w.live[0] as int + w.live[1] as int == |Settled(w)|
  {
    hide Occ, AdmittedCount, Wrap64;
    assert forall i :: 0 <= i < |w.classes| ==> w.classes[i] in w.classes;
    ClassCountsAddUp(w.classes);
    forall c | 0 <= c < 6
      ensures w.live[2 + c] == Occ(w.classes, c)
    {
      NotWrapped(Occ(w.classes, c));
    }
    assert w.live[2] == Occ(w.classes, 0) && w.live[3] == Occ(w.classes, 1) && w.live[4] == Occ(w.classes, 2);
    assert w.live[5] == Occ(w.classes, 3) && w.live[6] == Occ(w.classes, 4) && w.live[7] == Occ(w.classes, 5);
    NotWrapped(AdmittedCount(mask, Settled(w)));
    NotWrapped(|Settled(w)| - AdmittedCount(mask, Settled(w)));
  }

  lemma CounterBounds(mask: int, w: World, c: nat)
    requires Good(mask, w) && |w.classes| < TWO64 && c < 8
    ensures |w.live| == 8 && w.live[c] as int <= if c < 2 then |Settled(w)| else |w.classes|
  {
    SumsOfGood(mask, w);
  }

  lemma StepNeverDecreases(mask: int, w: World, w': World, c: nat)
    requires Good(mask, w) && Step(mask, w, w') && |w'.classes| < TWO64 && c < 8
    ensures w.live[c] <= w'.live[c]
  {
    assert |w.classes| <= |w'.classes|;
    assert w.phase.Classified? ==> w.classes != [] && |Settled(w)| < |w.classes|;
    CounterBounds(mask, w, c);
    hide Good, Admits;
  }

  /** Each counter is monotone. */
  lemma {:induction false} CountersNeverDecrease(mask: int, ws: seq<World>, i: nat, j: nat, c: nat)
    requires Run(mask, ws) && Short(ws) && i <= j < |ws| && c < 8
    ensures ws[i].live[c] <= ws[j].live[c]
    decreases j - i
  {
    if i == j {
    } else {
      CountersNeverDecrease(mask, ws, i, j - 1, c);
      EveryMomentGood(mask, ws, j - 1);
      PacketsOnlyGrow(mask, ws, j, |ws| - 1);
      StepNeverDecreases(mask, ws[j - 1], ws[j], c);
    }
  }

  // ---- readers ----

  /** The moments at which a reader fetched each of the eight counters, in whatever order. */
  ghost predicate ReadTimes(ws: seq<World>, at: seq<nat>) {
    |at| == 8 && forall c :: 0 <= c < 8 ==> at[c] < |ws|
  }

  ghost function Read(ws: seq<World>, at: seq<nat>): (r: seq<u64>)
    requires ReadTimes(ws, at) && forall i :: 0 <= i < |ws| ==> |ws[i].live| == 8
    ensures |r| == 8
  {
    seq(8, c requires 0 <= c < 8 => ws[at[c]].live[c])
  }

  /** Successive snapshots are pointwise non-decreasing, whatever order each one read in. */
  lemma SnapshotsNeverDecrease(mask: int, ws: seq<World>, at: seq<nat>, later: seq<nat>)
    requires Run(mask, ws) && Short(ws) && ReadTimes(ws, at) && ReadTimes(ws, later)
    requires forall c :: 0 <= c < 8 ==> at[c] <= later[c]
    ensures forall c :: 0 <= c < 8 ==> Read(ws, at)[c] <= Read(ws, later)[c]
  {
    forall c | 0 <= c < 8
      ensures Read(ws, at)[c] <= Read(ws, later)[c]
    {
      CountersNeverDecrease(mask, ws, at[c], later[c], c);
    }
  }

  lemma ClassesBetween(mask: int, ws: seq<World>, at: seq<nat>, lo: nat, hi: nat)
    requires Run(mask, ws) && Short(ws) && ReadTimes(ws, at) && lo <= hi < |ws|
    requires forall c :: 2 <= c < 8 ==> lo <= at[c] <= hi
    ensures ClassSum(ws[lo].live) <= ClassSum(Read(ws, at)) <= ClassSum(ws[hi].live)
  {
    forall c | 2 <= c < 8
      ensures ws[lo].live[c] <= Read(ws, at)[c] <= ws[hi].live[c]
    {
      CountersNeverDecrease(mask, ws, lo, at[c], c);
      CountersNeverDecrease(mask, ws, at[c], hi, c);
    }
  }

  /** A reader that fetches the outcomes before the classes never sees more outcomes than packets;
      one that fetches the classes first sees at most one packet without outcome. */
  lemma ReadOrderDecides(mask: int, ws: seq<World>, at: seq<nat>, turn: nat)
    requires Run(mask, ws) && Short(ws) && ReadTimes(ws, at) && turn < |ws|
    ensures at[0] <= turn && at[1] <= turn && (forall c :: 2 <= c < 8 ==> turn <= at[c]) ==>
              Read(ws, at)[0] as int + Read(ws, at)[1] as int <= ClassSum(Read(ws, at))
    ensures turn <= at[0] && turn <= at[1] && (forall c :: 2 <= c < 8 ==> at[c] <= turn) ==>
              ClassSum(Read(ws, at)) <= Read(ws, at)[0] as int + Read(ws, at)[1] as int + 1
  {
    OutcomeLagsByAtMostOne(mask, ws, turn);
    if at[0] <= turn && at[1] <= turn && forall c :: 2 <= c < 8 ==> turn <= at[c] {
      CountersNeverDecrease(mask, ws, at[0], turn, 0);
      CountersNeverDecrease(mask, ws, at[1], turn, 1);
      ClassesBetween(mask, ws, at, turn, |ws| - 1);
    }
    if turn <= at[0] && turn <= at[1] && forall c :: 2 <= c < 8 ==> at[c] <= turn {
      CountersNeverDecrease(mask, ws, turn, at[0], 0);
      CountersNeverDecrease(mask, ws, turn, at[1], 1);
      ClassesBetween(mask, ws, at, 0, turn);
    }
  }
}
