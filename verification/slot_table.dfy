/** Theory of an open-addressing table with linear probing, over any home-slot function.
    A slot holding 0 is empty; every other value is a key. */
module SlotTable {
  import opened Words

  type Home = u32 -> nat

  /** k lies on the wrap-around walk that starts at h and stops just before j. */
  predicate Between(h: nat, k: nat, j: nat) {
    if h <= j then h <= k < j else h <= k || k < j
  }

  /** Number of steps of the wrap-around walk from a to b in a table of cap slots. */
  function Dist(cap: nat, a: nat, b: nat): nat
    requires a < cap && b < cap
  {
    if a <= b then b - a else b + cap - a
  }

  function Next(cap: nat, j: nat): nat
    requires j < cap
  {
    if j + 1 == cap then 0 else j + 1
  }

  ghost predicate InRange(cap: nat, home: Home) {
    forall w: u32 :: home(w) < cap
  }

  ghost predicate NoDuplicates(slots: seq<u32>) {
    forall i, j :: 0 <= i < j < |slots| && slots[i] == slots[j] ==> slots[i] == 0
  }

  /** No empty slot lies between the home of a key and the slot that holds the key. */
  ghost predicate NoHole(slots: seq<u32>, home: Home) {
    forall j, k :: 0 <= j < |slots| && slots[j] != 0 && 0 <= k < |slots| && Between(home(slots[j]), k, j)
      ==> slots[k] != 0
  }

  ghost predicate Sound(slots: seq<u32>, home: Home) {
    InRange(|slots|, home) && NoDuplicates(slots) && NoHole(slots, home)
  }

  ghost function Members(slots: seq<u32>): set<u32> {
    set w | w in slots && w != 0
  }

  ghost function Occupied(slots: seq<u32>): set<nat> {
    set j: nat | j < |slots| && slots[j] != 0
  }

  /** A search for w that has walked from its home to j without meeting w or an empty slot. */
  ghost predicate Probed(slots: seq<u32>, home: Home, w: u32, j: nat) {
    forall k :: 0 <= k < |slots| && Between(home(w), k, j) ==> slots[k] != 0 && slots[k] != w
  }

  // ---- counting ----

  ghost function Below(n: nat): (r: set<nat>)
    ensures |r| == n
    ensures forall j: nat :: j in r <==> j < n
  {
    if n == 0 then {} else Below(n - 1) + {n - 1}
  }

  lemma {:induction false} SubsetSize<T>(a: set<T>, b: set<T>)
    requires a <= b
    ensures |a| <= |b|
    ensures |a| == |b| ==> a == b
  {
    if a == {} {
    } else {
      var x :| x in a;
      SubsetSize(a - {x}, b - {x});
    }
  }

  ghost function KeysAt(slots: seq<u32>, at: set<nat>): set<u32>
    requires at <= Occupied(slots)
  {
    set j | j in at :: slots[j]
  }

  /** Distinct occupied slots hold distinct keys. */
  lemma {:induction false} KeysAtSize(slots: seq<u32>, at: set<nat>)
    requires NoDuplicates(slots) && at <= Occupied(slots)
    ensures |KeysAt(slots, at)| == |at|
    decreases |at|
  {
    if at == {} {
      assert KeysAt(slots, at) == {};
    } else {
      hide NoDuplicates, KeysAt;
      var j :| j in at;
      KeysAtSize(slots, at - {j});
      KeysAtWithout(slots, at, j);
    }
  }

  lemma KeysAtWithout(slots: seq<u32>, at: set<nat>, j: nat)
    requires NoDuplicates(slots) && at <= Occupied(slots) && j in at
    ensures KeysAt(slots, at) == KeysAt(slots, at - {j}) + {slots[j]}
    ensures slots[j] !in KeysAt(slots, at - {j})
  {
  }

  /** The number of occupied slots is the number of distinct keys. */
  lemma OccupiedCountsMembers(slots: seq<u32>)
    requires NoDuplicates(slots)
    ensures |Occupied(slots)| == |Members(slots)|
  {
    KeysAtSize(slots, Occupied(slots));
    assert KeysAt(slots, Occupied(slots)) == Members(slots);
  }

  lemma FullTableOccupiesAll(slots: seq<u32>)
    requires forall j :: 0 <= j < |slots| ==> slots[j] != 0
    ensures |Occupied(slots)| == |slots|
  {
    assert Occupied(slots) == Below(|slots|);
  }

  lemma EmptySlotExists(slots: seq<u32>) returns (e: nat)
    requires |Occupied(slots)| < |slots|
    ensures e < |slots| && slots[e] == 0
  {
    if forall j :: 0 <= j < |slots| ==> slots[j] != 0 {
      FullTableOccupiesAll(slots);
    }
    e :| 0 <= e < |slots| && slots[e] == 0;
  }

  // ---- search and insertion ----

  lemma EmptyTableIsSound(cap: nat, home: Home)
    requires InRange(cap, home)
    ensures var s := seq(cap, _ => 0); Sound(s, home) && Members(s) == {} && Occupied(s) == {}
  {
  }

  /** Reaching an empty slot proves the key absent. */
  lemma AbsentAtHole(slots: seq<u32>, home: Home, w: u32, j: nat)
    requires Sound(slots, home) && w != 0 && j < |slots| && slots[j] == 0
    requires Probed(slots, home, w, j)
    ensures w !in slots
  {
    forall i | 0 <= i < |slots|
      ensures slots[i] != w
    {
      assert i == j || Between(home(w), j, i) || Between(home(w), i, j);
    }
  }

  /** Writing a key into the slot where its search stopped keeps the table sound. */
  lemma PlaceKeepsSound(slots: seq<u32>, home: Home, w: u32, j: nat)
    requires Sound(slots, home) && w != 0 && j < |slots|
    requires Probed(slots, home, w, j) && (slots[j] == 0 || slots[j] == w)
    ensures Sound(slots[j := w], home)
    ensures Members(slots[j := w]) == Members(slots) + {w}
    ensures Occupied(slots[j := w]) == Occupied(slots) + {j}
  {
    var s := slots[j := w];
    if slots[j] == 0 {
      AbsentAtHole(slots, home, w, j);
    } else {
      assert s == slots;
    }
    assert NoHole(s, home) by {
      forall i, k | 0 <= i < |s| && s[i] != 0 && 0 <= k < |s| && Between(home(s[i]), k, i)
        ensures s[k] != 0
      {
        if i != j && k != j {
          assert slots[i] == s[i] && slots[k] == s[k];
        }
      }
    }
    assert Members(s) == Members(slots) + {w} by {
      assert s[j] == w;
      forall x | x in Members(slots)
        ensures x in s
      {
        var i :| 0 <= i < |slots| && slots[i] == x;
        assert s[i] == x;
      }
    }
  }

  /** The table answers membership: the slot where the search stops decides it. */
  lemma StopDecidesMembership(slots: seq<u32>, home: Home, w: u32, j: nat)
    requires Sound(slots, home) && w != 0 && j < |slots|
    requires Probed(slots, home, w, j) && (slots[j] == 0 || slots[j] == w)
    ensures slots[j] == w <==> w in Members(slots)
  {
    if slots[j] == 0 {
      AbsentAtHole(slots, home, w, j);
    }
  }

  /** A search for w stands at j; every slot it passed is taken by another key, and the empty
      slot e is still ahead of it. */
  ghost predicate Searching(slots: seq<u32>, home: Home, w: u32, j: nat, e: nat) {
    && InRange(|slots|, home) && j < |slots| && e < |slots| && slots[e] == 0
    && Probed(slots, home, w, j)
    && Dist(|slots|, home(w), j) + Dist(|slots|, j, e) == Dist(|slots|, home(w), e)
  }

  lemma ProbeStep(slots: seq<u32>, home: Home, w: u32, j: nat, e: nat)
    requires Searching(slots, home, w, j, e) && slots[j] != 0 && slots[j] != w
    ensures var n := Next(|slots|, j);
            && Searching(slots, home, w, n, e)
            && Dist(|slots|, home(w), n) == Dist(|slots|, home(w), j) + 1
            && Dist(|slots|, n, e) == Dist(|slots|, j, e) - 1
  {
    var n := Next(|slots|, j);
    assert j != e;
    forall k | 0 <= k < |slots| && Between(home(w), k, n)
      ensures slots[k] != 0 && slots[k] != w
    {
      if k != j {
        assert Between(home(w), k, j);
      }
    }
  }

  // ---- the layout depends only on the key set ----

  /** The empty slot nearest before p, walking backwards around the table. */
  lemma {:induction false} NearestHole(slots: seq<u32>, p: nat, e: nat) returns (q: nat)
    requires p < |slots| && slots[p] != 0 && e < |slots| && slots[e] == 0
    ensures q < |slots| && slots[q] == 0
    ensures forall k :: 0 <= k < |slots| && Between(q, k, p) && k != q ==> slots[k] != 0
    decreases Dist(|slots|, e, p)
  {
    var b := if p == 0 then |slots| - 1 else p - 1;
    if slots[b] == 0 {
      q := b;
    } else {
      q := NearestHole(slots, b, e);
      forall k | 0 <= k < |slots| && Between(q, k, p) && k != q
        ensures slots[k] != 0
      {
        if k != b {
          assert Between(q, k, b);
        }
      }
    }
  }

  ghost function Cluster(cap: nat, q: nat, p: nat): set<nat> {
    set k: nat | k < cap && k != q && (k == p || Between(q, k, p))
  }

  /** A slot occupied in one sound table is occupied in every sound table with the same keys:
      otherwise the keys that fill the cluster up to p would have to fit in one slot fewer. */
  lemma OccupiedTransfers(s: seq<u32>, t: seq<u32>, home: Home, p: nat)
    requires Sound(s, home) && Sound(t, home) && |s| == |t| && Members(s) == Members(t)
    requires |Occupied(s)| < |s| && p < |s| && s[p] != 0
    ensures t[p] != 0
  {
    var e := EmptySlotExists(s);
    var q := NearestHole(s, p, e);
    var a := Cluster(|s|, q, p);
    assert p in a;
    if t[p] == 0 {
      assert a <= Occupied(s);
      var keys := KeysAt(s, a);
      KeysAtSize(s, a);
      var b := set j | j in Occupied(t) && t[j] in keys;
      assert b <= a - {p} by {
        forall j | j in b
          ensures j in a - {p}
        {
          var i :| i in a && s[i] == t[j];
          ClusterConfines(s, t, home, q, p, i, j);
        }
      }
      assert KeysAt(t, b) == keys by {
        forall w | w in keys
          ensures w in KeysAt(t, b)
        {
          assert w in Members(s) && w in Members(t);
          var j :| 0 <= j < |t| && t[j] == w;
          assert j in b;
        }
      }
      KeysAtSize(t, b);
      SubsetSize(b, a - {p});
    }
  }

  /** The key of slot i of the cluster has its home inside the cluster, so in a table where p is
      empty it cannot have been pushed past p. */
  lemma ClusterConfines(s: seq<u32>, t: seq<u32>, home: Home, q: nat, p: nat, i: nat, j: nat)
    requires Sound(s, home) && Sound(t, home) && |s| == |t| && p < |s| && q < |s| && q != p
    requires s[q] == 0 && t[p] == 0 && i in Cluster(|s|, q, p) && s[i] != 0
    requires j < |t| && t[j] == s[i]
    ensures j in Cluster(|s|, q, p) && j != p
  {
    var h := home(s[i]);
    assert !Between(h, q, i);
    assert !Between(h, p, j);
  }

  /** Two sound tables of one size with the same keys occupy the same slots, whatever the order
      and multiplicity of the insertions that filled them. */
  lemma LayoutIndependentOfOrder(s: seq<u32>, t: seq<u32>, home: Home)
    requires Sound(s, home) && Sound(t, home) && |s| == |t|
    requires Members(s) == Members(t) && |Members(s)| < |s|
    ensures Occupied(s) == Occupied(t) && |Occupied(s)| == |Members(s)|
  {
    OccupiedCountsMembers(s);
    OccupiedCountsMembers(t);
    forall p: nat | p < |s|
      ensures p in Occupied(s) <==> p in Occupied(t)
    {
      if s[p] != 0 {
        OccupiedTransfers(s, t, home, p);
      } else if t[p] != 0 {
        OccupiedTransfers(t, s, home, p);
      }
    }
  }

  // ---- search cost ----

  ghost predicate AtHome(slots: seq<u32>, home: Home) {
    forall j :: 0 <= j < |slots| && slots[j] != 0 ==> home(slots[j]) == j
  }

  ghost predicate HomesDistinct(keys: set<u32>, home: Home) {
    forall x, y :: x in keys && y in keys && home(x) == home(y) ==> x == y
  }

  lemma HomeTellsSlot(slots: seq<u32>, home: Home, i: nat, j: nat)
    requires NoDuplicates(slots) && HomesDistinct(Members(slots), home)
    requires i < |slots| && j < |slots| && slots[i] != 0 && slots[j] != 0
    ensures home(slots[i]) == home(slots[j]) ==> i == j
  {
    assert slots[i] in Members(slots) && slots[j] in Members(slots);
  }

  /** In a cluster that starts right after an empty slot q, distinct homes leave every key at home. */
  lemma {:induction false} ClusterAtHome(slots: seq<u32>, home: Home, q: nat, p: nat)
    requires Sound(slots, home) && HomesDistinct(Members(slots), home)
    requires q < |slots| && slots[q] == 0 && p < |slots| && slots[p] != 0
    requires forall k :: 0 <= k < |slots| && Between(q, k, p) && k != q ==> slots[k] != 0
    ensures home(slots[p]) == p
    decreases Dist(|slots|, q, p)
  {
    var h := home(slots[p]);
    if h == p {
    } else {
      assert !Between(h, q, p);
      assert Between(q, h, p) && h != q;
      forall k | 0 <= k < |slots| && Between(q, k, h) && k != q
        ensures slots[k] != 0
      {
        assert Between(q, k, p);
      }
      ClusterAtHome(slots, home, q, h);
      HomeTellsSlot(slots, home, h, p);
    }
  }

  /** Every key is found by its first probe exactly when no two keys share a home. */
  lemma FirstProbeIffHomesDistinct(slots: seq<u32>, home: Home)
    requires Sound(slots, home) && |Members(slots)| < |slots|
    ensures AtHome(slots, home) <==> HomesDistinct(Members(slots), home)
  {
    if HomesDistinct(Members(slots), home) {
      OccupiedCountsMembers(slots);
      var e := EmptySlotExists(slots);
      forall p | 0 <= p < |slots| && slots[p] != 0
        ensures home(slots[p]) == p
      {
        var q := NearestHole(slots, p, e);
        ClusterAtHome(slots, home, q, p);
      }
    }
    if AtHome(slots, home) {
      forall x, y | x in Members(slots) && y in Members(slots) && home(x) == home(y)
        ensures x == y
      {
        var i :| 0 <= i < |slots| && slots[i] == x;
        var j :| 0 <= j < |slots| && slots[j] == y;
      }
    }
  }

  ghost function Run(cap: nat, h: nat, d: nat): set<nat>
    requires h < cap
  {
    set j: nat | j < cap && Dist(cap, h, j) < d
  }

  lemma {:induction false} RunSize(cap: nat, h: nat, d: nat)
    requires h < cap && d <= cap
    ensures |Run(cap, h, d)| == d
  {
    if d == 0 {
      assert Run(cap, h, d) == {};
    } else {
      RunSize(cap, h, d - 1);
      var j := RunGrows(cap, h, d - 1);
    }
  }

  lemma RunGrows(cap: nat, h: nat, d: nat) returns (j: nat)
    requires h < cap && d < cap
    ensures j !in Run(cap, h, d) && Run(cap, h, d + 1) == Run(cap, h, d) + {j}
  {
    j := if h + d < cap then h + d else h + d - cap;
    assert forall k: nat :: k < cap && Dist(cap, h, k) == d <==> k == j;
  }

  /** When all m keys share one home h, they fill the m slots from h on: for every d < m some key
      is found only by the probe number d + 1, so the table behaves like a linear scan. */
  lemma SharedHomeIsLinearScan(slots: seq<u32>, home: Home, h: nat)
    requires Sound(slots, home) && |Members(slots)| < |slots| && h < |slots|
    requires forall w :: w in Members(slots) ==> home(w) == h
    ensures Occupied(slots) == Run(|slots|, h, |Members(slots)|)
  {
    var m := |Members(slots)|;
    OccupiedCountsMembers(slots);
    RunSize(|slots|, h, m);
    var o := Occupied(slots);
    forall j | j in o
      ensures Dist(|slots|, h, j) < m
    {
      var d := Dist(|slots|, h, j) + 1;
      RunSize(|slots|, h, d);
      assert home(slots[j]) == h;
      assert Run(|slots|, h, d) <= o by {
        forall k | k in Run(|slots|, h, d)
          ensures slots[k] != 0
        {
          assert k == j || Between(h, k, j);
        }
      }
      SubsetSize(Run(|slots|, h, d), o);
    }
    assert o <= Run(|slots|, h, m);
    SubsetSize(o, Run(|slots|, h, m));
  }
}
