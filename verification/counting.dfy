/** Occurrence counts of sequences, and the exact per-key accounting of the reference code. */
module Counting {
  import opened Words

  function Occ<T(==)>(xs: seq<T>, x: T): nat {
    if xs == [] then 0 else Occ(xs[..|xs| - 1], x) + (if xs[|xs| - 1] == x then 1 else 0)
  }

  /** The subsequence of xs without the copies of x. */
  function Without<T(==)>(xs: seq<T>, x: T): seq<T> {
    if xs == [] then []
    else
      var rest := Without(xs[..|xs| - 1], x);
      if xs[|xs| - 1] == x then rest else rest + [xs[|xs| - 1]]
  }

  /** The elements that are among the first n copies of their value: an exact dictionary of
      counters reports precisely these. */
  function FirstCopies<T(==)>(n: nat, xs: seq<T>): seq<T> {
    if xs == [] then []
    else
      var prev, x := xs[..|xs| - 1], xs[|xs| - 1];
      if Occ(prev, x) < n then FirstCopies(n, prev) + [x] else FirstCopies(n, prev)
  }

  /** Sum over the distinct values of xs of min(n, occurrences). */
  function SumOfMinima<T(==)>(n: nat, xs: seq<T>): nat
    decreases |xs|
  {
    if xs == [] then 0
    else
      WithoutShrinks(xs, xs[0]);
      Min(n, Occ(xs, xs[0])) + SumOfMinima(n, Without(xs, xs[0]))
  }

  lemma OccSnoc<T>(xs: seq<T>, y: T, x: T)
    ensures Occ(xs + [y], x) == Occ(xs, x) + (if x == y then 1 else 0)
  {
    assert (xs + [y])[..|xs|] == xs;
  }

  lemma {:induction false} OccPositive<T>(xs: seq<T>, i: nat)
    requires i < |xs|
    ensures Occ(xs, xs[i]) > 0
  {
    if i == |xs| - 1 {
    } else {
      OccPositive(xs[..|xs| - 1], i);
    }
  }

  lemma {:induction false} OccConcat<T>(a: seq<T>, b: seq<T>, x: T)
    ensures Occ(a + b, x) == Occ(a, x) + Occ(b, x)
  {
    if b == [] {
      assert a + b == a;
    } else {
      var m := |b| - 1;
      assert (a + b)[..|a| + m] == a + b[..m];
      OccConcat(a, b[..m], x);
    }
  }

  lemma {:induction false} WithoutCounts<T>(xs: seq<T>, x: T, y: T)
    ensures Occ(Without(xs, x), y) == if x == y then 0 else Occ(xs, y)
    ensures |Without(xs, x)| == |xs| - Occ(xs, x)
  {
    if xs == [] {
    } else {
      WithoutCounts(xs[..|xs| - 1], x, y);
      OccSnoc(Without(xs[..|xs| - 1], x), xs[|xs| - 1], y);
    }
  }

  lemma WithoutShrinks<T>(xs: seq<T>, x: T)
    ensures |Without(xs, x)| == |xs| - Occ(xs, x)
    ensures xs != [] && x == xs[0] ==> |Without(xs, x)| < |xs|
  {
    WithoutCounts(xs, x, x);
    if xs != [] {
      OccPositive(xs, 0);
    }
  }

  lemma {:induction false} FirstCopiesCounts<T>(n: nat, xs: seq<T>, x: T)
    ensures Occ(FirstCopies(n, xs), x) == Min(n, Occ(xs, x))
  {
    if xs == [] {
    } else {
      var prev, y := xs[..|xs| - 1], xs[|xs| - 1];
      FirstCopiesCounts(n, prev, x);
      OccSnoc(FirstCopies(n, prev), y, x);
    }
  }

  lemma Distributes(n: nat, a: nat, b: nat)
    ensures n * (a + b) == n * a + n * b
  {
  }

  /** Per-value bounds add up to a bound on lengths. */
  lemma {:induction false} CountsBoundLength<T(!new)>(h: seq<T>, e: seq<T>, n: nat, v: seq<T>)
    requires forall x :: Occ(h, x) <= Occ(e, x) + n * Occ(v, x)
    ensures |h| <= |e| + n * |v|
    decreases |h|
  {
    if h == [] {
    } else {
      var x := h[0];
      WithoutShrinks(h, x);
      var h', e', v' := Without(h, x), Without(e, x), Without(v, x);
      forall y
        ensures Occ(h', y) <= Occ(e', y) + n * Occ(v', y)
      {
        WithoutCounts(h, x, y);
        WithoutCounts(e, x, y);
        WithoutCounts(v, x, y);
      }
      CountsBoundLength(h', e', n, v');
      WithoutShrinks(e, x);
      WithoutShrinks(v, x);
      Distributes(n, |v'|, Occ(v, x));
    }
  }

  lemma {:induction false} MinimaAddUp<T(!new)>(n: nat, xs: seq<T>, e: seq<T>)
    requires forall x :: Occ(e, x) == Min(n, Occ(xs, x))
    ensures |e| == SumOfMinima(n, xs)
    decreases |xs|
  {
    if xs == [] {
      if e != [] {
        OccPositive(e, 0);
      }
    } else {
      var x := xs[0];
      WithoutShrinks(xs, x);
      WithoutShrinks(e, x);
      forall y
        ensures Occ(Without(e, x), y) == Min(n, Occ(Without(xs, x), y))
      {
        WithoutCounts(e, x, y);
        WithoutCounts(xs, x, y);
      }
      MinimaAddUp(n, Without(xs, x), Without(e, x));
    }
  }

  /** Exact accounting reports, in total, min(n, occurrences) elements per distinct value. */
  lemma ExactHeadTotal<T(!new)>(n: nat, xs: seq<T>)
    ensures |FirstCopies(n, xs)| == SumOfMinima(n, xs)
  {
    forall x
      ensures Occ(FirstCopies(n, xs), x) == Min(n, Occ(xs, x))
    {
      FirstCopiesCounts(n, xs, x);
    }
    MinimaAddUp(n, xs, FirstCopies(n, xs));
  }

  /** The element after a prefix is a first copy exactly when it has fewer than n earlier copies. */
  lemma FirstCopiesSnoc<T>(n: nat, xs: seq<T>, x: T)
    ensures FirstCopies(n, xs + [x]) == FirstCopies(n, xs) + (if Occ(xs, x) < n then [x] else [])
  {
    assert (xs + [x])[..|xs|] == xs;
  }

  lemma {:induction false} RenamingKeepsOcc<S, T>(xs: seq<S>, ys: seq<T>, x: S, y: T)
    requires |xs| == |ys| && forall i :: 0 <= i < |xs| && xs[i] == x ==> ys[i] == y
    ensures Occ(xs, x) <= Occ(ys, y)
    ensures (forall i :: 0 <= i < |xs| && ys[i] == y ==> xs[i] == x) ==> Occ(xs, x) == Occ(ys, y)
  {
    if xs == [] {
    } else {
      RenamingKeepsOcc(xs[..|xs| - 1], ys[..|xs| - 1], x, y);
    }
  }

  /** Replacing values by names never adds first copies, and keeps their number when distinct
      values have distinct names. */
  lemma {:induction false} RenamingKeepsFirstCopies<S, T>(n: nat, xs: seq<S>, ys: seq<T>)
    requires |xs| == |ys| && forall i, j :: 0 <= i < |xs| && 0 <= j < |xs| && xs[i] == xs[j] ==> ys[i] == ys[j]
    ensures |FirstCopies(n, ys)| <= |FirstCopies(n, xs)|
    ensures (forall i, j :: 0 <= i < |xs| && 0 <= j < |xs| && ys[i] == ys[j] ==> xs[i] == xs[j])
              ==> |FirstCopies(n, ys)| == |FirstCopies(n, xs)|
  {
    if xs == [] {
    } else {
      var m := |xs| - 1;
      RenamingKeepsFirstCopies(n, xs[..m], ys[..m]);
      RenamingKeepsOcc(xs[..m], ys[..m], xs[m], ys[m]);
    }
  }

  /** The count is the multiplicity. */
  lemma {:induction false} OccIsMultiplicity<T>(xs: seq<T>, x: T)
    ensures Occ(xs, x) == multiset(xs)[x]
  {
    if xs == [] {
    } else {
      OccIsMultiplicity(xs[..|xs| - 1], x);
      assert xs == xs[..|xs| - 1] + [xs[|xs| - 1]];
    }
  }

  // ---- sums ----

  function Sum(xs: seq<nat>): nat {
    if xs == [] then 0 else Sum(xs[..|xs| - 1]) + xs[|xs| - 1]
  }

  /** A sum adds up its elements: it is additive, and the element itself on one. */
  lemma {:induction false} SumAddsUp(xs: seq<nat>, ys: seq<nat>, x: nat)
    ensures Sum(xs + ys) == Sum(xs) + Sum(ys) && Sum([x]) == x && Sum([]) == 0
  {
    assert [x][..0] == [];
    if ys == [] {
      assert xs + ys == xs;
    } else {
      SumAddsUp(xs, ys[..|ys| - 1], x);
      assert (xs + ys)[..|xs + ys| - 1] == xs + ys[..|ys| - 1];
    }
  }
}
