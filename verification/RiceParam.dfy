/** How good the windowed Rice parameter search is: within one bit a value of the best of
    all parameters, and exact under a condition on one extra parameter. */
module RiceParam {
  import opened Words
  import opened Accumulator
  import opened RicePlan

  lemma {:induction false} StepBounds(sum: int, s: int, t: int, l: int, c: int, d: int)
    requires 0 <= l < d && s * d <= sum && sum < (s + c) * d + (if c == 0 then 1 else 0)
    ensures (s + t) * d <= sum + (t * d + l) < (s + t + c + 1) * d
  {
    Distribute(s, t, d);
    Distribute(s + t, c + 1, d);
    Distribute(s, c, d);
    Distribute(c, 1, d);
  }

  lemma {:induction false} SumShrBounds(zz: seq<nat>, k: nat)
    ensures SumShr(zz, k) * Pow2(k) <= SumShr(zz, 0)
    ensures SumShr(zz, 0) < (SumShr(zz, k) + |zz|) * Pow2(k) + (if zz == [] then 1 else 0)
  {
    if zz != [] {
      var c, u := zz[..|zz| - 1], zz[|zz| - 1];
      SumShrBounds(c, k);
      ShrLow(u, k);
      assert Shr(u, 0) == u;
      StepBounds(SumShr(c, 0), SumShr(c, k), Shr(u, k), Low(u, k), |c|, Pow2(k));
    }
  }

  /** Going one parameter up never drops more quotient bits than the step before. */
  lemma {:induction false} SumShrConvex(zz: seq<nat>, k: nat)
    ensures SumShr(zz, k) - SumShr(zz, k + 1) >= SumShr(zz, k + 1) - SumShr(zz, k + 2)
    ensures SumShr(zz, k) >= SumShr(zz, k + 1)
  {
    if zz != [] {
      var u := zz[|zz| - 1];
      SumShrConvex(zz[..|zz| - 1], k);
      ShrNext(u, k);
      ShrNext(u, k + 1);
    }
  }

  lemma {:induction false} ShrNext(u: nat, k: nat)
    ensures Shr(u, k + 1) == Shr(u, k) / 2
  {
    if k > 0 { ShrNext(u / 2, k - 1); }
  }

  /** The saving of one step from parameter k to k+1. */
  function Saving(zz: seq<nat>, k: nat): int
  {
    RiceCost(zz, k) - RiceCost(zz, k + 1)
  }

  lemma {:induction false} SavingFalls(zz: seq<nat>, k: nat)
    ensures Saving(zz, k) >= Saving(zz, k + 1)
  {
    SumShrConvex(zz, k);
    hide SumShr;
    var n := |zz|;
    assert n * (1 + k + 1) == n * (1 + k) + n && n * (1 + k + 2) == n * (1 + k) + 2 * n;
  }

  /** Left of a step that saves bits, smaller parameters only cost more. */
  lemma {:induction false} CostFallsTo(zz: seq<nat>, k: nat, e: nat)
    requires k <= e && Saving(zz, e) >= 0
    ensures RiceCost(zz, k) >= RiceCost(zz, e) && Saving(zz, k) >= 0
    decreases e - k
  {
    hide RiceCost;
    if k < e {
      CostFallsTo(zz, k + 1, e);
      SavingFalls(zz, k);
    }
  }

  /** Right of a step that saves nothing, larger parameters only cost more. */
  lemma {:induction false} CostRisesFrom(zz: seq<nat>, e: nat, k: nat)
    requires e <= k && Saving(zz, e) <= 0
    ensures RiceCost(zz, k) >= RiceCost(zz, e) && Saving(zz, k) <= 0
    ensures Saving(zz, e) < 0 && k > e ==> RiceCost(zz, k) > RiceCost(zz, e)
    decreases k
  {
    hide RiceCost;
    if e < k {
      CostRisesFrom(zz, e, k - 1);
      SavingFalls(zz, k - 1);
    }
  }

  lemma {:induction false} MeanIs(s: nat, n: nat) returns (m: nat)
    requires n > 0
    ensures m == s / n && m * n <= s < (m + 1) * n
  {
    ProductLe(1, n, s);
    MeanBound(s, n, s);
    m := s / n;
    QuotRem(s, n);
    Distribute(m, 1, n);
  }

  lemma {:induction false} MeanFacts(zz: seq<nat>)
    requires zz != []
    ensures SumShr(zz, 0) < |zz| * Pow2(Estimate(zz))
    ensures forall d :: 0 <= d < Estimate(zz) ==> |zz| * Pow2(d) <= SumShr(zz, 0)
  {
    var n := |zz|;
    var m := MeanIs(SumShr(zz, 0), n);
    var e := Len(m);
    assert Estimate(zz) == e;
    hide SumShr, Len, Estimate;
    LenBound(m, e);
    hide Pow2;
    ProductLe(m + 1, Pow2(e), n);
    forall d | 0 <= d < e ensures n * Pow2(d) <= SumShr(zz, 0) {
      LenBound(m, d);
      ProductLe(Pow2(d), m, n);
    }
  }

  /** At the estimate the values cost fewer than one quotient bit each, so no larger
      parameter is cheaper. */
  lemma {:induction false} EstimateStopsSaving(zz: seq<nat>, e: nat)
    requires zz != [] && SumShr(zz, 0) < |zz| * Pow2(e)
    ensures Saving(zz, e) <= 0
  {
    var n, s := |zz|, SumShr(zz, e);
    SumShrBounds(zz, e);
    if s >= n { ProductLe(n, s, Pow2(e)); }
    SumShrConvex(zz, e);
    hide SumShr;
    assert n * (1 + e + 1) == n * (1 + e) + n;
  }

  lemma {:induction false} CloseArith(n: int, d: int, s: int, t: int, D: int, K: int, sum: int)
    requires n > 0 && d >= 1 && s >= 0 && K > 0 && D >= d + 1 && t >= D * s
    requires n * (D * K) <= sum < (t + n) * K
    ensures s + n * d < t + n
  {
    MulAssoc(n, D, K);
    if t + n <= n * D { ProductLe(t + n, n * D, K); }
    ProductLe(d + 1, D, n);
    Distribute(d, 1, n);
    if s > n {
      ProductLe(d + 1, D, s);
      ProductLe(n, s, d);
      Distribute(d, 1, s);
    }
  }

  /** A parameter below a floor of the mean costs less than one bit a value less. */
  lemma {:induction false} BelowIsClose(zz: seq<nat>, e: nat, k: nat)
    requires zz != [] && k < e && |zz| * Pow2(e) <= SumShr(zz, 0)
    ensures RiceCost(zz, e) < RiceCost(zz, k) + |zz|
  {
    hide Pow2, SumShr;
    var n, d, s, t := |zz|, e - k, SumShr(zz, e), SumShr(zz, k);
    SumShrBounds(zz, k);
    Pow2Add(d, k);
    ScaleDown(zz, k, d);
    PowerBeatsLinear(d);
    CloseArith(n, d, s, t, Pow2(d), Pow2(k), SumShr(zz, 0));
    Distribute(1 + k, d, n);
  }

  lemma {:induction false} ScaleDown(zz: seq<nat>, k: nat, d: nat)
    ensures SumShr(zz, k) >= Pow2(d) * SumShr(zz, k + d)
  {
    hide Pow2, Shr;
    if zz != [] {
      var u, p := zz[|zz| - 1], Pow2(d);
      var s, x := SumShr(zz[..|zz| - 1], k + d), Shr(u, k + d);
      ScaleDown(zz[..|zz| - 1], k, d);
      ShrTwice(u, k, d);
      ShrLow(Shr(u, k), d);
      ScaleSum(s, x, p, SumShr(zz[..|zz| - 1], k), Shr(u, k));
    }
  }

  lemma {:induction false} ScaleSum(s: nat, x: nat, p: nat, t: nat, y: nat)
    requires t >= p * s && y >= x * p
    ensures t + y >= p * (s + x)
  {
    Distribute(s, x, p);
  }

  lemma {:induction false} ShrTwice(u: nat, a: nat, b: nat)
    ensures Shr(u, a + b) == Shr(Shr(u, a), b)
  {
    if a > 0 { ShrTwice(u / 2, a - 1, b); }
  }

  lemma {:induction false} PowerBeatsLinear(d: nat)
    ensures Pow2(d) >= d + 1
  {
    if d > 0 { PowerBeatsLinear(d - 1); }
  }

  /** The parameter the window search picks costs fewer than one bit a value more than the
      best of all parameters. */
  lemma {:induction false} ParamWithinOneBit(zz: seq<nat>, k: nat)
    requires zz != [] && k <= 30
    ensures RiceCost(zz, BestParam(zz)) < RiceCost(zz, k) + |zz|
  {
    hide RiceCost, SumShr, Pow2, Saving, Estimate, BestIn;
    var e := Estimate(zz);
    var lo, hi := WindowLo(e), WindowHi(e);
    BestInRange(zz, lo, hi);
    MeanFacts(zz);
    if k > hi {
      EstimateStopsSaving(zz, e);
      CostRisesFrom(zz, e, k);
    } else if k < lo {
      BelowIsClose(zz, lo, k);
    }
  }

  /** 32-bit values never cost more than 35 bits each at the parameter picked. */
  lemma {:induction false} ParamCostBound(zz: seq<nat>)
    requires forall i :: 0 <= i < |zz| ==> zz[i] < Pow2(32)
    ensures RiceCost(zz, BestParam(zz)) <= 35 * |zz|
  {
    hide BestParam;
    if zz == [] {
      NothingCosts(BestParam(zz));
    } else {
      ParamWithinOneBit(zz, 30);
      TopTwoBits(zz);
    }
  }

  lemma {:induction false} NothingCosts(k: nat)
    ensures RiceCost([], k) == 0
  {
  }

  lemma {:induction false} TopTwoBits(zz: seq<nat>)
    requires forall i :: 0 <= i < |zz| ==> zz[i] < Pow2(32)
    ensures SumShr(zz, 30) <= 3 * |zz|
  {
    hide Shr, Pow2;
    if zz != [] {
      TopTwoBits(zz[..|zz| - 1]);
      ShrBound(zz[|zz| - 1], 2, 30);
      assert Pow2(2) == 4 by { Pow2Values(); }
    }
  }

  /** The window search finds a true minimum exactly when the window starts at 0 or its
      first parameter costs no more than the one below it. */
  lemma {:induction false} ParamExactIff(zz: seq<nat>)
    requires zz != []
    ensures (forall k :: 0 <= k <= 30 ==> RiceCost(zz, BestParam(zz)) <= RiceCost(zz, k))
      <==> (WindowLo(Estimate(zz)) == 0
        || RiceCost(zz, WindowLo(Estimate(zz))) <= RiceCost(zz, WindowLo(Estimate(zz)) - 1))
  {
    hide RiceCost, SumShr, Pow2, Estimate, BestIn;
    var e := Estimate(zz);
    var lo, hi, best := WindowLo(e), WindowHi(e), BestParam(zz);
    BestInRange(zz, lo, hi);
    MeanFacts(zz);
    EstimateStopsSaving(zz, e);
    if lo == 0 || RiceCost(zz, lo) <= RiceCost(zz, lo - 1) {
      forall k | 0 <= k <= 30 ensures RiceCost(zz, best) <= RiceCost(zz, k) {
        if k > hi { CostRisesFrom(zz, e, k); }
        if k < lo { CostFallsTo(zz, k, lo - 1); }
      }
    } else {
      assert Saving(zz, lo - 1) < 0;
      CostRisesFrom(zz, lo - 1, best);
    }
  }

  /** The search is not exact: four zigzags whose window starts one parameter too high. */
  lemma {:induction false} ParamNotExact()
    ensures RiceCost([5, 5, 5, 1], BestParam([5, 5, 5, 1])) == 15 && RiceCost([5, 5, 5, 1], 1) == 14
  {
    var zz: seq<nat> := [5, 5, 5, 1];
    Sums(0);
    Sums(1);
    Sums(2);
    Sums(3);
    Sums(4);
    Sums(5);
    Shifts();
    assert Len(4) == 3;
    hide SumShr;
    BestStep(zz, 2, 3);
    BestStep(zz, 2, 4);
    BestStep(zz, 2, 5);
  }

  lemma {:induction false} Sums(k: nat)
    ensures SumShr([5, 5, 5, 1], k) == 3 * Shr(5, k) + Shr(1, k)
  {
    hide Shr;
    var zz: seq<nat> := [5, 5, 5, 1];
    assert zz[..3] == [5, 5, 5] && zz[..3][..2] == [5, 5] && zz[..3][..2][..1] == [5] && zz[..3][..2][..1][..0] == [];
    assert SumShr([5], k) == Shr(5, k);
    assert SumShr([5, 5], k) == 2 * Shr(5, k);
    assert SumShr([5, 5, 5], k) == 3 * Shr(5, k);
  }

  lemma {:induction false} Shifts()
    ensures Shr(5, 0) == 5 && Shr(5, 1) == 2 && Shr(5, 2) == 1 && Shr(5, 3) == 0 && Shr(5, 4) == 0 && Shr(5, 5) == 0
    ensures Shr(1, 0) == 1 && Shr(1, 1) == 0 && Shr(1, 2) == 0 && Shr(1, 3) == 0 && Shr(1, 4) == 0 && Shr(1, 5) == 0
  {
    assert Shr(5, 2) == Shr(2, 1) == Shr(1, 0);
    assert Shr(0, 1) == 0 && Shr(0, 2) == 0 && Shr(0, 3) == 0;
    assert Shr(5, 3) == Shr(2, 2) == Shr(1, 1) == Shr(0, 0);
    assert Shr(5, 4) == Shr(2, 3) == Shr(1, 2) == Shr(0, 1);
    assert Shr(5, 5) == Shr(2, 4) == Shr(1, 3) == Shr(0, 2);
    assert Shr(1, 4) == Shr(0, 3);
    assert Shr(1, 5) == Shr(0, 4) == Shr(0, 3);
  }
}
