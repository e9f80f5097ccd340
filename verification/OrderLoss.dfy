/** Exhaustive pricing compares fixed orders without their warm-up (internal/frame/subframe_encode.go):
    an input for which a lower order than the one chosen makes a shorter subframe. */
module OrderLoss {
  import opened Words
  import opened Cursor
  import opened Rice
  import opened RiceWriter
  import opened RicePlan
  import opened Predict
  import opened FixedRestore
  import opened SubframeSyntax
  import opened SubframeEncode

  const STEP: seq<int> := [1, 0, 0]

  lemma {:induction false} SmallWrap(v: int)
    requires -4 <= v <= 4
    ensures Wrap(v, 32) == v && Wrap(v, 64) == v
  {
    Pow2Values();
    assert Fits(v, 32) && Fits(v, 64) by { assert Pow2(31) > 4 && Pow2(63) > 4; }
    WrapFits(v, 32);
    WrapFits(v, 64);
  }

  lemma {:induction false} StepDot(k: nat, h: seq<int>)
    requires k <= 2 && k <= |h|
    ensures Dot(FixedCoeffs(k), h) == if k == 0 then 0 else if k == 1 then h[|h| - 1]
      else 2 * h[|h| - 1] - h[|h| - 2]
  {
    assert Dot([], h) == 0;
    if k == 1 {
      assert [1][..0] == [];
    } else if k == 2 {
      assert [2, -1][..1] == [2] && [2][..0] == [];
      assert Dot([2], h) == 2 * h[|h| - 1];
    }
  }

  /** The residuals of the first three orders. */
  lemma {:induction false} StepResidual(k: nat, i: nat)
    requires k <= 2 && k <= i < 3
    ensures ResidualAt(32, FixedCoeffs(k), 0, STEP, i)
      == STEP[i] - if k == 0 then 0 else if k == 1 then STEP[i - 1] else 2 * STEP[i - 1] - STEP[i - 2]
  {
    hide Wrap, Dot, FixedCoeffs, Pow2;
    var h := STEP[..i];
    Pow2Values();
    StepDot(k, h);
    var d := Dot(FixedCoeffs(k), h);
    SmallWrap(d);
    SmallWrap(STEP[i] - d);
  }

  lemma {:induction false} StepResiduals()
    ensures Residuals(32, FixedCoeffs(0), 0, STEP) == [1, 0, 0] && Residuals(32, FixedCoeffs(1), 0, STEP) == [-1, 0]
    ensures Residuals(32, FixedCoeffs(2), 0, STEP) == [1]
  {
    hide ResidualAt;
    StepResidual(0, 0);
    StepResidual(0, 1);
    StepResidual(0, 2);
    StepResidual(1, 1);
    StepResidual(1, 2);
    StepResidual(2, 2);
  }

  // ---- their sections ----

  lemma {:induction false} Sums(a: nat, k: nat)
    ensures SumShr([a], k) == Shr(a, k) && SumShr([a, 0], k) == Shr(a, k) + Shr(0, k)
    ensures SumShr([a, 0, 0], k) == Shr(a, k) + Shr(0, k) + Shr(0, k)
  {
    hide Shr;
    var zz: seq<nat> := [a, 0, 0];
    assert zz[..2] == [a, 0] && zz[..2][..1] == [a] && [a][..0] == [];
    assert [a, 0][..1] == [a];
    assert SumShr([], k) == 0;
    assert SumShr([a], k) == Shr(a, k);
    assert SumShr([a, 0], k) == Shr(a, k) + Shr(0, k);
  }

  lemma {:induction false} Shifts()
    ensures Shr(2, 0) == 2 && Shr(2, 1) == 1 && Shr(2, 2) == 0 && Shr(2, 3) == 0 && Shr(2, 4) == 0
    ensures Shr(1, 0) == 1 && Shr(1, 1) == 0 && Shr(1, 2) == 0
    ensures Shr(0, 0) == 0 && Shr(0, 1) == 0 && Shr(0, 2) == 0
    ensures Len(0) == 0 && Len(1) == 1 && Len(2) == 2
  {
  }

  lemma {:induction false} Maxima(a: nat)
    ensures MaxOf([a]) == a && MaxOf([a, 0]) == a && MaxOf([a, 0, 0]) == a
  {
    assert [a, 0, 0][..2] == [a, 0] && [a, 0][..1] == [a] && [a][..0] == [];
    assert MaxOf([a]) == a;
    assert MaxOf([a, 0]) == a;
  }

  lemma {:induction false} PlanOfThree()
    ensures PlanPartition([2, 0, 0]) == PartPlan(false, 0, 0, 5)
  {
    Sums(2, 0);
    Sums(2, 1);
    Sums(2, 2);
    Shifts();
    Maxima(2);
    hide SumShr, Shr, Len, MaxOf;
    var zz: seq<nat> := [2, 0, 0];
    BestStep(zz, 0, 0);
    BestStep(zz, 0, 1);
    BestStep(zz, 0, 2);
  }

  lemma {:induction false} PlanOfTwo()
    ensures PlanPartition([1, 0]) == PartPlan(false, 0, 0, 3)
  {
    Sums(1, 0);
    Sums(1, 1);
    Sums(1, 2);
    Shifts();
    Maxima(1);
    hide SumShr, Shr, Len, MaxOf;
    var zz: seq<nat> := [1, 0];
    BestStep(zz, 0, 0);
    BestStep(zz, 0, 1);
    BestStep(zz, 0, 2);
  }

  lemma {:induction false} PlanOfOne()
    ensures PlanPartition([2]) == PartPlan(false, 1, 0, 3)
  {
    Sums(2, 0);
    Sums(2, 1);
    Sums(2, 2);
    Sums(2, 3);
    Sums(2, 4);
    Shifts();
    Maxima(2);
    hide SumShr, Shr, Len, MaxOf;
    var zz: seq<nat> := [2];
    BestStep(zz, 1, 1);
    BestStep(zz, 1, 2);
    BestStep(zz, 1, 3);
    BestStep(zz, 1, 4);
  }

  /** A section of one partition. */
  lemma {:induction false} OneTotal(zz: seq<nat>, n: nat, order: nat)
    requires order <= n && |zz| == n - order && !PlanPartition(zz).escape && PlanPartition(zz).param <= 14
    ensures TotalAt(zz, n, order, 0) == 10 + PlanPartition(zz).payload
  {
    hide PlanPartition;
    assert PartLen(n, 0) == n && Pow2(0) == 1;
    assert Part(zz, order, n, 0) == zz;
    var plans := PlansAt(zz, n, order, 0);
    assert plans == [PlanPartition(zz)];
    OnlyPlan(PlanPartition(zz));
  }

  lemma {:induction false} OnlyPlan(pl: PartPlan)
    requires !WideParam(pl)
    ensures ParamBits([pl]) == 4 && PlannedBits([pl], 4) == 4 + pl.payload
  {
    assert [pl][1..] == [];
  }

  lemma {:induction false} Folds()
    ensures FoldAll([1, 0, 0]) == [2, 0, 0] && FoldAll([-1, 0]) == [1, 0] && FoldAll([1]) == [2]
  {
  }

  /** Three samples do not split, so the price of a residual is that of one partition. */
  lemma {:induction false} StepCosts(limit: nat)
    ensures CostOf([1, 0, 0], 3, 0, limit) == 15 && CostOf([-1, 0], 3, 1, limit) == 13 && CostOf([1], 3, 2, limit) == 13
  {
    hide PlanPartition, TotalAt, FoldAll;
    Folds();
    PlanOfThree();
    PlanOfTwo();
    PlanOfOne();
    OneTotal([2, 0, 0], 3, 0);
    OneTotal([1, 0], 3, 1);
    OneTotal([2], 3, 2);
    Unsplit(0, Min(limit, 15));
    Unsplit(1, Min(limit, 15));
    Unsplit(2, Min(limit, 15));
  }

  lemma {:induction false} Unsplit(order: nat, limit: nat)
    ensures LargestOrder(3, order, limit, 0) == 0
  {
    assert Pow2(1) == 2;
  }

  /** Order 1 has the shortest section of the block 1, 0, 0 and is chosen, but with its warm-up
      its subframe is longer than that of order 0, whatever the depth. */
  lemma {:induction false} ExhaustiveNotShortest(p: Params, bps: nat)
    requires p.exhaustiveFixed && bps > 0
    ensures FixedChosen(STEP, 1, p, 32) && Splits(3, 0, 0) && Splits(3, 1, 0)
    ensures FixedLen(STEP, 0, 1, 0, bps, 32) == 21 + bps && FixedLen(STEP, 0, 0, 0, bps, 32) == 23
  {
    hide CostOf, Residuals, FixedCoeffs, EmitSub, FoldAll, PlanPartition, TotalAt, SectionLen, CodingAt;
    StepResiduals();
    StepCosts(p.maxPartitionOrder);
    Folds();
    PlanOfThree();
    PlanOfTwo();
    OneTotal([2, 0, 0], 3, 0);
    OneTotal([1, 0], 3, 1);
    assert Pow2(0) == 1;
    FixedSubLength(STEP, 0, 0, 0, bps, 32);
    FixedSubLength(STEP, 0, 1, 0, bps, 32);
    SectionIsTotal([1, 0, 0], 3, 0, 0);
    SectionIsTotal([-1, 0], 3, 1, 0);
  }
}
