/** The residual planner of internal/rice/encode.go: cost tables built once at the finest
    partition order and merged upward in place, against planning by rescanning. */
module RicePlan {
  import opened Words
  import opened Cursor
  import opened Rice
  import opened RiceWriter

  // ---- the specification: rescanning each partition ----

  function SumShr(zz: seq<nat>, k: nat): nat
  {
    if zz == [] then 0 else SumShr(zz[..|zz| - 1], k) + Shr(zz[|zz| - 1], k)
  }

  function MaxOf(zz: seq<nat>): nat
  {
    if zz == [] then 0 else Max(MaxOf(zz[..|zz| - 1]), zz[|zz| - 1])
  }

  /** Bits of the partition body when coded with parameter k. */
  function RiceCost(zz: seq<nat>, k: nat): nat
  {
    SumShr(zz, k) + |zz| * (1 + k)
  }

  /** The cheapest parameter in lo..hi, the smallest on ties. */
  function BestIn(zz: seq<nat>, lo: nat, hi: nat): nat
    requires lo <= hi
    decreases hi - lo
  {
    if lo == hi then lo else
      var b := BestIn(zz, lo, hi - 1);
      if RiceCost(zz, hi) < RiceCost(zz, b) then hi else b
  }

  function Estimate(zz: seq<nat>): nat
  {
    if zz == [] then 0 else Len(SumShr(zz, 0) / |zz|)
  }

  function WindowHi(est: nat): nat
  {
    Min(est + 2, 30)
  }

  function WindowLo(est: nat): nat
  {
    Min(Max(est - 1, 0), WindowHi(est))
  }

  function BestParam(zz: seq<nat>): nat
  {
    BestIn(zz, WindowLo(Estimate(zz)), WindowHi(Estimate(zz)))
  }

  /** The cheaper of the best Rice parameter in the window and raw storage. */
  function PlanPartition(zz: seq<nat>): PartPlan
  {
    var k, raw := BestParam(zz), Len(MaxOf(zz));
    var escBits, cost := 5 + raw * |zz|, RiceCost(zz, k);
    if raw <= 31 && escBits < cost then PartPlan(true, 0, raw, escBits) else PartPlan(false, k, 0, cost)
  }

  /** Where partition p starts in the residual: block positions less the warm-up. */
  function Lo(order: nat, len: nat, p: nat): int
  {
    if p == 0 then 0 else p * len - order
  }

  function Part(zz: seq<nat>, order: nat, len: nat, p: nat): seq<nat>
  {
    if 0 <= Lo(order, len, p) <= Lo(order, len, p + 1) <= |zz| then zz[Lo(order, len, p)..Lo(order, len, p + 1)] else []
  }

  function PlansAt(zz: seq<nat>, blockSize: nat, order: nat, po: nat): (plans: seq<PartPlan>)
    ensures |plans| == Pow2(po)
  {
    seq(Pow2(po), p requires 0 <= p => PlanPartition(Part(zz, order, PartLen(blockSize, po), p)))
  }

  predicate WideParam(pl: PartPlan)
  {
    !pl.escape && pl.param > 14
  }

  predicate AnyWide(plans: seq<PartPlan>)
  {
    exists pl :: pl in plans && WideParam(pl)
  }

  /** The width of the parameter field: 5 bits once a parameter exceeds 14. */
  function ParamBits(plans: seq<PartPlan>): nat
  {
    if AnyWide(plans) then 5 else 4
  }

  /** The length of the residual section at one partition order. */
  function TotalAt(zz: seq<nat>, blockSize: nat, order: nat, po: nat): nat
  {
    var plans := PlansAt(zz, blockSize, order, po);
    6 + PlannedBits(plans, ParamBits(plans))
  }

  // ---- sums and maxima over concatenations ----

  lemma {:induction false} SumShrCat(a: seq<nat>, b: seq<nat>, k: nat)
    ensures SumShr(a + b, k) == SumShr(a, k) + SumShr(b, k)
  {
    if b == [] {
      assert a + b == a;
    } else {
      SumShrCat(a, b[..|b| - 1], k);
      assert (a + b)[..|a + b| - 1] == a + b[..|b| - 1];
    }
  }

  lemma {:induction false} MaxOfCat(a: seq<nat>, b: seq<nat>)
    ensures MaxOf(a + b) == Max(MaxOf(a), MaxOf(b))
  {
    if b == [] {
      assert a + b == a;
    } else {
      MaxOfCat(a, b[..|b| - 1]);
      assert (a + b)[..|a + b| - 1] == a + b[..|b| - 1];
    }
  }

  lemma {:induction false} MaxOfIs(zz: seq<nat>)
    ensures forall u :: u in zz ==> u <= MaxOf(zz)
    ensures zz != [] ==> MaxOf(zz) in zz
  {
    if zz != [] {
      var c := zz[..|zz| - 1];
      MaxOfIs(c);
      forall u | u in zz ensures u <= MaxOf(zz) {
        if u != zz[|zz| - 1] { assert u in c; }
      }
      if MaxOf(zz) != zz[|zz| - 1] && c != [] { assert MaxOf(c) in c; }
    }
  }

  // ---- partitions and merging ----

  lemma {:induction false} LoBounds(order: nat, len: nat, p: nat, parts: nat)
    requires p < parts && order <= len
    ensures 0 <= Lo(order, len, p) <= Lo(order, len, p + 1) <= parts * len - order
    ensures Lo(order, len, p + 1) - Lo(order, len, p) == if p == 0 then len - order else len
  {
    assert (p + 1) * len == p * len + len;
    ProductLe(p + 1, parts, len);
    if p > 0 { ProductLe(1, p, len); }
  }

  /** A partition one order coarser is two adjacent finer ones. */
  lemma {:induction false} PartMerge(zz: seq<nat>, order: nat, len: nat, p: nat, half: nat)
    requires p < half && order <= len && |zz| >= (2 * half) * len - order
    ensures Part(zz, order, 2 * len, p) == Part(zz, order, len, 2 * p) + Part(zz, order, len, 2 * p + 1)
  {
    LoBounds(order, len, 2 * p, 2 * half);
    LoBounds(order, len, 2 * p + 1, 2 * half);
    assert p * (2 * len) == (2 * p) * len;
    assert (p + 1) * (2 * len) == (2 * p + 2) * len;
  }

  /** Row p, column k of the table is the sum of zigzag>>k over partition p, and maxU is
      the partition's largest zigzag. */
  ghost predicate Row(sums: array2<nat>, maxU: array<nat>, part: seq<nat>, p: nat, ncols: nat)
    requires p < sums.Length0 && p < maxU.Length && ncols <= sums.Length1
    reads sums, maxU
  {
    maxU[p] == MaxOf(part) && forall k :: 0 <= k < ncols ==> sums[p, k] == SumShr(part, k)
  }

  ghost predicate Table(sums: array2<nat>, maxU: array<nat>, zz: seq<nat>, order: nat, len: nat, parts: nat, ncols: nat)
    requires parts <= sums.Length0 && parts <= maxU.Length && ncols <= sums.Length1
    reads sums, maxU
  {
    forall p :: 0 <= p < parts ==> Row(sums, maxU, Part(zz, order, len, p), p, ncols)
  }

  /** Adds rows 2p and 2p+1 into row p. */
  method MergeRow(sums: array2<nat>, p: nat, ncols: nat, ghost a: seq<nat>, ghost b: seq<nat>)
    requires 2 * p + 1 < sums.Length0 && ncols <= sums.Length1
    requires forall j :: 0 <= j < ncols ==> sums[2 * p, j] == SumShr(a, j) && sums[2 * p + 1, j] == SumShr(b, j)
    modifies sums
    ensures forall j :: 0 <= j < ncols ==> sums[p, j] == SumShr(a + b, j)
    ensures forall q, j :: 0 <= q < sums.Length0 && q != p && 0 <= j < sums.Length1 ==> sums[q, j] == old(sums[q, j])
  {
    for k := 0 to ncols
      invariant forall j :: 0 <= j < k ==> sums[p, j] == SumShr(a + b, j)
      invariant forall j :: k <= j < ncols ==> sums[2 * p, j] == SumShr(a, j)
      invariant forall j :: 0 <= j < ncols ==> sums[2 * p + 1, j] == SumShr(b, j)
      invariant forall q, j :: 0 <= q < sums.Length0 && q != p && 0 <= j < sums.Length1 ==>
        sums[q, j] == old(sums[q, j])
    {
      SumShrCat(a, b, k);
      sums[p, k] := sums[2 * p, k] + sums[2 * p + 1, k];
    }
  }

  /** Folds 2*half partitions into half in place; every row is read before it is reused. */
  method MergeUpward(sums: array2<nat>, maxU: array<nat>, half: nat, ncols: nat, ghost zz: seq<nat>, ghost order: nat,
      ghost len: nat)
    requires 2 * half <= sums.Length0 && 2 * half <= maxU.Length && ncols <= sums.Length1
    requires order <= len && |zz| >= (2 * half) * len - order
    requires Table(sums, maxU, zz, order, len, 2 * half, ncols)
    modifies sums, maxU
    ensures Table(sums, maxU, zz, order, 2 * len, half, ncols)
  {
    hide Part, SumShr, MaxOf;
    for p := 0 to half
      invariant forall q :: 0 <= q < p ==> Row(sums, maxU, Part(zz, order, 2 * len, q), q, ncols)
      invariant forall q :: 2 * p <= q < 2 * half ==> Row(sums, maxU, Part(zz, order, len, q), q, ncols)
    {
      ghost var a, b := Part(zz, order, len, 2 * p), Part(zz, order, len, 2 * p + 1);
      PartMerge(zz, order, len, p, half);
      assert Row(sums, maxU, a, 2 * p, ncols) && Row(sums, maxU, b, 2 * p + 1, ncols);
      label Before:
      MergeRow(sums, p, ncols, a, b);
      MaxOfCat(a, b);
      maxU[p] := Max(maxU[2 * p + 1], maxU[2 * p]);
      forall q | 0 <= q <= p ensures Row(sums, maxU, Part(zz, order, 2 * len, q), q, ncols) {
        if q < p { assert old@Before(Row(sums, maxU, Part(zz, order, 2 * len, q), q, ncols)); }
      }
      forall q | 2 * p + 2 <= q < 2 * half ensures Row(sums, maxU, Part(zz, order, len, q), q, ncols) {
        assert old@Before(Row(sums, maxU, Part(zz, order, len, q), q, ncols));
      }
    }
  }

  // ---- choosing one partition's coding from its table row ----

  lemma {:induction false} SumBound(zz: seq<nat>, m: nat)
    requires forall u :: u in zz ==> u <= m
    ensures SumShr(zz, 0) <= |zz| * m
  {
    if zz != [] {
      var c := zz[..|zz| - 1];
      forall u | u in c ensures u <= m { assert u in zz; }
      assert zz[|zz| - 1] in zz;
      SumBound(c, m);
      assert |zz| * m == |c| * m + m;
    }
  }

  lemma {:induction false} LenMono(a: nat, b: nat)
    requires a <= b
    ensures Len(a) <= Len(b)
  {
    LenBound(b, Len(b));
    LenBound(a, Len(b));
  }

  lemma {:induction false} MeanBound(s: nat, n: nat, m: nat)
    requires n > 0 && s <= n * m
    ensures 0 <= s / n <= m
  {
    if s / n > m { ProductLe(m + 1, s / n, n); assert (m + 1) * n == n * m + n; }
    QuotRem(s, n);
    if s / n < 0 { ProductLe(s / n, -1, n); }
  }

  /** The estimate never looks past the widest zigzag of the block, so limiting the
      window to the table's columns cuts nothing off. */
  lemma {:induction false} ClampNeverBites(zz: seq<nat>, globalMax: nat)
    requires MaxOf(zz) <= globalMax
    ensures WindowHi(Estimate(zz)) <= Min(Len(globalMax) + 2, 30)
  {
    hide Len, SumShr, MaxOf;
    if zz != [] {
      MaxOfIs(zz);
      SumBound(zz, MaxOf(zz));
      MeanBound(SumShr(zz, 0), |zz|, MaxOf(zz));
      LenMono(SumShr(zz, 0) / |zz|, globalMax);
    }
  }

  /** The planner's choice for partition p from its row; the running best starts above
      every cost, which the program writes as the largest integer. */
  method ChoosePartition(sums: array2<nat>, maxU: array<nat>, p: nat, n: nat, kHi: nat, ghost zz: seq<nat>,
      ghost globalMax: nat) returns (pl: PartPlan)
    requires p < sums.Length0 && p < maxU.Length && kHi < sums.Length1
    requires Row(sums, maxU, zz, p, kHi + 1) && |zz| == n
    requires MaxOf(zz) <= globalMax && kHi == Min(Len(globalMax) + 2, 30)
    ensures pl == PlanPartition(zz)
  {
    hide Len, SumShr, MaxOf, BestIn, RiceCost, Estimate, PlanPartition;
    ClampNeverBites(zz, globalMax);
    EstimateIs(zz);
    var est: int := 0;
    if n > 0 {
      assert sums[p, 0] == SumShr(zz, 0);
      est := Len(sums[p, 0] / n);
    }
    var lo: int, hi: int := est - 1, est + 2;
    if lo < 0 { lo := 0; }
    if hi > 30 { hi := 30; }
    if lo > hi { lo := hi; }
    if hi > kHi { hi := kHi; }
    assert lo == WindowLo(Estimate(zz)) && hi == WindowHi(Estimate(zz));
    var best, bestBits: Option<nat> := 0, None;
    for k := lo to hi + 1
      invariant k == lo <==> bestBits == None
      invariant k > lo ==> best == BestIn(zz, lo, k - 1) && bestBits == Some(RiceCost(zz, best))
    {
      BestStep(zz, lo, k);
      assert sums[p, k] == SumShr(zz, k);
      CostIs(zz, n, k);
      var b := sums[p, k] + n * (1 + k);
      if bestBits == None || b < bestBits.value {
        bestBits, best := Some(b), k;
      }
    }
    var raw := Len(maxU[p]);
    PartitionIs(zz, n, best, raw);
    if raw <= 31 {
      var escBits := 5 + raw * n;
      if escBits < bestBits.value {
        return PartPlan(true, 0, raw, escBits);
      }
    }
    return PartPlan(false, best, 0, bestBits.value);
  }

  lemma {:induction false} EstimateIs(zz: seq<nat>)
    ensures Estimate(zz) == if zz == [] then 0 else Len(SumShr(zz, 0) / |zz|)
  {
  }

  lemma {:induction false} CostIs(zz: seq<nat>, n: nat, k: nat)
    requires n == |zz|
    ensures RiceCost(zz, k) == SumShr(zz, k) + n * (1 + k)
  {
  }

  lemma {:induction false} PartitionIs(zz: seq<nat>, n: nat, k: nat, raw: nat)
    requires n == |zz| && k == BestIn(zz, WindowLo(Estimate(zz)), WindowHi(Estimate(zz))) && raw == Len(MaxOf(zz))
    ensures PlanPartition(zz) == if raw <= 31 && 5 + raw * n < RiceCost(zz, k) then PartPlan(true, 0, raw, 5 + raw * n)
      else PartPlan(false, k, 0, RiceCost(zz, k))
  {
    hide Len, SumShr, MaxOf, BestIn, RiceCost, Estimate;
  }

  lemma {:induction false} BestStep(zz: seq<nat>, lo: nat, k: nat)
    requires lo <= k
    ensures BestIn(zz, lo, k) == if k == lo then lo else
      if RiceCost(zz, k) < RiceCost(zz, BestIn(zz, lo, k - 1)) then k else BestIn(zz, lo, k - 1)
  {
  }

  // ---- choosing the partition order ----

  lemma {:induction false} SplitsHalf(blockSize: nat, order: nat, po: nat)
    requires Splits(blockSize, order, po) && po > 0
    ensures Splits(blockSize, order, po - 1)
    ensures PartLen(blockSize, po - 1) == 2 * PartLen(blockSize, po)
  {
    var d, len := Pow2(po - 1), PartLen(blockSize, po);
    QuotRem(blockSize, Pow2(po));
    TwiceProduct(len, d);
    assert blockSize == (2 * len) * d + 0;
    DivModUnique(2 * len, 0, d);
  }

  lemma {:induction false} SplitsSize(blockSize: nat, order: nat, po: nat)
    requires Splits(blockSize, order, po)
    ensures blockSize == Pow2(po) * PartLen(blockSize, po)
  {
    QuotRem(blockSize, Pow2(po));
  }

  /** The last of the orders from po on, up to a limit, that the block divides into one after
      another with room for the warm-up. */
  function LargestOrder(blockSize: nat, order: nat, limit: nat, po: nat): nat
    decreases limit - po
  {
    if po < limit && Splits(blockSize, order, po + 1) && PartLen(blockSize, po + 1) > 0 then
      LargestOrder(blockSize, order, limit, po + 1)
    else po
  }

  /** The largest order the block divides into with room for the warm-up. */
  method FeasiblePmax(blockSize: nat, order: nat, maxPartOrder: nat) returns (pmax: nat)
    requires order <= blockSize && blockSize > 0
    ensures pmax <= Min(maxPartOrder, 15)
    ensures forall po :: 0 <= po <= pmax ==> Splits(blockSize, order, po) && PartLen(blockSize, po) > 0
    ensures pmax < Min(maxPartOrder, 15) ==> !Splits(blockSize, order, pmax + 1) || PartLen(blockSize, pmax + 1) == 0
    ensures pmax == LargestOrder(blockSize, order, Min(maxPartOrder, 15), 0)
  {
    var limit := if maxPartOrder > 15 then 15 else maxPartOrder;
    pmax := 0;
    SplitsZero(blockSize, order);
    hide Splits, PartLen;
    for po := 1 to limit + 1
      invariant pmax == po - 1
      invariant LargestOrder(blockSize, order, limit, 0) == LargestOrder(blockSize, order, limit, pmax)
      invariant forall q :: 0 <= q < po ==> Splits(blockSize, order, q) && PartLen(blockSize, q) > 0
    {
      if !Splits(blockSize, order, po) || PartLen(blockSize, po) == 0 { break; }
      pmax := po;
    }
  }

  lemma {:induction false} SplitsZero(blockSize: nat, order: nat)
    requires order <= blockSize
    ensures Splits(blockSize, order, 0) && PartLen(blockSize, 0) == blockSize
  {
  }

  function Payloads(plans: seq<PartPlan>): nat
  {
    if plans == [] then 0 else Payloads(plans[..|plans| - 1]) + plans[|plans| - 1].payload
  }

  lemma {:induction false} PlannedSplit(plans: seq<PartPlan>, pb: nat)
    ensures PlannedBits(plans, pb) == |plans| * pb + Payloads(plans)
  {
    if plans != [] {
      PlannedSplit(plans[..|plans| - 1], pb);
      PlannedSnoc(plans[..|plans| - 1], plans[|plans| - 1], pb);
      assert plans == plans[..|plans| - 1] + [plans[|plans| - 1]];
      assert |plans| * pb == (|plans| - 1) * pb + pb;
    }
  }

  lemma {:induction false} PlannedSnoc(plans: seq<PartPlan>, pl: PartPlan, pb: nat)
    ensures PlannedBits(plans + [pl], pb) == PlannedBits(plans, pb) + pb + pl.payload
  {
    if plans != [] {
      PlannedSnoc(plans[1..], pl, pb);
      assert (plans + [pl])[1..] == plans[1..] + [pl];
    }
  }

  /** The plans of one partition order, with their total. */
  method PlanOrder(sums: array2<nat>, maxU: array<nat>, blockSize: nat, order: nat, po: nat, kHi: nat,
      ghost zz: seq<nat>, ghost globalMax: nat)
    returns (cur: seq<PartPlan>, pb: nat, total: nat)
    requires Splits(blockSize, order, po) && |zz| == blockSize - order
    requires Pow2(po) <= sums.Length0 && Pow2(po) <= maxU.Length && kHi < sums.Length1
    requires Table(sums, maxU, zz, order, PartLen(blockSize, po), Pow2(po), kHi + 1)
    requires MaxOf(zz) <= globalMax && kHi == Min(Len(globalMax) + 2, 30)
    ensures cur == PlansAt(zz, blockSize, order, po) && pb == ParamBits(cur)
    ensures total == TotalAt(zz, blockSize, order, po)
  {
    hide Len, SumShr, MaxOf, PlanPartition, PlannedBits, Part, Lo, Row, Splits, AnyWide;
    AnyWideNone();
    var len, parts := PartLen(blockSize, po), Pow2(po);
    ghost var plans := PlansAt(zz, blockSize, order, po);
    var maxK, sumPayload := 0, 0;
    cur := [];
    for p := 0 to parts
      invariant cur == plans[..p] && sumPayload == Payloads(cur)
      invariant maxK > 14 <==> AnyWide(cur)
    {
      var n := len;
      if p == 0 { n := n - order; }
      PartFacts(zz, blockSize, order, po, p);
      var pl := ChoosePartition(sums, maxU, p, n, kHi, Part(zz, order, len, p), globalMax);
      if !pl.escape && pl.param > maxK { maxK := pl.param; }
      sumPayload := sumPayload + pl.payload;
      assert (cur + [pl])[..|cur|] == cur;
      AnyWideSnoc(cur, pl);
      cur := cur + [pl];
    }
    assert cur == plans;
    pb := 4;
    if maxK > 14 { pb := 5; }
    PlannedSplit(cur, pb);
    total := 2 + 4 + parts * pb + sumPayload;
  }

  lemma {:induction false} AnyWideNone()
    ensures !AnyWide([])
  {
  }

  lemma {:induction false} AnyWideSnoc(plans: seq<PartPlan>, pl: PartPlan)
    ensures AnyWide(plans + [pl]) <==> AnyWide(plans) || WideParam(pl)
  {
    if AnyWide(plans) {
      var w :| w in plans && WideParam(w);
      assert w in plans + [pl];
    }
    if WideParam(pl) { assert pl in plans + [pl]; }
  }

  lemma {:induction false} PartFacts(zz: seq<nat>, blockSize: nat, order: nat, po: nat, p: nat)
    requires Splits(blockSize, order, po) && |zz| == blockSize - order && p < Pow2(po)
    ensures var len := PartLen(blockSize, po);
      len >= order && |Part(zz, order, len, p)| == (if p == 0 then len - order else len)
    ensures MaxOf(Part(zz, order, PartLen(blockSize, po), p)) <= MaxOf(zz)
  {
    hide Pow2, MaxOf;
    var len := PartLen(blockSize, po);
    SplitsSize(blockSize, order, po);
    LoBounds(order, len, p, Pow2(po));
    MaxOfSlice(zz, Lo(order, len, p), Lo(order, len, p + 1));
  }

  lemma {:induction false} MaxOfSlice(zz: seq<nat>, i: nat, j: nat)
    requires i <= j <= |zz|
    ensures MaxOf(zz[i..j]) <= MaxOf(zz)
  {
    MaxOfCat(zz[..i], zz[i..j]);
    MaxOfCat(zz[..j], zz[j..]);
    assert zz[..i] + zz[i..j] == zz[..j] && zz[..j] + zz[j..] == zz;
  }

  /** Descends from the finest order, merging in place; the smallest order wins a tie. */
  method PlanFromTables(sums: array2<nat>, maxU: array<nat>, blockSize: nat, order: nat, pmax: nat, kHi: nat,
      ghost zz: seq<nat>, ghost globalMax: nat)
    returns (bestPO: nat, plans: seq<PartPlan>, paramBits: nat, totalBits: nat)
    requires Splits(blockSize, order, pmax) && |zz| == blockSize - order
    requires Pow2(pmax) <= sums.Length0 && Pow2(pmax) <= maxU.Length && kHi < sums.Length1
    requires Table(sums, maxU, zz, order, PartLen(blockSize, pmax), Pow2(pmax), kHi + 1)
    requires MaxOf(zz) <= globalMax && kHi == Min(Len(globalMax) + 2, 30)
    modifies sums, maxU
    ensures bestPO <= pmax && plans == PlansAt(zz, blockSize, order, bestPO) && paramBits == ParamBits(plans)
    ensures totalBits == TotalAt(zz, blockSize, order, bestPO)
    ensures forall q :: 0 <= q <= pmax ==> totalBits <= TotalAt(zz, blockSize, order, q)
    ensures forall q :: 0 <= q < bestPO ==> totalBits < TotalAt(zz, blockSize, order, q)
  {
    hide Len, MaxOf, Row, Splits, Part, PlansAt, TotalAt, ParamBits, Table;
    var best: Option<nat> := None;
    bestPO, plans, paramBits, totalBits := 0, [], 4, 0;
    var po: int := pmax;
    while po >= 0
      invariant -1 <= po <= pmax && (best == None <==> po == pmax)
      invariant best.Some? ==> po < bestPO <= pmax && best.value == totalBits == TotalAt(zz, blockSize, order, bestPO)
      invariant best.Some? ==> plans == PlansAt(zz, blockSize, order, bestPO) && paramBits == ParamBits(plans)
      invariant forall q :: po < q <= pmax ==> totalBits <= TotalAt(zz, blockSize, order, q)
      invariant forall q :: po < q < bestPO ==> totalBits < TotalAt(zz, blockSize, order, q)
      invariant po >= 0 ==> Splits(blockSize, order, po) && Pow2(po) <= Pow2(pmax)
      invariant po >= 0 ==> Table(sums, maxU, zz, order, PartLen(blockSize, po), Pow2(po), kHi + 1)
    {
      var cur, pb, total := PlanOrder(sums, maxU, blockSize, order, po, kHi, zz, globalMax);
      if best == None || total <= best.value {
        best, totalBits, bestPO, paramBits, plans := Some(total), total, po, pb, cur;
      }
      if po > 0 {
        SplitsHalf(blockSize, order, po);
        SplitsSize(blockSize, order, po);
        SplitsOrder(blockSize, order, po);
        MergeUpward(sums, maxU, Pow2(po - 1), kHi + 1, zz, order, PartLen(blockSize, po));
      }
      po := po - 1;
    }
  }

  lemma {:induction false} SplitsOrder(blockSize: nat, order: nat, po: nat)
    requires Splits(blockSize, order, po)
    ensures PartLen(blockSize, po) >= order
  {
  }

  // ---- building the finest tables ----

  function FoldAll(vals: seq<int>): (zz: seq<nat>)
    ensures |zz| == |vals|
  {
    seq(|vals|, i requires 0 <= i < |vals| => Fold(vals[i]))
  }

  /** The signed extremes of a nonempty run, as the int32 scan finds them. */
  method MinMax(vals: seq<int>) returns (lo: int, hi: int)
    requires vals != []
    ensures lo in vals && hi in vals && forall v :: v in vals ==> lo <= v <= hi
  {
    lo, hi := vals[0], vals[0];
    for i := 0 to |vals|
      invariant lo in vals && hi in vals && forall j :: 0 <= j < i ==> lo <= vals[j] <= hi
    {
      if vals[i] < lo { lo := vals[i]; }
      if vals[i] > hi { hi := vals[i]; }
    }
  }

  /** The widest zigzag of a run is at one of its extremes. */
  lemma {:induction false} ExtremesFold(vals: seq<int>, lo: int, hi: int)
    requires lo in vals && hi in vals && forall v :: v in vals ==> lo <= v <= hi
    ensures MaxOf(FoldAll(vals)) == Max(Fold(lo), Fold(hi))
  {
    var zz := FoldAll(vals);
    MaxOfIs(zz);
    var i :| 0 <= i < |vals| && vals[i] == lo;
    var j :| 0 <= j < |vals| && vals[j] == hi;
    assert zz[i] == Fold(lo) && zz[i] in zz && zz[j] == Fold(hi) && zz[j] in zz;
    var k :| 0 <= k < |zz| && zz[k] == MaxOf(zz);
    assert vals[k] in vals;
  }

  lemma {:induction false} PartOfFold(vals: seq<int>, order: nat, len: nat, p: nat, parts: nat)
    requires p < parts && order <= len && |vals| == parts * len - order
    ensures var lo, hi := Lo(order, len, p), Lo(order, len, p + 1);
      0 <= lo <= hi <= |vals| && hi - lo == (if p == 0 then len - order else len)
      && Part(FoldAll(vals), order, len, p) == FoldAll(vals[lo..hi])
  {
    LoBounds(order, len, p, parts);
  }

  /** The largest zigzag of each finest partition, and of the whole residual. */
  method FinestMaxU(maxU: array<nat>, res: seq<int>, order: nat, len: nat, parts: nat, width: nat)
    returns (globalMax: nat)
    requires order <= len && parts > 0 && |res| == parts * len - order && parts <= maxU.Length
    requires width > 0 && AllFit(res, width)
    modifies maxU
    ensures forall p :: 0 <= p < parts ==> maxU[p] == MaxOf(Part(FoldAll(res), order, len, p))
    ensures globalMax == MaxOf(FoldAll(res))
  {
    hide Fits, Part, MaxOf, Fold;
    var idx := 0;
    globalMax := 0;
    MaxOfNone();
    assert res[..0] == [];
    for p := 0 to parts
      invariant idx == Lo(order, len, p) && 0 <= idx <= |res|
      invariant forall q :: 0 <= q < p ==> maxU[q] == MaxOf(Part(FoldAll(res), order, len, q))
      invariant globalMax == MaxOf(FoldAll(res[..idx]))
    {
      var n := len;
      if p == 0 { n := n - order; }
      PartOfFold(res, order, len, p, parts);
      var run := res[idx..idx + n];
      var mu := 0;
      if n > 0 {
        var lo, hi := MinMax(run);
        assert lo in res && hi in res;
        ZigzagFolds(lo, width);
        ZigzagFolds(hi, width);
        ExtremesFold(run, lo, hi);
        mu := Max(Zigzag(lo, width), Zigzag(hi, width));
      } else {
        assert FoldAll(run) == [];
      }
      maxU[p] := mu;
      FoldAllCat(res[..idx], run);
      MaxOfCat(FoldAll(res[..idx]), FoldAll(run));
      assert res[..idx] + run == res[..idx + n];
      if mu > globalMax { globalMax := mu; }
      idx := idx + n;
    }
    LoEnd(order, len, parts);
    assert res[..idx] == res;
  }

  lemma {:induction false} LoEnd(order: nat, len: nat, parts: nat)
    requires parts > 0
    ensures Lo(order, len, parts) == parts * len - order
  {
  }

  lemma {:induction false} MaxOfNone()
    ensures MaxOf(FoldAll([])) == 0
  {
  }

  lemma {:induction false} FoldAllCat(a: seq<int>, b: seq<int>)
    ensures FoldAll(a + b) == FoldAll(a) + FoldAll(b)
  {
  }

  /** sums[p, k] = the sum of zigzag>>k over one partition, for every column. */
  method SumRow(sums: array2<nat>, p: nat, ncols: nat, run: seq<int>, width: nat)
    requires p < sums.Length0 && ncols <= sums.Length1
    requires width > 0 && AllFit(run, width)
    modifies sums
    ensures forall k :: 0 <= k < ncols ==> sums[p, k] == SumShr(FoldAll(run), k)
    ensures forall q, k :: 0 <= q < sums.Length0 && q != p && 0 <= k < sums.Length1 ==> sums[q, k] == old(sums[q, k])
  {
    hide Fits, Shr, Fold;
    for k := 0 to ncols
      invariant forall j :: 0 <= j < k ==> sums[p, j] == 0
      invariant forall q, k :: 0 <= q < sums.Length0 && q != p && 0 <= k < sums.Length1 ==>
        sums[q, k] == old(sums[q, k])
    {
      sums[p, k] := 0;
    }
    for i := 0 to |run|
      invariant forall k :: 0 <= k < ncols ==> sums[p, k] == SumShr(FoldAll(run)[..i], k)
      invariant forall q, k :: 0 <= q < sums.Length0 && q != p && 0 <= k < sums.Length1 ==>
        sums[q, k] == old(sums[q, k])
    {
      var u := Zigzag(run[i], width);
      ZigzagFolds(run[i], width);
      ghost var zz := FoldAll(run);
      assert zz[..i + 1][..i] == zz[..i];
      for k := 0 to ncols
        invariant forall j :: 0 <= j < k ==> sums[p, j] == SumShr(zz[..i + 1], j)
        invariant forall j :: k <= j < ncols ==> sums[p, j] == SumShr(zz[..i], j)
        invariant forall q, k :: 0 <= q < sums.Length0 && q != p && 0 <= k < sums.Length1 ==>
          sums[q, k] == old(sums[q, k])
      {
        SumShrSnoc(zz, i, k);
        sums[p, k] := sums[p, k] + Shr(u, k);
      }
    }
    assert FoldAll(run)[..|run|] == FoldAll(run);
  }

  lemma {:induction false} SumShrSnoc(zz: seq<nat>, i: nat, k: nat)
    requires i < |zz|
    ensures SumShr(zz[..i + 1], k) == SumShr(zz[..i], k) + Shr(zz[i], k)
  {
    assert zz[..i + 1][..i] == zz[..i];
  }

  method BuildFinestSums(sums: array2<nat>, res: seq<int>, order: nat, len: nat, parts: nat, ncols: nat, width: nat)
    requires order <= len && |res| == parts * len - order && parts <= sums.Length0 && ncols <= sums.Length1
    requires width > 0 && AllFit(res, width)
    modifies sums
    ensures forall p, k :: 0 <= p < parts && 0 <= k < ncols ==>
      sums[p, k] == SumShr(Part(FoldAll(res), order, len, p), k)
  {
    hide Fits, Part, SumShr;
    var idx := 0;
    for p := 0 to parts
      invariant idx == Lo(order, len, p) && 0 <= idx <= |res|
      invariant forall q, k :: 0 <= q < p && 0 <= k < ncols ==>
        sums[q, k] == SumShr(Part(FoldAll(res), order, len, q), k)
    {
      var n := len;
      if p == 0 { n := n - order; }
      PartOfFold(res, order, len, p, parts);
      var run := res[idx..idx + n];
      forall v | v in run ensures Fits(v, width) { assert v in res; }
      SumRow(sums, p, ncols, run, width);
      idx := idx + n;
    }
  }

  /** The least length of the residual section over the orders up to po. */
  function LeastTotal(zz: seq<nat>, blockSize: nat, order: nat, po: nat): nat
  {
    var total := TotalAt(zz, blockSize, order, po);
    if po == 0 then total else Min(LeastTotal(zz, blockSize, order, po - 1), total)
  }

  /** The exact price of a residual: its shortest residual section. */
  function CostOf(res: seq<int>, blockSize: nat, order: nat, maxPartOrder: nat): nat
  {
    LeastTotal(FoldAll(res), blockSize, order, LargestOrder(blockSize, order, Min(maxPartOrder, 15), 0))
  }

  lemma {:induction false} LeastBound(zz: seq<nat>, blockSize: nat, order: nat, po: nat) returns (q: nat)
    ensures q <= po && LeastTotal(zz, blockSize, order, po) == TotalAt(zz, blockSize, order, q)
    ensures forall j :: 0 <= j <= po ==> LeastTotal(zz, blockSize, order, po) <= TotalAt(zz, blockSize, order, j)
  {
    hide TotalAt;
    q := po;
    if po > 0 {
      var r := LeastBound(zz, blockSize, order, po - 1);
      if TotalAt(zz, blockSize, order, r) < TotalAt(zz, blockSize, order, po) { q := r; }
    }
  }

  lemma {:induction false} LeastIs(zz: seq<nat>, blockSize: nat, order: nat, po: nat, best: nat)
    requires best <= po
    requires forall j :: 0 <= j <= po ==> TotalAt(zz, blockSize, order, best) <= TotalAt(zz, blockSize, order, j)
    ensures LeastTotal(zz, blockSize, order, po) == TotalAt(zz, blockSize, order, best)
  {
    hide TotalAt, LeastTotal;
    var q := LeastBound(zz, blockSize, order, po);
  }

  /** Plans the residual of a block: the cheapest feasible partition order, the smallest
      on ties, each partition coded as a rescan of its values would choose. */
  method PlanResidual(res: seq<int>, blockSize: nat, order: nat, maxPartOrder: nat, width: nat)
    returns (bestPO: nat, plans: seq<PartPlan>, paramBits: nat, totalBits: nat, ghost pmax: nat)
    requires order <= blockSize && blockSize > 0 && |res| == blockSize - order
    requires width > 0 && AllFit(res, width)
    ensures bestPO <= pmax <= Min(maxPartOrder, 15)
    ensures forall q :: 0 <= q <= pmax ==> Splits(blockSize, order, q)
    ensures pmax < Min(maxPartOrder, 15) ==> !Splits(blockSize, order, pmax + 1) || PartLen(blockSize, pmax + 1) == 0
    ensures plans == PlansAt(FoldAll(res), blockSize, order, bestPO) && paramBits == ParamBits(plans)
    ensures totalBits == TotalAt(FoldAll(res), blockSize, order, bestPO)
    ensures forall q :: 0 <= q <= pmax ==> totalBits <= TotalAt(FoldAll(res), blockSize, order, q)
    ensures forall q :: 0 <= q < bestPO ==> totalBits < TotalAt(FoldAll(res), blockSize, order, q)
    ensures totalBits == CostOf(res, blockSize, order, maxPartOrder)
  {
    hide Fits, LargestOrder, LeastTotal, Part, Splits, SumShr, MaxOf, Len, TotalAt, PlansAt, ParamBits, PartLen, Pow2;
    var top := FeasiblePmax(blockSize, order, maxPartOrder);
    pmax := top;
    var len, parts := PartLen(blockSize, top), Pow2(top);
    SplitsSize(blockSize, order, top);
    SplitsOrder(blockSize, order, top);
    var maxU := new nat[parts];
    var globalMax := FinestMaxU(maxU, res, order, len, parts, width);
    var kHi := Min(Len(globalMax) + 2, 30);
    var sums := new nat[parts, kHi + 1];
    BuildFinestSums(sums, res, order, len, parts, kHi + 1, width);
    bestPO, plans, paramBits, totalBits :=
      PlanFromTables(sums, maxU, blockSize, order, top, kHi, FoldAll(res), globalMax);
    LeastIs(FoldAll(res), blockSize, order, top, bestPO);
  }

  // ---- the plan can be written, and its price is exact ----

  lemma {:induction false} PartitionCodable(vals: seq<int>, pb: nat)
    requires 4 <= pb <= 5
    ensures PlanPartition(FoldAll(vals)).param <= 30
    ensures pb == 5 || !WideParam(PlanPartition(FoldAll(vals))) ==> Codable(vals, PlanPartition(FoldAll(vals)), pb)
    ensures |EmitPart(vals, PlanPartition(FoldAll(vals)), pb)| == pb + PlanPartition(FoldAll(vals)).payload
  {
    var zz := FoldAll(vals);
    var k := BestParam(zz);
    BestInRange(zz, WindowLo(Estimate(zz)), WindowHi(Estimate(zz)));
    RunLength(vals, k);
    var pl := PlanPartition(zz);
    if pl.escape {
      RawLength(vals, pl.rawBits);
      MaxOfIs(zz);
      forall v | v in vals ensures FitsOrZero(v, pl.rawBits) {
        var i :| 0 <= i < |vals| && vals[i] == v;
        assert zz[i] == Fold(v) && zz[i] in zz;
        EscapeFits(v, MaxOf(zz));
      }
    }
  }

  lemma {:induction false} EscapeFits(v: int, m: nat)
    requires Fold(v) <= m
    ensures FitsOrZero(v, Len(m))
  {
    LenBound(m, Len(m));
    if Len(m) > 0 { FoldFits(v, Len(m)); }
  }

  lemma {:induction false} BestInRange(zz: seq<nat>, lo: nat, hi: nat)
    requires lo <= hi
    ensures lo <= BestIn(zz, lo, hi) <= hi
    ensures forall k :: lo <= k <= hi ==> RiceCost(zz, BestIn(zz, lo, hi)) <= RiceCost(zz, k)
    decreases hi - lo
  {
    hide RiceCost;
    if lo < hi { BestInRange(zz, lo, hi - 1); }
  }

  lemma {:induction false} RunLength(vals: seq<int>, k: nat)
    ensures |EmitRun(vals, k)| == RiceCost(FoldAll(vals), k)
  {
    hide Shr, Fold;
    if vals != [] {
      var zz := FoldAll(vals);
      RunLength(vals[1..], k);
      assert FoldAll(vals[1..]) == zz[1..];
      assert zz == [zz[0]] + zz[1..];
      SumShrCat([zz[0]], zz[1..], k);
      assert [zz[0]][..0] == [];
      assert SumShr([zz[0]], k) == Shr(zz[0], k);
      assert |zz| * (1 + k) == (|zz| - 1) * (1 + k) + (1 + k);
    }
  }

  lemma {:induction false} RawLength(vals: seq<int>, n: nat)
    ensures |EmitRaw(vals, n)| == n * |vals|
  {
    if vals != [] {
      RawLength(vals[1..], n);
      assert n * |vals| == n + n * (|vals| - 1);
    }
  }

  lemma {:induction false} SuffixReadable(vals: seq<int>, blockSize: nat, order: nat, po: nat, p: nat)
    requires Splits(blockSize, order, po) && |vals| == blockSize - order && p <= Pow2(po)
    ensures var plans, len := PlansAt(FoldAll(vals), blockSize, order, po), PartLen(blockSize, po);
      var rest, n := vals[SafeLo(vals, order, len, p)..], if p == 0 then len - order else len;
      && order <= len && Tiles(|rest|, n, len, |plans[p..]|)
      && AllCodable(rest, plans[p..], ParamBits(plans), n, len)
      && |EmitParts(rest, plans[p..], ParamBits(plans), n, len)| == PlannedBits(plans[p..], ParamBits(plans))
    decreases Pow2(po) - p
  {
    hide Splits, PlanPartition, Codable, EmitPart, FoldAll, Part, WideParam, Fold;
    var zz, parts, len := FoldAll(vals), Pow2(po), PartLen(blockSize, po);
    var plans := PlansAt(zz, blockSize, order, po);
    var pb := ParamBits(plans);
    SplitsSize(blockSize, order, po);
    SplitsOrder(blockSize, order, po);
    if p == parts {
      LoEnd(order, len, parts);
      assert plans[p..] == [];
    } else {
      PartOfFold(vals, order, len, p, parts);
      LoBounds(order, len, p, parts);
      SuffixReadable(vals, blockSize, order, po, p + 1);
      var lo, hi := Lo(order, len, p), Lo(order, len, p + 1);
      var run := vals[lo..hi];
      assert vals[lo..][..hi - lo] == run && vals[lo..][hi - lo..] == vals[hi..];
      assert plans[p..][1..] == plans[p + 1..];
      assert plans[p] == PlanPartition(FoldAll(run)) && plans[p] in plans;
      PartitionCodable(run, pb);
    }
  }

  /** Lo, clamped to the residual so that it can be sliced without a proof. */
  function SafeLo(vals: seq<int>, order: nat, len: nat, p: nat): nat
    ensures SafeLo(vals, order, len, p) <= |vals|
  {
    Min(Max(Lo(order, len, p), 0), |vals|)
  }

  /** The planned partition order can be written and read back, and the planned total is
      exactly the number of bits that writing it takes. */
  lemma {:induction false} PlanIsExact(vals: seq<int>, blockSize: nat, order: nat, po: nat)
    requires Splits(blockSize, order, po) && |vals| == blockSize - order && po <= 15
    ensures var plans := PlansAt(FoldAll(vals), blockSize, order, po);
      && PlanOk(vals, plans, ParamBits(plans), blockSize, order, po)
      && |EmitResidual(vals, plans, ParamBits(plans), blockSize, order, po)| ==
        TotalAt(FoldAll(vals), blockSize, order, po)
  {
    hide AllCodable, EmitParts, PlannedBits, FoldAll, Tiles, Pow2;
    SuffixReadable(vals, blockSize, order, po, 0);
    var plans := PlansAt(FoldAll(vals), blockSize, order, po);
    assert vals[0..] == vals && plans[0..] == plans;
  }

  // ---- the shortest section ----

  /** The length of the residual section printed at one partition order, when each partition
      is coded as a rescan of its values would choose. */
  ghost function SectionLen(res: seq<int>, blockSize: nat, order: nat, po: nat): nat
    requires Splits(blockSize, order, po) && |res| == blockSize - order
  {
    var plans := PlansAt(FoldAll(res), blockSize, order, po);
    |EmitResidual(res, plans, ParamBits(plans), blockSize, order, po)|
  }

  /** These plans print the shortest section of all partition orders up to a limit, and up to
      15, that the block divides into with room for the warm-up; the smallest order on a tie. */
  ghost predicate Shortest(res: seq<int>, plans: seq<PartPlan>, paramBits: nat, blockSize: nat, order: nat, po: nat,
      limit: nat)
  {
    && po <= limit && po <= 15 && Splits(blockSize, order, po) && |res| == blockSize - order
    && |plans| == Pow2(po) && 4 <= paramBits <= 5
    && forall q :: 0 <= q <= limit && q <= 15 && Splits(blockSize, order, q) ==>
        var len := |EmitResidual(res, plans, paramBits, blockSize, order, po)|;
        len <= SectionLen(res, blockSize, order, q) && (q < po ==> len < SectionLen(res, blockSize, order, q))
  }

  lemma {:induction false} SectionIsTotal(res: seq<int>, blockSize: nat, order: nat, po: nat)
    requires Splits(blockSize, order, po) && |res| == blockSize - order && po <= 15
    ensures SectionLen(res, blockSize, order, po) == TotalAt(FoldAll(res), blockSize, order, po)
  {
    hide EmitResidual, TotalAt, PlansAt, ParamBits, Splits, FoldAll;
    PlanIsExact(res, blockSize, order, po);
  }

  /** An order that divides the block leaves all smaller ones feasible. */
  lemma {:induction false} FeasibleBelow(blockSize: nat, order: nat, q: nat, po: nat)
    requires Splits(blockSize, order, po) && q <= po
    ensures Splits(blockSize, order, q)
    decreases po
  {
    hide Splits, PartLen;
    if q < po {
      SplitsHalf(blockSize, order, po);
      FeasibleBelow(blockSize, order, q, po - 1);
    }
  }

  lemma {:induction false} PartNotEmpty(blockSize: nat, order: nat, po: nat)
    requires Splits(blockSize, order, po) && blockSize > 0
    ensures PartLen(blockSize, po) > 0
  {
    hide Splits, PartLen;
    SplitsSize(blockSize, order, po);
  }

  /** What PlanResidual returns is such a plan, of the total it says. */
  lemma {:induction false} PlannedIsShortest(res: seq<int>, blockSize: nat, order: nat, po: nat, pmax: nat, limit: nat)
    requires po <= pmax <= Min(limit, 15) && blockSize > 0 && |res| == blockSize - order
    requires forall q :: 0 <= q <= pmax ==> Splits(blockSize, order, q)
    requires pmax < Min(limit, 15) ==> !Splits(blockSize, order, pmax + 1) || PartLen(blockSize, pmax + 1) == 0
    requires forall q :: 0 <= q <= pmax ==>
      TotalAt(FoldAll(res), blockSize, order, po) <= TotalAt(FoldAll(res), blockSize, order, q)
    requires forall q :: 0 <= q < po ==>
      TotalAt(FoldAll(res), blockSize, order, po) < TotalAt(FoldAll(res), blockSize, order, q)
    ensures var plans := PlansAt(FoldAll(res), blockSize, order, po);
      Shortest(res, plans, ParamBits(plans), blockSize, order, po, limit)
  {
    hide EmitResidual, TotalAt, PlansAt, ParamBits, Splits, PartLen, FoldAll, Pow2, SectionLen;
    PlanIsExact(res, blockSize, order, po);
    forall q | 0 <= q <= limit && q <= 15 && Splits(blockSize, order, q)
      ensures q <= pmax && SectionLen(res, blockSize, order, q) == TotalAt(FoldAll(res), blockSize, order, q)
    {
      SectionIsTotal(res, blockSize, order, q);
      if q > pmax {
        FeasibleBelow(blockSize, order, pmax + 1, q);
        PartNotEmpty(blockSize, order, pmax + 1);
      }
    }
  }

  /** LargestOrder is feasible with all orders below it, and the next one is not or is behind
      the limit. */
  lemma {:induction false} LargestIs(blockSize: nat, order: nat, limit: nat, po: nat)
    requires Splits(blockSize, order, po) && po <= limit
    ensures var top := LargestOrder(blockSize, order, limit, po);
      && po <= top <= limit && Splits(blockSize, order, top)
      && (top < limit ==> !Splits(blockSize, order, top + 1) || PartLen(blockSize, top + 1) == 0)
    decreases limit - po
  {
    hide Splits, PartLen;
    if po < limit && Splits(blockSize, order, po + 1) && PartLen(blockSize, po + 1) > 0 {
      LargestIs(blockSize, order, limit, po + 1);
    }
  }

  /** The price of a residual is the length of its section at some feasible order, and no
      longer than at any other. */
  lemma {:induction false} CostIsLeast(res: seq<int>, blockSize: nat, order: nat, limit: nat) returns (best: nat)
    requires order <= blockSize && blockSize > 0 && |res| == blockSize - order
    ensures best <= limit && best <= 15 && Splits(blockSize, order, best)
    ensures CostOf(res, blockSize, order, limit) == SectionLen(res, blockSize, order, best)
    ensures forall q :: 0 <= q <= limit && q <= 15 && Splits(blockSize, order, q) ==>
      CostOf(res, blockSize, order, limit) <= SectionLen(res, blockSize, order, q)
  {
    hide EmitResidual, TotalAt, PlansAt, ParamBits, Splits, PartLen, FoldAll, Pow2, SectionLen, LargestOrder,
      LeastTotal;
    var m := Min(limit, 15);
    SplitsZero(blockSize, order);
    LargestIs(blockSize, order, m, 0);
    var top := LargestOrder(blockSize, order, m, 0);
    best := LeastBound(FoldAll(res), blockSize, order, top);
    FeasibleBelow(blockSize, order, best, top);
    SectionIsTotal(res, blockSize, order, best);
    forall q | 0 <= q <= limit && q <= 15 && Splits(blockSize, order, q)
      ensures q <= top && SectionLen(res, blockSize, order, q) == TotalAt(FoldAll(res), blockSize, order, q)
    {
      SectionIsTotal(res, blockSize, order, q);
      if q > top {
        FeasibleBelow(blockSize, order, top + 1, q);
        PartNotEmpty(blockSize, order, top + 1);
      }
    }
  }
}
