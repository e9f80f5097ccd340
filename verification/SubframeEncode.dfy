/** Planning and writing one subframe (internal/frame/subframe_encode.go): the winner's
    residual and Rice plan are carried in a workspace slot from the planner to the writer. */
module SubframeEncode {
  import opened Words
  import opened Cursor
  import opened BitWriter
  import opened Rice
  import opened RiceWriter
  import opened RicePlan
  import opened RiceParam
  import opened Predict
  import opened FixedRestore
  import opened SubframeSyntax
  import opened SubframeDecode

  datatype StereoMode = Independent | Adaptive | Full

  /** A quantized linear predictor, as the analysis answers it. */
  datatype Predictor = Predictor(coeffs: seq<int>, shift: nat)

  /** The analysis stands for the floating-point part of the program: from the samples and their
      width to a predictor, or to none. */
  datatype Params = Params(stereo: StereoMode, maxPartitionOrder: nat, maxLpcOrder: nat, lpcPrecision: nat,
    exhaustiveFixed: bool, analysis: (seq<int>, nat) -> Option<Predictor>)

  datatype Kind = ConstantKind | VerbatimKind | FixedKind | LpcKind

  /** The chosen encoding of one signal; its residual and Rice plan are in a slot. */
  datatype Plan = Plan(kind: Kind, order: nat, wasted: nat, bits: nat, coeffs: seq<int>, shift: nat, slot: nat,
    paramBits: nat)

  /** What a slot carries. */
  datatype Cand = Cand(res: seq<int>, plans: seq<PartPlan>)

  class Workspace {
    const cand: array<Cand>
    /** The residual of the last LPC analysis, with its warm-up in front. */
    var costRes: seq<int>

    constructor ()
      ensures fresh(cand) && cand.Length == 4
    {
      cand := new Cand[4](_ => Cand([], []));
      costRes := [];
    }
  }

  // ---- wasted bits ----

  /** v >> n on signed words. */
  function ShiftRight(s: seq<int>, n: nat): (t: seq<int>)
    ensures |t| == |s|
  {
    seq(|s|, i requires 0 <= i < |s| => s[i] / Pow2(n))
  }

  predicate Multiple(s: seq<int>, n: nat)
  {
    forall i :: 0 <= i < |s| ==> s[i] % Pow2(n) == 0
  }

  function TrailingZeros(v: nat): nat
    requires v > 0
  {
    if v % 2 == 1 then 0 else 1 + TrailingZeros(v / 2)
  }

  lemma {:induction false} TrailingZerosLow(v: nat, n: nat)
    requires v > 0
    ensures Low(v, n) == 0 <==> n <= TrailingZeros(v)
    decreases v
  {
    if n > 0 && v % 2 == 0 { TrailingZerosLow(v / 2, n - 1); }
  }

  lemma {:induction false} OrLow(a: nat, b: nat, n: nat)
    ensures Low(Or(a, b), n) == 0 <==> Low(a, n) == 0 && Low(b, n) == 0
  {
    hide Or;
    if n > 0 {
      OrHalf(a, b);
      OrLow(a / 2, b / 2, n - 1);
    }
  }

  lemma {:induction false} OrHalf(a: nat, b: nat)
    ensures Or(a, b) / 2 == Or(a / 2, b / 2) && (Or(a, b) % 2 == 0 <==> a % 2 == 0 && b % 2 == 0)
  {
  }

  /** The number of low-order zero bits common to every sample: the largest count when
      some sample is nonzero, 0 otherwise. */
  method WastedBits(s: seq<int>, width: nat) returns (w: nat)
    requires AllFit(s, width)
    ensures Multiple(s, w)
    ensures (exists i :: 0 <= i < |s| && s[i] != 0) ==> !Multiple(s, w + 1)
    ensures (forall i :: 0 <= i < |s| ==> s[i] == 0) ==> w == 0
  {
    hide Or, Low, Unsigned, Multiple, Fits;
    var all: nat := 0;
    forall n: nat ensures Low(0, n) == 0 && Multiple(s[..0], n) { LowSmall(0, n); NoneMultiple(n); }
    for i := 0 to |s|
      invariant forall n: nat :: n <= width ==> (Low(all, n) == 0 <==> Multiple(s[..i], n))
      invariant all == 0 <==> forall j :: 0 <= j < i ==> s[j] == 0
      invariant all < Pow2(width)
    {
      var u := Unsigned(s[i], width);
      forall n: nat | n <= width ensures Low(Or(all, u), n) == 0 <==> Multiple(s[..i + 1], n) {
        OrLow(all, u, n);
        LowMultiple(s[i], n, width);
        MultipleSnoc(s, i, n);
      }
      UnsignedZero(s[i], width);
      OrBound(all, u, width);
      OrIsZero(all, u);
      all := Or(all, u);
    }
    assert s[..|s|] == s;
    if all == 0 {
      MultipleOne(s);
      return 0;
    }
    w := TrailingZeros(all);
    TrailingZerosLow(all, w);
    TrailingZerosLow(all, w + 1);
    LowSmall(all, width);
    TrailingZerosLow(all, width);
  }

  lemma {:induction false} NoneMultiple(n: nat)
    ensures Multiple([], n)
  {
  }

  lemma {:induction false} MultipleOne(s: seq<int>)
    ensures Multiple(s, 0)
  {
  }

  lemma {:induction false} MultipleSnoc(s: seq<int>, i: nat, n: nat)
    requires i < |s|
    ensures Multiple(s[..i + 1], n) <==> Multiple(s[..i], n) && s[i] % Pow2(n) == 0
  {
    var a, b := s[..i], s[..i + 1];
    assert forall j :: 0 <= j < i ==> a[j] == b[j];
    assert b[i] == s[i];
  }

  lemma {:induction false} LowMultiple(v: int, n: nat, width: nat)
    requires n <= width
    ensures Low(Unsigned(v, width), n) == 0 <==> v % Pow2(n) == 0
  {
    UnsignedLow(v, n, width);
  }

  lemma {:induction false} UnsignedZero(v: int, width: nat)
    requires Fits(v, width)
    ensures Unsigned(v, width) == 0 <==> v == 0
    ensures Unsigned(v, width) < Pow2(width)
  {
    WrapFits(v, width);
  }

  lemma {:induction false} OrIsZero(a: nat, b: nat)
    ensures Or(a, b) == 0 <==> a == 0 && b == 0
  {
    if a != 0 || b != 0 { OrIsZero(a / 2, b / 2); }
  }

  /** Removing wasted bits loses nothing and narrows the samples by as many bits. */
  lemma {:induction false} WastedExact(s: seq<int>, w: nat, bps: nat)
    requires Multiple(s, w) && AllFit(s, bps) && w < bps
    ensures Scale(ShiftRight(s, w), w) == s && AllFit(ShiftRight(s, w), bps - w)
  {
    var t := ShiftRight(s, w);
    forall i | 0 <= i < |s| ensures t[i] * Pow2(w) == s[i] && Fits(t[i], bps - w) {
      assert Fits(s[i], bps);
      QuotRem(s[i], Pow2(w));
      NarrowByShift(s[i], t[i], bps, w);
    }
  }

  lemma {:induction false} NarrowByShift(v: int, q: int, bps: nat, w: nat)
    requires Fits(v, bps) && v == q * Pow2(w) && w < bps
    ensures Fits(q, bps - w)
  {
    var h: int, d := Pow2(bps - w - 1), Pow2(w);
    Pow2Add(bps - w - 1, w);
    assert (-h) * d == -(h * d);
    if q >= h { ProductLe(h, q, d); }
    if q < -h { ProductLt(q, -h, d); }
  }

  /** Fewer wasted bits than are common is still exact. */
  lemma {:induction false} MultipleLess(s: seq<int>, m: nat, n: nat)
    requires Multiple(s, n) && m <= n
    ensures Multiple(s, m)
  {
    forall i | 0 <= i < |s| ensures s[i] % Pow2(m) == 0 { DividesLess(s[i], m, n); }
  }

  lemma {:induction false} DividesLess(v: int, m: nat, n: nat)
    requires v % Pow2(n) == 0 && m <= n
    ensures v % Pow2(m) == 0
  {
    var q, a, b: int := v / Pow2(n), Pow2(m), Pow2(n - m);
    QuotRem(v, Pow2(n));
    Pow2Add(m, n - m);
    hide Pow2;
    MulAssoc(q, b, a);
    DivModUnique(q * b, 0, a);
  }

  method AllEqual(s: seq<int>) returns (same: bool)
    ensures same <==> forall i :: 0 <= i < |s| ==> s[i] == s[0]
  {
    var i := 1;
    while i < |s|
      invariant 1 <= i && forall j :: 0 <= j < i && j < |s| ==> s[j] == s[0]
    {
      if s[i] != s[0] { return false; }
      i := i + 1;
    }
    return true;
  }

  // ---- ranking the predictors ----

  /** sum over i >= o of |x[i]|. */
  function AbsFrom(x: seq<int>, o: nat): nat
  {
    if |x| <= o then 0 else AbsFrom(x[..|x| - 1], o) + Abs(x[|x| - 1])
  }

  /** The absolute sums of the five fixed residuals in one pass, by a cascade of
      differences that keeps the last value of each order. */
  method FixedAbsSums(s: seq<int>) returns (sums: seq<nat>)
    ensures |sums| == 5 && forall o :: 0 <= o <= 4 ==> sums[o] == AbsFrom(DiffN(s, o), o)
  {
    hide Diff, DiffN;
    var s0, s1, s2, s3, s4 := 0, 0, 0, 0, 0;
    var p1, p2, p3, p4 := 0, 0, 0, 0;
    ghost var d := seq(5, o requires 0 <= o => DiffN(s, o));
    for i := 0 to |s|
      invariant s0 == AbsFrom(d[0][..i], 0) && s1 == AbsFrom(d[1][..i], 1) && s2 == AbsFrom(d[2][..i], 2)
      invariant s3 == AbsFrom(d[3][..i], 3) && s4 == AbsFrom(d[4][..i], 4)
      invariant i > 0 ==> p1 == d[0][i - 1] && p2 == d[1][i - 1] && p3 == d[2][i - 1] && p4 == d[3][i - 1]
      invariant i == 0 ==> p1 == p2 == p3 == p4 == 0
    {
      var e0 := s[i];
      var e1 := e0 - p1;
      var e2 := e1 - p2;
      var e3 := e2 - p3;
      var e4 := e3 - p4;
      Cascade(s, i);
      assert d[0][i] == e0 && d[1][i] == e1 && d[2][i] == e2 && d[3][i] == e3 && d[4][i] == e4;
      forall o | 0 <= o <= 4
        ensures AbsFrom(d[o][..i + 1], o) == AbsFrom(d[o][..i], o) + if i >= o then Abs(d[o][i]) else 0
      {
        AbsStep(d[o], i, o);
      }
      s0 := s0 + Abs(e0);
      if i >= 1 { s1 := s1 + Abs(e1); }
      if i >= 2 { s2 := s2 + Abs(e2); }
      if i >= 3 { s3 := s3 + Abs(e3); }
      if i >= 4 { s4 := s4 + Abs(e4); }
      p1, p2, p3, p4 := e0, e1, e2, e3;
    }
    sums := [s0, s1, s2, s3, s4];
    forall o | 0 <= o <= 4 ensures sums[o] == AbsFrom(DiffN(s, o), o) { assert d[o][..|s|] == d[o]; }
  }

  lemma {:induction false} Cascade(s: seq<int>, i: nat)
    requires i < |s|
    ensures DiffN(s, 0)[i] == s[i]
    ensures forall o :: 0 <= o < 4 ==> DiffN(s, o + 1)[i] == DiffN(s, o)[i] - if i == 0 then 0 else DiffN(s, o)[i - 1]
  {
    forall o | 0 <= o < 4 ensures DiffN(s, o + 1)[i] == DiffN(s, o)[i] - if i == 0 then 0 else DiffN(s, o)[i - 1] {
      DiffOuter(s, o);
    }
  }

  lemma {:induction false} DiffOuter(s: seq<int>, k: nat)
    ensures DiffN(s, k + 1) == Diff(DiffN(s, k))
    decreases k
  {
    if k > 0 { DiffOuter(Diff(s), k - 1); }
  }

  lemma {:induction false} AbsStep(x: seq<int>, i: nat, o: nat)
    requires i < |x|
    ensures AbsFrom(x[..i + 1], o) == AbsFrom(x[..i], o) + if i >= o then Abs(x[i]) else 0
  {
    assert x[..i + 1][..i] == x[..i];
  }

  /** The size of n Rice-coded values whose zigzag forms sum to zz, near the best parameter. */
  function EstimateRiceBits(zz: nat, n: int): nat
  {
    if n <= 0 then 0 else
      var k := if zz / n > 0 then Len(zz / n) - 1 else 0;
      n * (1 + k) + Shr(zz, k)
  }

  /** The estimate is the exact price of one partition at some parameter, at most one bit
      per value too high. */
  lemma {:induction false} EstimateIsClose(zz: seq<nat>) returns (k: nat)
    requires zz != []
    ensures RiceCost(zz, k) <= EstimateRiceBits(SumShr(zz, 0), |zz|) < RiceCost(zz, k) + |zz|
  {
    var sum, n := SumShr(zz, 0), |zz|;
    k := if sum / n > 0 then Len(sum / n) - 1 else 0;
    SumShrBounds(zz, k);
    ShrLow(sum, k);
    hide SumShr, Shr, Len;
    Between(SumShr(zz, k), Shr(sum, k), n, Low(sum, k), Pow2(k));
  }

  lemma {:induction false} Between(a: int, q: int, n: int, l: int, d: int)
    requires 0 <= l < d && a * d <= q * d + l < (a + n) * d
    ensures a <= q < a + n
  {
    if q < a { ProductLe(q + 1, a, d); }
    if q >= a + n { ProductLe(a + n, q, d); }
  }

  function FixedEstimate(s: seq<int>, o: nat): nat
  {
    EstimateRiceBits(2 * AbsFrom(DiffN(s, o), o), |s| - o)
  }

  /** The estimate of a fixed order is at least the exact price of its residual as one partition at
      some parameter, and less than two bits a value above it. */
  lemma {:induction false} FixedEstimateIsClose(s: seq<int>, o: nat) returns (k: nat)
    requires o < |s|
    ensures var zz := FoldAll(DiffN(s, o)[o..]);
      RiceCost(zz, k) <= FixedEstimate(s, o) < RiceCost(zz, k) + 2 * |zz|
  {
    hide DiffN, SumShr, EstimateRiceBits, AbsFrom, Fold;
    var d := DiffN(s, o);
    var zz, dd := FoldAll(d[o..]), Doubled(d[o..]);
    DoubledSum(d, o);
    k := EstimateIsClose(dd);
    forall i | 0 <= i < |zz| ensures zz[i] <= dd[i] <= zz[i] + 1 { FoldNearDouble(d[o..][i]); }
    SumsNear(zz, dd, k);
  }

  function Doubled(vals: seq<int>): (dd: seq<nat>)
    ensures |dd| == |vals|
  {
    seq(|vals|, i requires 0 <= i < |vals| => 2 * Abs(vals[i]))
  }

  lemma {:induction false} FoldNearDouble(v: int)
    ensures Fold(v) <= 2 * Abs(v) <= Fold(v) + 1
  {
  }

  lemma {:induction false} DoubledSum(d: seq<int>, o: nat)
    requires o <= |d|
    ensures SumShr(Doubled(d[o..]), 0) == 2 * AbsFrom(d, o)
    decreases |d|
  {
    if o < |d| {
      var front := d[..|d| - 1];
      DoubledSum(front, o);
      var dd := Doubled(d[o..]);
      assert dd[..|dd| - 1] == Doubled(front[o..]);
      assert dd[|dd| - 1] == 2 * Abs(d[|d| - 1]);
    }
  }

  lemma {:induction false} SumsNear(a: seq<nat>, b: seq<nat>, k: nat)
    requires |a| == |b| && forall i :: 0 <= i < |a| ==> a[i] <= b[i] <= a[i] + 1
    ensures SumShr(a, k) <= SumShr(b, k) <= SumShr(a, k) + |a|
    decreases |a|
  {
    hide Shr;
    if a != [] {
      var n := |a| - 1;
      SumsNear(a[..n], b[..n], k);
      ShrNear(a[n], b[n], k);
    }
  }

  lemma {:induction false} ShrNear(a: nat, b: nat, k: nat)
    requires a <= b <= a + 1
    ensures Shr(a, k) <= Shr(b, k) <= Shr(a, k) + 1
    decreases k
  {
    if k > 0 { ShrNear(a / 2, b / 2, k - 1); }
  }

  /** What ranks a fixed order: its estimate, or the exact price of its residual. */
  function FixedCost(s: seq<int>, o: nat, p: Params, width: nat): nat
    requires o <= 4 && o <= |s| && width > 0
  {
    if p.exhaustiveFixed then CostOf(Residuals(width, FixedCoeffs(o), 0, s), |s|, o, p.maxPartitionOrder)
    else FixedEstimate(s, o)
  }

  /** The fixed order of least cost, the lowest on ties. */
  ghost predicate FixedChosen(s: seq<int>, order: nat, p: Params, width: nat)
    requires width > 0
  {
    && order <= Min(4, |s| - 1)
    && (forall o :: 0 <= o <= Min(4, |s| - 1) ==> FixedCost(s, order, p, width) <= FixedCost(s, o, p, width))
    && forall o :: 0 <= o < order ==> FixedCost(s, order, p, width) < FixedCost(s, o, p, width)
  }

  method ChooseFixedOrder(s: seq<int>, p: Params, width: nat) returns (order: nat, resBits: nat)
    requires s != [] && width > 0
    ensures FixedChosen(s, order, p, width) && resBits == FixedCost(s, order, p, width)
  {
    hide EstimateRiceBits, AbsFrom, DiffN, CostOf, Residuals, FixedCoeffs;
    var maxOrder := Min(4, |s| - 1);
    var sums := if p.exhaustiveFixed then [] else [0];
    if !p.exhaustiveFixed { sums := FixedAbsSums(s); }
    order, resBits := 0, 0;
    for o := 0 to maxOrder + 1
      invariant o == 0 || (order < o && resBits == FixedCost(s, order, p, width))
      invariant forall q :: 0 <= q < o ==> resBits <= FixedCost(s, q, p, width)
      invariant o > 0 ==> forall q :: 0 <= q < order ==> resBits < FixedCost(s, q, p, width)
    {
      var b;
      if p.exhaustiveFixed { b := PriceFixed(s, o, p, width); } else { b := EstimateRiceBits(2 * sums[o], |s| - o); }
      assert b == FixedCost(s, o, p, width);
      if o == 0 || b < resBits { order, resBits := o, b; }
    }
  }

  /** The exact price of the residual of one fixed order. */
  method PriceFixed(s: seq<int>, o: nat, p: Params, width: nat) returns (bits: nat)
    requires s != [] && width > 0 && o <= 4 && o < |s|
    ensures bits == CostOf(Residuals(width, FixedCoeffs(o), 0, s), |s|, o, p.maxPartitionOrder)
  {
    hide AllFit, Residuals, FixedCoeffs, CostOf, FoldAll, TotalAt, PlansAt, ParamBits, Splits;
    var coeffs := FixedCoeffs(o);
    var buf := new int[|s|];
    EncodeResidual(buf, s, coeffs, 0, width);
    var res := buf[o..];
    assert res == Residuals(width, coeffs, 0, s);
    ResidualsFit(width, coeffs, 0, s);
    var po, plans, pb;
    ghost var pmax;
    po, plans, pb, bits, pmax := PlanResidual(res, |s|, o, p.maxPartitionOrder, width);
  }

  /** The constraints on a predictor: an order from 1 to the limit, below the block size and at most
      32, a shift from 0 to 15 and coefficients of a precision from 1 to 15 bits. */
  ghost predicate Fitting(l: Predictor, n: nat, p: Params)
  {
    && 1 <= |l.coeffs| <= p.maxLpcOrder && |l.coeffs| < n && |l.coeffs| <= 32 && l.shift <= 15
    && 1 <= p.lpcPrecision <= 15 && AllFit(l.coeffs, p.lpcPrecision)
  }

  /** Runs the analysis, which answers nothing outside these constraints. */
  method AnalyzeLpc(s: seq<int>, eff: nat, p: Params) returns (found: bool, coeffs: seq<int>, shift: nat)
    ensures var answer := p.analysis(s, eff);
      && (found <==> answer.Some? && Fitting(answer.value, |s|, p))
      && (found ==> answer == Some(Predictor(coeffs, shift)))
  {
    hide Fits;
    coeffs, shift := [], 0;
    if p.lpcPrecision < 1 || p.lpcPrecision > 15 { return false, coeffs, shift; }
    var answer := p.analysis(s, eff);
    if answer == None { return false, coeffs, shift; }
    coeffs, shift := answer.value.coeffs, answer.value.shift;
    found := 1 <= |coeffs| <= Min(p.maxLpcOrder, Min(|s| - 1, 32)) && shift <= 15;
    var i := 0;
    while found && i < |coeffs|
      invariant found ==> i <= |coeffs|
      invariant found ==> 1 <= |coeffs| <= Min(p.maxLpcOrder, Min(|s| - 1, 32)) && shift <= 15
      invariant found ==> forall j :: 0 <= j < i ==> Fits(coeffs[j], p.lpcPrecision)
      invariant !found ==> !Fitting(answer.value, |s|, p)
      decreases found, |coeffs| - i
    {
      var half: int := Pow2(p.lpcPrecision - 1);
      found := -half <= coeffs[i] < half;
      FitsIs(coeffs[i], p.lpcPrecision);
      i := i + 1;
    }
  }

  lemma {:induction false} FitsIs(v: int, n: nat)
    requires n > 0
    ensures Fits(v, n) <==> -(Pow2(n - 1) as int) <= v < Pow2(n - 1)
  {
  }

  method ZigzagSum(res: seq<int>, width: nat) returns (sum: nat)
    requires width > 0 && AllFit(res, width)
    ensures sum == SumShr(FoldAll(res), 0)
  {
    hide Fits, Fold;
    sum := 0;
    assert FoldAll(res)[..0] == [];
    for i := 0 to |res|
      invariant sum == SumShr(FoldAll(res)[..i], 0)
    {
      assert Fits(res[i], width);
      ZigzagFolds(res[i], width);
      SumShrSnoc(FoldAll(res), i, 0);
      sum := sum + Zigzag(res[i], width);
    }
    assert FoldAll(res)[..|res|] == FoldAll(res);
  }

  /** What ranks an LPC predictor, on the same basis. */
  function LpcCost(s: seq<int>, coeffs: seq<int>, shift: nat, p: Params, width: nat): nat
    requires |coeffs| <= |s| && width > 0
  {
    var res := Residuals(width, coeffs, shift, s);
    if p.exhaustiveFixed then CostOf(res, |s|, |coeffs|, p.maxPartitionOrder)
    else EstimateRiceBits(SumShr(FoldAll(res), 0), |s| - |coeffs|)
  }

  /** Runs the analysis and leaves the residual of its predictor in the workspace. */
  method ChooseLpcPlan(ws: Workspace, s: seq<int>, eff: nat, p: Params, width: nat)
    returns (found: bool, coeffs: seq<int>, shift: nat, resBits: nat)
    requires width > 0
    modifies ws`costRes
    ensures var answer := p.analysis(s, eff);
      && (found <==> answer.Some? && Fitting(answer.value, |s|, p))
      && (found ==> answer == Some(Predictor(coeffs, shift)))
    ensures found ==> ws.costRes == s[..|coeffs|] + Residuals(width, coeffs, shift, s)
    ensures found ==> resBits == LpcCost(s, coeffs, shift, p, width)
  {
    hide AllFit, EstimateRiceBits, Residuals, CostOf, FoldAll, TotalAt, PlansAt, ParamBits, Splits;
    resBits := 0;
    found, coeffs, shift := AnalyzeLpc(s, eff, p);
    if !found { return; }
    var buf := new int[|s|];
    EncodeResidual(buf, s, coeffs, shift, width);
    ws.costRes := buf[..];
    var res := ws.costRes[|coeffs|..];
    assert res == Residuals(width, coeffs, shift, s);
    ResidualsFit(width, coeffs, shift, s);
    if p.exhaustiveFixed {
      var po, plans, pb;
      ghost var pmax;
      po, plans, pb, resBits, pmax := PlanResidual(res, |s|, |coeffs|, p.maxPartitionOrder, width);
    } else {
      var sum := ZigzagSum(res, width);
      resBits := EstimateRiceBits(sum, |s| - |coeffs|);
    }
  }

  lemma {:induction false} ResidualsFit(width: nat, coeffs: seq<int>, shift: nat, s: seq<int>)
    requires |coeffs| <= |s| && width > 0
    ensures AllFit(Residuals(width, coeffs, shift, s), width)
  {
    hide Wrap, Prediction, Fits;
    var r := Residuals(width, coeffs, shift, s);
    forall i | 0 <= i < |r|
      ensures Fits(r[i], width)
    {
      assert r[i] == ResidualAt(width, coeffs, shift, s, |coeffs| + i);
    }
  }

  /** Every residual has an absolute value below 2^31. */
  method ResidualsInRange(res: seq<int>) returns (ok: bool)
    ensures ok <==> Carriable(res)
    ensures ok ==> AllFit(res, 32)
  {
    Pow2Values();
    for i := 0 to |res|
      invariant forall j :: 0 <= j < i ==> -0x7FFF_FFFF <= res[j] <= 0x7FFF_FFFF
    {
      if res[i] < -0x7FFF_FFFF || res[i] > 0x7FFF_FFFF { return false; }
    }
    return true;
  }

  // ---- what a plan stands for ----

  function SubOf(plan: Plan, c: Cand, s: seq<int>, precision: nat): Sub
    requires s != []
  {
    var x := ShiftRight(s, plan.wasted);
    match plan.kind
    case ConstantKind => Sub(0, Constant(s[0]))
    case VerbatimKind => Sub(plan.wasted, Verbatim(x))
    case FixedKind => Sub(plan.wasted, Fixed(x[..Min(plan.order, |s|)], c.res))
    case LpcKind => Sub(plan.wasted, Lpc(precision, plan.shift, plan.coeffs, x[..Min(plan.order, |s|)], c.res))
  }

  function CodingOf(plan: Plan, c: Cand): Coding
  {
    Coding(c.plans, plan.paramBits, if c.plans == [] then 0 else Len(|c.plans|) - 1)
  }

  /** No subframe of the format's largest block takes more bits than this. */
  const SUB_LIMIT: nat := 0x28_0000

  predicate Affordable(n: nat, bps: nat, bits: nat)
  {
    n <= 65536 && bps <= 33 ==> bits <= SUB_LIMIT
  }

  /** The plan and its slot can be printed, decode without a range verdict to exactly the
      samples, and are priced to the bit. */
  ghost predicate Sound(plan: Plan, c: Cand, s: seq<int>, bps: nat, precision: nat, width: nat)
    requires s != [] && width > 0
  {
    var sub, coding := SubOf(plan, c, s, precision), CodingOf(plan, c);
    && plan.order <= |s| && sub.wasted < bps && sub.wasted <= 32 && WellShaped(sub.body, |s|)
    && CodingOk(sub.body, coding, |s|) && Printable(sub.body, bps - sub.wasted)
    && Good(sub.body, |s|, bps - sub.wasted, width) && Output(sub, |s|, width) == s
    && |EmitSub(sub, coding, |s|, bps)| == plan.bits && Affordable(|s|, bps, plan.bits)
  }

  lemma {:induction false} EmitSubLength(sub: Sub, c: Coding, n: nat, bps: nat)
    requires WellShaped(sub.body, n) && CodingOk(sub.body, c, n) && sub.wasted < bps
    ensures |EmitSub(sub, c, n, bps)| == 8 + sub.wasted + |EmitBody(sub.body, c, n, bps - sub.wasted)|
  {
    hide EmitBody;
  }

  lemma {:induction false} ConstantSound(plan: Plan, c: Cand, s: seq<int>, bps: nat, precision: nat, width: nat)
    requires s != [] && width > 0 && AllFit(s, bps) && forall i :: 0 <= i < |s| ==> s[i] == s[0]
    requires plan.kind == ConstantKind && plan.order == 0 && plan.bits == 1 + 6 + 1 + bps
    ensures Sound(plan, c, s, bps, precision, width)
  {
    var sub := SubOf(plan, c, s, precision);
    assert Fits(s[0], bps);
    ScaleNone(Samples(sub.body, |s|, width));
    EmitSubLength(sub, CodingOf(plan, c), |s|, bps);
    assert Samples(sub.body, |s|, width) == s;
  }

  lemma {:induction false} VerbatimSound(plan: Plan, c: Cand, s: seq<int>, bps: nat, precision: nat, width: nat)
    requires s != [] && width > 0 && bps <= 33 && AllFit(s, bps)
    requires plan.kind == VerbatimKind && plan.order == 0 && plan.wasted < bps && Multiple(s, plan.wasted)
    requires plan.bits == 8 + plan.wasted + |s| * (bps - plan.wasted)
    ensures Sound(plan, c, s, bps, precision, width)
  {
    hide AllFit, Scale, ShiftRight, Multiple, EmitRaw;
    var sub := SubOf(plan, c, s, precision);
    WastedExact(s, plan.wasted, bps);
    ProductUpTo(|s|, bps - plan.wasted, 65536);
    RawLength(ShiftRight(s, plan.wasted), bps - plan.wasted);
    EmitSubLength(sub, CodingOf(plan, c), |s|, bps);
  }

  lemma {:induction false} ProductUpTo(a: nat, b: nat, n: nat)
    ensures a <= n ==> a * b <= n * b
  {
    if a <= n { ProductLe(a, n, b); }
  }

  /** The residual of the predictor restores to the samples and passes the range check. */
  lemma {:induction false} PredictedGood(b: Body, x: seq<int>, coeffs: seq<int>, shift: nat, eff: nat, width: nat)
    requires width > 0 && eff <= width && WellShaped(b, |x|) && |coeffs| <= |x| && AllFit(x, eff)
    requires b.Fixed? ==> coeffs == FixedCoeffs(|b.warm|) && shift == 0
    requires b.Lpc? ==> coeffs == b.coeffs && shift == b.shift
    requires b.Fixed? || b.Lpc?
    requires b.warm == x[..|coeffs|] && b.res == Residuals(width, coeffs, shift, x) && AllFit(b.res, 32)
    ensures Samples(b, |x|, width) == x && Good(b, |x|, eff, width)
    ensures AllFit(b.warm, eff)
  {
    hide AllFit, Residuals, FixedCoeffs;
    AllWiden(x, eff, width);
    RestoreInverts(width, coeffs, shift, x, |x|);
    assert x[..|x|] == x;
    PrefixFits(x, |coeffs|, eff);
  }

  lemma {:induction false} PrefixFits(x: seq<int>, k: nat, n: nat)
    requires AllFit(x, n) && k <= |x|
    ensures AllFit(x[..k], n)
  {
    hide Fits;
    forall i | 0 <= i < k ensures Fits(x[..k][i], n) { assert Fits(x[i], n); }
  }

  /** A plan whose slot carries the residual of its predictor and a Rice plan for it. */
  lemma {:induction false} PredictedSound(plan: Plan, c: Cand, s: seq<int>, coeffs: seq<int>, shift: nat, bps: nat,
      precision: nat, width: nat, warmup: nat, table: nat, residual: nat)
    requires s != [] && width > 0 && bps <= 33 && bps <= width && AllFit(s, bps)
    requires plan.kind == FixedKind || plan.kind == LpcKind
    requires plan.wasted < bps && Multiple(s, plan.wasted) && plan.order == |coeffs| <= |s|
    requires plan.kind == FixedKind ==> plan.order <= 4 && coeffs == FixedCoeffs(plan.order) && shift == 0
    requires plan.kind == LpcKind ==> 1 <= plan.order <= 32 && coeffs == plan.coeffs && shift == plan.shift < 16
    requires plan.kind == LpcKind ==> 1 <= precision <= 15 && AllFit(coeffs, precision)
    requires c.res == Residuals(width, coeffs, shift, ShiftRight(s, plan.wasted)) && AllFit(c.res, 32)
    requires var k := CodingOf(plan, c); PlanOk(c.res, k.plans, k.paramBits, |s|, plan.order, k.po)
    requires warmup == plan.order * (bps - plan.wasted) && table == plan.order * precision
    requires var k := CodingOf(plan, c); residual == |EmitResidual(c.res, k.plans, k.paramBits, |s|, plan.order, k.po)|
    requires plan.bits == 8 + plan.wasted + warmup + (if plan.kind == LpcKind then 4 + 5 + table else 0) + residual
    requires residual <= 11 + 35 * |s|
    ensures Sound(plan, c, s, bps, precision, width)
  {
    hide AllFit, Scale, ShiftRight, Multiple, EmitRaw, EmitResidual, Residuals, FixedCoeffs, PlanOk, Samples, Good,
      Bits, SignedBits;
    var sub := SubOf(plan, c, s, precision);
    var x := ShiftRight(s, plan.wasted);
    WastedExact(s, plan.wasted, bps);
    PredictedGood(sub.body, x, coeffs, shift, bps - plan.wasted, width);
    RawLength(x[..plan.order], bps - plan.wasted);
    RawLength(coeffs, precision);
    EmitSubLength(sub, CodingOf(plan, c), |s|, bps);
    ProductUpTo(plan.order, bps - plan.wasted, 32);
    ProductUpTo(plan.order, precision, 32);
    ProductSwap(plan.order, bps - plan.wasted);
    ProductSwap(plan.order, precision);
  }

  lemma {:induction false} ProductSwap(a: int, b: int)
    ensures a * b == b * a
  {
  }

  // ---- planning ----

  /** Plans the carried residual of the winner and stores both in the slot. */
  method Carry(ws: Workspace, idx: nat, res: seq<int>, n: nat, order: nat, p: Params, width: nat)
    returns (paramBits: nat, total: nat)
    requires idx < ws.cand.Length && order <= n && n > 0 && |res| == n - order && width > 0 && AllFit(res, width)
      && AllFit(res, 32)
    modifies ws.cand
    ensures ws.cand[idx].res == res && total <= 11 + 35 * n
    ensures forall j :: 0 <= j < ws.cand.Length && j != idx ==> ws.cand[j] == old(ws.cand[j])
    ensures var po := if ws.cand[idx].plans == [] then 0 else Len(|ws.cand[idx].plans|) - 1;
      && PlanOk(res, ws.cand[idx].plans, paramBits, n, order, po)
      && total == |EmitResidual(res, ws.cand[idx].plans, paramBits, n, order, po)|
      && Shortest(res, ws.cand[idx].plans, paramBits, n, order, po, p.maxPartitionOrder)
  {
    hide AllFit, PlanOk, EmitResidual, PlansAt, ParamBits, TotalAt, FoldAll, Splits, Len, Shortest;
    var po, plans, pb, bits, pmax := PlanResidual(res, n, order, p.maxPartitionOrder, width);
    PlanIsExact(res, n, order, po);
    PlannedIsShortest(res, n, order, po, pmax, p.maxPartitionOrder);
    LenPow2(po);
    PowPositive(po);
    OnePartition(res, n, order);
    ws.cand[idx] := Cand(res, plans);
    paramBits, total := pb, bits;
  }

  lemma {:induction false} PowPositive(n: nat)
    ensures Pow2(n) > 0
  {
  }

  /** One partition for the whole residual is never dearer than this. */
  lemma {:induction false} OnePartition(res: seq<int>, n: nat, order: nat)
    requires order <= n && |res| == n - order && AllFit(res, 32)
    ensures TotalAt(FoldAll(res), n, order, 0) <= 11 + 35 * n
  {
    hide RiceCost, BestParam, Fold, Fits, MaxOf;
    var zz := FoldAll(res);
    forall i | 0 <= i < |zz| ensures zz[i] < Pow2(32) { FoldFits(res[i], 32); }
    ParamCostBound(zz);
    assert PartLen(n, 0) == n && Pow2(0) == 1;
    assert Part(zz, order, n, 0) == zz;
    var plans := PlansAt(zz, n, order, 0);
    assert plans == [PlanPartition(zz)];
    OnePlan(zz, ParamBits(plans));
  }

  lemma {:induction false} OnePlan(zz: seq<nat>, paramBits: nat)
    ensures PlannedBits([PlanPartition(zz)], paramBits) <= paramBits + RiceCost(zz, BestParam(zz))
  {
    hide RiceCost, BestParam, MaxOf;
    var plans := [PlanPartition(zz)];
    assert plans[1..] == [];
  }

  /** Counts and removes all the wasted bits, leaving at least one value bit. */
  method ShiftOut(s: seq<int>, bps: nat, width: nat) returns (wasted: nat, shifted: seq<int>)
    requires AllFit(s, bps) && 0 < bps <= width && exists i :: 0 <= i < |s| && s[i] != 0
    ensures wasted < bps && Multiple(s, wasted) && shifted == ShiftRight(s, wasted)
    ensures forall k :: wasted < k < bps ==> !Multiple(s, k)
  {
    hide AllFit, Multiple, ShiftRight;
    AllWiden(s, bps, width);
    wasted := WastedBits(s, width);
    if wasted >= bps {
      MultipleLess(s, bps - 1, wasted);
      wasted := bps - 1;
    }
    forall k | wasted < k < bps ensures !Multiple(s, k) { if Multiple(s, k) { MultipleLess(s, wasted + 1, k); } }
    shifted := ShiftRight(s, wasted);
  }

  /** The residual of the winning predictor, recomputed for a fixed one and taken from the
      analysis for LPC. */
  method WinnerResidual(ws: Workspace, x: seq<int>, best: Plan, width: nat) returns (res: seq<int>)
    requires best.order <= |x| && width > 0
    requires (best.kind == FixedKind && best.order <= 4) || (best.kind == LpcKind && |best.coeffs| == best.order)
    requires best.kind == LpcKind ==> ws.costRes == x[..best.order] + Residuals(width, best.coeffs, best.shift, x)
    ensures best.kind == FixedKind ==> res == Residuals(width, FixedCoeffs(best.order), 0, x)
    ensures best.kind == LpcKind ==> res == Residuals(width, best.coeffs, best.shift, x)
    ensures res == ResidualOf(best, x, width) && AllFit(res, width)
  {
    hide Residuals, FixedCoeffs, AllFit;
    if best.kind == FixedKind {
      var buf := new int[|x|];
      EncodeResidual(buf, x, FixedCoeffs(best.order), 0, width);
      res := buf[best.order..];
      ghost var r := Residuals(width, FixedCoeffs(best.order), 0, x);
      assert res == (x[..best.order] + r)[best.order..] == r;
      ResidualsFit(width, FixedCoeffs(best.order), 0, x);
    } else {
      res := ws.costRes[best.order..];
      assert res == Residuals(width, best.coeffs, best.shift, x);
      ResidualsFit(width, best.coeffs, best.shift, x);
    }
  }

  /** The residual of a predicted winner. */
  function ResidualOf(best: Plan, x: seq<int>, width: nat): seq<int>
    requires best.order <= |x| && width > 0
  {
    if best.kind == FixedKind && best.order <= 4 then Residuals(width, FixedCoeffs(best.order), 0, x)
    else if best.kind == LpcKind && |best.coeffs| == best.order then Residuals(width, best.coeffs, best.shift, x)
    else []
  }

  /** The format can carry these residuals: none has an absolute value of 2^31 or more. */
  predicate Carriable(res: seq<int>)
  {
    forall i :: 0 <= i < |res| ==> -0x7FFF_FFFF <= res[i] <= 0x7FFF_FFFF
  }

  /** What becomes of the winner of the ranking: its residual is carried under the plan that
      prints it shortest, except that at 64 bits one whose residual the format cannot carry is
      replaced by verbatim. */
  ghost predicate Settled(plan: Plan, c: Cand, best: Plan, x: seq<int>, p: Params, width: nat)
    requires width > 0
  {
    best.order <= |x| && (
      if width == 64 && !Carriable(ResidualOf(best, x, width)) then
        plan.kind == VerbatimKind && plan.wasted == best.wasted
      else
        && plan == best.(paramBits := plan.paramBits, bits := plan.bits)
        && (best.kind == FixedKind || best.kind == LpcKind ==> (
          var k := CodingOf(plan, c);
          && c.res == ResidualOf(best, x, width)
          && Shortest(c.res, k.plans, k.paramBits, |x|, best.order, k.po, p.maxPartitionOrder))))
  }

  /** Carries a predicted winner to its slot and prices it exactly, or falls back. */
  method Settle(ws: Workspace, idx: nat, ghost s: seq<int>, x: seq<int>, bps: nat, p: Params, width: nat, best: Plan,
      verbatim: Plan)
    returns (plan: Plan)
    requires idx < ws.cand.Length && s != [] && AllFit(s, bps) && bps <= 33
    requires (width == 32 || width == 64) && bps <= width && best.slot == idx == verbatim.slot
    requires best.wasted < bps && Multiple(s, best.wasted) && x == ShiftRight(s, best.wasted) && best.order <= |s|
    requires (best.kind == FixedKind && best.order <= 4) || (best.kind == LpcKind && |best.coeffs| == best.order)
    requires best.kind == LpcKind ==> 1 <= best.order <= 32 && best.shift < 16 && 1 <= p.lpcPrecision <= 15
    requires best.kind == LpcKind ==> AllFit(best.coeffs, p.lpcPrecision)
    requires best.kind == LpcKind ==> ws.costRes == x[..best.order] + Residuals(width, best.coeffs, best.shift, x)
    requires verbatim.kind == VerbatimKind && verbatim.wasted == best.wasted
    requires forall c :: Sound(verbatim, c, s, bps, p.lpcPrecision, width)
    modifies ws.cand
    ensures plan.slot == idx && Sound(plan, ws.cand[idx], s, bps, p.lpcPrecision, width)
    ensures Settled(plan, ws.cand[idx], best, x, p, width)
    ensures forall j :: 0 <= j < ws.cand.Length && j != idx ==> ws.cand[j] == old(ws.cand[j])
  {
    hide AllFit, Sound, Multiple, ShiftRight, Residuals, FixedCoeffs, PlanOk, EmitResidual, Len, Shortest;
    var res := WinnerResidual(ws, x, best, width);
    if width == 64 {
      var ok := ResidualsInRange(res);
      if !ok { return verbatim; }
    }
    var pb, total := Carry(ws, idx, res, |x|, best.order, p, width);
    var eff := bps - best.wasted;
    ProductNat(best.order, eff);
    ProductNat(best.order, p.lpcPrecision);
    var warmup := best.order * eff;
    var table := best.order * p.lpcPrecision;
    var fields := if best.kind == LpcKind then 4 + 5 + table else 0;
    plan := best.(paramBits := pb, bits := 1 + 6 + 1 + best.wasted + warmup + fields + total);
    var coeffs := if best.kind == LpcKind then best.coeffs else FixedCoeffs(best.order);
    var shift := if best.kind == LpcKind then best.shift else 0;
    PredictedSound(plan, ws.cand[idx], s, coeffs, shift, bps, p.lpcPrecision, width, warmup, table, total);
  }

  /** The prices the ranking compares: exact for verbatim, and by FixedCost and LpcCost for
      the predictors. */
  function VerbatimPrice(x: seq<int>, wasted: nat, eff: nat): int
  {
    8 + wasted + |x| * eff
  }

  function FixedPrice(x: seq<int>, wasted: nat, eff: nat, o: nat, p: Params, width: nat): int
    requires o <= 4 && o <= |x| && width > 0
  {
    8 + wasted + o * eff + FixedCost(x, o, p, width)
  }

  function LpcPrice(x: seq<int>, wasted: nat, eff: nat, coeffs: seq<int>, shift: nat, p: Params, width: nat): int
    requires |coeffs| <= |x| && width > 0
  {
    8 + wasted + |coeffs| * eff + 4 + 5 + |coeffs| * p.lpcPrecision + LpcCost(x, coeffs, shift, p, width)
  }

  /** The predictor in the ranking: what the analysis answers, whenever LPC is on and the answer is
      one the subframe header can hold. */
  ghost predicate Answered(lpc: Option<Predictor>, x: seq<int>, eff: nat, p: Params)
  {
    var answer := p.analysis(x, eff);
    if p.maxLpcOrder > 0 && answer.Some? && Fitting(answer.value, |x|, p) then lpc == answer else lpc == None
  }

  /** The winner of the ranking: verbatim unless a predictor strictly beats it, the best fixed
      order before LPC on ties. */
  ghost predicate Wins(best: Plan, x: seq<int>, wasted: nat, eff: nat, p: Params, width: nat, fixed: nat,
      lpc: Option<Predictor>)
    requires width > 0
  {
    && FixedChosen(x, fixed, p, width) && best.wasted == wasted && best.kind != ConstantKind
    && Answered(lpc, x, eff, p) && (lpc.Some? ==> |lpc.value.coeffs| <= |x|) && (
      var v, f := VerbatimPrice(x, wasted, eff), FixedPrice(x, wasted, eff, fixed, p, width);
      && (best.kind == VerbatimKind ==>
        v <= f && (lpc.Some? ==> v <= LpcPrice(x, wasted, eff, lpc.value.coeffs, lpc.value.shift, p, width)))
      && (best.kind == FixedKind ==>
        && best.order == fixed && f < v
        && (lpc.Some? ==> f <= LpcPrice(x, wasted, eff, lpc.value.coeffs, lpc.value.shift, p, width)))
      && (best.kind == LpcKind ==>
        && lpc == Some(Predictor(best.coeffs, best.shift)) && |best.coeffs| == best.order <= |x|
        && LpcPrice(x, wasted, eff, best.coeffs, best.shift, p, width) < Min(v, f)))
  }

  /** The verbatim plan unless a predictor is ranked strictly before it, LPC after the best
      fixed order. */
  method RankPredictors(ws: Workspace, x: seq<int>, wasted: nat, eff: nat, p: Params, width: nat, verbatim: Plan)
    returns (best: Plan, ghost fixed: nat, ghost lpc: Option<Predictor>)
    requires x != [] && width > 0 && verbatim.kind == VerbatimKind && verbatim.wasted == wasted && verbatim.order == 0
    requires verbatim.bits == VerbatimPrice(x, wasted, eff)
    modifies ws`costRes
    ensures Wins(best, x, wasted, eff, p, width, fixed, lpc) && best.slot == verbatim.slot
    ensures best.kind == VerbatimKind ==> best == verbatim
    ensures best.kind != ConstantKind && best.order <= |x|
    ensures best.kind == FixedKind ==> best.order <= 4
    ensures best.kind == LpcKind ==> 1 <= best.order <= 32 && |best.coeffs| == best.order && best.shift < 16
    ensures best.kind == LpcKind ==> 1 <= p.lpcPrecision <= 15 && AllFit(best.coeffs, p.lpcPrecision)
    ensures best.kind == LpcKind ==> ws.costRes == x[..best.order] + Residuals(width, best.coeffs, best.shift, x)
  {
    hide AllFit, Residuals, FixedCost, FixedChosen, LpcCost;
    var hdrBits := 1 + 6 + 1 + wasted;
    var fOrder, fBits := ChooseFixedOrder(x, p, width);
    FixedOrderSmall(x, fOrder, p, width);
    best, fixed, lpc := verbatim, fOrder, None;
    ProductNat(fOrder, eff);
    var fixedBits := hdrBits + fOrder * eff + fBits;
    if fixedBits < best.bits {
      best := Plan(FixedKind, fOrder, wasted, fixedBits, [], 0, verbatim.slot, 0);
    }
    if p.maxLpcOrder > 0 {
      var found, coeffs, shift, lBits := ChooseLpcPlan(ws, x, eff, p, width);
      if found {
        lpc := Some(Predictor(coeffs, shift));
        ProductNat(|coeffs|, eff);
        ProductNat(|coeffs|, p.lpcPrecision);
        var lpcBits := hdrBits + |coeffs| * eff + 4 + 5 + |coeffs| * p.lpcPrecision + lBits;
        if lpcBits < best.bits {
          best := Plan(LpcKind, |coeffs|, wasted, lpcBits, coeffs, shift, verbatim.slot, 0);
        }
      }
    }
  }

  lemma {:induction false} FixedOrderSmall(x: seq<int>, o: nat, p: Params, width: nat)
    requires width > 0 && FixedChosen(x, o, p, width)
    ensures o <= 4 && o <= |x|
  {
    hide FixedCost;
  }

  /** The plan wins the ranking of the samples without their wasted bits. */
  ghost predicate Ranked(plan: Plan, s: seq<int>, bps: nat, p: Params, width: nat, fixed: nat, lpc: Option<Predictor>)
    requires width > 0
  {
    && plan.wasted < bps && Multiple(s, plan.wasted) && (forall k :: plan.wasted < k < bps ==> !Multiple(s, k))
    && Wins(plan, ShiftRight(s, plan.wasted), plan.wasted, bps - plan.wasted, p, width, fixed, lpc)
  }

  /** How PlanSubframe decides: constant exactly when all samples are equal, otherwise by the
      ranking and by what can be carried. */
  ghost predicate Chosen(plan: Plan, c: Cand, s: seq<int>, bps: nat, p: Params, width: nat)
    requires width > 0
  {
    if forall i :: 0 <= i < |s| ==> s[i] == s[0] then plan.kind == ConstantKind
    else exists best, fixed, lpc :: Decided(plan, c, best, fixed, lpc, s, bps, p, width)
  }

  ghost predicate Decided(plan: Plan, c: Cand, best: Plan, fixed: nat, lpc: Option<Predictor>, s: seq<int>, bps: nat,
      p: Params, width: nat)
    requires width > 0
  {
    && Ranked(best, s, bps, p, width, fixed, lpc)
    && Settled(plan, c, best, ShiftRight(s, best.wasted), p, width)
  }

  /** Chooses the cheapest encoding of s and stores the winner's residual and Rice plan in
      slot idx, leaving the other slots alone. With 64-bit samples a residual that the
      format cannot carry makes the winner fall back to verbatim. */
  method PlanSubframe(ws: Workspace, idx: nat, s: seq<int>, bps: nat, p: Params, width: nat) returns (plan: Plan)
    requires idx < ws.cand.Length && s != [] && AllFit(s, bps) && bps <= 33
    requires (width == 32 || width == 64) && bps <= width
    modifies ws.cand, ws`costRes
    ensures plan.slot == idx && Sound(plan, ws.cand[idx], s, bps, p.lpcPrecision, width)
    ensures Chosen(plan, ws.cand[idx], s, bps, p, width)
    ensures forall j :: 0 <= j < ws.cand.Length && j != idx ==> ws.cand[j] == old(ws.cand[j])
  {
    hide AllFit, Sound, Decided, Chosen;
    FirstWidth(s, bps);
    var same := AllEqual(s);
    if same {
      plan := Plan(ConstantKind, 0, 0, 1 + 6 + 1 + bps, [], 0, idx, 0);
      ConstantSound(plan, ws.cand[idx], s, bps, p.lpcPrecision, width);
      ConstantIsChosen(plan, ws.cand[idx], s, bps, p, width);
      return;
    }
    ghost var best, fixed, lpc;
    plan, best, fixed, lpc := PlanVarying(ws, idx, s, bps, p, width);
    DecidedIsChosen(plan, ws.cand[idx], best, fixed, lpc, s, bps, p, width);
  }

  lemma {:induction false} FirstWidth(s: seq<int>, bps: nat)
    requires s != [] && AllFit(s, bps)
    ensures bps > 0
  {
    assert Fits(s[0], bps);
  }

  lemma {:induction false} ConstantIsChosen(plan: Plan, c: Cand, s: seq<int>, bps: nat, p: Params, width: nat)
    requires width > 0 && plan.kind == ConstantKind && forall i :: 0 <= i < |s| ==> s[i] == s[0]
    ensures Chosen(plan, c, s, bps, p, width)
  {
    hide Decided;
  }

  lemma {:induction false} DecidedIsChosen(plan: Plan, c: Cand, best: Plan, fixed: nat, lpc: Option<Predictor>,
      s: seq<int>, bps: nat, p: Params, width: nat)
    requires width > 0 && (exists i :: 0 <= i < |s| && s[i] != s[0])
    requires Decided(plan, c, best, fixed, lpc, s, bps, p, width)
    ensures Chosen(plan, c, s, bps, p, width)
  {
    hide Decided;
  }

  /** The encoding of samples that are not all equal. */
  method PlanVarying(ws: Workspace, idx: nat, s: seq<int>, bps: nat, p: Params, width: nat)
    returns (plan: Plan, ghost best: Plan, ghost fixed: nat, ghost lpc: Option<Predictor>)
    requires idx < ws.cand.Length && s != [] && AllFit(s, bps) && 0 < bps <= 33
    requires (width == 32 || width == 64) && bps <= width && exists i :: 0 <= i < |s| && s[i] != s[0]
    modifies ws.cand, ws`costRes
    ensures plan.slot == idx && Sound(plan, ws.cand[idx], s, bps, p.lpcPrecision, width)
    ensures Decided(plan, ws.cand[idx], best, fixed, lpc, s, bps, p, width)
    ensures forall j :: 0 <= j < ws.cand.Length && j != idx ==> ws.cand[j] == old(ws.cand[j])
  {
    hide AllFit, Sound, Multiple, ShiftRight, Wins, Settled;
    var wasted, shifted := ShiftOut(s, bps, width);
    var eff := bps - wasted;
    ProductNat(|s|, eff);
    var verbatim := Plan(VerbatimKind, 0, wasted, 8 + wasted + |s| * eff, [], 0, idx, 0);
    forall c ensures Sound(verbatim, c, s, bps, p.lpcPrecision, width) {
      VerbatimSound(verbatim, c, s, bps, p.lpcPrecision, width);
    }
    plan, fixed, lpc := RankPredictors(ws, shifted, wasted, eff, p, width, verbatim);
    best := plan;
    WinnerShape(best, ws.cand[idx], shifted, wasted, eff, p, width, fixed, lpc);
    if plan.kind != VerbatimKind { plan := Settle(ws, idx, s, shifted, bps, p, width, plan, verbatim); }
  }

  lemma {:induction false} WinnerShape(best: Plan, c: Cand, x: seq<int>, wasted: nat, eff: nat, p: Params,
      width: nat, fixed: nat, lpc: Option<Predictor>)
    requires width > 0 && Wins(best, x, wasted, eff, p, width, fixed, lpc)
    ensures best.wasted == wasted && best.kind != ConstantKind
    ensures best.kind == VerbatimKind && best.order <= |x| ==> Settled(best, c, best, x, p, width)
  {
    hide FixedCost, LpcCost;
  }

  // ---- exhaustive pricing ----

  /** The subframe that prints a fixed predictor of the order under the plan of a partition
      order. */
  function FixedSub(x: seq<int>, wasted: nat, o: nat, width: nat): Sub
    requires o <= 4 && o <= |x| && width > 0
  {
    Sub(wasted, Fixed(x[..o], Residuals(width, FixedCoeffs(o), 0, x)))
  }

  function LpcSub(x: seq<int>, wasted: nat, lpc: Predictor, precision: nat, width: nat): Sub
    requires |lpc.coeffs| <= |x| && width > 0
  {
    Sub(wasted, Lpc(precision, lpc.shift, lpc.coeffs, x[..|lpc.coeffs|], Residuals(width, lpc.coeffs, lpc.shift, x)))
  }

  function CodingAt(res: seq<int>, n: nat, order: nat, po: nat): Coding
  {
    var plans := PlansAt(FoldAll(res), n, order, po);
    Coding(plans, ParamBits(plans), po)
  }

  lemma {:induction false} FixedSubLength(x: seq<int>, wasted: nat, o: nat, po: nat, bps: nat, width: nat)
    requires o <= 4 && o <= |x| && width > 0 && wasted < bps && po <= 15 && Splits(|x|, o, po)
    ensures var sub, res := FixedSub(x, wasted, o, width), Residuals(width, FixedCoeffs(o), 0, x);
      && WellShaped(sub.body, |x|) && CodingOk(sub.body, CodingAt(res, |x|, o, po), |x|)
      && |EmitSub(sub, CodingAt(res, |x|, o, po), |x|, bps)|
        == 8 + wasted + o * (bps - wasted) + SectionLen(res, |x|, o, po)
  {
    hide PlanOk, EmitResidual, EmitRaw, PlansAt, ParamBits, FoldAll, Splits, Residuals, FixedCoeffs, TotalAt;
    var res := Residuals(width, FixedCoeffs(o), 0, x);
    PlanIsExact(res, |x|, o, po);
    EmitSubLength(FixedSub(x, wasted, o, width), CodingAt(res, |x|, o, po), |x|, bps);
    RawLength(x[..o], bps - wasted);
    ProductSwap(o, bps - wasted);
  }

  lemma {:induction false} LpcSubLength(x: seq<int>, wasted: nat, lpc: Predictor, precision: nat, po: nat, bps: nat,
      width: nat)
    requires Codeable(lpc, |x|, precision) && width > 0 && wasted < bps && po <= 15
    requires Splits(|x|, |lpc.coeffs|, po)
    ensures var sub, o := LpcSub(x, wasted, lpc, precision, width), |lpc.coeffs|;
      var res := Residuals(width, lpc.coeffs, lpc.shift, x);
      && WellShaped(sub.body, |x|) && CodingOk(sub.body, CodingAt(res, |x|, o, po), |x|)
      && |EmitSub(sub, CodingAt(res, |x|, o, po), |x|, bps)|
        == 8 + wasted + o * (bps - wasted) + 9 + o * precision + SectionLen(res, |x|, o, po)
  {
    hide PlanOk, EmitResidual, EmitRaw, PlansAt, ParamBits, FoldAll, Splits, Residuals, TotalAt, Bits, SignedBits;
    var o, res := |lpc.coeffs|, Residuals(width, lpc.coeffs, lpc.shift, x);
    PlanIsExact(res, |x|, o, po);
    EmitSubLength(LpcSub(x, wasted, lpc, precision, width), CodingAt(res, |x|, o, po), |x|, bps);
    RawLength(x[..o], bps - wasted);
    RawLength(lpc.coeffs, precision);
    ProductSwap(o, bps - wasted);
    ProductSwap(o, precision);
  }

  /** The lengths of these subframes as printed. */
  ghost function FixedLen(x: seq<int>, wasted: nat, o: nat, po: nat, bps: nat, width: nat): nat
    requires o <= 4 && o <= |x| && width > 0 && wasted < bps && po <= 15 && Splits(|x|, o, po)
  {
    FixedSubLength(x, wasted, o, po, bps, width);
    var res := Residuals(width, FixedCoeffs(o), 0, x);
    |EmitSub(FixedSub(x, wasted, o, width), CodingAt(res, |x|, o, po), |x|, bps)|
  }

  /** A predictor that a subframe header can hold. */
  predicate Codeable(lpc: Predictor, n: nat, precision: nat)
  {
    1 <= |lpc.coeffs| <= 32 && |lpc.coeffs| <= n && lpc.shift < 16 && 1 <= precision <= 15
  }

  ghost function LpcLen(x: seq<int>, wasted: nat, lpc: Predictor, precision: nat, po: nat, bps: nat, width: nat): nat
    requires Codeable(lpc, |x|, precision) && width > 0 && wasted < bps && po <= 15
    requires Splits(|x|, |lpc.coeffs|, po)
  {
    LpcSubLength(x, wasted, lpc, precision, po, bps, width);
    var res := Residuals(width, lpc.coeffs, lpc.shift, x);
    |EmitSub(LpcSub(x, wasted, lpc, precision, width), CodingAt(res, |x|, |lpc.coeffs|, po), |x|, bps)|
  }

  /** The price of a sound plan with a predictor, part by part. */
  lemma {:induction false} PredictedBits(plan: Plan, c: Cand, s: seq<int>, bps: nat, precision: nat, width: nat)
    requires s != [] && width > 0 && Sound(plan, c, s, bps, precision, width)
    requires (plan.kind == FixedKind && plan.order <= 4) || (plan.kind == LpcKind && |plan.coeffs| == plan.order)
    ensures var k, fields := CodingOf(plan, c), if plan.kind == LpcKind then 9 + plan.order * precision else 0;
      && PlanOk(c.res, k.plans, k.paramBits, |s|, plan.order, k.po) && plan.wasted < bps
      && plan.bits == 8 + plan.wasted + plan.order * (bps - plan.wasted) + fields
        + |EmitResidual(c.res, k.plans, k.paramBits, |s|, plan.order, k.po)|
  {
    hide EmitResidual, EmitRaw, PlanOk, Good, Printable, Output, Bits, SignedBits, ShiftRight, CodingOf;
    var sub, k := SubOf(plan, c, s, precision), CodingOf(plan, c);
    EmitSubLength(sub, k, |s|, bps);
    var x := ShiftRight(s, plan.wasted);
    RawLength(x[..plan.order], bps - plan.wasted);
    RawLength(plan.coeffs, precision);
    ProductSwap(plan.order, bps - plan.wasted);
    ProductSwap(plan.order, precision);
  }

  /** A settled winner takes no more than it was priced at. */
  lemma {:induction false} SettledPrice(plan: Plan, c: Cand, best: Plan, s: seq<int>, x: seq<int>, bps: nat, p: Params,
      width: nat)
    requires s != [] && width > 0 && Sound(plan, c, s, bps, p.lpcPrecision, width)
    requires x == ShiftRight(s, best.wasted) && Settled(plan, c, best, x, p, width) && p.exhaustiveFixed
    requires width == 64 ==> Carriable(ResidualOf(best, x, width))
    ensures best.kind == FixedKind && best.order <= 4 ==>
      best.wasted < bps && plan.bits <= FixedPrice(x, best.wasted, bps - best.wasted, best.order, p, width)
    ensures best.kind == LpcKind && |best.coeffs| == best.order ==>
      best.wasted < bps
      && plan.bits <= LpcPrice(x, best.wasted, bps - best.wasted, best.coeffs, best.shift, p, width)
  {
    hide EmitResidual, PlanOk, CostOf, Residuals, FixedCoeffs, Sound, CodingOf, Shortest, Carriable, SectionLen;
    if (best.kind == FixedKind && best.order <= 4) || (best.kind == LpcKind && |best.coeffs| == best.order) {
      PredictedBits(plan, c, s, bps, p.lpcPrecision, width);
      var k := CodingOf(plan, c);
      var q := CostIsLeast(c.res, |x|, best.order, p.maxPartitionOrder);
      ShortestAt(c.res, k.plans, k.paramBits, |x|, best.order, k.po, p.maxPartitionOrder, q);
    }
  }

  lemma {:induction false} ShortestAt(res: seq<int>, plans: seq<PartPlan>, paramBits: nat, n: nat, order: nat, po: nat,
      limit: nat, q: nat)
    requires Shortest(res, plans, paramBits, n, order, po, limit) && q <= limit && q <= 15 && Splits(n, order, q)
    ensures Splits(n, order, po) && |res| == n - order && |plans| == Pow2(po) && 4 <= paramBits <= 5
    ensures |EmitResidual(res, plans, paramBits, n, order, po)| <= SectionLen(res, n, order, q)
  {
    hide EmitResidual, SectionLen;
  }

  lemma {:induction false} VerbatimBits(plan: Plan, c: Cand, s: seq<int>, bps: nat, precision: nat, width: nat)
    requires s != [] && width > 0 && Sound(plan, c, s, bps, precision, width) && plan.kind == VerbatimKind
    ensures plan.wasted < bps && plan.bits == 8 + plan.wasted + |s| * (bps - plan.wasted)
  {
    hide EmitRaw, ShiftRight, Good, Output;
    EmitSubLength(SubOf(plan, c, s, precision), CodingOf(plan, c), |s|, bps);
    RawLength(ShiftRight(s, plan.wasted), bps - plan.wasted);
    ProductSwap(|s|, bps - plan.wasted);
  }

  /** A partition order that the planner tries. */
  predicate InReach(n: nat, o: nat, q: nat, p: Params)
  {
    q <= p.maxPartitionOrder && q <= 15 && Splits(n, o, q)
  }

  /** The plan costs no more than any price it was ranked against. */
  lemma {:induction false} BelowPrices(plan: Plan, c: Cand, best: Plan, fixed: nat, lpc: Option<Predictor>,
      s: seq<int>, bps: nat, p: Params, width: nat)
    requires s != [] && width > 0 && Sound(plan, c, s, bps, p.lpcPrecision, width) && p.exhaustiveFixed
    requires Decided(plan, c, best, fixed, lpc, s, bps, p, width)
    requires best.kind == FixedKind ==> best.order <= 4
    requires width == 64 ==> Carriable(ResidualOf(best, ShiftRight(s, best.wasted), width))
    ensures var x, w := ShiftRight(s, best.wasted), best.wasted;
      && w < bps && plan.bits <= VerbatimPrice(x, w, bps - w) && FixedChosen(x, fixed, p, width)
      && plan.bits <= FixedPrice(x, w, bps - w, fixed, p, width)
      && (lpc.Some? ==>
        |lpc.value.coeffs| <= |x|
        && plan.bits <= LpcPrice(x, w, bps - w, lpc.value.coeffs, lpc.value.shift, p, width))
  {
    hide Sound, Carriable, Shortest, FixedCost, LpcCost, FixedPrice, LpcPrice, VerbatimPrice, CodingOf, Multiple,
      ShiftRight, FixedChosen, ResidualOf;
    SettledPrice(plan, c, best, s, ShiftRight(s, best.wasted), bps, p, width);
    if plan.kind == VerbatimKind { VerbatimIsPrice(plan, c, s, bps, p.lpcPrecision, width); }
  }

  lemma {:induction false} VerbatimIsPrice(plan: Plan, c: Cand, s: seq<int>, bps: nat, precision: nat, width: nat)
    requires s != [] && width > 0 && Sound(plan, c, s, bps, precision, width) && plan.kind == VerbatimKind
    ensures plan.wasted < bps && plan.bits == VerbatimPrice(ShiftRight(s, plan.wasted), plan.wasted, bps - plan.wasted)
  {
    hide Sound;
    VerbatimBits(plan, c, s, bps, precision, width);
  }

  /** With exhaustive pricing the plan is no longer than verbatim and than the predictor that the
      analysis answered, at any partition order; and no longer than a fixed order of at least the
      order chosen. Fixed orders are compared without their warm-up, so a lower one may be
      shorter, but by less than the warm-up it saves. The exception to all of it is a winner that
      cannot be carried. */
  lemma {:induction false} ExhaustiveIsShort(plan: Plan, c: Cand, best: Plan, fixed: nat, lpc: Option<Predictor>,
      s: seq<int>, bps: nat, p: Params, width: nat)
    requires s != [] && width > 0 && Sound(plan, c, s, bps, p.lpcPrecision, width) && p.exhaustiveFixed
    requires Decided(plan, c, best, fixed, lpc, s, bps, p, width)
    requires best.kind == FixedKind ==> best.order <= 4
    requires width == 64 ==> Carriable(ResidualOf(best, ShiftRight(s, best.wasted), width))
    ensures best.wasted < bps && plan.bits <= 8 + best.wasted + |s| * (bps - best.wasted)
    ensures forall o, q :: 0 <= o <= Min(4, |s| - 1) && InReach(|s|, o, q, p) ==>
      var len := FixedLen(ShiftRight(s, best.wasted), best.wasted, o, q, bps, width);
      if o >= fixed then plan.bits <= len else plan.bits < len + (fixed - o) * (bps - best.wasted)
    ensures lpc.Some? && Codeable(lpc.value, |s|, p.lpcPrecision) ==>
      forall q :: InReach(|s|, |lpc.value.coeffs|, q, p) ==>
        plan.bits <= LpcLen(ShiftRight(s, best.wasted), best.wasted, lpc.value, p.lpcPrecision, q, bps, width)
  {
    hide Sound, Carriable, FixedCost, Decided, LpcCost, LpcPrice, FixedLen, LpcLen, FixedChosen, Splits, ResidualOf,
      ShiftRight;
    var x, w := ShiftRight(s, best.wasted), best.wasted;
    BelowPrices(plan, c, best, fixed, lpc, s, bps, p, width);
    forall o, q | 0 <= o <= Min(4, |s| - 1) && InReach(|s|, o, q, p)
      ensures var len := FixedLen(x, w, o, q, bps, width);
        if o >= fixed then plan.bits <= len else plan.bits < len + (fixed - o) * (bps - w)
    {
      FixedLenIs(x, w, o, q, bps, p, width);
      FixedMargin(x, fixed, o, bps - w, p, width);
    }
    if lpc.Some? && Codeable(lpc.value, |s|, p.lpcPrecision) {
      forall q | InReach(|s|, |lpc.value.coeffs|, q, p)
        ensures plan.bits <= LpcLen(x, w, lpc.value, p.lpcPrecision, q, bps, width)
      {
        LpcLenIs(x, w, lpc.value, q, bps, p, width);
      }
    }
  }

  lemma {:induction false} FixedMargin(x: seq<int>, fixed: nat, o: nat, eff: nat, p: Params, width: nat)
    requires x != [] && width > 0 && FixedChosen(x, fixed, p, width) && o <= Min(4, |x| - 1)
    ensures fixed <= 4 && fixed <= |x|
    ensures o >= fixed ==> FixedCost(x, fixed, p, width) + fixed * eff <= FixedCost(x, o, p, width) + o * eff
    ensures o < fixed ==>
      FixedCost(x, fixed, p, width) + fixed * eff < FixedCost(x, o, p, width) + o * eff + (fixed - o) * eff
  {
    hide FixedCost;
    if o >= fixed { ProductLe(fixed, o, eff); } else { Distribute(o, fixed - o, eff); }
  }

  lemma {:induction false} FixedLenIs(x: seq<int>, wasted: nat, o: nat, q: nat, bps: nat, p: Params, width: nat)
    requires x != [] && o <= 4 && o <= |x| && width > 0 && wasted < bps && q <= 15 && q <= p.maxPartitionOrder
    requires Splits(|x|, o, q) && p.exhaustiveFixed
    ensures FixedCost(x, o, p, width) + 8 + wasted + o * (bps - wasted) <= FixedLen(x, wasted, o, q, bps, width)
  {
    hide EmitSub, CostOf, Residuals, FixedCoeffs, SectionLen, Splits, CodingAt;
    FixedSubLength(x, wasted, o, q, bps, width);
    var b := CostIsLeast(Residuals(width, FixedCoeffs(o), 0, x), |x|, o, p.maxPartitionOrder);
  }

  lemma {:induction false} LpcLenIs(x: seq<int>, wasted: nat, lpc: Predictor, q: nat, bps: nat, p: Params, width: nat)
    requires x != [] && Codeable(lpc, |x|, p.lpcPrecision) && width > 0 && wasted < bps && q <= 15
    requires q <= p.maxPartitionOrder && Splits(|x|, |lpc.coeffs|, q) && p.exhaustiveFixed
    ensures LpcPrice(x, wasted, bps - wasted, lpc.coeffs, lpc.shift, p, width)
      <= LpcLen(x, wasted, lpc, p.lpcPrecision, q, bps, width)
  {
    hide EmitSub, CostOf, Residuals, SectionLen, Splits, CodingAt;
    LpcSubLength(x, wasted, lpc, p.lpcPrecision, q, bps, width);
    var b := CostIsLeast(Residuals(width, lpc.coeffs, lpc.shift, x), |x|, |lpc.coeffs|, p.maxPartitionOrder);
  }

  // ---- writing ----

  method WriteSubframeHeader(bw: Writer, typeCode: nat, wasted: nat)
    requires bw.Valid()
    modifies bw
    ensures bw.Valid() && bw.Contents() == old(bw.Contents()) + (Bits(0, 1) + (Bits(typeCode, 6) + EmitWasted(wasted)))
  {
    hide Writer.Valid, Writer.Contents, Bits;
    ghost var c := bw.Contents();
    bw.WriteBits(0, 1);
    bw.WriteBits(typeCode, 6);
    if wasted == 0 {
      bw.WriteBits(0, 1);
    } else {
      bw.WriteBits(1, 1);
      bw.WriteUnary(wasted - 1);
      Regroup(c + Bits(0, 1) + Bits(typeCode, 6), Bits(1, 1), UnaryBits(wasted - 1));
    }
    Regroup(c + Bits(0, 1), Bits(typeCode, 6), EmitWasted(wasted));
    Regroup(c, Bits(0, 1), Bits(typeCode, 6) + EmitWasted(wasted));
  }

  /** The first k samples without their wasted bits. */
  method WriteSamples(bw: Writer, s: seq<int>, k: nat, wasted: nat, eff: nat)
    requires bw.Valid() && k <= |s| && eff <= 64
    modifies bw
    ensures bw.Valid() && bw.Contents() == old(bw.Contents()) + EmitRaw(ShiftRight(s, wasted)[..k], eff)
  {
    hide Writer.Valid, Writer.Contents, SignedBits;
    ghost var x := ShiftRight(s, wasted)[..k];
    assert x[0..] == x;
    for i := 0 to k
      invariant bw.Valid() && bw.Contents() + EmitRaw(x[i..], eff) == old(bw.Contents()) + EmitRaw(x, eff)
    {
      EmitRawStep(x, i, eff);
      Regroup(bw.Contents(), SignedBits(x[i], eff), EmitRaw(x[i + 1..], eff));
      bw.WriteSignedBits(s[i] / Pow2(wasted), eff);
    }
    assert bw.Contents() + [] == bw.Contents();
  }

  method WriteCoeffs(bw: Writer, coeffs: seq<int>, precision: nat)
    requires bw.Valid() && precision <= 64
    modifies bw
    ensures bw.Valid() && bw.Contents() == old(bw.Contents()) + EmitRaw(coeffs, precision)
  {
    hide Writer.Valid, Writer.Contents, SignedBits;
    assert coeffs[0..] == coeffs;
    for i := 0 to |coeffs|
      invariant bw.Valid()
        && bw.Contents() + EmitRaw(coeffs[i..], precision) == old(bw.Contents()) + EmitRaw(coeffs, precision)
    {
      EmitRawStep(coeffs, i, precision);
      Regroup(bw.Contents(), SignedBits(coeffs[i], precision), EmitRaw(coeffs[i + 1..], precision));
      bw.WriteSignedBits(coeffs[i], precision);
    }
    assert bw.Contents() + [] == bw.Contents();
  }

  /** The bits of a sound plan. */
  ghost function Emitted(plan: Plan, c: Cand, s: seq<int>, bps: nat, precision: nat, width: nat): seq<bool>
    requires s != [] && width > 0 && Sound(plan, c, s, bps, precision, width)
  {
    EmitSub(SubOf(plan, c, s, precision), CodingOf(plan, c), |s|, bps)
  }

  lemma {:induction false} HeaderThenBody(c: seq<bool>, sub: Sub, k: Coding, n: nat, bps: nat)
    requires WellShaped(sub.body, n) && CodingOk(sub.body, k, n) && sub.wasted < bps
    ensures c + EmitSub(sub, k, n, bps)
         == (c + (Bits(0, 1) + (Bits(TypeCode(sub.body), 6) + EmitWasted(sub.wasted))))
           + EmitBody(sub.body, k, n, bps - sub.wasted)
  {
    hide EmitBody, EmitWasted, TypeCode, Bits;
    var b := EmitBody(sub.body, k, n, bps - sub.wasted);
    var w, t := EmitWasted(sub.wasted), Bits(TypeCode(sub.body), 6);
    Regroup(t, w, b);
    Regroup(Bits(0, 1), t + w, b);
    Regroup(c, Bits(0, 1) + (t + w), b);
  }

  method WriteConstant(bw: Writer, value: int, wasted: nat, bps: nat)
    requires bw.Valid() && wasted <= bps <= 64
    modifies bw
    ensures bw.Valid()
    ensures bw.Contents() ==
      old(bw.Contents()) + (Bits(0, 1) + (Bits(0, 6) + EmitWasted(wasted)))
      + SignedBits(value / Pow2(wasted), bps - wasted)
  {
    hide Writer.Valid, Writer.Contents, Bits, SignedBits;
    WriteSubframeHeader(bw, 0, wasted);
    bw.WriteSignedBits(value / Pow2(wasted), bps - wasted);
  }

  method WriteVerbatim(bw: Writer, s: seq<int>, wasted: nat, bps: nat)
    requires bw.Valid() && wasted <= bps <= 64
    modifies bw
    ensures bw.Valid()
    ensures bw.Contents() ==
      old(bw.Contents()) + (Bits(0, 1) + (Bits(1, 6) + EmitWasted(wasted)))
      + EmitRaw(ShiftRight(s, wasted), bps - wasted)
  {
    hide Writer.Valid, Writer.Contents, Bits, EmitRaw;
    WriteSubframeHeader(bw, 1, wasted);
    WriteSamples(bw, s, |s|, wasted, bps - wasted);
    assert ShiftRight(s, wasted)[..|s|] == ShiftRight(s, wasted);
  }

  method WriteFixed(bw: Writer, c: Cand, s: seq<int>, bps: nat, plan: Plan, width: nat)
    requires bw.Valid() && plan.order <= |s| && plan.wasted <= bps <= 64 && 32 <= width && AllFit(c.res, width)
    requires var k := CodingOf(plan, c); PlanOk(c.res, k.plans, k.paramBits, |s|, plan.order, k.po)
    modifies bw
    ensures bw.Valid()
    ensures bw.Contents() == old(bw.Contents()) + (Bits(0, 1) + (Bits(8 + plan.order, 6) + EmitWasted(plan.wasted)))
      + (EmitRaw(ShiftRight(s, plan.wasted)[..plan.order], bps - plan.wasted)
        + EmitResidual(c.res, c.plans, plan.paramBits, |s|, plan.order, CodingOf(plan, c).po))
  {
    hide Writer.Valid, Writer.Contents, Bits, EmitRaw, EmitResidual, AllFit, AllCodable;
    WriteSubframeHeader(bw, 8 + plan.order, plan.wasted);
    ghost var c0 := bw.Contents();
    WriteSamples(bw, s, plan.order, plan.wasted, bps - plan.wasted);
    var _ := WritePlanned(bw, c.res, plan.order, |s|, c.plans, plan.paramBits, width, CodingOf(plan, c).po);
    Regroup(c0, EmitRaw(ShiftRight(s, plan.wasted)[..plan.order], bps - plan.wasted),
      EmitResidual(c.res, c.plans, plan.paramBits, |s|, plan.order, CodingOf(plan, c).po));
  }

  method WriteLpc(bw: Writer, c: Cand, s: seq<int>, bps: nat, plan: Plan, precision: nat, width: nat)
    requires bw.Valid() && plan.order == |plan.coeffs| <= |s| && plan.wasted <= bps <= 64 && 32 <= width
      && AllFit(c.res, width)
    requires 1 <= precision <= 15
    requires var k := CodingOf(plan, c); PlanOk(c.res, k.plans, k.paramBits, |s|, plan.order, k.po)
    modifies bw
    ensures bw.Valid()
    ensures bw.Contents() == old(bw.Contents()) + (Bits(0, 1) + (Bits(31 + plan.order, 6) + EmitWasted(plan.wasted)))
      + (EmitRaw(ShiftRight(s, plan.wasted)[..plan.order], bps - plan.wasted)
        + (Bits(precision - 1, 4) + (SignedBits(plan.shift, 5)
        + (EmitRaw(plan.coeffs, precision)
        + EmitResidual(c.res, c.plans, plan.paramBits, |s|, plan.order, CodingOf(plan, c).po)))))
  {
    hide Writer.Valid, Writer.Contents, Bits, SignedBits, EmitRaw, EmitResidual, AllFit, AllCodable;
    WriteSubframeHeader(bw, 31 + plan.order, plan.wasted);
    ghost var c0 := bw.Contents();
    ghost var w := EmitRaw(ShiftRight(s, plan.wasted)[..plan.order], bps - plan.wasted);
    ghost var b, h, q := Bits(precision - 1, 4), SignedBits(plan.shift, 5), EmitRaw(plan.coeffs, precision);
    ghost var r := EmitResidual(c.res, c.plans, plan.paramBits, |s|, plan.order, CodingOf(plan, c).po);
    WriteSamples(bw, s, plan.order, plan.wasted, bps - plan.wasted);
    bw.WriteBits(precision - 1, 4);
    bw.WriteSignedBits(plan.shift, 5);
    WriteCoeffs(bw, plan.coeffs, precision);
    var _ := WritePlanned(bw, c.res, plan.order, |s|, c.plans, plan.paramBits, width, CodingOf(plan, c).po);
    Regroup(c0 + w + b + h, q, r);
    Regroup(c0 + w + b, h, q + r);
    Regroup(c0 + w, b, h + (q + r));
    Regroup(c0, w, b + (h + (q + r)));
  }

  /** What the four writers need of a sound plan, and what they emit. */
  lemma {:induction false} SoundParts(bits: seq<bool>, plan: Plan, c: Cand, s: seq<int>, bps: nat, precision: nat,
      width: nat)
    requires s != [] && 32 <= width && Sound(plan, c, s, bps, precision, width)
    ensures plan.kind != ConstantKind ==> plan.wasted < bps
    ensures plan.kind == FixedKind || plan.kind == LpcKind ==> plan.order <= |s| && AllFit(c.res, width)
    ensures plan.kind == FixedKind || plan.kind == LpcKind ==>
      var k := CodingOf(plan, c); PlanOk(c.res, k.plans, k.paramBits, |s|, plan.order, k.po)
    ensures plan.kind == LpcKind ==> 1 <= precision <= 15 && |plan.coeffs| == plan.order
    ensures 0 < bps
    ensures var sub := SubOf(plan, c, s, precision);
      bits + Emitted(plan, c, s, bps, precision, width)
        == (bits + (Bits(0, 1) + (Bits(TypeCode(sub.body), 6) + EmitWasted(sub.wasted))))
          + EmitBody(sub.body, CodingOf(plan, c), |s|, bps - sub.wasted)
  {
    hide Bits, EmitBody, EmitWasted, AllFit, Samples, Scale, ShiftRight, PlanOk, EmitSub;
    var sub := SubOf(plan, c, s, precision);
    HeaderThenBody(bits, sub, CodingOf(plan, c), |s|, bps);
    if plan.kind == FixedKind || plan.kind == LpcKind { AllWiden(c.res, 32, width); }
  }

  /** Writes s under its plan, reading the residual and the Rice plan from the slot. */
  method WriteSubframe(bw: Writer, ws: Workspace, s: seq<int>, bps: nat, plan: Plan, p: Params, width: nat)
    requires bw.Valid() && s != [] && plan.slot < ws.cand.Length && bps <= 33 && 32 <= width
    requires Sound(plan, ws.cand[plan.slot], s, bps, p.lpcPrecision, width)
    modifies bw
    ensures bw.Valid()
    ensures bw.Contents() == old(bw.Contents()) + Emitted(plan, ws.cand[plan.slot], s, bps, p.lpcPrecision, width)
  {
    hide Writer.Valid, Writer.Contents, Bits, SignedBits, EmitRaw, EmitResidual, EmitWasted, AllFit, ShiftRight,
      PlanOk, Sound, Emitted, Pow2;
    var c := ws.cand[plan.slot];
    SoundParts(bw.Contents(), plan, c, s, bps, p.lpcPrecision, width);
    match plan.kind
    case ConstantKind =>
      PowNone(s[0]);
      WriteConstant(bw, s[0], 0, bps);
    case VerbatimKind =>
      WriteVerbatim(bw, s, plan.wasted, bps);
    case FixedKind =>
      WriteFixed(bw, c, s, bps, plan, width);
    case LpcKind =>
      WriteLpc(bw, c, s, bps, plan, p.lpcPrecision, width);
  }

  lemma {:induction false} PowNone(v: int)
    ensures v / Pow2(0) == v
  {
  }
}
