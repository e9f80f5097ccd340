/** The two accumulation widths of LPC restoration (internal/i32/lpc.go): 64-bit sums, and
    32-bit sums under a safety predicate, with the register-carrying small kernels. */
module LpcRoutes {
  import opened Words
  import opened Predict

  function AbsSum(coeffs: seq<int>): nat
  {
    if coeffs == [] then 0 else AbsSum(coeffs[..|coeffs| - 1]) + Abs(coeffs[|coeffs| - 1])
  }

  /** libFLAC's condition that neither the prediction nor its sum with a sample's range
      leaves 32 bits. */
  predicate NarrowSafe(coeffs: seq<int>, bps: nat, shift: nat)
  {
    && 0 < bps <= 32 && shift <= 31 && |coeffs| <= 32
    && AbsSum(coeffs) < Pow2(32 - bps)
    && Pow2(bps - 1) + (AbsSum(coeffs) * Pow2(bps - 1) + Pow2(shift) - 1) / Pow2(shift) < Pow2(31)
  }

  method LpcRestoreNarrowSafe(coeffs: seq<int>, bps: nat, shift: nat) returns (safe: bool)
    ensures safe == NarrowSafe(coeffs, bps, shift)
  {
    if bps == 0 || bps > 32 || shift > 31 || |coeffs| > 32 { return false; }
    var a := 0;
    for j := 0 to |coeffs|
      invariant a == AbsSum(coeffs[..j])
    {
      assert coeffs[..j + 1][..j] == coeffs[..j];
      a := a + Max(coeffs[j], -coeffs[j]);
    }
    assert coeffs[..|coeffs|] == coeffs;
    if a >= Pow2(32 - bps) { return false; }
    var maxPred := a * Pow2(bps - 1);
    var shifted := (maxPred + Pow2(shift) - 1) / Pow2(shift);
    return Pow2(bps - 1) + shifted < Pow2(31);
  }

  /** The prediction with 32-bit accumulation. */
  function NarrowPrediction(coeffs: seq<int>, shift: nat, h: seq<int>): int
    requires |coeffs| <= |h|
  {
    Wrap(Dot(coeffs, h), 32) / Pow2(shift)
  }

  /** Restored, with 32-bit accumulation. */
  function NarrowRestored(coeffs: seq<int>, shift: nat, block: seq<int>, i: nat): (h: seq<int>)
    requires i <= |block|
    ensures |h| == i
    decreases i
  {
    if i <= |coeffs| then block[..i] else
      var h := NarrowRestored(coeffs, shift, block, i - 1);
      h + [Wrap(block[i - 1] + NarrowPrediction(coeffs, shift, h), 32)]
  }

  // ---- the two widths agree up to the first sample out of range ----

  lemma {:induction false} ProductBound(c: int, x: int, m: int)
    requires -m <= x <= m
    ensures -(Abs(c) * m) <= c * x <= Abs(c) * m
  {
    if c >= 0 {
      ProductLe(x, m, c);
      ProductLe(-m, x, c);
    } else {
      ProductLe(x, m, -c);
      ProductLe(-m, x, -c);
    }
    assert c * x == x * c && Abs(c) * m == m * Abs(c);
  }

  lemma {:induction false} DotBound(coeffs: seq<int>, h: seq<int>, m: int)
    requires m >= 0 && |coeffs| <= |h| && forall i :: |h| - |coeffs| <= i < |h| ==> -m <= h[i] <= m
    ensures -(AbsSum(coeffs) * m) <= Dot(coeffs, h) <= AbsSum(coeffs) * m
  {
    if coeffs != [] {
      var c, k := coeffs[..|coeffs| - 1], coeffs[|coeffs| - 1];
      DotBound(c, h, m);
      ProductBound(k, h[|h| - |coeffs|], m);
      assert (AbsSum(c) + Abs(k)) * m == AbsSum(c) * m + Abs(k) * m;
    }
  }

  /** With an in-range history the 32-bit sum does not wrap. */
  lemma {:induction false} NarrowIsExact(coeffs: seq<int>, bps: nat, shift: nat, h: seq<int>)
    requires NarrowSafe(coeffs, bps, shift) && |coeffs| <= |h| && AllFit(h, bps)
    ensures NarrowPrediction(coeffs, shift, h) == Prediction(32, coeffs, shift, h)
  {
    hide Dot, AbsSum, Pow2, Wrap;
    var m: int, a, v := Pow2(bps - 1), AbsSum(coeffs), Dot(coeffs, h);
    forall i | |h| - |coeffs| <= i < |h| ensures -m <= h[i] <= m { assert Fits(h[i], bps); }
    DotBound(coeffs, h, m);
    Pow2Add(32 - bps, bps - 1);
    ProductLt(a, Pow2(32 - bps), m);
    Pow2Mono(31, 63);
    WrapFits(v, 32);
    WrapFits(v, 64);
    ShiftBound(v, Pow2(31), Pow2(shift));
    WrapFits(v / Pow2(shift), 32);
  }

  lemma {:induction false} ShiftBound(v: int, b: int, d: int)
    requires -b <= v < b && d >= 1
    ensures -b <= v / d < b
  {
    var q := v / d;
    QuotRem(v, d);
    MulAtLeast(d, b);
    MulAtLeast(d, b + 1);
    if q >= b { ProductLe(b, q, d); }
    if q < -b { ProductLe(q, -b - 1, d); }
  }

  /** Route independence, sample by sample: while every sample so far is within bps bits,
      the next one is the same for both accumulation widths. */
  lemma {:induction false} RoutesAgree(coeffs: seq<int>, bps: nat, shift: nat, block: seq<int>, i: nat)
    requires NarrowSafe(coeffs, bps, shift) && i < |block|
    requires AllFit(Restored(32, coeffs, shift, block, i), bps)
    ensures NarrowRestored(coeffs, shift, block, i + 1) == Restored(32, coeffs, shift, block, i + 1)
    decreases i
  {
    hide NarrowSafe, Prediction, NarrowPrediction, Wrap, Fits;
    if i >= |coeffs| {
      if i > 0 {
        RestoredPrefix(32, coeffs, shift, block, i - 1, i);
        var h, g := Restored(32, coeffs, shift, block, i), Restored(32, coeffs, shift, block, i - 1);
        forall k | 0 <= k < i - 1 ensures Fits(g[k], bps) { assert g[k] == h[..i - 1][k] == h[k]; }
        RoutesAgree(coeffs, bps, shift, block, i - 1);
      }
      NarrowIsExact(coeffs, bps, shift, Restored(32, coeffs, shift, block, i));
    }
  }

  /** The verdict of the range check does not depend on the route, and neither does the
      block when it is accepted. */
  lemma {:induction false} SameVerdict(coeffs: seq<int>, bps: nat, shift: nat, block: seq<int>, n: nat)
    requires NarrowSafe(coeffs, bps, shift) && n <= |block|
    ensures AllFit(NarrowRestored(coeffs, shift, block, n), bps) <==> AllFit(Restored(32, coeffs, shift, block, n), bps)
    ensures AllFit(Restored(32, coeffs, shift, block, n), bps) ==>
      NarrowRestored(coeffs, shift, block, n) == Restored(32, coeffs, shift, block, n)
    decreases n
  {
    hide NarrowSafe, Prediction, NarrowPrediction, Wrap, Fits;
    if n > 0 {
      SameVerdict(coeffs, bps, shift, block, n - 1);
      RestoredPrefix(32, coeffs, shift, block, n - 1, n);
      NarrowPrefix(coeffs, shift, block, n);
      var w, v := Restored(32, coeffs, shift, block, n), NarrowRestored(coeffs, shift, block, n);
      if AllFit(w[..n - 1], bps) { RoutesAgree(coeffs, bps, shift, block, n - 1); }
      else {
        FitPrefix(w, n - 1, bps);
        FitPrefix(v, n - 1, bps);
      }
    }
  }

  lemma {:induction false} NarrowFits(coeffs: seq<int>, shift: nat, block: seq<int>, i: nat)
    requires i <= |block| && AllFit(block, 32)
    ensures AllFit(NarrowRestored(coeffs, shift, block, i), 32)
    decreases i
  {
    hide NarrowPrediction, Wrap;
    if i > |coeffs| { NarrowFits(coeffs, shift, block, i - 1); }
  }

  lemma {:induction false} FitPrefix(s: seq<int>, k: nat, bps: nat)
    requires k <= |s| && !AllFit(s[..k], bps)
    ensures !AllFit(s, bps)
  {
    var i :| 0 <= i < k && !Fits(s[..k][i], bps);
    assert !Fits(s[i], bps);
  }

  lemma {:induction false} NarrowPrefix(coeffs: seq<int>, shift: nat, block: seq<int>, n: nat)
    requires 0 < n <= |block|
    ensures NarrowRestored(coeffs, shift, block, n)[..n - 1] == NarrowRestored(coeffs, shift, block, n - 1)
  {
  }

  // ---- the kernels ----

  /** What a route computes. */
  function Routed(narrow: bool, coeffs: seq<int>, shift: nat, block: seq<int>, i: nat): (h: seq<int>)
    requires i <= |block|
    ensures |h| == i
  {
    if narrow then NarrowRestored(coeffs, shift, block, i) else Restored(32, coeffs, shift, block, i)
  }

  /** The value a kernel adds to the residual, from its accumulated sum. */
  function Shifted(narrow: bool, acc: int, shift: nat): int
  {
    if narrow then acc / Pow2(shift) else Wrap(acc / Pow2(shift), 32)
  }

  lemma {:induction false} RoutedStep(narrow: bool, coeffs: seq<int>, shift: nat, block: seq<int>, i: nat)
    requires |coeffs| <= i < |block|
    ensures var h := Routed(narrow, coeffs, shift, block, i);
      Routed(narrow, coeffs, shift, block, i + 1)
        == h + [Wrap(block[i] + Shifted(narrow, Wrap(Dot(coeffs, h), if narrow then 32 else 64), shift), 32)]
  {
  }

  lemma {:induction false} RoutedStart(narrow: bool, coeffs: seq<int>, shift: nat, block: seq<int>)
    requires |coeffs| <= |block|
    ensures Routed(narrow, coeffs, shift, block, |coeffs|) == block[..|coeffs|]
  {
  }

  /** The unrolled kernels: the last |coeffs| outputs are carried in registers, x[0] the
      newest, and the products are added from the oldest to the newest. */
  method RegisterKernel(dst: array<int>, coeffs: seq<int>, shift: nat, narrow: bool)
    requires 0 < |coeffs| < dst.Length
    modifies dst
    ensures dst[..] == Routed(narrow, coeffs, shift, old(dst[..]), dst.Length)
  {
    hide Wrap, Dot, Routed, Shifted;
    ghost var block := dst[..];
    var order := |coeffs|;
    var x := [];
    for j := 0 to order
      invariant |x| == j && forall k :: 0 <= k < j ==> x[k] == block[j - 1 - k]
    {
      x := [dst[j]] + x;
    }
    var i := order;
    RoutedStart(narrow, coeffs, shift, block);
    while i < dst.Length
      invariant order <= i <= dst.Length && |x| == order
      invariant forall k :: 0 <= k < order ==> x[k] == dst[i - 1 - k]
      invariant dst[i..] == block[i..]
      invariant dst[..i] == Routed(narrow, coeffs, shift, block, i)
    {
      var acc := RegisterSum(coeffs, x, dst[..i], if narrow then 32 else 64);
      RoutedStep(narrow, coeffs, shift, block, i);
      assert dst[i] == dst[i..][0] == block[i];
      var v := Wrap(dst[i] + Shifted(narrow, acc, shift), 32);
      dst[i] := v;
      x := [v] + x[..order - 1];
      i := i + 1;
      assert dst[i..] == block[i - 1..][1..];
    }
    assert dst[..] == dst[..i];
  }

  /** c[n-1]*x[n-1] + ... + c[0]*x[0] on accumulator words. */
  method RegisterSum(coeffs: seq<int>, x: seq<int>, ghost h: seq<int>, accWidth: nat) returns (acc: int)
    requires |x| == |coeffs| <= |h| && accWidth > 0
    requires forall k :: 0 <= k < |x| ==> x[k] == h[|h| - 1 - k]
    ensures acc == Wrap(Dot(coeffs, h), accWidth)
  {
    hide Wrap;
    acc := 0;
    var j := |coeffs|;
    WrapZero(accWidth);
    assert coeffs[..j] == coeffs;
    while j > 0
      invariant 0 <= j <= |coeffs|
      invariant acc == Wrap(Dot(coeffs, h) - Dot(coeffs[..j], h), accWidth)
    {
      j := j - 1;
      assert coeffs[..j + 1][..j] == coeffs[..j];
      WrapAdd(coeffs[j] * x[j], Dot(coeffs, h) - Dot(coeffs[..j + 1], h), accWidth);
      acc := Wrap(acc + coeffs[j] * x[j], accWidth);
    }
  }

  /** The generic 32-bit kernel walks a reversed copy of the coefficients. */
  method RestoreGoNarrow(dst: array<int>, coeffs: seq<int>, shift: nat)
    requires 0 < |coeffs| < dst.Length
    modifies dst
    ensures dst[..] == NarrowRestored(coeffs, shift, old(dst[..]), dst.Length)
  {
    hide Wrap, Dot, Shifted, NarrowRestored;
    ghost var block := dst[..];
    var order := |coeffs|;
    NarrowStart(coeffs, shift, block);
    var rc := seq(order, k requires 0 <= k < order => coeffs[order - 1 - k]);
    var i := order;
    while i < dst.Length
      invariant order <= i <= dst.Length
      invariant dst[i..] == block[i..]
      invariant dst[..i] == NarrowRestored(coeffs, shift, block, i)
    {
      var acc := WindowSum(coeffs, rc, dst[i - order..i], dst[..i]);
      NarrowStep(coeffs, shift, block, i);
      assert dst[i] == dst[i..][0] == block[i];
      dst[i] := Wrap(dst[i] + Shifted(true, acc, shift), 32);
      i := i + 1;
      assert dst[i..] == block[i - 1..][1..];
    }
    assert dst[..] == dst[..i];
  }

  lemma {:induction false} NarrowStart(coeffs: seq<int>, shift: nat, block: seq<int>)
    requires |coeffs| <= |block|
    ensures NarrowRestored(coeffs, shift, block, |coeffs|) == block[..|coeffs|]
  {
  }

  lemma {:induction false} NarrowStep(coeffs: seq<int>, shift: nat, block: seq<int>, i: nat)
    requires |coeffs| <= i < |block|
    ensures var h := NarrowRestored(coeffs, shift, block, i);
      NarrowRestored(coeffs, shift, block, i + 1)
        == h + [Wrap(block[i] + Shifted(true, Wrap(Dot(coeffs, h), 32), shift), 32)]
  {
  }

  method WindowSum(ghost coeffs: seq<int>, rc: seq<int>, w: seq<int>, ghost h: seq<int>) returns (acc: int)
    requires |rc| == |w| == |coeffs| <= |h| && w == h[|h| - |coeffs|..]
    requires forall k :: 0 <= k < |rc| ==> rc[k] == coeffs[|coeffs| - 1 - k]
    ensures acc == Wrap(Dot(coeffs, h), 32)
  {
    hide *;
    acc := 0;
    ghost var n := |coeffs|;
    WrapZero(32);
    assert coeffs[..n] == coeffs;
    for k := 0 to |rc|
      invariant acc == Wrap(Dot(coeffs, h) - Dot(coeffs[..n - k], h), 32)
    {
      var term := rc[k] * w[k];
      WindowStep(coeffs, h, n - k, rc[k], w[k], term);
      acc := Wrap(acc + term, 32);
    }
  }

  /** One term of the reversed sum. */
  lemma {:induction false} WindowStep(coeffs: seq<int>, h: seq<int>, m: nat, c: int, x: int, term: int)
    requires 0 < m <= |coeffs| <= |h| && c == coeffs[m - 1] && x == h[|h| - m] && term == c * x
    ensures Wrap(Wrap(Dot(coeffs, h) - Dot(coeffs[..m], h), 32) + term, 32)
      == Wrap(Dot(coeffs, h) - Dot(coeffs[..m - 1], h), 32)
  {
    hide *;
    DotLast(coeffs[..m], h, term);
    assert coeffs[..m][..m - 1] == coeffs[..m - 1];
    WrapAdd(term, Dot(coeffs, h) - Dot(coeffs[..m], h), 32);
  }

  lemma {:induction false} DotLast(c: seq<int>, h: seq<int>, term: int)
    requires 0 < |c| <= |h| && term == c[|c| - 1] * h[|h| - |c|]
    ensures Dot(c, h) == Dot(c[..|c| - 1], h) + term
  {
  }

  /** Up to which order each kind of kernel is used; the ceilings are per architecture and
      bounded by the kernels that exist. */
  datatype Arch = Arch(scalar: nat, narrow: nat) {
    predicate Valid() { scalar <= 10 && narrow <= 32 }
  }

  method LpcRestore(dst: array<int>, coeffs: seq<int>, shift: nat, arch: Arch)
    requires arch.Valid()
    modifies dst
    ensures dst[..] == Restored(32, coeffs, shift, old(dst[..]), dst.Length)
  {
    if |coeffs| > 0 && |coeffs| < dst.Length && |coeffs| <= arch.scalar {
      RegisterKernel(dst, coeffs, shift, false);
    } else {
      RestoreWide(dst, coeffs, shift, 32);
    }
  }

  method LpcRestoreNarrow(dst: array<int>, coeffs: seq<int>, shift: nat, arch: Arch) returns (ghost narrow: bool)
    requires arch.Valid() && 0 < |coeffs| && shift <= 31
    modifies dst
    ensures dst[..] == Routed(narrow, coeffs, shift, old(dst[..]), dst.Length)
  {
    narrow := true;
    if |coeffs| >= dst.Length {
      return;
    }
    if |coeffs| <= arch.narrow {
      if |coeffs| <= 12 {
        RegisterKernel(dst, coeffs, shift, true);
      } else {
        RestoreGoNarrow(dst, coeffs, shift);
      }
      return;
    }
    narrow := false;
    LpcRestore(dst, coeffs, shift, arch);
  }

  /** The decoder's route choice: whatever route runs, the range check that follows gives
      the verdict of 64-bit restoration, and an accepted block is its block. */
  method RestoreLpc32(dst: array<int>, coeffs: seq<int>, shift: nat, bps: nat, arch: Arch)
    requires arch.Valid() && 0 < |coeffs| && shift <= 31
    modifies dst
    ensures AllFit(dst[..], bps) <==> AllFit(Restored(32, coeffs, shift, old(dst[..]), dst.Length), bps)
    ensures AllFit(dst[..], bps) ==> dst[..] == Restored(32, coeffs, shift, old(dst[..]), dst.Length)
    ensures AllFit(old(dst[..]), 32) ==> AllFit(dst[..], 32)
  {
    hide NarrowSafe, AllFit;
    if AllFit(dst[..], 32) {
      RestoredFits(32, coeffs, shift, dst[..], dst.Length);
      NarrowFits(coeffs, shift, dst[..], dst.Length);
    }
    var safe := LpcRestoreNarrowSafe(coeffs, bps, shift);
    if bps > 0 && safe {
      SameVerdict(coeffs, bps, shift, dst[..], dst.Length);
      ghost var narrow := LpcRestoreNarrow(dst, coeffs, shift, arch);
      return;
    }
    LpcRestore(dst, coeffs, shift, arch);
  }
}
