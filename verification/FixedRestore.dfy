/** Restoring a fixed predictor by repeated prefix sums (internal/i32/restore.go): over the
    ring of 32-bit words it equals the serial recurrence. */
module FixedRestore {
  import opened Words
  import opened Predict

  /** The coefficients of the fixed predictors of order 0..4. */
  function FixedCoeffs(order: nat): (c: seq<int>)
    requires order <= 4
    ensures |c| == order
  {
    if order == 0 then [] else if order == 1 then [1] else if order == 2 then [2, -1]
    else if order == 3 then [3, -3, 1] else [4, -6, 4, -1]
  }

  // ---- differences and sums of exact integers ----

  /** The first backward difference; index 0 is held. */
  function Diff(s: seq<int>): (d: seq<int>)
    ensures |d| == |s|
  {
    seq(|s|, i requires 0 <= i < |s| => if i == 0 then s[0] else s[i] - s[i - 1])
  }

  function DiffN(s: seq<int>, k: nat): (d: seq<int>)
    ensures |d| == |s|
    decreases k
  {
    if k == 0 then s else DiffN(Diff(s), k - 1)
  }

  function Cumsum(s: seq<int>): (c: seq<int>)
    ensures |c| == |s|
  {
    if s == [] then [] else
      var c := Cumsum(s[..|s| - 1]);
      c + [s[|s| - 1] + if |s| == 1 then 0 else c[|s| - 2]]
  }

  function CumsumN(s: seq<int>, k: nat): (c: seq<int>)
    ensures |c| == |s|
  {
    if k == 0 then s else Cumsum(CumsumN(s, k - 1))
  }

  lemma {:induction false} CumsumAt(s: seq<int>, i: nat)
    requires i < |s|
    ensures Cumsum(s)[i] == s[i] + if i == 0 then 0 else Cumsum(s)[i - 1]
    ensures Cumsum(s)[..i] == Cumsum(s[..i])
    decreases |s|
  {
    var t := s[..|s| - 1];
    if i < |s| - 1 {
      CumsumAt(t, i);
      assert t[..i] == s[..i];
      assert Cumsum(s)[..i] == Cumsum(t)[..i];
    } else {
      assert Cumsum(s)[..i] == Cumsum(t);
    }
  }

  lemma {:induction false} DiffOfCumsum(s: seq<int>)
    ensures Diff(Cumsum(s)) == s
  {
    forall i | 0 <= i < |s| ensures Diff(Cumsum(s))[i] == s[i] { CumsumAt(s, i); }
  }

  lemma {:induction false} CumsumOfDiff(s: seq<int>)
    ensures Cumsum(Diff(s)) == s
  {
    if s != [] {
      var t := s[..|s| - 1];
      CumsumOfDiff(t);
      assert Diff(s)[..|s| - 1] == Diff(t);
      assert s == t + [s[|s| - 1]];
    }
  }

  lemma {:induction false} DiffNOfCumsumN(s: seq<int>, k: nat)
    ensures DiffN(CumsumN(s, k), k) == s
  {
    hide Diff, Cumsum;
    if k > 0 {
      DiffOfCumsum(CumsumN(s, k - 1));
      DiffNOfCumsumN(s, k - 1);
    }
  }

  lemma {:induction false} CumsumNOfDiffN(s: seq<int>, k: nat)
    ensures CumsumN(DiffN(s, k), k) == s
    decreases k
  {
    hide Diff, Cumsum;
    if k > 0 {
      CumsumNOfDiffN(Diff(s), k - 1);
      CumsumOfDiff(s);
    }
  }

  /** Sums are causal: a prefix of the sums is the sums of the prefix. */
  lemma {:induction false} CumsumNPrefix(s: seq<int>, k: nat, i: nat)
    requires i <= |s|
    ensures CumsumN(s, k)[..i] == CumsumN(s[..i], k)
  {
    hide Cumsum;
    if k > 0 {
      CumsumNPrefix(s, k - 1, i);
      CumsumPrefix(CumsumN(s, k - 1), i);
    }
  }

  lemma {:induction false} CumsumPrefix(s: seq<int>, i: nat)
    requires i <= |s|
    ensures Cumsum(s)[..i] == Cumsum(s[..i])
  {
    if i < |s| { CumsumAt(s, i); } else { assert s[..i] == s && Cumsum(s)[..i] == Cumsum(s); }
  }

  /** The K-th difference at an index past the warm-up is the sample less its fixed
      prediction. */
  lemma {:induction false} DiffNIsResidual(x: seq<int>, k: nat, i: nat)
    requires 1 <= k <= 4 && k <= i < |x|
    ensures DiffN(x, k)[i] == x[i] - Dot(FixedCoeffs(k), x[..i])
  {
    var d1 := Diff(x);
    var d2, d3, d4 := Diff(d1), Diff(Diff(d1)), Diff(Diff(Diff(d1)));
    DotFixed(k, x[..i]);
    if k == 1 {
      assert DiffN(x, 1) == DiffN(d1, 0);
    } else if k == 2 {
      assert DiffN(x, 2) == DiffN(d1, 1) == DiffN(d2, 0);
    } else if k == 3 {
      assert DiffN(x, 3) == DiffN(d1, 2) == DiffN(d2, 1) == DiffN(d3, 0);
    } else {
      assert DiffN(x, 4) == DiffN(d1, 3) == DiffN(d2, 2) == DiffN(d3, 1) == DiffN(d4, 0);
    }
  }

  lemma {:induction false} DotFixed(k: nat, h: seq<int>)
    requires 1 <= k <= 4 && k <= |h|
    ensures k == 1 ==> Dot(FixedCoeffs(k), h) == h[|h| - 1]
    ensures k == 2 ==> Dot(FixedCoeffs(k), h) == 2 * h[|h| - 1] - h[|h| - 2]
    ensures k == 3 ==> Dot(FixedCoeffs(k), h) == 3 * h[|h| - 1] - 3 * h[|h| - 2] + h[|h| - 3]
    ensures k == 4 ==> Dot(FixedCoeffs(k), h) == 4 * h[|h| - 1] - 6 * h[|h| - 2] + 4 * h[|h| - 3] - h[|h| - 4]
  {
    var c := FixedCoeffs(k);
    assert c[..0] == [];
    assert Dot(c[..1], h) == c[0] * h[|h| - 1] by { DotStep(c, 0, h); }
    if k >= 2 { DotStep(c, 1, h); }
    if k >= 3 { DotStep(c, 2, h); }
    if k >= 4 { DotStep(c, 3, h); }
    assert c[..k] == c;
  }

  // ---- wrapping the exact computation ----

  function WrapAll(s: seq<int>, n: nat): (r: seq<int>)
    requires n > 0
    ensures |r| == |s|
  {
    seq(|s|, i requires 0 <= i < |s| => Wrap(s[i], n))
  }

  /** A dot product of wrapped words wraps like that of the words. */
  lemma {:induction false} DotWrapped(coeffs: seq<int>, h: seq<int>, n: nat) returns (c: int)
    requires |coeffs| <= |h| && n > 0
    ensures Dot(coeffs, h) - Dot(coeffs, WrapAll(h, n)) == c * Pow2(n)
  {
    if coeffs == [] {
      c := 0;
    } else {
      var m, x := coeffs[|coeffs| - 1], h[|h| - |coeffs|];
      var a := DotWrapped(coeffs[..|coeffs| - 1], h, n);
      var b := WrapIs(x, n);
      c := a + m * b;
      hide Wrap, Pow2;
      ScaleWord(m, x, Wrap(x, n), b, a, Pow2(n));
    }
  }

  lemma {:induction false} ScaleWord(m: int, x: int, y: int, b: int, a: int, d: int)
    requires x - y == b * d
    ensures m * x - m * y == (m * b) * d && (a + m * b) * d == a * d + (m * b) * d
  {
    assert m * x - m * y == m * (x - y);
    MulAssoc(m, b, d);
  }

  lemma {:induction false} NarrowTwice(v: int, n: nat, m: nat)
    requires 0 < n <= m
    ensures Wrap(Wrap(v, m), n) == Wrap(v, n)
  {
    var c := WrapIs(v, m);
    Pow2Add(m - n, n);
    MulAssoc(c, Pow2(m - n), Pow2(n));
    WrapCongruent(v, Wrap(v, m), c * Pow2(m - n), n);
  }

  /** The fixed prediction of wrapped samples, at shift 0. */
  lemma {:induction false} FixedPredictionWraps(k: nat, h: seq<int>, r: int)
    requires 1 <= k <= 4 && k <= |h|
    ensures Wrap(r + Prediction(32, FixedCoeffs(k), 0, WrapAll(h, 32)), 32) == Wrap(r + Dot(FixedCoeffs(k), h), 32)
  {
    var d, w := Dot(FixedCoeffs(k), h), Dot(FixedCoeffs(k), WrapAll(h, 32));
    var c := DotWrapped(FixedCoeffs(k), h, 32);
    assert Wrap(w, 64) / Pow2(0) == Wrap(w, 64);
    hide Wrap, Dot, WrapAll;
    NarrowTwice(w, 32, 64);
    WrapAdd(r, w, 32);
    WrapCongruent(r + d, r + w, c, 32);
  }

  /** The block with its warm-up differenced k times. */
  function Differenced(block: seq<int>, k: nat): (z: seq<int>)
    requires k <= |block|
    ensures |z| == |block|
  {
    DiffN(block[..k], k) + block[k..]
  }

  lemma {:induction false} ExactBlock(block: seq<int>, k: nat)
    requires k <= |block|
    ensures var x := CumsumN(Differenced(block, k), k);
      x[..k] == block[..k] && forall i :: k <= i < |block| ==> DiffN(x, k)[i] == block[i]
  {
    hide DiffN, CumsumN;
    var z := Differenced(block, k);
    DiffNOfCumsumN(z, k);
    CumsumNPrefix(z, k, k);
    CumsumNOfDiffN(block[..k], k);
    assert z[..k] == DiffN(block[..k], k);
  }

  /** Prefix sums of the differenced warm-up and the residual are, mod 2^32, the serial
      recurrence. */
  lemma {:induction false} SumsAreRecurrence(block: seq<int>, k: nat, i: nat)
    requires 1 <= k <= 4 && k < |block| && i <= |block| && AllFit(block, 32)
    ensures WrapAll(CumsumN(Differenced(block, k), k), 32)[..i] == Restored(32, FixedCoeffs(k), 0, block, i)
    decreases i
  {
    hide DiffN, CumsumN, Differenced, Prediction, Wrap, Fits, Dot;
    var x := CumsumN(Differenced(block, k), k);
    ExactBlock(block, k);
    var w := WrapAll(x, 32);
    if i <= k {
      forall j | 0 <= j < i ensures w[j] == block[j] {
        assert x[j] == x[..k][j] == block[..k][j];
        WrapFits(block[j], 32);
      }
    } else {
      SumsAreRecurrence(block, k, i - 1);
      hide FixedCoeffs;
      DiffNIsResidual(x, k, i - 1);
      FixedPredictionWraps(k, x[..i - 1], block[i - 1]);
      assert w[..i - 1] == WrapAll(x[..i - 1], 32);
      assert w[..i] == w[..i - 1] + [Wrap(x[i - 1], 32)];
    }
  }

  // ---- the in-place passes ----

  /** One difference pass over dst[..k], backwards so that a value is read before it is
      overwritten. */
  method DiffPass(dst: array<int>, k: nat, ghost s: seq<int>)
    requires 0 < k == |s| <= dst.Length && dst[..k] == WrapAll(s, 32)
    modifies dst
    ensures dst[..k] == WrapAll(Diff(s), 32) && dst[k..] == old(dst[k..])
  {
    hide Wrap;
    var i := k - 1;
    while i >= 1
      invariant 0 <= i < k && dst[k..] == old(dst[k..])
      invariant forall j :: 0 <= j <= i ==> dst[j] == Wrap(s[j], 32)
      invariant forall j :: i < j < k ==> dst[j] == Wrap(Diff(s)[j], 32)
    {
      WrapSub(s[i], s[i - 1]);
      dst[i] := Wrap(dst[i] - dst[i - 1], 32);
      i := i - 1;
    }
  }

  lemma {:induction false} WrapSub(a: int, b: int)
    ensures Wrap(Wrap(a, 32) - Wrap(b, 32), 32) == Wrap(a - b, 32)
    ensures Wrap(Wrap(a, 32) + Wrap(b, 32), 32) == Wrap(a + b, 32)
  {
    WrapAdd(Wrap(a, 32), b, 32);
    WrapAdd(-b, a, 32);
    WrapAdd(b, a, 32);
  }

  /** One in-place prefix sum. */
  method CumsumPass(dst: array<int>, ghost s: seq<int>)
    requires |s| == dst.Length && dst[..] == WrapAll(s, 32)
    modifies dst
    ensures dst[..] == WrapAll(Cumsum(s), 32)
  {
    hide Wrap, Cumsum;
    ghost var c := Cumsum(s);
    if dst.Length > 0 { CumsumAt(s, 0); }
    var i := 1;
    while i < dst.Length
      invariant 1 <= i <= Max(dst.Length, 1)
      invariant forall j :: 0 <= j < i && j < dst.Length ==> dst[j] == Wrap(c[j], 32)
      invariant forall j :: i <= j < dst.Length ==> dst[j] == Wrap(s[j], 32)
    {
      CumsumAt(s, i);
      WrapSub(s[i], c[i - 1]);
      dst[i] := Wrap(dst[i] + dst[i - 1], 32);
      i := i + 1;
    }
  }

  /** Restores a fixed subframe in place: difference the warm-up k times, then k prefix
      sums over the block. */
  method RestoreFixed32(dst: array<int>, k: nat)
    requires 1 <= k <= 4 && AllFit(dst[..], 32)
    modifies dst
    ensures dst[..] == Restored(32, FixedCoeffs(k), 0, old(dst[..]), dst.Length)
  {
    hide Wrap, Fits, Prediction, Diff, Cumsum, FixedCoeffs;
    ghost var block := dst[..];
    if dst.Length <= k {
      return;
    }
    WrapAllFits(block[..k]);
    DifferenceWarmup(dst, k);
    ghost var z := Differenced(block, k);
    hide DiffN, CumsumN, Differenced;
    for p := 0 to k
      invariant dst[..] == WrapAll(CumsumN(z, p), 32)
    {
      CumsumPass(dst, CumsumN(z, p));
      CumsumNStep(z, p);
    }
    SumsAreRecurrence(block, k, |block|);
    assert WrapAll(CumsumN(z, k), 32)[..|block|] == WrapAll(CumsumN(z, k), 32);
  }

  lemma {:induction false} CumsumNStep(s: seq<int>, k: nat)
    ensures CumsumN(s, k + 1) == Cumsum(CumsumN(s, k)) && CumsumN(s, 0) == s
  {
  }

  method DifferenceWarmup(dst: array<int>, k: nat)
    requires 1 <= k < dst.Length && AllFit(dst[..], 32)
    modifies dst
    ensures dst[..] == WrapAll(CumsumN(Differenced(old(dst[..]), k), 0), 32)
  {
    hide Wrap, WrapAll, Fits, Diff;
    ghost var block := dst[..];
    assert dst[..k] == block[..k] && dst[k..] == block[k..];
    AllFitParts(block, k);
    WrapAllFits(block[..k]);
    WrapAllFits(block[k..]);
    ghost var s := block[..k];
    for p := 0 to k
      invariant |s| == k && dst[..k] == WrapAll(s, 32) && DiffN(s, k - p) == DiffN(block[..k], k)
      invariant dst[k..] == block[k..]
    {
      DiffPass(dst, k, s);
      s := Diff(s);
    }
    assert s == DiffN(block[..k], k);
    assert dst[..] == dst[..k] + dst[k..];
    WrapAllCat(s, block[k..]);
  }

  lemma {:induction false} AllFitParts(s: seq<int>, k: nat)
    requires k <= |s| && AllFit(s, 32)
    ensures AllFit(s[..k], 32) && AllFit(s[k..], 32)
  {
    hide Fits;
  }

  lemma {:induction false} WrapAllCat(a: seq<int>, b: seq<int>)
    ensures WrapAll(a + b, 32) == WrapAll(a, 32) + WrapAll(b, 32)
  {
    hide Wrap;
  }

  lemma {:induction false} WrapAllFits(s: seq<int>)
    requires AllFit(s, 32)
    ensures WrapAll(s, 32) == s
  {
    hide Wrap;
    forall i | 0 <= i < |s| ensures Wrap(s[i], 32) == s[i] { WrapFits(s[i], 32); }
  }

  /** The reference difference kernel with the signed binomials of each order. */
  method DiffGo(dst: array<int>, src: seq<int>, k: nat)
    requires 1 <= k <= 4 && k <= |src| == dst.Length
    modifies dst
    ensures dst[..] == src[..k] + Residuals(32, FixedCoeffs(k), 0, src)
  {
    hide Wrap, FixedCoeffs, ResidualAt, Dot;
    for i := 0 to k
      invariant dst[..i] == src[..i]
    {
      dst[i] := src[i];
    }
    for n := k to |src|
      invariant dst[..k] == src[..k]
      invariant forall j :: k <= j < n ==> dst[j] == ResidualAt(32, FixedCoeffs(k), 0, src, j)
    {
      var acc := BinomialSum(src, n, k);
      FixedResidual(src, k, n);
      dst[n] := acc;
    }
    ghost var r := Residuals(32, FixedCoeffs(k), 0, src);
    forall j | 0 <= j < |r| ensures dst[..][k + j] == r[j] {
    }
    assert dst[..][..k] == src[..k];
  }

  /** The signed binomials: 1, then the negated predictor coefficients. */
  method BinomialSum(src: seq<int>, n: nat, k: nat) returns (acc: int)
    requires 1 <= k <= 4 && k <= n < |src|
    ensures acc == Wrap(src[n] - Dot(FixedCoeffs(k), src[..n]), 32)
  {
    var c := FixedCoeffs(k);
    ghost var h := src[..n];
    assert c[..0] == [];
    hide Wrap, FixedCoeffs, Dot;
    assert Dot(c[..0], h) == 0 by { WrapZero(32); }
    acc := Wrap(src[n], 32);
    for j := 0 to k
      invariant acc == Wrap(src[n] - Dot(c[..j], h), 32)
    {
      acc := AddTap(acc, c, j, src[n - 1 - j], src[n], h);
    }
    assert c[..k] == c;
  }

  /** One term of the binomial sum. */
  method AddTap(acc: int, c: seq<int>, j: nat, y: int, ghost x: int, ghost h: seq<int>) returns (sum: int)
    requires j < |c| <= |h| && y == h[|h| - 1 - j] && acc == Wrap(x - Dot(c[..j], h), 32)
    ensures sum == Wrap(x - Dot(c[..j + 1], h), 32)
  {
    hide Wrap, Dot;
    var t := -c[j] * y;
    Negated(c[j], y);
    DotStep(c, j, h);
    WrapAdd(t, x - Dot(c[..j], h), 32);
    sum := Wrap(acc + t, 32);
  }

  lemma {:induction false} Negated(a: int, b: int)
    ensures -a * b == -(a * b)
  {
  }

  lemma {:induction false} FixedResidual(src: seq<int>, k: nat, n: nat)
    requires 1 <= k <= 4 && k <= n < |src|
    ensures ResidualAt(32, FixedCoeffs(k), 0, src, n) == Wrap(src[n] - Dot(FixedCoeffs(k), src[..n]), 32)
  {
    var d := Dot(FixedCoeffs(k), src[..n]);
    assert Wrap(d, 64) / Pow2(0) == Wrap(d, 64);
    hide Wrap, Dot;
    NarrowTwice(d, 32, 64);
    WrapAdd(src[n], d, 32);
  }
}
