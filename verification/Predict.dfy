/** Linear prediction over wrapping words (internal/lpc, internal/i32): the serial
    recurrence that restores a block from its residual, and its inverse. */
module Predict {
  import opened Words

  /** sum of coeffs[j] * h[|h|-1-j]: the newest sample meets the first coefficient. */
  function Dot(coeffs: seq<int>, h: seq<int>): int
    requires |coeffs| <= |h|
  {
    if coeffs == [] then 0
    else Dot(coeffs[..|coeffs| - 1], h) + coeffs[|coeffs| - 1] * h[|h| - |coeffs|]
  }

  /** The prediction from history h: a 64-bit sum, shifted, narrowed to the word. */
  function Prediction(width: nat, coeffs: seq<int>, shift: nat, h: seq<int>): int
    requires |coeffs| <= |h| && width > 0
  {
    Wrap(Wrap(Dot(coeffs, h), 64) / Pow2(shift), width)
  }

  /** The first i samples restored from block, which holds |coeffs| warm-up samples and
      then the residual. */
  function Restored(width: nat, coeffs: seq<int>, shift: nat, block: seq<int>, i: nat): (h: seq<int>)
    requires i <= |block| && width > 0
    ensures |h| == i
    decreases i
  {
    if i <= |coeffs| then block[..i] else
      var h := Restored(width, coeffs, shift, block, i - 1);
      h + [Wrap(block[i - 1] + Prediction(width, coeffs, shift, h), width)]
  }

  /** The residual of sample i. */
  function ResidualAt(width: nat, coeffs: seq<int>, shift: nat, x: seq<int>, i: nat): int
    requires |coeffs| <= i < |x| && width > 0
  {
    Wrap(x[i] - Prediction(width, coeffs, shift, x[..i]), width)
  }

  /** The residual of a block, without its warm-up. */
  function Residuals(width: nat, coeffs: seq<int>, shift: nat, x: seq<int>): (r: seq<int>)
    requires |coeffs| <= |x| && width > 0
    ensures |r| == |x| - |coeffs|
  {
    seq(|x| - |coeffs|, i requires 0 <= i < |x| - |coeffs| => ResidualAt(width, coeffs, shift, x, |coeffs| + i))
  }

  /** Restoring the residual of a block gives back the block, for any coefficients and
      shift, even where the residual wrapped. */
  lemma {:induction false} RestoreInverts(width: nat, coeffs: seq<int>, shift: nat, x: seq<int>, i: nat)
    requires |coeffs| <= |x| && i <= |x| && width > 0 && AllFit(x, width)
    ensures Restored(width, coeffs, shift, x[..|coeffs|] + Residuals(width, coeffs, shift, x), i) == x[..i]
    decreases i
  {
    hide Wrap, Prediction, Fits;
    var block := x[..|coeffs|] + Residuals(width, coeffs, shift, x);
    if i <= |coeffs| {
      assert block[..i] == x[..i];
    } else {
      RestoreInverts(width, coeffs, shift, x, i - 1);
      var p := Prediction(width, coeffs, shift, x[..i - 1]);
      assert |coeffs| + (i - 1 - |coeffs|) == i - 1;
      assert block[i - 1] == ResidualAt(width, coeffs, shift, x, i - 1);
      WrapAdd(p, x[i - 1] - p, width);
      WrapFits(x[i - 1], width);
      assert x[..i] == x[..i - 1] + [x[i - 1]];
    }
  }

  lemma {:induction false} RestoredFits(width: nat, coeffs: seq<int>, shift: nat, block: seq<int>, i: nat)
    requires i <= |block| && width > 0 && AllFit(block, width)
    ensures AllFit(Restored(width, coeffs, shift, block, i), width)
    decreases i
  {
    hide Prediction, Wrap;
    if i > |coeffs| { RestoredFits(width, coeffs, shift, block, i - 1); }
  }

  /** With no coefficients the residual is the samples. */
  lemma {:induction false} OrderZero(width: nat, block: seq<int>, i: nat)
    requires i <= |block| && width > 0 && AllFit(block, width)
    ensures Restored(width, [], 0, block, i) == block[..i]
    decreases i
  {
    if i > 0 {
      OrderZero(width, block, i - 1);
      WrapZero(64);
      WrapZero(width);
      assert Prediction(width, [], 0, block[..i - 1]) == 0;
      hide Wrap, Prediction;
      WrapFits(block[i - 1], width);
      assert block[..i] == block[..i - 1] + [block[i - 1]];
    }
  }

  /** Earlier samples do not depend on how far the block is restored. */
  lemma {:induction false} RestoredPrefix(width: nat, coeffs: seq<int>, shift: nat, block: seq<int>, i: nat, j: nat)
    requires i <= j <= |block| && width > 0
    ensures Restored(width, coeffs, shift, block, j)[..i] == Restored(width, coeffs, shift, block, i)
    decreases j
  {
    hide Prediction, Wrap;
    if i < j {
      RestoredPrefix(width, coeffs, shift, block, i, j - 1);
      var a, b := Restored(width, coeffs, shift, block, j), Restored(width, coeffs, shift, block, j - 1);
      if j <= |coeffs| { assert a[..i] == b[..i]; } else { assert a[..i] == b[..i]; }
    }
  }

  /** The dot product does not depend on samples older than the order. */
  lemma {:induction false} DotWindow(coeffs: seq<int>, h: seq<int>, g: seq<int>)
    requires |coeffs| <= |h| && |coeffs| <= |g|
    requires h[|h| - |coeffs|..] == g[|g| - |coeffs|..]
    ensures Dot(coeffs, h) == Dot(coeffs, g)
  {
    if coeffs != [] {
      var c, m := coeffs[..|coeffs| - 1], |coeffs|;
      assert h[|h| - m + 1..] == h[|h| - m..][1..];
      assert g[|g| - m + 1..] == g[|g| - m..][1..];
      assert h[|h| - m] == h[|h| - m..][0];
      assert g[|g| - m] == g[|g| - m..][0];
      DotWindow(c, h, g);
    }
  }

  // ---- the loops ----

  /** The accumulating loop of every generic kernel; the sum wraps at the accumulator. */
  method Accumulate(a: array<int>, i: nat, coeffs: seq<int>, accWidth: nat) returns (acc: int)
    requires |coeffs| <= i <= a.Length && accWidth > 0
    ensures acc == Wrap(Dot(coeffs, a[..i]), accWidth)
  {
    hide Wrap;
    acc := 0;
    ghost var h := a[..i];
    WrapZero(accWidth);
    for j := 0 to |coeffs|
      invariant acc == Wrap(Dot(coeffs[..j], h), accWidth)
    {
      assert coeffs[..j + 1][..j] == coeffs[..j];
      var term := coeffs[j] * a[i - 1 - j];
      assert h[i - 1 - j] == a[i - 1 - j];
      WrapAdd(term, Dot(coeffs[..j], h), accWidth);
      acc := Wrap(acc + term, accWidth);
    }
    assert coeffs[..|coeffs|] == coeffs;
  }

  lemma {:induction false} WrapZero(n: nat)
    requires n > 0
    ensures Wrap(0, n) == 0 == Wrap(Dot([], []), n)
    ensures forall h: seq<int> :: Dot([], h) == 0
  {
    WrapFits(0, n);
  }

  /** Restoration in place with a 64-bit sum: the generic kernels of both widths. */
  method RestoreWide(dst: array<int>, coeffs: seq<int>, shift: nat, width: nat)
    requires width > 0
    modifies dst
    ensures dst[..] == Restored(width, coeffs, shift, old(dst[..]), dst.Length)
  {
    hide Wrap, Dot;
    ghost var block := dst[..];
    var i := |coeffs|;
    if i >= dst.Length {
      return;
    }
    while i < dst.Length
      invariant |coeffs| <= i <= dst.Length
      invariant dst[..i] == Restored(width, coeffs, shift, block, i)
      invariant dst[i..] == block[i..]
    {
      var acc := Accumulate(dst, i, coeffs, 64);
      assert dst[i] == dst[i..][0] == block[i];
      dst[i] := Wrap(dst[i] + Wrap(acc / Pow2(shift), width), width);
      i := i + 1;
      assert dst[i..] == block[i - 1..][1..];
    }
    assert dst[..] == dst[..i];
  }

  /** The residual of a block with its warm-up in front, as the encoders write it. */
  method EncodeResidual(res: array<int>, x: seq<int>, coeffs: seq<int>, shift: nat, width: nat)
    requires |coeffs| <= |x| == res.Length && width > 0
    modifies res
    ensures res[..] == x[..|coeffs|] + Residuals(width, coeffs, shift, x)
  {
    hide Wrap, ResidualAt, Dot;
    var order := |coeffs|;
    for i := 0 to order
      invariant res[..i] == x[..i]
    {
      res[i] := x[i];
    }
    for i := order to |x|
      invariant res[..order] == x[..order]
      invariant forall k :: order <= k < i ==> res[k] == ResidualAt(width, coeffs, shift, x, k)
    {
      var acc := SumBefore(x, i, coeffs);
      ResidualNarrow(width, coeffs, shift, x, i);
      res[i] := Wrap(x[i] - Wrap(acc / Pow2(shift), width), width);
    }
    ghost var r := Residuals(width, coeffs, shift, x);
    forall k | 0 <= k < |r| ensures res[..][order + k] == r[k] {
    }
    assert res[..][..order] == x[..order];
  }

  lemma {:induction false} DotStep(coeffs: seq<int>, j: nat, h: seq<int>)
    requires j < |coeffs| <= |h|
    ensures Dot(coeffs[..j + 1], h) == Dot(coeffs[..j], h) + coeffs[j] * h[|h| - 1 - j]
  {
    assert coeffs[..j + 1][..j] == coeffs[..j];
  }

  /** The encoder's 64-bit prediction sum for sample i. */
  method SumBefore(x: seq<int>, i: nat, coeffs: seq<int>) returns (acc: int)
    requires |coeffs| <= i <= |x|
    ensures acc == Wrap(Dot(coeffs, x[..i]), 64)
  {
    hide *;
    acc := 0;
    SumStart(coeffs, x[..i]);
    for j := 0 to |coeffs|
      invariant acc == Wrap(Dot(coeffs[..j], x[..i]), 64)
    {
      var term := coeffs[j] * x[i - 1 - j];
      SumStep(coeffs, j, x[..i], term);
      acc := Wrap(acc + term, 64);
    }
    assert coeffs[..|coeffs|] == coeffs;
  }

  lemma {:induction false} SumStart(coeffs: seq<int>, h: seq<int>)
    requires |coeffs| <= |h|
    ensures Wrap(Dot(coeffs[..0], h), 64) == 0
  {
    WrapZero(64);
  }

  lemma {:induction false} SumStep(coeffs: seq<int>, j: nat, h: seq<int>, term: int)
    requires j < |coeffs| <= |h| && term == coeffs[j] * h[|h| - 1 - j]
    ensures Wrap(Dot(coeffs[..j + 1], h), 64) == Wrap(Wrap(Dot(coeffs[..j], h), 64) + term, 64)
  {
    hide *;
    DotStep(coeffs, j, h);
    WrapAdd(term, Dot(coeffs[..j], h), 64);
  }

  lemma {:induction false} ResidualNarrow(width: nat, coeffs: seq<int>, shift: nat, x: seq<int>, i: nat)
    requires |coeffs| <= i < |x| && width > 0
    ensures ResidualAt(width, coeffs, shift, x, i)
         == Wrap(x[i] - Wrap(Wrap(Dot(coeffs, x[..i]), 64) / Pow2(shift), width), width)
  {
  }
}
