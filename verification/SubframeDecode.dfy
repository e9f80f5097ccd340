/** Decoding a subframe into a sample buffer (internal/frame/subframe.go). */
module SubframeDecode {
  import opened Words
  import opened Cursor
  import opened BitReader
  import opened Rice
  import opened Predict
  import opened FixedRestore
  import opened LpcRoutes
  import opened SubframeSyntax

  method ReadWastedBits(br: Reader) returns (res: Result<nat>)
    requires br.Valid()
    modifies br.Repr()
    ensures br.Valid() && br.Same()
    ensures br.Agrees(GetWasted(br.Stream(), old(br.Pos())), res)
  {
    hide Reader.Valid, GetBits, GetUnary;
    br.Bounds();
    var flag := br.ReadBits(1);
    if flag.Error? { return Result.Error(flag.e); }
    if flag.v == 0 { return Value(0); }
    br.Bounds();
    var q := br.ReadUnary();
    if q.Error? { return Result.Error(q.e); }
    if q.v >= 32 { return Result.Error(Unsupported); }
    return Value(q.v + 1);
  }

  /** Reads n signed values of the given width into dst[..n], as a warm-up or a verbatim
      subframe is stored. */
  method ReadSamples(br: Reader, dst: array<int>, n: nat, bits: nat, width: nat) returns (res: Result<()>)
    requires br.Valid() && dst !in br.Repr() && n <= dst.Length && 1 <= bits <= width && bits <= 57
    modifies br.Repr(), dst
    ensures br.Valid() && br.Same()
    ensures match GetRaw(br.Stream(), old(br.Pos()), bits, n)
      case Bad(e) => res == Result.Error(e)
      case Ok(vals, q) => res == Value(()) && br.Pos() == q && dst[..n] == vals && AllFit(vals, bits)
  {
    hide Reader.Valid, GetSigned, GetRaw, Wrap, Fits, AllFit;
    br.Bounds();
    ghost var s, p := br.Stream(), br.Pos();
    ghost var done: seq<int> := [];
    PrependNothing(GetRaw(s, p, bits, n));
    AllFitNone(bits);
    for i := 0 to n
      invariant br.Valid() && br.Same() && 0 <= br.Pos() <= |s.bits| && |done| == i
      invariant GetRaw(s, p, bits, n) == Prepend(done, GetRaw(s, br.Pos(), bits, n - i))
      invariant AllFit(done, bits) && dst[..i] == done
    {
      GetRawStep(s, br.Pos(), bits, n - i);
      var v := br.ReadSigned(bits);
      if v.Error? { return Result.Error(v.e); }
      WidenFits(v.v, bits, width);
      dst[i] := Wrap(v.v, width);
      PrependMore(done, [v.v], GetRaw(s, br.Pos(), bits, n - i - 1));
      AllFitSnoc(done, v.v, bits);
      done := done + [v.v];
      br.Bounds();
    }
    GetRawNone(s, br.Pos(), bits);
    assert done + [] == done;
    return Value(());
  }

  lemma {:induction false} WidenFits(v: int, n: nat, m: nat)
    requires Fits(v, n) && n <= m
    ensures Fits(v, m) && Wrap(v, m) == v
  {
    hide Wrap;
    Pow2Mono(n - 1, m - 1);
    hide Pow2;
    WrapFits(v, m);
  }

  lemma {:induction false} AllWiden(s: seq<int>, n: nat, m: nat)
    requires AllFit(s, n) && n <= m
    ensures AllFit(s, m)
  {
    hide Fits;
    forall i | 0 <= i < |s| ensures Fits(s[i], m) { WidenFits(s[i], n, m); }
  }

  /** The range check over the stored samples; an int32 always fits 32 bits. */
  method InRange(dst: array<int>, bits: nat, width: nat) returns (ok: bool)
    requires bits > 0 && (width == 32 ==> AllFit(dst[..], 32))
    ensures ok == AllFit(dst[..], bits)
  {
    if width == 32 && bits >= 32 {
      AllWiden(dst[..], 32, bits);
      return true;
    }
    var lim: int := Pow2(bits - 1);
    for i := 0 to dst.Length
      invariant forall j :: 0 <= j < i ==> Fits(dst[..][j], bits)
    {
      if dst[i] < -lim || dst[i] >= lim {
        assert !Fits(dst[..][i], bits);
        return false;
      }
    }
    return true;
  }

  /** Restores a fixed or LPC body in place; with a fixed predictor of order 0 the residual
      is the samples. */
  method RestoreBody(dst: array<int>, ghost b: Body, lpc: bool, coeffs: seq<int>, shift: nat, bps: nat, width: nat,
      arch: Arch)
    requires arch.Valid() && 0 < bps && (width == 32 || width == 64) && WellShaped(b, dst.Length)
    requires lpc ==> b.Lpc? && b.coeffs == coeffs && b.shift == shift
    requires !lpc ==> b.Fixed? && coeffs == FixedCoeffs(|b.warm|)
    requires dst[..] == b.warm + b.res && AllFit(dst[..], width)
    modifies dst
    ensures AllFit(dst[..], bps) <==> AllFit(Samples(b, dst.Length, width), bps)
    ensures AllFit(dst[..], bps) ==> dst[..] == Samples(b, dst.Length, width)
    ensures width == 32 ==> AllFit(dst[..], 32)
  {
    ghost var block := dst[..];
    if lpc {
      hide AllFit, FixedCoeffs;
      if width == 32 {
        RestoreLpc32(dst, coeffs, shift, bps, arch);
      } else {
        RestoreWide(dst, coeffs, shift, 64);
      }
    } else {
      hide AllFit;
      if |coeffs| == 0 {
        OrderZero(width, block, dst.Length);
        assert b.warm + b.res == block[..dst.Length];
      } else if width == 32 {
        RestoreFixed32(dst, |coeffs|);
        RestoredFits(32, coeffs, 0, block, dst.Length);
      } else {
        RestoreWide(dst, coeffs, 0, 64);
      }
    }
  }

  /** Undoes the wasted-bits shift in place. */
  method ShiftBack(dst: array<int>, wasted: nat, eff: nat, width: nat)
    requires AllFit(dst[..], eff) && eff + wasted <= width
    modifies dst
    ensures dst[..] == Scale(old(dst[..]), wasted)
  {
    hide Wrap, Fits;
    for i := 0 to dst.Length
      invariant forall j :: 0 <= j < i ==> dst[j] == old(dst[j]) * Pow2(wasted)
      invariant forall j :: i <= j < dst.Length ==> dst[j] == old(dst[j])
    {
      assert Fits(old(dst[..])[i], eff);
      ShiftFits(dst[i], eff, wasted);
      WidenFits(dst[i] * Pow2(wasted), eff + wasted, width);
      dst[i] := Wrap(dst[i] * Pow2(wasted), width);
    }
  }

  /** What decoding a body leaves behind: a parse error, or the whole body read and either
      its samples in dst or the range verdict false. */
  ghost predicate BodyDecoded(p: Parsed<Body>, res: Result<bool>, pos: int, dst: seq<int>, eff: nat, width: nat)
    requires width > 0 && (p.Ok? ==> WellShaped(p.v, |dst|))
  {
    match p
    case Bad(e) => res == Result.Error(e)
    case Ok(b, q) => (
      && pos == q && res == Value(Good(b, |dst|, eff, width))
      && (Good(b, |dst|, eff, width) ==> dst == Samples(b, |dst|, width) && AllFit(dst, eff)))
  }

  method DecodeFixed(br: Reader, dst: array<int>, order: nat, eff: nat, width: nat, arch: Arch)
    returns (res: Result<bool>)
    requires br.Valid() && dst !in br.Repr() && order <= 4 && arch.Valid()
    requires (width == 32 || width == 64) && 1 <= eff <= width && eff <= 33
    modifies br.Repr(), dst
    ensures br.Valid() && br.Same() && 0 <= old(br.Pos()) <= |br.Stream().bits|
    ensures BodyDecoded(GetFixed(br.Stream(), old(br.Pos()), dst.Length, order, eff), res, br.Pos(), dst[..], eff,
      width)
  {
    hide Reader.Valid, GetRaw, GetResidual, AllFit, Samples, FixedCoeffs;
    br.Bounds();
    if order > dst.Length { return Result.Error(Unsupported); }
    var warm := ReadSamples(br, dst, order, eff, width);
    if warm.Error? { return Result.Error(warm.e); }
    br.Bounds();
    ghost var w := dst[..order];
    res := DecodeResidual(br, dst, order, width);
    if res.Error? || !res.v { return; }
    ghost var b := Fixed(w, dst[order..]);
    assert dst[..] == w + dst[order..];
    AllWiden(w, eff, width);
    AllWiden(dst[order..], 32, width);
    AllFitCat(w, dst[order..], width);
    RestoreBody(dst, b, false, FixedCoeffs(order), 0, eff, width, arch);
    var ok := InRange(dst, eff, width);
    return Value(ok);
  }

  method ReadCoeffs(br: Reader, order: nat, prec: nat) returns (res: Result<seq<int>>)
    requires br.Valid() && 1 <= prec <= 15
    modifies br.Repr()
    ensures br.Valid() && br.Same()
    ensures br.Agrees(GetRaw(br.Stream(), old(br.Pos()), prec, order), res)
  {
    hide Reader.Valid, GetSigned, GetRaw, Wrap, Fits, Pow2;
    br.Bounds();
    ghost var s, p := br.Stream(), br.Pos();
    var coeffs: seq<int> := [];
    PrependNothing(GetRaw(s, p, prec, order));
    for i := 0 to order
      invariant br.Valid() && br.Same() && 0 <= br.Pos() <= |s.bits| && |coeffs| == i
      invariant GetRaw(s, p, prec, order) == Prepend(coeffs, GetRaw(s, br.Pos(), prec, order - i))
    {
      GetRawStep(s, br.Pos(), prec, order - i);
      var c := br.ReadSigned(prec);
      if c.Error? { return Result.Error(c.e); }
      WidenFits(c.v, prec, 32);
      PrependMore(coeffs, [c.v], GetRaw(s, br.Pos(), prec, order - i - 1));
      coeffs := coeffs + [Wrap(c.v, 32)];
      br.Bounds();
    }
    GetRawNone(s, br.Pos(), prec);
    assert coeffs + [] == coeffs;
    return Value(coeffs);
  }

  method DecodeLpc(br: Reader, dst: array<int>, order: nat, eff: nat, width: nat, arch: Arch)
    returns (res: Result<bool>)
    requires br.Valid() && dst !in br.Repr() && 1 <= order <= 32 && arch.Valid()
    requires (width == 32 || width == 64) && 1 <= eff <= width && eff <= 33
    modifies br.Repr(), dst
    ensures br.Valid() && br.Same() && 0 <= old(br.Pos()) <= |br.Stream().bits|
    ensures BodyDecoded(GetLpc(br.Stream(), old(br.Pos()), dst.Length, order, eff), res, br.Pos(), dst[..], eff, width)
  {
    hide Reader.Valid, GetRaw, GetLpcTail, GetBits, GetSigned, AllFit, Samples, Good, Fits;
    br.Bounds();
    if order > dst.Length { return Result.Error(Unsupported); }
    var warm := ReadSamples(br, dst, order, eff, width);
    if warm.Error? { return Result.Error(warm.e); }
    br.Bounds();
    var q := ReadQuantization(br);
    if q.Error? { return Result.Error(q.e); }
    res := DecodeLpcTail(br, dst, order, q.v.0, q.v.1, eff, width, arch);
  }

  /** The precision and the shift of the coefficients. */
  method ReadQuantization(br: Reader) returns (res: Result<(nat, nat)>)
    requires br.Valid()
    modifies br.Repr()
    ensures br.Valid() && br.Same()
    ensures br.Agrees(GetQuantization(br.Stream(), old(br.Pos())), res)
  {
    hide Reader.Valid, GetBits, GetSigned;
    br.Bounds();
    var prec := br.ReadBits(4);
    if prec.Error? { return Result.Error(prec.e); }
    if prec.v == 0x0F { return Result.Error(Unsupported); }
    br.Bounds();
    var shift := br.ReadSigned(5);
    if shift.Error? { return Result.Error(shift.e); }
    if shift.v < 0 { return Result.Error(Unsupported); }
    Pow2Values();
    return Value((prec.v + 1, shift.v));
  }

  /** The coefficients, the residual and the restoration of an LPC body. */
  method DecodeLpcTail(br: Reader, dst: array<int>, order: nat, prec: nat, shift: nat, eff: nat, width: nat,
      arch: Arch) returns (res: Result<bool>)
    requires br.Valid() && dst !in br.Repr() && 1 <= order <= 32 && order <= dst.Length && arch.Valid()
    requires (width == 32 || width == 64) && 1 <= eff <= width && eff <= 33
    requires 1 <= prec <= 15 && shift < 16 && AllFit(dst[..order], eff)
    modifies br.Repr(), dst
    ensures br.Valid() && br.Same() && 0 <= old(br.Pos()) <= |br.Stream().bits|
    ensures (
      BodyDecoded(GetLpcTail(br.Stream(), old(br.Pos()), dst.Length, order, prec, shift, old(dst[..order])), res,
        br.Pos(), dst[..], eff, width))
  {
    hide Reader.Valid, GetRaw, GetResidual, AllFit, Samples;
    br.Bounds();
    var coeffs := ReadCoeffs(br, order, prec);
    if coeffs.Error? { return Result.Error(coeffs.e); }
    br.Bounds();
    ghost var w := dst[..order];
    res := DecodeResidual(br, dst, order, width);
    if res.Error? || !res.v { return; }
    ghost var b := Lpc(prec, shift, coeffs.v, w, dst[order..]);
    assert dst[..] == w + dst[order..];
    AllWiden(w, eff, width);
    AllWiden(dst[order..], 32, width);
    AllFitCat(w, dst[order..], width);
    RestoreBody(dst, b, true, coeffs.v, shift, eff, width, arch);
    var ok := InRange(dst, eff, width);
    return Value(ok);
  }

  method DecodeBody(br: Reader, dst: array<int>, kind: nat, eff: nat, width: nat, arch: Arch)
    returns (res: Result<bool>)
    requires br.Valid() && dst !in br.Repr() && kind < 64 && arch.Valid()
    requires (width == 32 || width == 64) && 1 <= eff <= width && eff <= 33
    modifies br.Repr(), dst
    ensures br.Valid() && br.Same() && 0 <= old(br.Pos()) <= |br.Stream().bits|
    ensures BodyDecoded(GetBody(br.Stream(), old(br.Pos()), dst.Length, kind, eff), res, br.Pos(), dst[..], eff, width)
  {
    hide Reader.Valid, GetRaw, GetSigned, GetFixed, GetLpc, AllFit, Fits;
    br.Bounds();
    if kind == 0 {
      var v := br.ReadSigned(eff);
      if v.Error? { return Result.Error(v.e); }
      WidenFits(v.v, eff, width);
      for i := 0 to dst.Length
        invariant br.Valid() && br.Same() && br.Agrees(GetSigned(br.Stream(), old(br.Pos()), eff), v)
        invariant forall j :: 0 <= j < i ==> dst[j] == v.v
      {
        dst[i] := Wrap(v.v, width);
      }
      ConstantFits(dst[..], v.v, eff);
      return Value(true);
    } else if kind == 1 {
      var r := ReadSamples(br, dst, dst.Length, eff, width);
      if r.Error? { return Result.Error(r.e); }
      assert dst[..dst.Length] == dst[..];
      return Value(true);
    } else if 8 <= kind <= 12 {
      res := DecodeFixed(br, dst, kind - 8, eff, width, arch);
    } else if kind >= 32 {
      res := DecodeLpc(br, dst, kind - 31, eff, width, arch);
    } else {
      return Result.Error(Unsupported);
    }
  }

  lemma {:induction false} ConstantFits(s: seq<int>, v: int, n: nat)
    requires Fits(v, n) && forall i :: 0 <= i < |s| ==> s[i] == v
    ensures AllFit(s, n) && s == seq(|s|, _ => v)
  {
    hide Fits;
  }

  /** What decoding a subframe leaves behind. */
  ghost predicate SubDecoded(p: Parsed<Sub>, res: Result<bool>, pos: int, dst: seq<int>, bps: nat, width: nat)
    requires width > 0 && (p.Ok? ==> WellShaped(p.v.body, |dst|) && p.v.wasted < bps)
  {
    match p
    case Bad(e) => res == Result.Error(e)
    case Ok(sub, q) => (
      && pos == q && res == Value(Good(sub.body, |dst|, bps - sub.wasted, width))
      && (res.v ==> dst == Output(sub, |dst|, width) && AllFit(dst, bps)))
  }

  /** Decodes one subframe of dst.Length samples. The reader ends where the syntax ends
      whatever the range verdict, and accepted samples are the exact, unwrapped output. */
  method DecodeSubframe(br: Reader, dst: array<int>, bps: nat, width: nat, arch: Arch) returns (res: Result<bool>)
    requires br.Valid() && dst !in br.Repr() && arch.Valid()
    requires (width == 32 || width == 64) && 1 <= bps <= width && bps <= 33
    modifies br.Repr(), dst
    ensures br.Valid() && br.Same() && 0 <= old(br.Pos()) <= |br.Stream().bits|
    ensures SubDecoded(GetSubframe(br.Stream(), old(br.Pos()), dst.Length, bps), res, br.Pos(), dst[..], bps, width)
  {
    hide Reader.Valid, GetSubHeader, GetBody, AllFit, Samples, Good, Pow2, Scale;
    br.Bounds();
    var hdr := ReadSubHeader(br, bps);
    if hdr.Error? { return Result.Error(hdr.e); }
    br.Bounds();
    var kind, wasted := hdr.v.0, hdr.v.1;
    res := DecodeBody(br, dst, kind, bps - wasted, width, arch);
    if res.Error? || !res.v { return; }
    if wasted > 0 {
      ScaleFits(dst[..], bps - wasted, wasted);
      ShiftBack(dst, wasted, bps - wasted, width);
    } else {
      ScaleNone(dst[..]);
    }
  }

  /** The padding bit, the type code and the wasted-bits count. */
  method ReadSubHeader(br: Reader, bps: nat) returns (res: Result<(nat, nat)>)
    requires br.Valid()
    modifies br.Repr()
    ensures br.Valid() && br.Same()
    ensures br.Agrees(GetSubHeader(br.Stream(), old(br.Pos()), bps), res)
  {
    hide Reader.Valid, GetBits, GetWasted;
    br.Bounds();
    var pad := br.ReadBits(1);
    if pad.Error? { return Result.Error(pad.e); }
    if pad.v != 0 { return Result.Error(Unsupported); }
    br.Bounds();
    var kind := br.ReadBits(6);
    if kind.Error? { return Result.Error(kind.e); }
    br.Bounds();
    var wasted := ReadWastedBits(br);
    if wasted.Error? { return Result.Error(wasted.e); }
    if wasted.v >= bps { return Result.Error(Unsupported); }
    return Value((kind.v, wasted.v));
  }

  lemma {:induction false} ScaleNone(s: seq<int>)
    ensures Scale(s, 0) == s
  {
    forall i | 0 <= i < |s| ensures Scale(s, 0)[i] == s[i] { assert s[i] * Pow2(0) == s[i]; }
  }
}
