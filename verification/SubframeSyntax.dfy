/** Subframes: their bit syntax as a parser and a printer, the samples they stand for, and
    the round trip (internal/frame/subframe.go, section 9.2 of RFC 9639). */
module SubframeSyntax {
  import opened Words
  import opened Cursor
  import opened Rice
  import opened Predict
  import opened FixedRestore

  datatype Body =
    | Constant(value: int)
    | Verbatim(vals: seq<int>)
    | Fixed(warm: seq<int>, res: seq<int>)
    | Lpc(precision: nat, shift: nat, coeffs: seq<int>, warm: seq<int>, res: seq<int>)

  /** A subframe whose samples were shifted right by the wasted bits. */
  datatype Sub = Sub(wasted: nat, body: Body)

  // ---- the parser ----

  function GetWasted(s: Stream, p: nat): (r: Parsed<nat>)
    requires p <= |s.bits|
    ensures r.Ok? ==> p <= r.pos <= |s.bits| && r.v <= 32
  {
    var (flag, p1) :- GetBits(s, p, 1);
    if flag == 0 then Ok(0, p1) else
      var (q, p2) :- GetUnary(s, p1);
      if q >= 32 then Bad(Unsupported) else Ok(q + 1, p2)
  }

  function GetFixed(s: Stream, p: nat, n: nat, order: nat, eff: nat): (r: Parsed<Body>)
    requires p <= |s.bits| && order <= 4
    ensures r.Ok? ==> p <= r.pos <= |s.bits| && r.v.Fixed? && WellShaped(r.v, n)
  {
    if order > n then Bad(Unsupported) else
      var (warm, p1) :- GetRaw(s, p, eff, order);
      var (res, p2) :- GetResidual(s, p1, n, order);
      Ok(Fixed(warm, res), p2)
  }

  function GetLpc(s: Stream, p: nat, n: nat, order: nat, eff: nat): (r: Parsed<Body>)
    requires p <= |s.bits| && 1 <= order <= 32
    ensures r.Ok? ==> p <= r.pos <= |s.bits| && r.v.Lpc? && WellShaped(r.v, n)
  {
    if order > n then Bad(Unsupported) else
      var (warm, p1) :- GetRaw(s, p, eff, order);
      var (q, p2) :- GetQuantization(s, p1);
      GetLpcTail(s, p2, n, order, q.0, q.1, warm)
  }

  /** The precision and the shift of the coefficients. */
  function GetQuantization(s: Stream, p: nat): (r: Parsed<(nat, nat)>)
    requires p <= |s.bits|
    ensures r.Ok? ==> p <= r.pos <= |s.bits| && 1 <= r.v.0 <= 15 && r.v.1 < 16
  {
    Pow2Values();
    var (prec, p1) :- GetBits(s, p, 4);
    if prec == 0x0F then Bad(Unsupported) else
      var (shift, p2) :- GetSigned(s, p1, 5);
      if shift < 0 then Bad(Unsupported) else Ok((prec + 1, shift), p2)
  }

  function GetLpcTail(s: Stream, p: nat, n: nat, order: nat, prec: nat, shift: nat, warm: seq<int>): (r: Parsed<Body>)
    requires p <= |s.bits| && 1 <= order <= 32 && order <= n && |warm| == order
    requires 1 <= prec <= 15 && shift < 16
    ensures r.Ok? ==> p <= r.pos <= |s.bits| && r.v.Lpc? && WellShaped(r.v, n)
  {
    var (coeffs, p1) :- GetRaw(s, p, prec, order);
    var (res, p2) :- GetResidual(s, p1, n, order);
    Ok(Lpc(prec, shift, coeffs, warm, res), p2)
  }

  function GetBody(s: Stream, p: nat, n: nat, kind: nat, eff: nat): (r: Parsed<Body>)
    requires p <= |s.bits| && kind < 64
    ensures r.Ok? ==> p <= r.pos <= |s.bits| && WellShaped(r.v, n)
  {
    if kind == 0 then
      var (v, p1) :- GetSigned(s, p, eff);
      Ok(Constant(v), p1)
    else if kind == 1 then
      var (vals, p1) :- GetRaw(s, p, eff, n);
      Ok(Verbatim(vals), p1)
    else if 8 <= kind <= 12 then GetFixed(s, p, n, kind - 8, eff)
    else if kind >= 32 then GetLpc(s, p, n, kind - 31, eff)
    else Bad(Unsupported)
  }

  /** One subframe of n samples at bps bits. */
  function GetSubframe(s: Stream, p: nat, n: nat, bps: nat): (r: Parsed<Sub>)
    requires p <= |s.bits|
    ensures r.Ok? ==> p <= r.pos <= |s.bits| && r.v.wasted < bps && WellShaped(r.v.body, n)
  {
    var (hdr, p1) :- GetSubHeader(s, p, bps);
    var (body, p2) :- GetBody(s, p1, n, hdr.0, bps - hdr.1);
    Ok(Sub(hdr.1, body), p2)
  }

  /** The padding bit, the type code and the wasted-bits count, which must leave a bit. */
  function GetSubHeader(s: Stream, p: nat, bps: nat): (r: Parsed<(nat, nat)>)
    requires p <= |s.bits|
    ensures r.Ok? ==> p <= r.pos <= |s.bits| && r.v.0 < 64 && r.v.1 < bps
  {
    Pow2Values();
    var (pad, p1) :- GetBits(s, p, 1);
    if pad != 0 then Bad(Unsupported) else
      var (kind, p2) :- GetBits(s, p1, 6);
      var (wasted, p3) :- GetWasted(s, p2);
      if wasted >= bps then Bad(Unsupported) else Ok((kind, wasted), p3)
  }

  /** The lengths and field ranges every parsed body of n samples has. */
  predicate WellShaped(b: Body, n: nat)
  {
    match b
    case Constant(_) => true
    case Verbatim(vals) => |vals| == n
    case Fixed(warm, res) => |warm| <= 4 && |warm| + |res| == n
    case Lpc(prec, shift, coeffs, warm, res) =>
      && 1 <= prec <= 15 && shift < 16 && |coeffs| == |warm| && 1 <= |warm| <= 32 && |warm| + |res| == n
  }

  // ---- what a subframe means ----

  /** The samples before the wasted-bits shift, restored in words of the given width. */
  function Samples(b: Body, n: nat, width: nat): (s: seq<int>)
    requires WellShaped(b, n) && width > 0
    ensures |s| == n
  {
    match b
    case Constant(v) => seq(n, _ => v)
    case Verbatim(vals) => vals
    case Fixed(warm, res) => Restored(width, FixedCoeffs(|warm|), 0, warm + res, n)
    case Lpc(_, shift, coeffs, warm, res) => Restored(width, coeffs, shift, warm + res, n)
  }

  /** The range verdict: a residual outside 32 bits or a restored sample outside the
      effective width rejects the subframe. */
  predicate Good(b: Body, n: nat, eff: nat, width: nat)
    requires WellShaped(b, n) && width > 0
  {
    (b.Fixed? || b.Lpc?) ==> AllFit(b.res, 32) && AllFit(Samples(b, n, width), eff)
  }

  function Scale(s: seq<int>, wasted: nat): (t: seq<int>)
    ensures |t| == |s|
  {
    seq(|s|, i requires 0 <= i < |s| => s[i] * Pow2(wasted))
  }

  /** The decoded samples, as exact integers. */
  function Output(sub: Sub, n: nat, width: nat): (s: seq<int>)
    requires WellShaped(sub.body, n) && width > 0
    ensures |s| == n
  {
    Scale(Samples(sub.body, n, width), sub.wasted)
  }

  /** Undoing the wasted-bits shift stays within bps bits, so it cannot wrap. */
  lemma {:induction false} ScaleFits(s: seq<int>, eff: nat, wasted: nat)
    requires AllFit(s, eff)
    ensures AllFit(Scale(s, wasted), eff + wasted)
  {
    forall i | 0 <= i < |s| ensures Fits(s[i] * Pow2(wasted), eff + wasted) { ShiftFits(s[i], eff, wasted); }
  }

  lemma {:induction false} ShiftFits(v: int, eff: nat, wasted: nat)
    requires Fits(v, eff)
    ensures Fits(v * Pow2(wasted), eff + wasted)
  {
    var h: int, d := Pow2(eff - 1), Pow2(wasted);
    Pow2Add(eff - 1, wasted);
    ProductLt(v, h, d);
    ProductLe(-h, v, d);
    assert (-h) * d == -(h * d);
  }

  // ---- the printer ----

  function TypeCode(b: Body): nat
  {
    match b
    case Constant(_) => 0
    case Verbatim(_) => 1
    case Fixed(warm, _) => 8 + |warm|
    case Lpc(_, _, _, warm, _) => 31 + |warm|
  }

  function EmitWasted(wasted: nat): seq<bool>
  {
    if wasted == 0 then Bits(0, 1) else Bits(1, 1) + UnaryBits(wasted - 1)
  }

  /** How the residual of a predicted body is coded. */
  datatype Coding = Coding(plans: seq<PartPlan>, paramBits: nat, po: nat)

  predicate CodingOk(b: Body, c: Coding, n: nat)
    requires WellShaped(b, n)
  {
    match b
    case Fixed(warm, res) => PlanOk(res, c.plans, c.paramBits, n, |warm|, c.po)
    case Lpc(_, _, _, warm, res) => PlanOk(res, c.plans, c.paramBits, n, |warm|, c.po)
    case _ => true
  }

  /** Every field of the body fits where it is printed. */
  predicate Printable(b: Body, eff: nat)
  {
    match b
    case Constant(v) => Fits(v, eff)
    case Verbatim(vals) => AllFit(vals, eff)
    case Fixed(warm, _) => AllFit(warm, eff)
    case Lpc(prec, _, coeffs, warm, _) => AllFit(warm, eff) && AllFit(coeffs, prec)
  }

  function EmitBody(b: Body, c: Coding, n: nat, eff: nat): seq<bool>
    requires WellShaped(b, n) && CodingOk(b, c, n)
  {
    match b
    case Constant(v) => SignedBits(v, eff)
    case Verbatim(vals) => EmitRaw(vals, eff)
    case Fixed(warm, res) => EmitRaw(warm, eff) + EmitResidual(res, c.plans, c.paramBits, n, |warm|, c.po)
    case Lpc(prec, shift, coeffs, warm, res) =>
      EmitRaw(warm, eff) + (Bits(prec - 1, 4) + (SignedBits(shift, 5) + (EmitRaw(coeffs, prec)
        + EmitResidual(res, c.plans, c.paramBits, n, |warm|, c.po))))
  }

  function EmitSub(sub: Sub, c: Coding, n: nat, bps: nat): seq<bool>
    requires WellShaped(sub.body, n) && CodingOk(sub.body, c, n) && sub.wasted < bps
  {
    Bits(0, 1) + (Bits(TypeCode(sub.body), 6) + (EmitWasted(sub.wasted) + EmitBody(sub.body, c, n, bps - sub.wasted)))
  }

  // ---- the round trip ----

  lemma {:induction false} ReadBackRaw(s: Stream, p: nat, vals: seq<int>, n: nat)
    requires At(s, p, EmitRaw(vals, n)) && AllFit(vals, n)
    ensures GetRaw(s, p, n, |vals|) == Ok(vals, p + |EmitRaw(vals, n)|)
  {
    forall v | v in vals ensures FitsOrZero(v, n) {
      var i :| 0 <= i < |vals| && vals[i] == v;
      assert Fits(vals[i], n);
    }
    RawRoundTrip(s, p, vals, n);
  }

  lemma {:induction false} WastedRoundTrip(s: Stream, p: nat, wasted: nat)
    requires At(s, p, EmitWasted(wasted)) && wasted <= 32
    ensures GetWasted(s, p) == Ok(wasted, p + |EmitWasted(wasted)|)
  {
    hide At, GetBits, GetUnary, Bits, UnaryBits, Pow2;
    Pow2Values();
    if wasted == 0 {
      ReadBack(s, p, 0, 1);
    } else {
      AtCat(s, p, Bits(1, 1), UnaryBits(wasted - 1));
      ReadBack(s, p, 1, 1);
      ReadBackUnary(s, p + 1, wasted - 1);
    }
  }

  lemma {:induction false} FixedRoundTrip(s: Stream, p: nat, b: Body, c: Coding, n: nat, eff: nat)
    requires b.Fixed? && WellShaped(b, n) && CodingOk(b, c, n) && Printable(b, eff)
    requires At(s, p, EmitBody(b, c, n, eff))
    ensures GetFixed(s, p, n, |b.warm|, eff) == Ok(b, p + |EmitBody(b, c, n, eff)|)
  {
    hide At, GetRaw, GetResidual, EmitRaw, EmitResidual, Splits, AllCodable, AllFit;
    var r := EmitResidual(b.res, c.plans, c.paramBits, n, |b.warm|, c.po);
    AtCat(s, p, EmitRaw(b.warm, eff), r);
    ReadBackRaw(s, p, b.warm, eff);
    ResidualRoundTrip(s, p + |EmitRaw(b.warm, eff)|, b.res, c.plans, c.paramBits, n, |b.warm|, c.po);
  }

  lemma {:induction false} LpcRoundTrip(s: Stream, p: nat, b: Body, c: Coding, n: nat, eff: nat)
    requires b.Lpc? && WellShaped(b, n) && CodingOk(b, c, n) && Printable(b, eff)
    requires At(s, p, EmitBody(b, c, n, eff))
    ensures GetLpc(s, p, n, |b.warm|, eff) == Ok(b, p + |EmitBody(b, c, n, eff)|)
  {
    hide At, GetRaw, GetQuantization, GetResidual, EmitRaw, EmitResidual, Splits, AllCodable, AllFit, Bits, SignedBits;
    var r := EmitResidual(b.res, c.plans, c.paramBits, n, |b.warm|, c.po);
    var tail := EmitRaw(b.coeffs, b.precision) + r;
    AtCat(s, p, EmitRaw(b.warm, eff), Bits(b.precision - 1, 4) + (SignedBits(b.shift, 5) + tail));
    var p1 := p + |EmitRaw(b.warm, eff)|;
    ReadBackRaw(s, p, b.warm, eff);
    QuantizationRoundTrip(s, p1, b.precision, b.shift, tail);
    AtCat(s, p1 + 9, EmitRaw(b.coeffs, b.precision), r);
    ReadBackRaw(s, p1 + 9, b.coeffs, b.precision);
    ResidualRoundTrip(s, p1 + 9 + |EmitRaw(b.coeffs, b.precision)|, b.res, c.plans, c.paramBits, n, |b.warm|, c.po);
  }

  lemma {:induction false} QuantizationRoundTrip(s: Stream, p: nat, prec: nat, shift: nat, rest: seq<bool>)
    requires 1 <= prec <= 15 && shift < 16 && At(s, p, Bits(prec - 1, 4) + (SignedBits(shift, 5) + rest))
    ensures p + 9 <= |s.bits| && GetQuantization(s, p) == Ok((prec, shift), p + 9) && At(s, p + 9, rest)
  {
    hide At, GetBits, GetSigned, Bits, SignedBits, Pow2;
    Pow2Values();
    AtCat(s, p, Bits(prec - 1, 4), SignedBits(shift, 5) + rest);
    AtCat(s, p + 4, SignedBits(shift, 5), rest);
    ReadBack(s, p, prec - 1, 4);
    ReadBackSigned(s, p + 4, shift, 5);
  }

  lemma {:induction false} BodyRoundTrip(s: Stream, p: nat, b: Body, c: Coding, n: nat, eff: nat)
    requires WellShaped(b, n) && CodingOk(b, c, n) && Printable(b, eff)
    requires At(s, p, EmitBody(b, c, n, eff))
    ensures GetBody(s, p, n, TypeCode(b), eff) == Ok(b, p + |EmitBody(b, c, n, eff)|)
  {
    hide At, GetRaw, GetSigned, EmitRaw, GetFixed, GetLpc, AllFit;
    match b
    case Constant(v) => ReadBackSigned(s, p, v, eff);
    case Verbatim(vals) => ReadBackRaw(s, p, vals, eff);
    case Fixed(_, _) => FixedRoundTrip(s, p, b, c, n, eff);
    case Lpc(_, _, _, _, _) => LpcRoundTrip(s, p, b, c, n, eff);
  }

  /** A printed subframe is parsed back, for every kind and any wasted-bits count. */
  lemma {:induction false} SubframeRoundTrip(s: Stream, p: nat, sub: Sub, c: Coding, n: nat, bps: nat)
    requires WellShaped(sub.body, n) && CodingOk(sub.body, c, n) && sub.wasted < bps && sub.wasted <= 32
    requires Printable(sub.body, bps - sub.wasted)
    requires At(s, p, EmitSub(sub, c, n, bps))
    ensures GetSubframe(s, p, n, bps) == Ok(sub, p + |EmitSub(sub, c, n, bps)|)
  {
    Pow2Values();
    hide At, GetBits, GetWasted, GetBody, EmitWasted, EmitBody, Bits, Pow2, CodingOk, Printable;
    var body := EmitBody(sub.body, c, n, bps - sub.wasted);
    var w := EmitWasted(sub.wasted);
    var k := TypeCode(sub.body);
    AtCat(s, p, Bits(0, 1), Bits(k, 6) + (w + body));
    AtCat(s, p + 1, Bits(k, 6), w + body);
    AtCat(s, p + 7, w, body);
    ReadBack(s, p, 0, 1);
    ReadBack(s, p + 1, k, 6);
    WastedRoundTrip(s, p + 7, sub.wasted);
    BodyRoundTrip(s, p + 7 + |w|, sub.body, c, n, bps - sub.wasted);
  }
}
