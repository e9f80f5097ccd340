/** Decoding one frame (internal/frame/frame.go, decorrelate.go): header, subframes, stereo
    inverse, CRC-16, and only then the range verdict. */
module FrameDecode {
  import opened Words
  import opened Accumulator
  import opened Cursor
  import opened Crc
  import opened BitReader
  import BitWriter
  import opened LpcRoutes
  import opened Rice
  import opened SubframeSyntax
  import opened SubframeDecode
  import opened HeaderSyntax
  import opened HeaderCodec
  import opened FrameSyntax

  /** One decoded frame; every array of channels has blockSize samples. */
  class Frame {
    var blockSize: nat
    var sampleRate: nat
    var bps: nat
    var number: nat
    var variable: bool
    var channels: seq<array<int>>
    const crc: FrameCrc

    constructor ()
      ensures fresh(crc) && crc.Valid() && channels == []
    {
      blockSize, sampleRate, bps, number, variable, channels := 0, 0, 0, 0, false, [];
      crc := new FrameCrc();
    }
  }

  // ---- the stereo inverses ----

  /** The two comparisons of the range check. */
  predicate InLimits(v: int, bps: nat)
    requires bps >= 1
  {
    -(Pow2(bps - 1) as int) <= v < Pow2(bps - 1)
  }

  lemma {:induction false} Narrowed(v: int, bps: nat)
    requires 1 <= bps <= 32
    ensures InLimits(v, bps) == Fits(v, bps)
    ensures Fits(v, bps) ==> Wrap(v, 32) == v
  {
    if Fits(v, bps) { WidenFits(v, bps, 32); }
  }

  lemma {:induction false} FitsPointwise(chCode: nat, a: seq<int>, b: seq<int>, n: nat)
    requires |a| == |b|
    ensures AllFit(LeftOfAll(chCode, a, b), n) <==> forall j :: 0 <= j < |a| ==> Fits(LeftOf(chCode, a[j], b[j]), n)
    ensures AllFit(RightOfAll(chCode, a, b), n) <==> forall j :: 0 <= j < |a| ==> Fits(RightOf(chCode, a[j], b[j]), n)
  {
    hide Fits, LeftOf, RightOf;
    var l, r := LeftOfAll(chCode, a, b), RightOfAll(chCode, a, b);
    assert forall j :: 0 <= j < |a| ==> l[j] == LeftOf(chCode, a[j], b[j]);
    assert forall j :: 0 <= j < |a| ==> r[j] == RightOf(chCode, a[j], b[j]);
  }

  /** The or of an even word and a bit. */
  lemma {:induction false} RestoredParity(a: int, b: int, width: nat)
    requires width >= 2 && Fits(2 * a, width) && Fits(b, width)
    ensures Signed(Or(Unsigned(2 * a, width), And(Unsigned(b, width), 1)), width) == 2 * a + b % 2
  {
    hide Or, And, Low;
    var u, half: nat := Unsigned(2 * a, width), Pow2(width - 1);
    var bit := And(Unsigned(b, width), 1);
    EvenWord(a, width);
    LowBit(b, width);
    Pow2Values();
    OrDisjoint(u / 2, bit, 1);
    HalfEven(width);
  }

  lemma {:induction false} EvenWord(a: int, width: nat)
    requires width >= 2 && Fits(2 * a, width)
    ensures Unsigned(2 * a, width) == if a >= 0 then 2 * a else 2 * a + Pow2(width)
    ensures Unsigned(2 * a, width) % 2 == 0
  {
    hide Pow2;
    TwicePow2(width - 1);
    var m := Pow2(width);
    if a >= 0 { DivModUnique(0, 2 * a, m); } else { DivModUnique(-1, 2 * a + m, m); }
  }

  lemma {:induction false} LowBit(b: int, width: nat)
    requires width >= 2
    ensures And(Unsigned(b, width), 1) == b % 2
  {
    Pow2Values();
    AndMask(Unsigned(b, width), 1);
    BitWriter.UnsignedLow(b, 1, width);
  }

  lemma {:induction false} HalfEven(width: nat)
    requires width >= 2
    ensures Pow2(width - 1) % 2 == 0
  {
    assert Pow2(width - 1) == 2 * Pow2(width - 2);
  }

  /** Sums and differences of in-range stereo subframe samples do not wrap the word. */
  lemma {:induction false} StereoExact(a: int, b: int, bps: nat, width: nat)
    requires 1 <= bps <= 32 && width == WordWidth(bps) && Fits(a, bps) && Fits(b, bps + 1)
    ensures Wrap(a - b, width) == a - b && Wrap(a + b, width) == a + b
    ensures Wrap(2 * a, width) == 2 * a && Fits(2 * a, width) && Fits(b, width)
    ensures Wrap(2 * a + b % 2 + b, width) == 2 * a + b % 2 + b && Wrap(2 * a + b % 2 - b, width) == 2 * a + b % 2 - b
  {
    hide Wrap;
    Pow2Mono(bps + 2, width - 1);
    assert Pow2(bps + 2) == 2 * Pow2(bps + 1) && Pow2(bps + 1) == 2 * Pow2(bps) && Pow2(bps) == 2 * Pow2(bps - 1);
    hide Pow2;
    WrapFits(a - b, width);
    WrapFits(a + b, width);
    WrapFits(2 * a, width);
    WrapFits(2 * a + b % 2 + b, width);
    WrapFits(2 * a + b % 2 - b, width);
  }

  ghost predicate StereoReady(a: array<int>, b: array<int>, outL: array<int>, outR: array<int>)
  {
    a.Length == b.Length == outL.Length == outR.Length && outL != outR && outL != a && outL != b && outR != a
      && outR != b
  }

  /** The left channel is stored; the right one is left less side. */
  method DecorrelateLeftSide(left: array<int>, side: array<int>, outL: array<int>, outR: array<int>, bps: nat,
      width: nat) returns (ok: bool)
    requires StereoReady(left, side, outL, outR) && 1 <= bps <= 32 && width == WordWidth(bps)
    requires AllFit(left[..], bps) && AllFit(side[..], bps + 1)
    modifies outL, outR
    ensures ok <==> AllFit(RightOfAll(8, left[..], side[..]), bps)
    ensures ok ==> outL[..] == LeftOfAll(8, left[..], side[..]) && outR[..] == RightOfAll(8, left[..], side[..])
  {
    hide Wrap, Fits, Signed, Unsigned, Or, And;
    ghost var x, y := left[..], side[..];
    var bad := false;
    for i := 0 to left.Length
      invariant left[..] == x && side[..] == y
      invariant !bad <==> forall j :: 0 <= j < i ==> Fits(RightOf(8, x[j], y[j]), bps)
      invariant !bad ==> forall j :: 0 <= j < i ==>
        outL[j] == LeftOf(8, x[j], y[j]) && outR[j] == RightOf(8, x[j], y[j])
    {
      assert Fits(x[i], bps) && Fits(y[i], bps + 1);
      StereoExact(x[i], y[i], bps, width);
      var l, r := left[i], Wrap(left[i] - side[i], width);
      bad := bad || !InLimits(r, bps);
      Narrowed(l, bps);
      Narrowed(r, bps);
      outL[i], outR[i] := Wrap(l, 32), Wrap(r, 32);
    }
    ok := !bad;
    if ok {
      assert outL[..] == LeftOfAll(8, x, y);
      assert outR[..] == RightOfAll(8, x, y);
    }
    FitsPointwise(8, x, y, bps);
  }

  /** The right channel is stored; the left one is right plus side. */
  method DecorrelateRightSide(side: array<int>, right: array<int>, outL: array<int>, outR: array<int>, bps: nat,
      width: nat) returns (ok: bool)
    requires StereoReady(side, right, outL, outR) && 1 <= bps <= 32 && width == WordWidth(bps)
    requires AllFit(side[..], bps + 1) && AllFit(right[..], bps)
    modifies outL, outR
    ensures ok <==> AllFit(LeftOfAll(9, side[..], right[..]), bps)
    ensures ok ==> outL[..] == LeftOfAll(9, side[..], right[..]) && outR[..] == RightOfAll(9, side[..], right[..])
  {
    hide Wrap, Fits, Signed, Unsigned, Or, And;
    ghost var x, y := side[..], right[..];
    var bad := false;
    for i := 0 to side.Length
      invariant side[..] == x && right[..] == y
      invariant !bad <==> forall j :: 0 <= j < i ==> Fits(LeftOf(9, x[j], y[j]), bps)
      invariant !bad ==> forall j :: 0 <= j < i ==>
        outL[j] == LeftOf(9, x[j], y[j]) && outR[j] == RightOf(9, x[j], y[j])
    {
      assert Fits(x[i], bps + 1) && Fits(y[i], bps);
      StereoExact(y[i], x[i], bps, width);
      var l, r := Wrap(right[i] + side[i], width), right[i];
      bad := bad || !InLimits(l, bps);
      Narrowed(l, bps);
      Narrowed(r, bps);
      outL[i], outR[i] := Wrap(l, 32), Wrap(r, 32);
    }
    ok := !bad;
    if ok {
      assert outL[..] == LeftOfAll(9, x, y);
      assert outR[..] == RightOfAll(9, x, y);
    }
    FitsPointwise(9, x, y, bps);
  }

  /** The parity of the side restores the bit the mid channel dropped. */
  method DecorrelateMidSide(mid: array<int>, side: array<int>, outL: array<int>, outR: array<int>, bps: nat,
      width: nat) returns (ok: bool)
    requires StereoReady(mid, side, outL, outR) && 1 <= bps <= 32 && width == WordWidth(bps)
    requires AllFit(mid[..], bps) && AllFit(side[..], bps + 1)
    modifies outL, outR
    ensures ok <==> AllFit(LeftOfAll(10, mid[..], side[..]), bps) && AllFit(RightOfAll(10, mid[..], side[..]), bps)
    ensures ok ==> outL[..] == LeftOfAll(10, mid[..], side[..]) && outR[..] == RightOfAll(10, mid[..], side[..])
  {
    hide Wrap, Fits, Signed, Unsigned, Or, And;
    ghost var x, y := mid[..], side[..];
    var bad := false;
    for i := 0 to mid.Length
      invariant mid[..] == x && side[..] == y
      invariant !bad <==> forall j :: 0 <= j < i ==>
        Fits(LeftOf(10, x[j], y[j]), bps) && Fits(RightOf(10, x[j], y[j]), bps)
      invariant !bad ==> forall j :: 0 <= j < i ==>
        outL[j] == LeftOf(10, x[j], y[j]) && outR[j] == RightOf(10, x[j], y[j])
    {
      assert Fits(x[i], bps) && Fits(y[i], bps + 1);
      StereoExact(x[i], y[i], bps, width);
      RestoredParity(mid[i], side[i], width);
      var m := Signed(Or(Unsigned(2 * mid[i], width), And(Unsigned(side[i], width), 1)), width);
      var l, r := Wrap(m + side[i], width) / 2, Wrap(m - side[i], width) / 2;
      bad := bad || !InLimits(l, bps) || !InLimits(r, bps);
      Narrowed(l, bps);
      Narrowed(r, bps);
      outL[i], outR[i] := Wrap(l, 32), Wrap(r, 32);
    }
    ok := !bad;
    if ok {
      assert outL[..] == LeftOfAll(10, x, y);
      assert outR[..] == RightOfAll(10, x, y);
    }
    FitsPointwise(10, x, y, bps);
  }

  // ---- the subframes ----

  lemma {:induction false} GetSubsStep(s: Stream, p: nat, hdr: Header, i: nat)
    requires p <= |s.bits| && i < hdr.Channels()
    ensures GetSubs(s, p, hdr, i) == match GetSubframe(s, p, hdr.blockSize, SubDepth(hdr, i))
      case Bad(e) => Bad(e)
      case Ok(sub, q) => Prepend([sub], GetSubs(s, q, hdr, i + 1))
  {
    hide GetSubframe;
  }

  lemma {:induction false} GetSubsNone(s: Stream, p: nat, hdr: Header)
    requires p <= |s.bits|
    ensures GetSubs(s, p, hdr, hdr.Channels()) == Ok([], p)
  {
  }

  /** Where a good subframe was read, its samples are in the output array. */
  ghost predicate Filled(hdr: Header, subs: seq<Sub>, outs: seq<array<int>>)
    reads set k | 0 <= k < |outs| :: outs[k]
    requires |subs| <= |outs|
  {
    forall k :: 0 <= k < |subs| && GoodAt(hdr, subs[k], k) ==>
      outs[k][..] == Output(subs[k], hdr.blockSize, WordWidth(hdr.bps))
  }

  ghost predicate Distinct(outs: seq<array<int>>, n: nat)
  {
    && (forall k :: 0 <= k < |outs| ==> outs[k].Length == n)
    && forall j, k :: 0 <= j < k < |outs| ==> outs[j] != outs[k]
  }

  /** What reading the subframes of a frame leaves behind. */
  ghost predicate SubsDecoded(p: Parsed<seq<Sub>>, res: Result<bool>, pos: int, hdr: Header, outs: seq<array<int>>)
    reads set k | 0 <= k < |outs| :: outs[k]
  {
    match p
    case Bad(e) => res == Result.Error(e)
    case Ok(subs, q) => pos == q && res == Value(AllGood(hdr, subs, 0)) && |subs| <= |outs| && Filled(hdr, subs, outs)
  }

  /** Decodes one independent channel, through 64-bit scratch at 25 bits and more. */
  method DecodeChannel(br: Reader, hdr: Header, i: nat, out: array<int>, arch: Arch) returns (res: Result<bool>)
    requires br.Valid() && out !in br.Repr() && arch.Valid() && 1 <= hdr.bps <= 32 && out.Length == hdr.blockSize
    requires hdr.chCode <= 7
    modifies br.Repr(), out
    ensures br.Valid() && br.Same() && 0 <= old(br.Pos()) <= |br.Stream().bits|
    ensures SubDecoded(GetSubframe(br.Stream(), old(br.Pos()), out.Length, SubDepth(hdr, i)), res, br.Pos(), out[..],
      SubDepth(hdr, i), WordWidth(hdr.bps))
  {
    hide Reader.Valid, GetSubframe, AllFit, Wrap, Good, Output, WellShaped;
    if hdr.bps < 25 {
      res := DecodeSubframe(br, out, hdr.bps, 32, arch);
      return;
    }
    var scratch := new int[hdr.blockSize];
    res := DecodeSubframe(br, scratch, hdr.bps, 64, arch);
    if res.Error? || !res.v { return; }
    NarrowAll(scratch, out, hdr.bps);
  }

  /** out[i] = int32(scratch[i]), exact for samples of up to 32 bits. */
  method NarrowAll(scratch: array<int>, out: array<int>, bps: nat)
    requires scratch.Length == out.Length && scratch != out && 1 <= bps <= 32 && AllFit(scratch[..], bps)
    modifies out
    ensures out[..] == scratch[..]
  {
    hide Wrap, Fits;
    for i := 0 to scratch.Length
      invariant out[..i] == scratch[..i]
    {
      assert Fits(scratch[..][i], bps);
      Narrowed(scratch[i], bps);
      out[i] := Wrap(scratch[i], 32);
    }
    assert scratch[..scratch.Length] == scratch[..] && out[..scratch.Length] == out[..];
  }

  method DecodeIndependent(br: Reader, hdr: Header, outs: seq<array<int>>, arch: Arch) returns (res: Result<bool>)
    requires br.Valid() && arch.Valid() && 1 <= hdr.bps <= 32 && hdr.chCode <= 7
    requires |outs| == hdr.Channels() && Distinct(outs, hdr.blockSize) && forall k :: 0 <= k < |outs| ==>
      outs[k] !in br.Repr()
    modifies br.Repr(), outs
    ensures br.Valid() && br.Same() && 0 <= old(br.Pos()) <= |br.Stream().bits|
    ensures SubsDecoded(GetSubs(br.Stream(), old(br.Pos()), hdr, 0), res, br.Pos(), hdr, outs)
  {
    hide Reader.Valid, GetSubframe, GetSubs, AllFit, Good, Output, WellShaped, SubDepth, GoodAt, AllGood, WordWidth;
    br.Bounds();
    ghost var s, p := br.Stream(), br.Pos();
    ghost var done: seq<Sub> := [];
    NoneBad(hdr);
    PrependNothing(GetSubs(s, p, hdr, 0));
    var bad := false;
    for i := 0 to |outs|
      invariant br.Valid() && br.Same() && 0 <= br.Pos() <= |s.bits| && |done| == i
      invariant GetSubs(s, p, hdr, 0) == Prepend(done, GetSubs(s, br.Pos(), hdr, i))
      invariant !bad <==> AllGood(hdr, done, 0)
      invariant Filled(hdr, done, outs)
    {
      ghost var here := br.Pos();
      GetSubsStep(s, here, hdr, i);
      var r := DecodeChannel(br, hdr, i, outs[i], arch);
      if r.Error? { return Result.Error(r.e); }
      br.Bounds();
      ghost var sub := GetSubframe(s, here, hdr.blockSize, SubDepth(hdr, i)).v;
      PrependMore(done, [sub], GetSubs(s, br.Pos(), hdr, i + 1));
      GoodSnoc(hdr, done, sub, i);
      DecodedIsGood(s, here, hdr, i, r, br.Pos(), outs[i][..]);
      bad := bad || !r.v;
      done := done + [sub];
    }
    GetSubsNone(s, br.Pos(), hdr);
    assert done + [] == done;
    return Value(!bad);
  }

  lemma {:induction false} NoneBad(hdr: Header)
    ensures AllGood(hdr, [], 0)
  {
  }

  lemma {:induction false} GoodSnoc(hdr: Header, done: seq<Sub>, sub: Sub, i: nat)
    requires |done| == i
    ensures AllGood(hdr, done + [sub], 0) <==> AllGood(hdr, done, 0) && GoodAt(hdr, sub, i)
  {
    hide GoodAt;
    var t := done + [sub];
    if AllGood(hdr, t, 0) {
      assert GoodAt(hdr, t[i], 0 + i);
      forall k | 0 <= k < |done| ensures GoodAt(hdr, done[k], 0 + k) { assert GoodAt(hdr, t[k], 0 + k); }
    }
  }

  /** The result of one subframe in terms of the frame's verdict. */
  lemma {:induction false} DecodedIsGood(s: Stream, p: nat, hdr: Header, i: nat, r: Result<bool>, pos: int,
      dst: seq<int>)
    requires p <= |s.bits| && |dst| == hdr.blockSize && r.Value?
    requires SubDecoded(GetSubframe(s, p, |dst|, SubDepth(hdr, i)), r, pos, dst, SubDepth(hdr, i), WordWidth(hdr.bps))
    ensures var q := GetSubframe(s, p, |dst|, SubDepth(hdr, i));
      && q.Ok? && q.pos == pos && (r.v <==> GoodAt(hdr, q.v, i))
      && (r.v ==> dst == Output(q.v, |dst|, WordWidth(hdr.bps)) && AllFit(dst, SubDepth(hdr, i)))
  {
    hide GetSubframe, AllFit, Good, Output, WellShaped, SubDepth;
  }

  lemma {:induction false} TwoSubs(s: Stream, p: nat, hdr: Header)
    requires p <= |s.bits| && hdr.Channels() == 2
    ensures GetSubs(s, p, hdr, 0) == match GetSubframe(s, p, hdr.blockSize, SubDepth(hdr, 0))
      case Bad(e) => Bad(e)
      case Ok(a, q) => (match GetSubframe(s, q, hdr.blockSize, SubDepth(hdr, 1))
        case Bad(e) => Bad(e)
        case Ok(b, q1) => Ok([a, b], q1))
  {
    hide GetSubframe;
    GetSubsStep(s, p, hdr, 0);
    var a := GetSubframe(s, p, hdr.blockSize, SubDepth(hdr, 0));
    if a.Ok? {
      GetSubsStep(s, a.pos, hdr, 1);
      var b := GetSubframe(s, a.pos, hdr.blockSize, SubDepth(hdr, 1));
      if b.Ok? {
        GetSubsNone(s, b.pos, hdr);
        assert [a.v] + ([b.v] + []) == [a.v, b.v];
      }
    }
  }

  /** What reading a stereo pair leaves behind. */
  ghost predicate PairDecoded(p: Parsed<seq<Sub>>, res: Result<bool>, pos: int, hdr: Header, a: seq<int>, b: seq<int>)
  {
    match p
    case Bad(e) => res == Result.Error(e)
    case Ok(subs, q) => (
      && pos == q && |subs| == 2 && res == Value(AllGood(hdr, subs, 0))
      && (res.v ==>
        && WellShaped(subs[0].body, hdr.blockSize) && WellShaped(subs[1].body, hdr.blockSize)
        && a == Output(subs[0], hdr.blockSize, WordWidth(hdr.bps)) && AllFit(a, SubDepth(hdr, 0))
        && b == Output(subs[1], hdr.blockSize, WordWidth(hdr.bps)) && AllFit(b, SubDepth(hdr, 1))))
  }

  lemma {:induction false} PairGood(hdr: Header, a: Sub, b: Sub)
    ensures AllGood(hdr, [a, b], 0) <==> GoodAt(hdr, a, 0) && GoodAt(hdr, b, 1)
  {
    hide GoodAt;
    assert [a] + [b] == [a, b];
    GoodSnoc(hdr, [a], b, 1);
    GoodSnoc(hdr, [], a, 0);
    assert [] + [a] == [a];
  }

  /** Decodes both subframes to their end, even when the first is out of range. */
  method DecodePair(br: Reader, hdr: Header, a: array<int>, b: array<int>, arch: Arch) returns (res: Result<bool>)
    requires br.Valid() && a !in br.Repr() && b !in br.Repr() && a != b && arch.Valid() && 1 <= hdr.bps <= 32
    requires a.Length == b.Length == hdr.blockSize && 8 <= hdr.chCode <= 10
    modifies br.Repr(), a, b
    ensures br.Valid() && br.Same() && 0 <= old(br.Pos()) <= |br.Stream().bits|
    ensures PairDecoded(GetSubs(br.Stream(), old(br.Pos()), hdr, 0), res, br.Pos(), hdr, a[..], b[..])
  {
    hide Reader.Valid, GetSubframe, GetSubs, AllFit, Good, Output, WellShaped, GoodAt, AllGood;
    br.Bounds();
    ghost var s, p := br.Stream(), br.Pos();
    TwoSubs(s, p, hdr);
    var width := WordWidth(hdr.bps);
    var badA := DecodeSubframe(br, a, SubDepth(hdr, 0), width, arch);
    if badA.Error? { return Result.Error(badA.e); }
    br.Bounds();
    ghost var mid := br.Pos();
    DecodedIsGood(s, p, hdr, 0, badA, mid, a[..]);
    var badB := DecodeSubframe(br, b, SubDepth(hdr, 1), width, arch);
    if badB.Error? { return Result.Error(badB.e); }
    DecodedIsGood(s, mid, hdr, 1, badB, br.Pos(), b[..]);
    PairGood(hdr, GetSubframe(s, p, hdr.blockSize, SubDepth(hdr, 0)).v,
      GetSubframe(s, mid, hdr.blockSize, SubDepth(hdr, 1)).v);
    PairShaped(s, p, hdr);
    return Value(badA.v && badB.v);
  }

  lemma {:induction false} PairShaped(s: Stream, p: nat, hdr: Header)
    requires p <= |s.bits| && GetSubs(s, p, hdr, 0).Ok? && hdr.Channels() == 2
    ensures var subs := GetSubs(s, p, hdr, 0).v;
      |subs| == 2 && WellShaped(subs[0].body, hdr.blockSize) && WellShaped(subs[1].body, hdr.blockSize)
  {
    hide GetSubs, WellShaped, SubDepth;
    SubsShaped(s, p, hdr, 0);
  }

  /** What decoding the channels of a frame leaves behind: the verdict of the whole frame,
      and its channels when it is in range. */
  ghost predicate ChannelsDecoded(p: Parsed<seq<Sub>>, res: Result<bool>, pos: int, hdr: Header, outs: seq<array<int>>)
    reads set k | 0 <= k < |outs| :: outs[k]
  {
    match p
    case Bad(e) => res == Result.Error(e)
    case Ok(subs, q) => var f := FrameBits(hdr, subs); (
      && pos == q && FrameShaped(f) && res == Value(InDepth(f)) && |outs| == hdr.Channels()
      && (res.v ==> forall k :: 0 <= k < |outs| ==> outs[k][..] == Pcm(f)[k]))
  }

  lemma {:induction false} SubsAreShaped(s: Stream, p: nat, hdr: Header)
    requires p <= |s.bits| && GetSubs(s, p, hdr, 0).Ok?
    ensures FrameShaped(FrameBits(hdr, GetSubs(s, p, hdr, 0).v))
  {
    hide GetSubs, WellShaped, SubDepth;
    SubsShaped(s, p, hdr, 0);
  }

  lemma {:induction false} IndependentIsFrame(s: Stream, p: nat, res: Result<bool>, pos: int, hdr: Header,
      outs: seq<array<int>>)
    requires p <= |s.bits| && hdr.chCode <= 7 && |outs| == hdr.Channels()
    requires SubsDecoded(GetSubs(s, p, hdr, 0), res, pos, hdr, outs)
    ensures ChannelsDecoded(GetSubs(s, p, hdr, 0), res, pos, hdr, outs)
  {
    hide GetSubs, WellShaped, SubDepth, GoodAt, Output;
    if GetSubs(s, p, hdr, 0).Ok? {
      SubsAreShaped(s, p, hdr);
      var f := FrameBits(hdr, GetSubs(s, p, hdr, 0).v);
      if res.v {
        forall k | 0 <= k < |outs| ensures outs[k][..] == Pcm(f)[k] {
          assert GoodAt(hdr, f.subs[k], 0 + k);
        }
      }
    }
  }

  /** Decodes a left/side, right/side or mid/side frame. The inverse runs only on subframes
      in range, because only then is it exact. */
  method DecodeStereoDecorrelated(br: Reader, hdr: Header, outs: seq<array<int>>, arch: Arch)
    returns (res: Result<bool>)
    requires br.Valid() && arch.Valid() && 1 <= hdr.bps <= 32 && 8 <= hdr.chCode <= 10
    requires |outs| == 2 && Distinct(outs, hdr.blockSize) && forall k :: 0 <= k < |outs| ==> outs[k] !in br.Repr()
    modifies br.Repr(), outs
    ensures br.Valid() && br.Same() && 0 <= old(br.Pos()) <= |br.Stream().bits|
    ensures ChannelsDecoded(GetSubs(br.Stream(), old(br.Pos()), hdr, 0), res, br.Pos(), hdr, outs)
  {
    hide Reader.Valid, GetSubs, AllFit, Good, Output, WellShaped, GoodAt, AllGood, LeftOfAll, RightOfAll;
    br.Bounds();
    ghost var s, p := br.Stream(), br.Pos();
    var a, b := new int[hdr.blockSize], new int[hdr.blockSize];
    var r := DecodePair(br, hdr, a, b, arch);
    if r.Error? { return Result.Error(r.e); }
    SubsAreShaped(s, p, hdr);
    if !r.v { return Value(false); }
    var width := WordWidth(hdr.bps);
    var ok;
    if hdr.chCode == 8 {
      ok := DecorrelateLeftSide(a, b, outs[0], outs[1], hdr.bps, width);
    } else if hdr.chCode == 9 {
      ok := DecorrelateRightSide(a, b, outs[0], outs[1], hdr.bps, width);
    } else {
      ok := DecorrelateMidSide(a, b, outs[0], outs[1], hdr.bps, width);
    }
    return Value(ok);
  }

  // ---- the frame ----

  /** Fresh channel arrays of the frame's size. */
  method EnsureChannels(nch: nat, blockSize: nat) returns (chs: seq<array<int>>)
    ensures |chs| == nch && Distinct(chs, blockSize) && forall k :: 0 <= k < nch ==> fresh(chs[k])
  {
    chs := [];
    while |chs| < nch
      invariant |chs| <= nch && Distinct(chs, blockSize) && forall k :: 0 <= k < |chs| ==> fresh(chs[k])
    {
      var a := new int[blockSize];
      chs := chs + [a];
    }
  }

  method DecodeChannels(br: Reader, hdr: Header, outs: seq<array<int>>, arch: Arch) returns (res: Result<bool>)
    requires br.Valid() && arch.Valid() && 1 <= hdr.bps <= 32 && hdr.chCode <= 10
    requires |outs| == hdr.Channels() && Distinct(outs, hdr.blockSize) && forall k :: 0 <= k < |outs| ==>
      outs[k] !in br.Repr()
    modifies br.Repr(), outs
    ensures br.Valid() && br.Same() && 0 <= old(br.Pos()) <= |br.Stream().bits|
    ensures ChannelsDecoded(GetSubs(br.Stream(), old(br.Pos()), hdr, 0), res, br.Pos(), hdr, outs)
  {
    hide Reader.Valid, GetSubs, InDepth, FrameShaped, Pcm, AllGood;
    if hdr.chCode <= 7 {
      res := DecodeIndependent(br, hdr, outs, arch);
      IndependentIsFrame(br.Stream(), old(br.Pos()), res, br.Pos(), hdr, outs);
    } else {
      res := DecodeStereoDecorrelated(br, hdr, outs, arch);
    }
  }

  /** What decoding the sealed part of a frame leaves behind. */
  ghost predicate FrameDecoded(p: Parsed<FrameBits>, res: Result<bool>, pos: int, outs: seq<array<int>>)
    reads set k | 0 <= k < |outs| :: outs[k]
  {
    match p
    case Bad(e) => res == Result.Error(e)
    case Ok(f, q) => (
      && pos == q && FrameShaped(f) && res == Value(InDepth(f)) && |outs| == f.hdr.Channels()
      && (res.v ==> forall k :: 0 <= k < |outs| ==> outs[k][..] == Pcm(f)[k]))
  }

  /** The tap holds exactly the frame's bytes so far. */
  lemma {:induction false} TapIsFrame(br: Reader)
    requires br.Valid() && br.rtap != null && br.tapPre == [] && br.Pos() % 8 == 0 && br.Pos() >= 0
    requires Tapped(br.rtap.scratch, [], br.data, br.tapFrom, br.Pos() / 8)
    ensures 8 * br.tapFrom <= br.Pos() <= |br.Stream().bits|
    ensures br.rtap.scratch == BytesOf(br.Stream().bits[8 * br.tapFrom..br.Pos()])
  {
    hide Reader.Valid, BytesOf, ByteBits;
    br.Bounds();
    BytesBetween(br.data, br.tapFrom, br.Pos() / 8);
  }

  /** The subframes, the padding and the CRC-16 over exactly the bytes of the frame before
      it. The verdict on the range is carried past the checksum. */
  method DecodeSealed(br: Reader, hdr: Header, outs: seq<array<int>>, arch: Arch, ghost start: nat)
    returns (res: Result<bool>)
    requires br.Valid() && arch.Valid() && 1 <= hdr.bps <= 32 && hdr.chCode <= 10
    requires |outs| == hdr.Channels() && Distinct(outs, hdr.blockSize) && forall k :: 0 <= k < |outs| ==>
      outs[k] !in br.Repr()
    requires br.rtap != null && br.tapPre == [] && start == 8 * br.tapFrom <= br.Pos()
    modifies br.Repr(), outs
    ensures br.Valid() && br.Same() && start <= old(br.Pos()) <= |br.Stream().bits| && |br.Stream().bits| % 8 == 0
    ensures FrameDecoded(GetSealed(br.Stream(), start, old(br.Pos()), hdr), res, br.Pos(), outs)
  {
    hide Reader.Valid, GetSubs, InDepth, FrameShaped, Pcm, BytesOf, Checksum16, GetBits, ByteBits, AlignPos;
    br.Bounds();
    ghost var s, p := br.Stream(), br.Pos();
    var r := DecodeChannels(br, hdr, outs, arch);
    if r.Error? { return Result.Error(r.e); }
    br.Bounds();
    ghost var q := br.Pos();
    AlignIn(q, |s.bits|);
    br.SkipToByteBoundary();
    br.FlushTap();
    TapIsFrame(br);
    var computed := br.rtap.Sum16();
    var stored := br.ReadBits(16);
    if stored.Error? { return Result.Error(stored.e); }
    if stored.v != computed { return Result.Error(CrcMismatch); }
    return r;
  }

  /** Once the header is read there are channels of its size, whatever comes of the rest. */
  ghost predicate ChannelsFor(h: Parsed<Header>, hdr: Header, outs: seq<array<int>>)
  {
    match h
    case Bad(e) => outs == []
    case Ok(v, q) => hdr == v && |outs| == v.Channels() >= 1 && Distinct(outs, v.blockSize)
  }

  /** Reads the header and, past it, the sealed body; an end of the stream there is a
      truncated frame. */
  method DecodeTapped(br: Reader, si: StreamInfo, arch: Arch)
    returns (res: Result<bool>, hdr: Header, outs: seq<array<int>>)
    requires br.Valid() && arch.Valid() && 1 <= si.bitDepth <= 32
    requires br.tap != null && br.tapPre == [] && br.Pos() == 8 * br.tapFrom
    modifies br.Repr()
    ensures br.Valid() && br.src == old(br.src) && br.buf == old(br.buf) && br.data == old(br.data)
      && br.rtap == old(br.rtap)
    ensures 0 <= old(br.Pos()) <= |br.Stream().bits| && |br.Stream().bits| % 8 == 0
    ensures FrameDecoded(GetFrame(br.Stream(), old(br.Pos()), si), res, br.Pos(), outs)
    ensures res.Value? ==>
      GetFrame(br.Stream(), old(br.Pos()), si).Ok? && GetFrame(br.Stream(), old(br.Pos()), si).v.hdr == hdr
    ensures ChannelsFor(GetHeader(br.Stream(), old(br.Pos()), si), hdr, outs)
    ensures forall k :: 0 <= k < |outs| ==> fresh(outs[k])
  {
    hide Reader.Valid, GetHeader, GetSealed, InDepth, FrameShaped, Pcm, ByteBits;
    br.Bounds();
    ghost var start := br.Pos();
    hdr, outs := Header(false, 0, 0, 0, 0, 0), [];
    var h := ReadHeaderBody(br, si);
    if h.Error? { return Result.Error(h.e), hdr, outs; }
    hdr := h.v;
    HeaderFacts(br.Stream(), start, si);
    TapKept(br);
    br.SwitchTapToDeferred();
    outs := EnsureChannels(hdr.Channels(), hdr.blockSize);
    res := DecodeSealed(br, hdr, outs, arch, start);
    if res.Error? { res := Result.Error(Cut(res.e)); }
  }

  lemma {:induction false} TapKept(br: Reader)
    requires br.Valid() && br.tap != null
    ensures br.rtap == br.tap
  {
    hide Holds, Loaded, Window, Tapped;
  }

  /** The verdict on the range comes last. */
  lemma {:induction false} AcceptIs(s: Stream, p: nat, si: StreamInfo, res: Result<bool>, pos: int,
      outs: seq<array<int>>)
    requires p <= |s.bits| && |s.bits| % 8 == 0 && FrameDecoded(GetFrame(s, p, si), res, pos, outs)
    ensures var a := Accept(s, p, si);
      && (res.Error? ==> a == Bad(res.e)) && (res.Value? && !res.v ==> a == Bad(OutOfRange))
      && (res.Value? && res.v ==> a == GetFrame(s, p, si) && a.Ok? && a.pos == pos && Holding(outs, a.v))
  {
    hide GetFrame, InDepth, FrameShaped, Pcm;
  }

  /** The arrays hold the samples of the frame. */
  ghost predicate Holding(outs: seq<array<int>>, f: FrameBits)
    reads outs
  {
    FrameShaped(f) && |outs| == f.hdr.Channels() && forall k :: 0 <= k < |outs| ==> outs[k][..] == Pcm(f)[k]
  }

  /** The frame is what was decoded last. */
  ghost predicate Shows(dst: Frame, f: FrameBits)
    reads dst, dst.channels
  {
    && dst.blockSize == f.hdr.blockSize && dst.sampleRate == f.hdr.sampleRate && dst.bps == f.hdr.bps
    && dst.number == f.hdr.number && dst.variable == f.hdr.variable && Holding(dst.channels, f)
  }

  /** Decodes one frame with the checksums kept by crc. */
  method DecodeFrame(br: Reader, si: StreamInfo, crc: FrameCrc, arch: Arch)
    returns (res: Result<()>, hdr: Header, outs: seq<array<int>>)
    requires br.Valid() && br.Pos() % 8 == 0 && br.rtap == null && arch.Valid() && 1 <= si.bitDepth <= 32
    modifies br.Repr(), crc
    ensures br.Valid() && br.rtap == null && br.src == old(br.src) && br.buf == old(br.buf) && br.data == old(br.data)
    ensures 0 <= old(br.Pos()) <= |br.Stream().bits| && |br.Stream().bits| % 8 == 0
    ensures match Accept(br.Stream(), old(br.Pos()), si)
      case Bad(e) => res == Result.Error(e)
      case Ok(f, q) => res == Value(()) && br.Pos() == q && hdr == f.hdr && Holding(outs, f)
    ensures ChannelsFor(GetHeader(br.Stream(), old(br.Pos()), si), hdr, outs) && forall k :: 0 <= k < |outs| ==>
      fresh(outs[k])
  {
    hide Reader.Valid, GetFrame, GetHeader, Accept, InDepth, FrameShaped, Pcm, ByteBits, FrameDecoded, Holding,
      ChannelsFor;
    br.Bounds();
    crc.Reset();
    br.SetTapper(crc);
    var r;
    r, hdr, outs := DecodeTapped(br, si, arch);
    AcceptIs(br.Stream(), old(br.Pos()), si, r, br.Pos(), outs);
    br.ClearTapper();
    res := if r.Error? then Result.Error(r.e) else if !r.v then Result.Error(OutOfRange) else Value(());
  }

  /** Decodes exactly one frame. It is accepted only when both checksums match and every
      residual and sample is in range, checked in that order; the channels are then the
      exact samples of the frame, and the reader stands right behind it. A rejected frame
      changes no more than the channels, and those only when its header was read. */
  method Decode(br: Reader, si: StreamInfo, dst: Frame, arch: Arch) returns (res: Result<()>)
    requires br.Valid() && br.Pos() % 8 == 0 && br.rtap == null && arch.Valid() && 1 <= si.bitDepth <= 32
    modifies br.Repr(), dst, dst.crc
    ensures br.Valid() && br.rtap == null && br.src == old(br.src) && br.buf == old(br.buf) && br.data == old(br.data)
    ensures 0 <= old(br.Pos()) <= |br.Stream().bits| && |br.Stream().bits| % 8 == 0
    ensures match Accept(br.Stream(), old(br.Pos()), si)
      case Bad(e) => res == Result.Error(e)
        && unchanged(dst`blockSize, dst`sampleRate, dst`bps, dst`number, dst`variable)
      case Ok(f, q) => res == Value(()) && br.Pos() == q && Shows(dst, f)
    ensures match GetHeader(br.Stream(), old(br.Pos()), si)
      case Bad(e) => dst.channels == old(dst.channels)
      case Ok(h, q) => |dst.channels| == h.Channels() && Distinct(dst.channels, h.blockSize)
  {
    hide Reader.Valid, GetFrame, GetHeader, Accept, InDepth, FrameShaped, Pcm, ByteBits;
    var hdr, outs;
    res, hdr, outs := DecodeFrame(br, si, dst.crc, arch);
    if outs != [] { dst.channels := outs; }
    if res.Value? {
      dst.blockSize, dst.sampleRate, dst.bps, dst.number, dst.variable := hdr.blockSize, hdr.sampleRate, hdr.bps,
        hdr.number, hdr.variable;
    }
  }
}
