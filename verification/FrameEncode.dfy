/** Encoding one frame (internal/frame/encode.go): the channel assignment, the four stereo
    candidates and their prices, the header, the subframes and the footer. */
module FrameEncode {
  import opened Words
  import opened Cursor
  import opened Crc
  import opened BitWriter
  import opened Rice
  import opened RiceWriter
  import opened SubframeSyntax
  import opened SubframeDecode
  import opened SubframeEncode
  import opened HeaderSyntax
  import opened HeaderCodec
  import opened FrameSyntax
  import FrameDecode

  /** A subframe and its residual coding. */
  datatype Part = Part(sub: Sub, coding: Coding)

  /** The part decodes without a range verdict to exactly x, and takes the given bits. */
  ghost predicate Carries(part: Part, x: seq<int>, bps: nat, width: nat, bits: nat)
    requires width > 0
  {
    && part.sub.wasted < bps && part.sub.wasted <= 32 && WellShaped(part.sub.body, |x|)
    && CodingOk(part.sub.body, part.coding, |x|) && Printable(part.sub.body, bps - part.sub.wasted)
    && Good(part.sub.body, |x|, bps - part.sub.wasted, width) && Output(part.sub, |x|, width) == x
    && |EmitSub(part.sub, part.coding, |x|, bps)| == bits && Affordable(|x|, bps, bits)
  }

  ghost function PartOf(plan: Plan, c: Cand, s: seq<int>, precision: nat): Part
    requires s != []
  {
    Part(SubOf(plan, c, s, precision), CodingOf(plan, c))
  }

  lemma {:induction false} SoundCarries(plan: Plan, c: Cand, s: seq<int>, bps: nat, precision: nat, width: nat)
    requires s != [] && width > 0 && Sound(plan, c, s, bps, precision, width)
    ensures Carries(PartOf(plan, c, s, precision), s, bps, width, plan.bits)
    ensures Emitted(plan, c, s, bps, precision, width) ==
      EmitSub(SubOf(plan, c, s, precision), CodingOf(plan, c), |s|, bps)
  {
    hide SubOf, CodingOf, EmitSub, Good, Printable, Output, WellShaped, CodingOk;
  }

  lemma {:induction false} CarriesWritable(part: Part, x: seq<int>, bps: nat, width: nat, bits: nat, hdr: Header,
      i: nat)
    requires width > 0 && Carries(part, x, bps, width, bits)
    requires hdr.blockSize == |x| && SubDepth(hdr, i) == bps && WordWidth(hdr.bps) == width
    ensures SubWritable(hdr, part.sub, part.coding, i) && GoodAt(hdr, part.sub, i)
  {
    hide EmitSub, Good, Printable, Output, WellShaped, CodingOk;
  }

  /** The part prints what the planner settles on for the signal. */
  ghost predicate Planned(part: Part, x: seq<int>, bps: nat, p: Params, width: nat)
    requires width > 0
  {
    x != [] && exists plan, c :: PlannedBy(part, plan, c, x, bps, p, width)
  }

  ghost predicate PlannedBy(part: Part, plan: Plan, c: Cand, x: seq<int>, bps: nat, p: Params, width: nat)
    requires width > 0 && x != []
  {
    && part == PartOf(plan, c, x, p.lpcPrecision) && Sound(plan, c, x, bps, p.lpcPrecision, width)
    && Chosen(plan, c, x, bps, p, width)
  }

  lemma {:induction false} PlanIsPlanned(plan: Plan, c: Cand, x: seq<int>, bps: nat, p: Params, width: nat)
    requires width > 0 && x != [] && Sound(plan, c, x, bps, p.lpcPrecision, width)
      && Chosen(plan, c, x, bps, p, width)
    ensures Planned(PartOf(plan, c, x, p.lpcPrecision), x, bps, p, width)
  {
    hide Sound, Chosen, PartOf;
    assert PlannedBy(PartOf(plan, c, x, p.lpcPrecision), plan, c, x, bps, p, width);
  }

  // ---- printing one subframe after another ----

  lemma {:induction false} WritableSnoc(hdr: Header, subs: seq<Sub>, cs: seq<Coding>, part: Part, i: nat)
    requires SubsWritable(hdr, subs, cs, i) && SubWritable(hdr, part.sub, part.coding, i + |subs|)
    ensures SubsWritable(hdr, subs + [part.sub], cs + [part.coding], i)
  {
    hide SubWritable;
  }

  lemma {:induction false} EmitSnoc(hdr: Header, subs: seq<Sub>, cs: seq<Coding>, part: Part, i: nat)
    requires SubsWritable(hdr, subs, cs, i) && SubWritable(hdr, part.sub, part.coding, i + |subs|)
    requires SubsWritable(hdr, subs + [part.sub], cs + [part.coding], i)
    ensures EmitSubs(hdr, subs + [part.sub], cs + [part.coding], i)
      == EmitSubs(hdr, subs, cs, i) + EmitSub(part.sub, part.coding, hdr.blockSize, SubDepth(hdr, i + |subs|))
    decreases |subs|
  {
    hide SubsWritable, EmitSub, SubDepth;
    var t, d := subs + [part.sub], cs + [part.coding];
    SubsTail(hdr, t, d, i);
    SameLength(hdr, subs, cs, i);
    if subs == [] {
      assert t[1..] == [] && d[1..] == [];
    } else {
      SubsTail(hdr, subs, cs, i);
      assert t[1..] == subs[1..] + [part.sub] && d[1..] == cs[1..] + [part.coding];
      EmitSnoc(hdr, subs[1..], cs[1..], part, i + 1);
      Regroup(EmitSub(subs[0], cs[0], hdr.blockSize, SubDepth(hdr, i)), EmitSubs(hdr, subs[1..], cs[1..], i + 1),
        EmitSub(part.sub, part.coding, hdr.blockSize, SubDepth(hdr, i + |subs|)));
    }
  }

  lemma {:induction false} SameLength(hdr: Header, subs: seq<Sub>, cs: seq<Coding>, i: nat)
    requires SubsWritable(hdr, subs, cs, i)
    ensures |subs| == |cs|
  {
  }

  // ---- the footer ----

  /** Pads to a byte boundary and appends the CRC-16 of everything before it. */
  method FinishFrame(bw: Writer)
    requires bw.Valid()
    modifies bw
    ensures bw.Valid()
    ensures var u := Aligned(old(bw.Contents())); bw.Contents() == u + Bits(Checksum16(BytesOf(u)), 16)
  {
    hide Writer.Valid, Writer.Contents, Bits, BytesOf, Checksum16;
    bw.AlignByte();
    var b := bw.Bytes();
    bw.WriteBits(Checksum16(b), 16);
  }

  /** What an encoded frame is: it prints f, is a whole number of bytes, and decodes to ch. */
  ghost predicate EncodedAs(bytes: seq<byte>, f: FrameBits, cs: seq<Coding>, si: StreamInfo, ch: seq<seq<int>>,
      number: nat)
  {
    && FrameWritable(f, cs, si) && FrameShaped(f) && InDepth(f) && Pcm(f) == ch && !f.hdr.variable
    && f.hdr.number == number && |EmitFrame(f, cs)| % 8 == 0 && bytes == BytesOf(EmitFrame(f, cs))
    && |bytes| <= FRAME_LIMIT
  }

  /** The samples of a channel are within the depth, and all channels have one length. */
  predicate Block(ch: seq<seq<int>>, bps: nat)
  {
    && 1 <= |ch| <= 8 && 1 <= |ch[0]| <= 65536
    && forall c :: 0 <= c < |ch| ==> |ch[c]| == |ch[0]| && AllFit(ch[c], bps)
  }

  /** What the encoder is given: a supported stream and a frame number of up to 36 bits. */
  predicate Encodable(si: StreamInfo, ch: seq<seq<int>>, number: nat)
  {
    && 4 <= si.bitDepth <= 32 && si.sampleRate >= 1 && number < 0x10_0000_0000 && Block(ch, si.bitDepth)
  }

  /** The subframes printed so far stand for the first channels. */
  ghost predicate Prefix(hdr: Header, subs: seq<Sub>, cs: seq<Coding>, ch: seq<seq<int>>)
  {
    && |subs| <= |ch| && SubsWritable(hdr, subs, cs, 0) && AllGood(hdr, subs, 0)
    && forall k :: 0 <= k < |subs| ==>
      WellShaped(subs[k].body, hdr.blockSize) && Output(subs[k], hdr.blockSize, WordWidth(hdr.bps)) == ch[k]
  }

  lemma {:induction false} PrefixSnoc(hdr: Header, subs: seq<Sub>, cs: seq<Coding>, ch: seq<seq<int>>, part: Part,
      bits: nat, h: seq<bool>)
    requires Prefix(hdr, subs, cs, ch) && |subs| < |ch| && |ch[|subs|]| == hdr.blockSize
    requires Carries(part, ch[|subs|], SubDepth(hdr, |subs|), WordWidth(hdr.bps), bits)
    ensures Prefix(hdr, subs + [part.sub], cs + [part.coding], ch)
    ensures h + EmitSubs(hdr, subs + [part.sub], cs + [part.coding], 0)
      == h + EmitSubs(hdr, subs, cs, 0) + EmitSub(part.sub, part.coding, hdr.blockSize, SubDepth(hdr, |subs|))
  {
    hide EmitSub, Good, Printable, Output, WellShaped, CodingOk, SubWritable, SubDepth, SubsWritable, GoodAt;
    var i := |subs|;
    CarriesWritable(part, ch[i], SubDepth(hdr, i), WordWidth(hdr.bps), bits, hdr, i);
    assert SubWritable(hdr, part.sub, part.coding, 0 + i);
    WritableSnoc(hdr, subs, cs, part, 0);
    EmitSnoc(hdr, subs, cs, part, 0);
    Regroup(h, EmitSubs(hdr, subs, cs, 0), EmitSub(part.sub, part.coding, hdr.blockSize, SubDepth(hdr, i)));
    FrameDecode.GoodSnoc(hdr, subs, part.sub, i);
  }

  /** Every channel in a subframe of its own, as planned for it. Samples of 25 bits and more are
      planned in 64-bit words. */
  ghost predicate IndependentBest(p: Params, si: StreamInfo, ch: seq<seq<int>>, f: FrameBits, cs: seq<Coding>)
  {
    && f.hdr.chCode == |ch| - 1 && |f.subs| == |cs| == |ch|
    && forall k :: 0 <= k < |ch| ==>
        Planned(Part(f.subs[k], cs[k]), ch[k], si.bitDepth, p, if si.bitDepth >= 25 then 64 else 32)
  }

  /** The independent path: every channel at the frame depth. */
  method EncodeIndependent(bw: Writer, ws: Workspace, p: Params, si: StreamInfo, ch: seq<seq<int>>, number: nat)
    returns (ghost f: FrameBits, ghost cs: seq<Coding>)
    requires bw.Valid() && bw.Contents() == [] && ws.cand.Length == 4 && Encodable(si, ch, number)
    modifies bw, ws.cand, ws`costRes
    ensures bw.Valid() && FrameWritable(f, cs, si) && bw.Contents() == EmitFrame(f, cs)
    ensures FrameShaped(f) && InDepth(f) && Pcm(f) == ch && f.hdr.number == number && !f.hdr.variable
      && |EmitFrame(f, cs)| <= 8 * FRAME_LIMIT
    ensures IndependentBest(p, si, ch, f, cs)
  {
    hide Writer.Valid, Writer.Contents, AllFit, EmitHeader, EmitSubs, EmitSub, Sound, Emitted, Carries, Prefix, Chosen,
      Planned;
    var width := WordWidth(si.bitDepth);
    ghost var hdr := Header(false, |ch[0]|, si.sampleRate, |ch| - 1, si.bitDepth, number);
    WriteFrameHeader(bw, |ch[0]|, |ch| - 1, si.sampleRate, si.bitDepth, number);
    ghost var h := EmitHeader(hdr);
    ghost var subs: seq<Sub> := [];
    cs := [];
    NoPrefix(hdr, ch);
    assert bw.Contents() == h + EmitSubs(hdr, [], [], 0) by { assert [] + h == h; assert h + [] == h; }
    for c := 0 to |ch|
      invariant bw.Valid() && |subs| == c && Prefix(hdr, subs, cs, ch) && SubsWritable(hdr, subs, cs, 0)
      invariant bw.Contents() == h + EmitSubs(hdr, subs, cs, 0) && |EmitSubs(hdr, subs, cs, 0)| <= c * SUB_LIMIT
      invariant |cs| == c
      invariant forall k :: 0 <= k < c ==> Planned(Part(subs[k], cs[k]), ch[k], si.bitDepth, p, width)
    {
      DepthIndependent(hdr, c);
      var plan := PlanSubframe(ws, 0, ch[c], si.bitDepth, p, width);
      SoundCarries(plan, ws.cand[0], ch[c], si.bitDepth, p.lpcPrecision, width);
      ghost var part := PartOf(plan, ws.cand[0], ch[c], p.lpcPrecision);
      PlanIsPlanned(plan, ws.cand[0], ch[c], si.bitDepth, p, width);
      assert part == Part(part.sub, part.coding);
      WriteSubframe(bw, ws, ch[c], si.bitDepth, plan, p, width);
      PrefixSnoc(hdr, subs, cs, ch, part, plan.bits, h);
      PartIsSmall(part, ch[c], si.bitDepth, width, plan.bits);
      subs, cs := subs + [part.sub], cs + [part.coding];
      PrefixWritable(hdr, subs, cs, ch);
    }
    FinishFrame(bw);
    f := FrameBits(hdr, subs);
    IndependentDecodes(f, cs, si, ch);
    FrameIsSmall(f, cs);
  }

  lemma {:induction false} PartIsSmall(part: Part, x: seq<int>, bps: nat, width: nat, bits: nat)
    requires width > 0 && Carries(part, x, bps, width, bits) && |x| <= 65536 && bps <= 33
    ensures bits <= SUB_LIMIT && WellShaped(part.sub.body, |x|) && CodingOk(part.sub.body, part.coding, |x|)
      && part.sub.wasted < bps
    ensures |EmitSub(part.sub, part.coding, |x|, bps)| == bits
  {
    hide EmitSub, Good, Printable, Output, WellShaped, CodingOk;
  }

  lemma {:induction false} FrameIsSmall(f: FrameBits, cs: seq<Coding>)
    requires f.hdr.blockSize >= 1 && SubsWritable(f.hdr, f.subs, cs, 0)
      && |EmitSubs(f.hdr, f.subs, cs, 0)| <= 8 * SUB_LIMIT
    ensures |EmitFrame(f, cs)| <= 8 * FRAME_LIMIT
  {
    hide EmitHeader, EmitSubs, SubsWritable, EmitFrame, HeaderLen;
    FrameLength(f, cs);
    HeaderLength(f.hdr);
    HeaderIsSmall(f.hdr);
  }

  lemma {:induction false} HeaderIsSmall(h: Header)
    requires h.blockSize >= 1
    ensures HeaderLen(h) <= 128
  {
    hide BlockSizeCode, SampleRateCode;
    CodeWidths(h.blockSize, h.sampleRate);
  }

  lemma {:induction false} NoPrefix(hdr: Header, ch: seq<seq<int>>)
    ensures Prefix(hdr, [], [], ch) && SubsWritable(hdr, [], [], 0) && EmitSubs(hdr, [], [], 0) == []
  {
  }

  lemma {:induction false} PrefixWritable(hdr: Header, subs: seq<Sub>, cs: seq<Coding>, ch: seq<seq<int>>)
    requires Prefix(hdr, subs, cs, ch)
    ensures SubsWritable(hdr, subs, cs, 0)
  {
  }

  lemma {:induction false} DepthIndependent(hdr: Header, i: nat)
    requires hdr.chCode <= 7
    ensures SubDepth(hdr, i) == hdr.bps
  {
  }

  lemma {:induction false} IndependentDecodes(f: FrameBits, cs: seq<Coding>, si: StreamInfo, ch: seq<seq<int>>)
    requires Prefix(f.hdr, f.subs, cs, ch) && |f.subs| == |ch| == f.hdr.chCode + 1 && f.hdr.chCode <= 7
      && Writable(f.hdr, si)
    ensures FrameWritable(f, cs, si) && FrameShaped(f) && InDepth(f) && Pcm(f) == ch
    ensures EmitFrame(f, cs) ==
      (var u := Aligned(EmitHeader(f.hdr) + EmitSubs(f.hdr, f.subs, cs, 0)); u + Bits(Checksum16(BytesOf(u)), 16))
  {
    hide Output, WellShaped, SubsWritable, SubGood, Writable, EmitHeader, EmitSubs, BytesOf, Checksum16, Bits;
    forall k | 0 <= k < |f.subs|
      ensures WellShaped(f.subs[k].body, f.hdr.blockSize) && f.subs[k].wasted < SubDepth(f.hdr, k)
    {
      assert GoodAt(f.hdr, f.subs[k], 0 + k);
    }
  }

  // ---- stereo ----

  /** The candidates: left, right, mid and side. */
  datatype Four = Four(l: Part, r: Part, m: Part, s: Part)

  datatype Costs = Costs(l: nat, r: nat, m: nat, s: nat) {
    function Of(code: nat): nat
    {
      if code == 8 then l + s else if code == 9 then s + r else if code == 10 then m + s else l + r
    }
  }

  function First(four: Four, code: nat): Part
  {
    if code == 9 then four.s else if code == 10 then four.m else four.l
  }

  function Second(four: Four, code: nat): Part
  {
    if code == 8 || code == 10 then four.s else four.r
  }

  /** The frame that writes the candidates under one channel assignment. */
  function AsFrame(hdr: Header, four: Four, code: nat): FrameBits
  {
    FrameBits(hdr.(chCode := code), [First(four, code).sub, Second(four, code).sub])
  }

  function AsCodings(four: Four, code: nat): seq<Coding>
  {
    [First(four, code).coding, Second(four, code).coding]
  }

  predicate Assignment(code: nat)
  {
    code == 1 || code == 8 || code == 9 || code == 10
  }

  function SideOf(l: seq<int>, r: seq<int>): (x: seq<int>)
    requires |l| == |r|
    ensures |x| == |l|
  {
    seq(|l|, i requires 0 <= i < |l| => l[i] - r[i])
  }

  function MidOf(l: seq<int>, r: seq<int>): (x: seq<int>)
    requires |l| == |r|
    ensures |x| == |l|
  {
    seq(|l|, i requires 0 <= i < |l| => (l[i] + r[i]) / 2)
  }

  /** The signal of the first and of the second subframe of an assignment. */
  function FirstSignal(code: nat, l: seq<int>, r: seq<int>): seq<int>
    requires |l| == |r|
  {
    if code == 9 then SideOf(l, r) else if code == 10 then MidOf(l, r) else l
  }

  function SecondSignal(code: nat, l: seq<int>, r: seq<int>): seq<int>
    requires |l| == |r|
  {
    if code == 8 || code == 10 then SideOf(l, r) else r
  }

  ghost predicate FourOk(hdr: Header, four: Four, l: seq<int>, r: seq<int>, costs: Costs)
    requires |l| == |r|
  {
    var w := WordWidth(hdr.bps);
    && Carries(four.l, l, hdr.bps, w, costs.l) && Carries(four.r, r, hdr.bps, w, costs.r)
    && Carries(four.m, MidOf(l, r), hdr.bps, w, costs.m) && Carries(four.s, SideOf(l, r), hdr.bps + 1, w, costs.s)
  }

  /** The stereo inverse of an assignment's signals is the pair they came from. */
  lemma {:induction false} SignalsInvert(code: nat, l: seq<int>, r: seq<int>)
    requires |l| == |r| && 8 <= code <= 10
    ensures LeftOfAll(code, FirstSignal(code, l, r), SecondSignal(code, l, r)) == l
    ensures RightOfAll(code, FirstSignal(code, l, r), SecondSignal(code, l, r)) == r
  {
    hide LeftOf, RightOf;
    var a, b := FirstSignal(code, l, r), SecondSignal(code, l, r);
    var x, y := LeftOfAll(code, a, b), RightOfAll(code, a, b);
    forall i | 0 <= i < |l| ensures x[i] == l[i] && y[i] == r[i] { StereoInverse(l[i], r[i]); }
  }

  function HeaderLen(h: Header): nat
    requires h.blockSize >= 1
  {
    40 + 8 * CodedBytes(h.number) + BlockSizeCode(h.blockSize).extN + SampleRateCode(h.sampleRate).extN
  }

  lemma {:induction false} HeaderLength(h: Header)
    requires h.blockSize >= 1
    ensures |EmitHeader(h)| == HeaderLen(h)
  {
    hide EmitCodes, EmitCoded, EmitExt, Bits, BlockSizeCode, SampleRateCode, CodedBytes, BytesOf, Checksum8;
  }

  /** The length of a frame whose header and subframes take n bits. */
  function FrameLen(n: nat): nat
  {
    n + Padding(n) + 16
  }

  lemma {:induction false} FrameLenMono(a: nat, b: nat)
    requires a <= b
    ensures FrameLen(a) <= FrameLen(b)
  {
  }

  lemma {:induction false} TwoPrinted(hdr: Header, a: Part, b: Part, x: seq<int>, y: seq<int>, ca: nat, cb: nat,
      h: seq<bool>)
    requires hdr.blockSize == |x| == |y|
    requires Carries(a, x, SubDepth(hdr, 0), WordWidth(hdr.bps), ca)
      && Carries(b, y, SubDepth(hdr, 1), WordWidth(hdr.bps), cb)
    ensures Prefix(hdr, [a.sub, b.sub], [a.coding, b.coding], [x, y])
    ensures SubsWritable(hdr, [a.sub, b.sub], [a.coding, b.coding], 0)
    ensures |EmitSubs(hdr, [a.sub, b.sub], [a.coding, b.coding], 0)| == ca + cb
    ensures h + EmitSubs(hdr, [a.sub, b.sub], [a.coding, b.coding], 0)
      == h + EmitSub(a.sub, a.coding, |x|, SubDepth(hdr, 0)) + EmitSub(b.sub, b.coding, |y|, SubDepth(hdr, 1))
  {
    hide EmitSub, EmitSubs, Good, Printable, Output, WellShaped, CodingOk, SubDepth, Prefix, SubsWritable;
    NoPrefix(hdr, [x, y]);
    PrefixSnoc(hdr, [], [], [x, y], a, ca, h);
    assert [] + [a.sub] == [a.sub] && [] + [a.coding] == [a.coding];
    PrefixSnoc(hdr, [a.sub], [a.coding], [x, y], b, cb, h);
    assert [a.sub] + [b.sub] == [a.sub, b.sub] && [a.coding] + [b.coding] == [a.coding, b.coding];
    PrefixWritable(hdr, [a.sub], [a.coding], [x, y]);
    PrefixWritable(hdr, [a.sub, b.sub], [a.coding, b.coding], [x, y]);
    assert h + [] == h;
  }

  lemma {:induction false} PairDecodes(f: FrameBits, cs: seq<Coding>, si: StreamInfo, l: seq<int>, r: seq<int>)
    requires |l| == |r| == f.hdr.blockSize && |f.subs| == 2 && Assignment(f.hdr.chCode) && Writable(f.hdr, si)
    requires Prefix(f.hdr, f.subs, cs, [FirstSignal(f.hdr.chCode, l, r), SecondSignal(f.hdr.chCode, l, r)])
    requires AllFit(l, f.hdr.bps) && AllFit(r, f.hdr.bps)
    ensures FrameWritable(f, cs, si) && FrameShaped(f) && InDepth(f) && Pcm(f) == [l, r]
    ensures EmitFrame(f, cs) ==
      (var u := Aligned(EmitHeader(f.hdr) + EmitSubs(f.hdr, f.subs, cs, 0)); u + Bits(Checksum16(BytesOf(u)), 16))
  {
    hide Output, WellShaped, SubsWritable, SubGood, Writable, EmitHeader, EmitSubs, BytesOf, Checksum16, Bits, AllFit,
      Aligned,
      MidOf, SideOf, LeftOfAll, RightOfAll;
    var code := f.hdr.chCode;
    if code == 1 {
      IndependentDecodes(f, cs, si, [l, r]);
    } else {
      forall k | 0 <= k < |f.subs|
        ensures WellShaped(f.subs[k].body, f.hdr.blockSize) && f.subs[k].wasted < SubDepth(f.hdr, k)
      {
        assert GoodAt(f.hdr, f.subs[k], 0 + k);
      }
      SignalsInvert(code, l, r);
      assert Signal(f, 0) == FirstSignal(code, l, r) && Signal(f, 1) == SecondSignal(code, l, r);
    }
  }

  lemma {:induction false} FrameLength(f: FrameBits, cs: seq<Coding>)
    requires f.hdr.blockSize >= 1 && SubsWritable(f.hdr, f.subs, cs, 0)
    ensures |EmitFrame(f, cs)| == FrameLen(|EmitHeader(f.hdr)| + |EmitSubs(f.hdr, f.subs, cs, 0)|)
  {
    hide EmitHeader, EmitSubs, SubsWritable, BytesOf, Checksum16;
  }

  lemma {:induction false} PartsCarry(hdr: Header, four: Four, l: seq<int>, r: seq<int>, costs: Costs, code: nat)
    requires |l| == |r| == hdr.blockSize && FourOk(hdr, four, l, r, costs) && Assignment(code) && hdr.chCode == code
    ensures var ca := if code == 9 then costs.s else if code == 10 then costs.m else costs.l;
      Carries(First(four, code), FirstSignal(code, l, r), SubDepth(hdr, 0), WordWidth(hdr.bps), ca)
    ensures var cb := if code == 8 || code == 10 then costs.s else costs.r;
      Carries(Second(four, code), SecondSignal(code, l, r), SubDepth(hdr, 1), WordWidth(hdr.bps), cb)
    ensures |FirstSignal(code, l, r)| == |SecondSignal(code, l, r)| == |l|
  {
    hide Carries;
  }

  /** Under any assignment the candidates print a frame that decodes to the pair, of the
      length their prices say. */
  lemma {:induction false} AssignmentDecodes(hdr: Header, four: Four, l: seq<int>, r: seq<int>, costs: Costs,
      code: nat, si: StreamInfo)
    requires |l| == |r| == hdr.blockSize && FourOk(hdr, four, l, r, costs) && Assignment(code) && Writable(hdr, si)
    requires AllFit(l, hdr.bps) && AllFit(r, hdr.bps)
    ensures var f, cs := AsFrame(hdr, four, code), AsCodings(four, code);
      && FrameWritable(f, cs, si) && FrameShaped(f) && InDepth(f) && Pcm(f) == [l, r]
      && |EmitFrame(f, cs)| == FrameLen(HeaderLen(hdr) + costs.Of(code))
      && SubsWritable(f.hdr, f.subs, cs, 0) && |EmitSubs(f.hdr, f.subs, cs, 0)| == costs.Of(code)
      && EmitFrame(f, cs) ==
        (var u := Aligned(EmitHeader(f.hdr) + EmitSubs(f.hdr, f.subs, cs, 0)); u + Bits(Checksum16(BytesOf(u)), 16))
  {
    hide AllFit, EmitHeader, EmitSubs, EmitSub, Carries, Prefix, SubsWritable, LeftOfAll, RightOfAll, FrameLen,
      FrameWritable,
      InDepth, FrameShaped, Pcm, EmitFrame, FourOk, FirstSignal, SecondSignal, First, Second, BytesOf, Checksum16,
        Aligned, Bits;
    var f, cs := AsFrame(hdr, four, code), AsCodings(four, code);
    var a, b := First(four, code), Second(four, code);
    FourSame(hdr, f.hdr, four, l, r, costs);
    PartsCarry(f.hdr, four, l, r, costs, code);
    var ca := if code == 9 then costs.s else if code == 10 then costs.m else costs.l;
    var cb := if code == 8 || code == 10 then costs.s else costs.r;
    TwoPrinted(f.hdr, a, b, FirstSignal(code, l, r), SecondSignal(code, l, r), ca, cb, EmitHeader(f.hdr));
    PairDecodes(f, cs, si, l, r);
    FrameLength(f, cs);
    HeaderLength(f.hdr);
  }

  lemma {:induction false} FourSame(hdr: Header, hdr': Header, four: Four, l: seq<int>, r: seq<int>, costs: Costs)
    requires |l| == |r| && FourOk(hdr, four, l, r, costs) && hdr.bps == hdr'.bps
    ensures FourOk(hdr', four, l, r, costs)
  {
    hide Carries;
  }

  lemma {:induction false} DecorrelationExact(a: int, b: int, bps: nat, width: nat)
    requires 1 <= bps <= 32 && width == WordWidth(bps) && Fits(a, bps) && Fits(b, bps)
    ensures Wrap(a - b, width) == a - b && Wrap(a + b, width) == a + b
    ensures Fits(a - b, bps + 1) && Fits((a + b) / 2, bps)
  {
    hide Wrap;
    Pow2Mono(bps + 1, width - 1);
    assert Pow2(bps + 1) == 2 * Pow2(bps) && Pow2(bps) == 2 * Pow2(bps - 1);
    hide Pow2;
    WrapFits(a - b, width);
    WrapFits(a + b, width);
  }

  /** side = l - r and mid = (l + r) >> 1, in words of the given width. */
  method Decorrelate(l: seq<int>, r: seq<int>, bps: nat, width: nat) returns (side: seq<int>, mid: seq<int>)
    requires |l| == |r| && 1 <= bps <= 32 && width == WordWidth(bps) && AllFit(l, bps) && AllFit(r, bps)
    ensures side == SideOf(l, r) && AllFit(side, bps + 1)
    ensures mid == MidOf(l, r) && AllFit(mid, bps)
  {
    hide Fits, Wrap;
    var s, m := new int[|l|], new int[|l|];
    for i := 0 to |l|
      invariant forall k :: 0 <= k < i ==> s[k] == l[k] - r[k] && Fits(s[k], bps + 1)
      invariant forall k :: 0 <= k < i ==> m[k] == (l[k] + r[k]) / 2 && Fits(m[k], bps)
    {
      assert Fits(l[i], bps) && Fits(r[i], bps);
      DecorrelationExact(l[i], r[i], bps, width);
      s[i] := Wrap(l[i] - r[i], width);
      m[i] := Wrap(l[i] + r[i], width) / 2;
    }
    side, mid := s[..], m[..];
  }

  /** The assignment is no dearer than c, and strictly cheaper when c comes before it. */
  predicate NoDearer(costs: Costs, code: nat, c: nat)
  {
    costs.Of(code) <= costs.Of(c) && (c < code ==> costs.Of(code) < costs.Of(c))
  }

  /** The cheaper of independent and mid/side, or of all four assignments; earlier ones
      win ties. */
  method ChooseAssignment(mode: StereoMode, costs: Costs) returns (code: nat)
    requires mode != Independent
    ensures Assignment(code)
    ensures mode == Full ==> forall c :: Assignment(c) ==> NoDearer(costs, code, c)
    ensures mode == Adaptive ==> (code == 1 || code == 10) && NoDearer(costs, code, 1) && NoDearer(costs, code, 10)
  {
    var indep, ls, rs, ms := costs.l + costs.r, costs.l + costs.s, costs.s + costs.r, costs.m + costs.s;
    code := 1;
    var minCost := indep;
    if mode == Adaptive {
      if ms < minCost { code := 10; }
    } else {
      if ls < minCost { minCost, code := ls, 8; }
      if rs < minCost { minCost, code := rs, 9; }
      if ms < minCost { code := 10; }
    }
  }

  /** The four candidate plans, each in its own slot. */
  method PlanFour(ws: Workspace, l: seq<int>, r: seq<int>, mid: seq<int>, side: seq<int>, bps: nat, p: Params,
      width: nat)
    returns (planL: Plan, planR: Plan, planM: Plan, planS: Plan)
    requires ws.cand.Length == 4 && l != [] && r != [] && mid != [] && side != [] && 1 <= bps <= 32
      && width == WordWidth(bps)
    requires AllFit(l, bps) && AllFit(r, bps) && AllFit(mid, bps) && AllFit(side, bps + 1)
    modifies ws.cand, ws`costRes
    ensures planL.slot == 0 && Sound(planL, ws.cand[0], l, bps, p.lpcPrecision, width)
      && Chosen(planL, ws.cand[0], l, bps, p, width)
    ensures planR.slot == 1 && Sound(planR, ws.cand[1], r, bps, p.lpcPrecision, width)
      && Chosen(planR, ws.cand[1], r, bps, p, width)
    ensures planM.slot == 2 && Sound(planM, ws.cand[2], mid, bps, p.lpcPrecision, width)
      && Chosen(planM, ws.cand[2], mid, bps, p, width)
    ensures planS.slot == 3 && Sound(planS, ws.cand[3], side, bps + 1, p.lpcPrecision, width)
      && Chosen(planS, ws.cand[3], side, bps + 1, p, width)
  {
    hide AllFit, Sound, Chosen;
    planL := PlanSubframe(ws, 0, l, bps, p, width);
    planR := PlanSubframe(ws, 1, r, bps, p, width);
    planM := PlanSubframe(ws, 2, mid, bps, p, width);
    planS := PlanSubframe(ws, 3, side, bps + 1, p, width);
  }

  /** The bits of a part that can be printed. */
  ghost function PartBits(part: Part, n: nat, bps: nat): seq<bool>
  {
    if WellShaped(part.sub.body, n) && CodingOk(part.sub.body, part.coding, n) && part.sub.wasted < bps
    then EmitSub(part.sub, part.coding, n, bps) else []
  }

  lemma {:induction false} SoundBits(plan: Plan, c: Cand, s: seq<int>, bps: nat, precision: nat, width: nat)
    requires s != [] && width > 0 && Sound(plan, c, s, bps, precision, width)
    ensures Emitted(plan, c, s, bps, precision, width) == PartBits(PartOf(plan, c, s, precision), |s|, bps)
  {
    hide EmitSub, Good, Printable, Output;
  }

  /** Writes the two subframes of a stereo frame. */
  method WritePair(bw: Writer, ws: Workspace, a: seq<int>, da: nat, planA: Plan, b: seq<int>, db: nat, planB: Plan,
      p: Params, width: nat)
    requires bw.Valid() && a != [] && b != [] && planA.slot < ws.cand.Length && planB.slot < ws.cand.Length
    requires da <= 33 && db <= 33 && 32 <= width
    requires Sound(planA, ws.cand[planA.slot], a, da, p.lpcPrecision, width)
      && Sound(planB, ws.cand[planB.slot], b, db, p.lpcPrecision, width)
    modifies bw
    ensures bw.Valid()
    ensures bw.Contents() ==
      old(bw.Contents()) + PartBits(PartOf(planA, ws.cand[planA.slot], a, p.lpcPrecision), |a|, da)
      + PartBits(PartOf(planB, ws.cand[planB.slot], b, p.lpcPrecision), |b|, db)
  {
    hide Writer.Valid, Writer.Contents, Sound, Emitted, PartBits, PartOf;
    SoundBits(planA, ws.cand[planA.slot], a, da, p.lpcPrecision, width);
    SoundBits(planB, ws.cand[planB.slot], b, db, p.lpcPrecision, width);
    WriteSubframe(bw, ws, a, da, planA, p, width);
    WriteSubframe(bw, ws, b, db, planB, p, width);
  }

  /** The candidates as plans in the workspace. */
  lemma {:induction false} FourSound(hdr: Header, l: seq<int>, r: seq<int>, planL: Plan, planR: Plan, planM: Plan,
      planS: Plan,
    cl: Cand, cr: Cand, cm: Cand, cs: Cand, precision: nat) returns (four: Four, costs: Costs)
    requires |l| == |r| > 0
    requires Sound(planL, cl, l, hdr.bps, precision, WordWidth(hdr.bps))
      && Sound(planR, cr, r, hdr.bps, precision, WordWidth(hdr.bps))
    requires Sound(planM, cm, MidOf(l, r), hdr.bps, precision, WordWidth(hdr.bps))
    requires Sound(planS, cs, SideOf(l, r), hdr.bps + 1, precision, WordWidth(hdr.bps))
    ensures four == Four(PartOf(planL, cl, l, precision), PartOf(planR, cr, r, precision),
      PartOf(planM, cm, MidOf(l, r), precision), PartOf(planS, cs, SideOf(l, r), precision))
    ensures costs == Costs(planL.bits, planR.bits, planM.bits, planS.bits)
    ensures FourOk(hdr, four, l, r, costs)
  {
    hide Sound, Carries, PartOf, MidOf, SideOf, Emitted, SubOf, CodingOf, EmitSub, WellShaped, CodingOk;
    var w := WordWidth(hdr.bps);
    SoundCarries(planL, cl, l, hdr.bps, precision, w);
    SoundCarries(planR, cr, r, hdr.bps, precision, w);
    SoundCarries(planM, cm, MidOf(l, r), hdr.bps, precision, w);
    SoundCarries(planS, cs, SideOf(l, r), hdr.bps + 1, precision, w);
    four := Four(PartOf(planL, cl, l, precision), PartOf(planR, cr, r, precision),
      PartOf(planM, cm, MidOf(l, r), precision), PartOf(planS, cs, SideOf(l, r), precision));
    costs := Costs(planL.bits, planR.bits, planM.bits, planS.bits);
  }

  /** The frame of an assignment as its header and its two parts. */
  lemma {:induction false} AssignmentBits(hdr: Header, four: Four, l: seq<int>, r: seq<int>, costs: Costs, code: nat,
      si: StreamInfo)
    requires |l| == |r| == hdr.blockSize && FourOk(hdr, four, l, r, costs) && Assignment(code) && hdr.chCode == code
      && Writable(hdr, si)
    ensures var f, cs := AsFrame(hdr, four, code), AsCodings(four, code);
      && f.hdr == hdr && hdr.blockSize >= 1 && SubsWritable(hdr, f.subs, cs, 0)
      && EmitHeader(hdr) + EmitSubs(hdr, f.subs, cs, 0)
        == EmitHeader(hdr) + PartBits(First(four, code), hdr.blockSize, SubDepth(hdr, 0))
          + PartBits(Second(four, code), hdr.blockSize, SubDepth(hdr, 1))
  {
    hide EmitHeader, EmitSubs, EmitSub, Carries, Prefix, SubsWritable, FourOk, FirstSignal, SecondSignal, First,
      Second, WellShaped, CodingOk, SubDepth, PartBits;
    PartsCarry(hdr, four, l, r, costs, code);
    var ca := if code == 9 then costs.s else if code == 10 then costs.m else costs.l;
    var cb := if code == 8 || code == 10 then costs.s else costs.r;
    var a, b := First(four, code), Second(four, code);
    CarriesBits(a, FirstSignal(code, l, r), SubDepth(hdr, 0), WordWidth(hdr.bps), ca);
    CarriesBits(b, SecondSignal(code, l, r), SubDepth(hdr, 1), WordWidth(hdr.bps), cb);
    TwoPrinted(hdr, a, b, FirstSignal(code, l, r), SecondSignal(code, l, r), ca, cb, EmitHeader(hdr));
  }

  lemma {:induction false} CarriesBits(part: Part, x: seq<int>, bps: nat, width: nat, bits: nat)
    requires width > 0 && Carries(part, x, bps, width, bits)
    ensures WellShaped(part.sub.body, |x|) && CodingOk(part.sub.body, part.coding, |x|) && part.sub.wasted < bps
    ensures PartBits(part, |x|, bps) == EmitSub(part.sub, part.coding, |x|, bps)
  {
    hide EmitSub, Good, Printable, Output, WellShaped, CodingOk;
  }

  /** The assignment code of the same candidates also prints a frame that decodes to ch, and
      not a shorter one than f; its subframes take more bits when it comes before that of f. */
  ghost predicate NoShorter(f: FrameBits, cs: seq<Coding>, four: Four, code: nat, si: StreamInfo, ch: seq<seq<int>>)
    requires FrameWritable(f, cs, si)
  {
    var g, ds := AsFrame(f.hdr, four, code), AsCodings(four, code);
    && FrameWritable(g, ds, si) && FrameShaped(g) && InDepth(g) && Pcm(g) == ch
    && |EmitFrame(f, cs)| <= |EmitFrame(g, ds)|
    && |EmitSubs(f.hdr, f.subs, cs, 0)| <= |EmitSubs(g.hdr, g.subs, ds, 0)|
    && (code < f.hdr.chCode ==> |EmitSubs(f.hdr, f.subs, cs, 0)| < |EmitSubs(g.hdr, g.subs, ds, 0)|)
  }

  lemma {:induction false} Cheapest(hdr: Header, four: Four, l: seq<int>, r: seq<int>, costs: Costs, code: nat, c: nat,
      si: StreamInfo)
    requires |l| == |r| == hdr.blockSize && FourOk(hdr, four, l, r, costs) && Assignment(code) && Assignment(c)
    requires Writable(hdr, si) && AllFit(l, hdr.bps) && AllFit(r, hdr.bps) && hdr.chCode == code
      && NoDearer(costs, code, c)
    requires FrameWritable(AsFrame(hdr, four, code), AsCodings(four, code), si)
    ensures NoShorter(AsFrame(hdr, four, code), AsCodings(four, code), four, c, si, [l, r])
  {
    hide AllFit, FourOk, FrameLen, HeaderLen, FrameWritable, FrameShaped, InDepth, Pcm, EmitFrame, First, Second,
      Costs.Of, Assignment,
      EmitHeader, EmitSubs, SubsWritable, BytesOf, Checksum16, Bits, Aligned;
    AssignmentDecodes(hdr, four, l, r, costs, code, si);
    AssignmentDecodes(hdr, four, l, r, costs, c, si);
    FrameLenMono(HeaderLen(hdr) + costs.Of(code), HeaderLen(hdr) + costs.Of(c));
  }

  /** What the stereo search comes to: four planned candidates, and the assignment of them that
      is the shortest of all four, or of independent and mid/side. */
  ghost predicate StereoBest(p: Params, si: StreamInfo, l: seq<int>, r: seq<int>, f: FrameBits, cs: seq<Coding>,
      four: Four)
    requires FrameWritable(f, cs, si) && |l| == |r|
  {
    var w := if si.bitDepth >= 25 then 64 else 32;
    && Planned(four.l, l, si.bitDepth, p, w) && Planned(four.r, r, si.bitDepth, p, w)
    && Planned(four.m, MidOf(l, r), si.bitDepth, p, w) && Planned(four.s, SideOf(l, r), si.bitDepth + 1, p, w)
    && Assignment(f.hdr.chCode) && f == AsFrame(f.hdr, four, f.hdr.chCode) && cs == AsCodings(four, f.hdr.chCode)
    && (p.stereo == Full ==> forall code :: Assignment(code) ==> NoShorter(f, cs, four, code, si, [l, r]))
    && (p.stereo == Adaptive ==>
      (f.hdr.chCode == 1 || f.hdr.chCode == 10)
      && NoShorter(f, cs, four, 1, si, [l, r]) && NoShorter(f, cs, four, 10, si, [l, r]))
  }

  /** The two subframes that the assignment writes. */
  method WriteAssignment(bw: Writer, ws: Workspace, code: nat, l: seq<int>, r: seq<int>, mid: seq<int>, side: seq<int>,
    planL: Plan, planR: Plan, planM: Plan, planS: Plan, bps: nat, p: Params, width: nat, ghost hdr: Header,
      ghost four: Four)
    requires bw.Valid() && ws.cand.Length == 4 && Assignment(code) && bps <= 32 && 32 <= width && hdr.bps == bps
      && hdr.chCode == code
    requires |l| == |r| == |mid| == |side| == hdr.blockSize > 0
    requires planL.slot == 0 && Sound(planL, ws.cand[0], l, bps, p.lpcPrecision, width)
    requires planR.slot == 1 && Sound(planR, ws.cand[1], r, bps, p.lpcPrecision, width)
    requires planM.slot == 2 && Sound(planM, ws.cand[2], mid, bps, p.lpcPrecision, width)
    requires planS.slot == 3 && Sound(planS, ws.cand[3], side, bps + 1, p.lpcPrecision, width)
    requires four == Four(PartOf(planL, ws.cand[0], l, p.lpcPrecision), PartOf(planR, ws.cand[1], r, p.lpcPrecision),
      PartOf(planM, ws.cand[2], mid, p.lpcPrecision), PartOf(planS, ws.cand[3], side, p.lpcPrecision))
    modifies bw
    ensures bw.Valid()
    ensures bw.Contents() == old(bw.Contents()) + PartBits(First(four, code), hdr.blockSize, SubDepth(hdr, 0))
      + PartBits(Second(four, code), hdr.blockSize, SubDepth(hdr, 1))
  {
    hide Writer.Valid, Writer.Contents, Sound, PartBits, PartOf;
    if code == 8 {
      WritePair(bw, ws, l, bps, planL, side, bps + 1, planS, p, width);
    } else if code == 9 {
      WritePair(bw, ws, side, bps + 1, planS, r, bps, planR, p, width);
    } else if code == 10 {
      WritePair(bw, ws, mid, bps, planM, side, bps + 1, planS, p, width);
    } else {
      WritePair(bw, ws, l, bps, planL, r, bps, planR, p, width);
    }
  }

  /** Writes a two-channel frame under the assignment that the prices choose. Under the
      full search no assignment of the same four candidates gives a shorter frame. */
  method EncodeStereo(bw: Writer, ws: Workspace, p: Params, si: StreamInfo, l: seq<int>, r: seq<int>, number: nat)
    returns (ghost f: FrameBits, ghost cs: seq<Coding>, ghost four: Four)
    requires bw.Valid() && bw.Contents() == [] && ws.cand.Length == 4 && Encodable(si, [l, r], number)
      && p.stereo != Independent
    modifies bw, ws.cand, ws`costRes
    ensures bw.Valid() && FrameWritable(f, cs, si) && bw.Contents() == EmitFrame(f, cs)
    ensures FrameShaped(f) && InDepth(f) && Pcm(f) == [l, r] && f.hdr.number == number && !f.hdr.variable
      && |EmitFrame(f, cs)| <= 8 * FRAME_LIMIT
    ensures |l| == |r| && StereoBest(p, si, l, r, f, cs, four)
  {
    hide Writer.Valid, Writer.Contents, AllFit, EmitHeader, EmitSubs, EmitSub, Sound, Emitted, Carries, SubsWritable,
      Fits, FrameWritable,
      FrameShaped, InDepth, Pcm, EmitFrame, BytesOf, Checksum16, Bits, Aligned, MidOf, SideOf, AsFrame, AsCodings,
        NoShorter, FourOk, PartOf,
      PartBits, First, Second, Encodable, Writable, Chosen, Planned, NoDearer;
    PairBlock(si, l, r, number, 1);
    var bps, width := si.bitDepth, WordWidth(si.bitDepth);
    var side, mid := Decorrelate(l, r, bps, width);
    var planL, planR, planM, planS := PlanFour(ws, l, r, mid, side, bps, p, width);
    var code := ChooseAssignment(p.stereo, Costs(planL.bits, planR.bits, planM.bits, planS.bits));
    ghost var hdr := Header(false, |l|, si.sampleRate, code, bps, number);
    ghost var costs;
    four, costs := FourSound(hdr, l, r, planL, planR, planM, planS, ws.cand[0], ws.cand[1], ws.cand[2], ws.cand[3],
      p.lpcPrecision);
    PlanIsPlanned(planL, ws.cand[0], l, bps, p, width);
    PlanIsPlanned(planR, ws.cand[1], r, bps, p, width);
    PlanIsPlanned(planM, ws.cand[2], mid, bps, p, width);
    PlanIsPlanned(planS, ws.cand[3], side, bps + 1, p, width);
    WriteFrameHeader(bw, |l|, code, si.sampleRate, bps, number);
    assert [] + EmitHeader(hdr) == EmitHeader(hdr);
    WriteAssignment(bw, ws, code, l, r, mid, side, planL, planR, planM, planS, bps, p, width, hdr, four);
    PairBlock(si, l, r, number, code);
    AssignmentBits(hdr, four, l, r, costs, code, si);
    AssignmentDecodes(hdr, four, l, r, costs, code, si);
    FinishFrame(bw);
    f, cs := AsFrame(hdr, four, code), AsCodings(four, code);
    AsFrameHeader(hdr, four, code);
    FourAreSmall(hdr, four, l, r, costs, code);
    forall c | Assignment(c) && NoDearer(costs, code, c)
      ensures NoShorter(f, cs, four, c, si, [l, r])
    {
      Cheapest(hdr, four, l, r, costs, code, c, si);
    }
  }

  lemma {:induction false} FourAreSmall(hdr: Header, four: Four, l: seq<int>, r: seq<int>, costs: Costs, code: nat)
    requires 1 <= |l| == |r| == hdr.blockSize <= 65536 && hdr.bps <= 32 && FourOk(hdr, four, l, r, costs)
      && Assignment(code)
    ensures FrameLen(HeaderLen(hdr) + costs.Of(code)) <= 8 * FRAME_LIMIT
  {
    hide Carries, EmitSub, WellShaped, CodingOk, HeaderLen;
    var w := WordWidth(hdr.bps);
    PartIsSmall(four.l, l, hdr.bps, w, costs.l);
    PartIsSmall(four.r, r, hdr.bps, w, costs.r);
    PartIsSmall(four.m, MidOf(l, r), hdr.bps, w, costs.m);
    PartIsSmall(four.s, SideOf(l, r), hdr.bps + 1, w, costs.s);
    HeaderIsSmall(hdr);
  }

  lemma {:induction false} AsFrameHeader(hdr: Header, four: Four, code: nat)
    requires hdr.chCode == code
    ensures AsFrame(hdr, four, code).hdr == hdr
  {
  }

  lemma {:induction false} PairBlock(si: StreamInfo, l: seq<int>, r: seq<int>, number: nat, code: nat)
    requires Encodable(si, [l, r], number) && Assignment(code)
    ensures |l| == |r| && 1 <= |l| <= 65536 && 4 <= si.bitDepth <= 32 && AllFit(l, si.bitDepth)
      && AllFit(r, si.bitDepth)
    ensures Writable(Header(false, |l|, si.sampleRate, code, si.bitDepth, number), si) && number < 0x10_0000_0000
  {
    hide AllFit;
    var ch := [l, r];
    assert |ch[1]| == |ch[0]| && AllFit(ch[0], si.bitDepth) && AllFit(ch[1], si.bitDepth);
  }

  lemma {:induction false} FrameWhole(f: FrameBits, cs: seq<Coding>)
    requires f.hdr.blockSize >= 1 && SubsWritable(f.hdr, f.subs, cs, 0)
    ensures |EmitFrame(f, cs)| % 8 == 0
  {
    hide EmitHeader, EmitSubs, SubsWritable, BytesOf, Checksum16, Bits;
  }

  /** What the encoder decides: the stereo search for two channels unless it is switched off, and
      independent channels otherwise. */
  ghost predicate BestFrame(p: Params, si: StreamInfo, ch: seq<seq<int>>, f: FrameBits, cs: seq<Coding>,
      four: Option<Four>)
    requires FrameWritable(f, cs, si)
  {
    if |ch| == 2 && p.stereo != Independent then
      |ch[0]| == |ch[1]| && four.Some? && StereoBest(p, si, ch[0], ch[1], f, cs, four.value)
    else IndependentBest(p, si, ch, f, cs)
  }

  /** Encodes one frame into the writer and returns its bytes. */
  method EncodeFrame(bw: Writer, ws: Workspace, p: Params, si: StreamInfo, ch: seq<seq<int>>, number: nat)
    returns (bytes: seq<byte>, ghost f: FrameBits, ghost cs: seq<Coding>, ghost four: Option<Four>)
    requires ws.cand.Length == 4 && Encodable(si, ch, number)
    modifies bw, ws.cand, ws`costRes
    ensures bw.Valid() && EncodedAs(bytes, f, cs, si, ch, number)
    ensures BestFrame(p, si, ch, f, cs, four)
  {
    hide Writer.Valid, Writer.Contents, SubsWritable, FrameShaped, InDepth, Pcm, EmitFrame, BytesOf, StereoBest,
      IndependentBest, EmitSubs, EmitHeader, AllFit;
    bw.Reset();
    if |ch| == 2 && p.stereo != Independent {
      assert ch == [ch[0], ch[1]];
      ghost var candidates;
      f, cs, candidates := EncodeStereo(bw, ws, p, si, ch[0], ch[1], number);
      four := Some(candidates);
    } else {
      f, cs := EncodeIndependent(bw, ws, p, si, ch, number);
      four := None;
    }
    FrameWhole(f, cs);
    bytes := bw.Bytes();
  }

  /** Frame losslessness: wherever an encoded frame stands in a stream of bytes, decoding
      accepts it, consumes exactly its bytes and gives back the channels it was made from,
      for every choice the planner and the analysis oracle made. */
  lemma {:induction false} FrameLossless(s: Stream, p: nat, bytes: seq<byte>, f: FrameBits, cs: seq<Coding>,
      si: StreamInfo, ch: seq<seq<int>>, number: nat)
    requires EncodedAs(bytes, f, cs, si, ch, number) && p % 8 == 0 && |s.bits| % 8 == 0 && At(s, p, ByteBits(bytes))
    ensures p <= |s.bits| && Accept(s, p, si) == Ok(f, p + 8 * |bytes|)
    ensures Pcm(f) == ch && f.hdr.number == number && f.hdr.blockSize == |ch[0]| && !f.hdr.variable
  {
    hide At, FrameShaped, InDepth, Pcm, EmitFrame, GetFrame, BytesOf, ByteBits, SubsWritable;
    ByteBitsBytesOf(EmitFrame(f, cs));
    FrameRoundTrip(s, p, f, cs, si);
    AtBound(s, p, ByteBits(bytes));
    PcmLength(f);
  }

  lemma {:induction false} PcmLength(f: FrameBits)
    requires FrameShaped(f) && Pcm(f) != []
    ensures |Pcm(f)[0]| == f.hdr.blockSize
  {
    hide Output, WellShaped;
  }
}
