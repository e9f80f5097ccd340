/** A whole frame: parsing, the deferred range verdict, the stereo inverses, printing, and
    the round trip (internal/frame/frame.go, decorrelate.go; section 9 of RFC 9639). */
module FrameSyntax {
  import opened Words
  import opened Cursor
  import opened Crc
  import opened Rice
  import opened Predict
  import opened SubframeSyntax
  import opened SubframeDecode
  import opened HeaderSyntax

  /** No frame of the encoder is longer than this many bytes, and twice as many are looked at
      in one probe of a seek. */
  const FRAME_LIMIT: nat := 0x80_0000

  datatype FrameBits = FrameBits(hdr: Header, subs: seq<Sub>)

  /** The side channel carries one extra bit; it is the second subframe except in
      right/side. */
  function SubDepth(hdr: Header, i: nat): nat
  {
    if (i == 1 && (hdr.chCode == 8 || hdr.chCode == 10)) || (i == 0 && hdr.chCode == 9) then hdr.bps + 1 else hdr.bps
  }

  /** Samples of 25 bits and more are decoded in 64-bit words. */
  function WordWidth(bps: nat): (w: nat)
    ensures w == 32 || w == 64
  {
    if bps >= 25 then 64 else 32
  }

  // ---- the parser ----

  function GetSubs(s: Stream, p: nat, hdr: Header, i: nat): (r: Parsed<seq<Sub>>)
    requires p <= |s.bits| && i <= hdr.Channels()
    ensures r.Ok? ==> p <= r.pos <= |s.bits| && |r.v| == hdr.Channels() - i
    decreases hdr.Channels() - i
  {
    if i == hdr.Channels() then Ok([], p) else
      var (sub, p1) :- GetSubframe(s, p, hdr.blockSize, SubDepth(hdr, i));
      var (rest, p2) :- GetSubs(s, p1, hdr, i + 1);
      Ok([sub] + rest, p2)
  }

  lemma {:induction false} AlignIn(p: nat, n: nat)
    requires p <= n && n % 8 == 0
    ensures p <= AlignPos(p) <= n && AlignPos(p) % 8 == 0
  {
  }

  /** The stored CRC-16 against the bytes from p to q. */
  function MatchSum16(s: Stream, p: nat, q: nat): (r: Parsed<()>)
    requires p <= q <= |s.bits|
    ensures r.Ok? ==> r.pos == q + 16 <= |s.bits|
  {
    var (stored, end) :- GetBits(s, q, 16);
    if stored != Checksum16(BytesOf(s.bits[p..q])) then Bad(CrcMismatch) else Ok((), end)
  }

  /** The subframes, the padding and the footer of a frame that starts at p. */
  function GetSealed(s: Stream, p: nat, q: nat, hdr: Header): (r: Parsed<FrameBits>)
    requires p <= q <= |s.bits| && |s.bits| % 8 == 0
    ensures r.Ok? ==> q < r.pos <= |s.bits| && r.v.hdr == hdr && |r.v.subs| == hdr.Channels()
  {
    var (subs, q1) :- GetSubs(s, q, hdr, 0);
    AlignIn(q1, |s.bits|);
    var (_, q2) :- MatchSum16(s, p, AlignPos(q1));
    Ok(FrameBits(hdr, subs), q2)
  }

  /** A frame whose format and checksums are right, whatever its samples. */
  function GetFrame(s: Stream, p: nat, si: StreamInfo): (r: Parsed<FrameBits>)
    requires p <= |s.bits| && |s.bits| % 8 == 0
    ensures r.Ok? ==> p < r.pos <= |s.bits|
  {
    var (hdr, q) :- GetHeader(s, p, si);
    Committed(GetSealed(s, p, q, hdr))
  }

  // ---- what a frame means ----

  /** Every subframe has the shape that a frame of this header needs. */
  ghost predicate FrameShaped(f: FrameBits)
  {
    && |f.subs| == f.hdr.Channels()
    && forall i :: 0 <= i < |f.subs| ==>
      WellShaped(f.subs[i].body, f.hdr.blockSize) && f.subs[i].wasted < SubDepth(f.hdr, i)
  }

  function SubGood(sub: Sub, n: nat, bps: nat, width: nat): bool
    requires WellShaped(sub.body, n) && width > 0 && sub.wasted < bps
  {
    Good(sub.body, n, bps - sub.wasted, width)
  }

  /** The left and the right sample of a pair of stereo subframe samples. */
  function LeftOf(chCode: nat, a: int, b: int): int
  {
    if chCode == 8 then a else if chCode == 9 then b + a else (2 * a + b % 2 + b) / 2
  }

  function RightOf(chCode: nat, a: int, b: int): int
  {
    if chCode == 8 then a - b else if chCode == 9 then b else (2 * a + b % 2 - b) / 2
  }

  function LeftOfAll(chCode: nat, a: seq<int>, b: seq<int>): (l: seq<int>)
    requires |a| == |b|
    ensures |l| == |a|
  {
    seq(|a|, i requires 0 <= i < |a| => LeftOf(chCode, a[i], b[i]))
  }

  function RightOfAll(chCode: nat, a: seq<int>, b: seq<int>): (r: seq<int>)
    requires |a| == |b|
    ensures |r| == |a|
  {
    seq(|a|, i requires 0 <= i < |a| => RightOf(chCode, a[i], b[i]))
  }

  ghost function Signal(f: FrameBits, i: nat): (x: seq<int>)
    requires FrameShaped(f) && i < |f.subs|
    ensures |x| == f.hdr.blockSize
  {
    Output(f.subs[i], f.hdr.blockSize, WordWidth(f.hdr.bps))
  }

  /** The channels of a frame, as exact integers. */
  ghost function Pcm(f: FrameBits): (ch: seq<seq<int>>)
    requires FrameShaped(f)
    ensures |ch| == f.hdr.Channels()
  {
    if 8 <= f.hdr.chCode <= 10 then
      [LeftOfAll(f.hdr.chCode, Signal(f, 0), Signal(f, 1)), RightOfAll(f.hdr.chCode, Signal(f, 0), Signal(f, 1))]
    else seq(|f.subs|, i requires 0 <= i < |f.subs| => Signal(f, i))
  }

  /** The range verdict of the frame: every subframe is good, and so is every channel that
      is computed rather than stored. */
  ghost predicate InDepth(f: FrameBits)
    requires FrameShaped(f)
  {
    && AllGood(f.hdr, f.subs, 0)
    && (f.hdr.chCode == 8 || f.hdr.chCode == 10 ==> AllFit(Pcm(f)[1], f.hdr.bps))
    && (f.hdr.chCode == 9 || f.hdr.chCode == 10 ==> AllFit(Pcm(f)[0], f.hdr.bps))
  }

  /** The subframes i, i+1, ... are in range. */
  ghost predicate AllGood(hdr: Header, subs: seq<Sub>, i: nat)
  {
    forall k :: 0 <= k < |subs| ==> GoodAt(hdr, subs[k], i + k)
  }

  ghost predicate GoodAt(hdr: Header, sub: Sub, i: nat)
  {
    && WellShaped(sub.body, hdr.blockSize) && sub.wasted < SubDepth(hdr, i)
    && SubGood(sub, hdr.blockSize, SubDepth(hdr, i), WordWidth(hdr.bps))
  }

  /** What decoding accepts: format, checksums, and only then the range. */
  ghost function Accept(s: Stream, p: nat, si: StreamInfo): (r: Parsed<FrameBits>)
    requires p <= |s.bits| && |s.bits| % 8 == 0
  {
    var (f, q) :- GetFrame(s, p, si);
    FrameIsShaped(s, p, si);
    if InDepth(f) then Ok(f, q) else Bad(OutOfRange)
  }

  lemma {:induction false} SubsShaped(s: Stream, p: nat, hdr: Header, i: nat)
    requires p <= |s.bits| && i <= hdr.Channels() && GetSubs(s, p, hdr, i).Ok?
    ensures var subs := GetSubs(s, p, hdr, i).v;
      forall k :: 0 <= k < |subs| ==> WellShaped(subs[k].body, hdr.blockSize) && subs[k].wasted < SubDepth(hdr, i + k)
    decreases hdr.Channels() - i
  {
    hide GetSubframe, WellShaped, SubDepth;
    if i < hdr.Channels() {
      SubsShaped(s, GetSubframe(s, p, hdr.blockSize, SubDepth(hdr, i)).pos, hdr, i + 1);
    }
  }

  lemma {:induction false} FrameIsShaped(s: Stream, p: nat, si: StreamInfo)
    requires p <= |s.bits| && |s.bits| % 8 == 0 && GetFrame(s, p, si).Ok?
    ensures FrameShaped(GetFrame(s, p, si).v)
  {
    hide GetHeader, GetSubs, MatchSum16;
    SubsShaped(s, GetHeader(s, p, si).pos, GetHeader(s, p, si).v, 0);
  }

  /** The range error is given only to a frame whose stored CRC-16 is right: a damaged
      footer reports the checksum whatever the samples are. */
  lemma {:induction false} VerdictIsDeferred(s: Stream, p: nat, si: StreamInfo)
    requires p <= |s.bits| && |s.bits| % 8 == 0 && GetHeader(s, p, si).Ok?
    requires GetSubs(s, GetHeader(s, p, si).pos, GetHeader(s, p, si).v, 0).Ok?
    requires s.end != CrcMismatch && s.end != OutOfRange
    ensures var end := AlignPos(GetSubs(s, GetHeader(s, p, si).pos, GetHeader(s, p, si).v, 0).pos);
      && p <= end <= |s.bits|
      && (Accept(s, p, si) == Bad(CrcMismatch) <==>
        GetBits(s, end, 16).Ok? && GetBits(s, end, 16).v != Checksum16(BytesOf(s.bits[p..end])))
      && (Accept(s, p, si) == Bad(OutOfRange) ==>
        GetBits(s, end, 16).Ok? && GetBits(s, end, 16).v == Checksum16(BytesOf(s.bits[p..end])))
  {
    hide GetHeader, GetSubs, BytesOf, Checksum16, InDepth;
    var q := GetSubs(s, GetHeader(s, p, si).pos, GetHeader(s, p, si).v, 0).pos;
    AlignIn(q, |s.bits|);
    var sum := MatchSum16(s, p, AlignPos(q));
    assert sum == Bad(CrcMismatch) || sum.Ok? || GetBits(s, AlignPos(q), 16).Bad?;
  }

  /** A channel of an accepted frame lies within the frame's depth, for any input. */
  lemma {:induction false} SignalFits(s: Stream, p: nat, n: nat, bps: nat, width: nat)
    requires p <= |s.bits| && GetSubframe(s, p, n, bps).Ok? && width > 0
    requires SubGood(GetSubframe(s, p, n, bps).v, n, bps, width)
    ensures AllFit(Output(GetSubframe(s, p, n, bps).v, n, width), bps)
  {
    hide AllFit, Fits, GetSubHeader, GetFixed, GetLpc, Samples, Scale;
    var sub := GetSubframe(s, p, n, bps).v;
    var hdr := GetSubHeader(s, p, bps);
    ParsedFits(s, hdr.pos, n, hdr.v.0, bps - sub.wasted, width);
    ScaleFits(Samples(sub.body, n, width), bps - sub.wasted, sub.wasted);
  }

  lemma {:induction false} ParsedFits(s: Stream, p: nat, n: nat, kind: nat, eff: nat, width: nat)
    requires p <= |s.bits| && kind < 64 && eff > 0 && GetBody(s, p, n, kind, eff).Ok? && width > 0
    requires Good(GetBody(s, p, n, kind, eff).v, n, eff, width)
    ensures AllFit(Samples(GetBody(s, p, n, kind, eff).v, n, width), eff)
  {
    hide GetFixed, GetLpc, GetRaw, Fits;
    if kind == 1 { RawFits(s, p, eff, n); }
  }

  lemma {:induction false} RawFits(s: Stream, p: nat, width: nat, n: nat)
    requires p <= |s.bits| && width > 0 && GetRaw(s, p, width, n).Ok?
    ensures AllFit(GetRaw(s, p, width, n).v, width)
    decreases n
  {
    hide Fits;
    if n > 0 {
      GetRawStep(s, p, width, n);
      RawFits(s, p + width, width, n - 1);
    }
  }

  lemma {:induction false} SignalsFit(s: Stream, p: nat, hdr: Header, i: nat)
    requires p <= |s.bits| && i <= hdr.Channels() && GetSubs(s, p, hdr, i).Ok?
    requires AllGood(hdr, GetSubs(s, p, hdr, i).v, i)
    ensures var subs := GetSubs(s, p, hdr, i).v;
      forall k :: 0 <= k < |subs| ==> FitsAt(hdr, subs[k], i + k)
    decreases hdr.Channels() - i
  {
    hide GetSubframe, AllFit, WellShaped, SubDepth, GoodAt, FitsAt;
    if i < hdr.Channels() {
      var sub := GetSubframe(s, p, hdr.blockSize, SubDepth(hdr, i));
      var subs := GetSubs(s, p, hdr, i).v;
      assert GoodAt(hdr, subs[0], i + 0);
      OneFits(s, p, hdr, i);
      forall k | 0 <= k < |subs[1..]| ensures GoodAt(hdr, subs[1..][k], i + 1 + k) {
        assert GoodAt(hdr, subs[k + 1], i + (k + 1));
      }
      SignalsFit(s, sub.pos, hdr, i + 1);
      forall k | 0 <= k < |subs| ensures FitsAt(hdr, subs[k], i + k) {
        if k > 0 { assert FitsAt(hdr, subs[1..][k - 1], i + 1 + (k - 1)); }
      }
    }
  }

  ghost predicate FitsAt(hdr: Header, sub: Sub, i: nat)
  {
    WellShaped(sub.body, hdr.blockSize) && AllFit(Output(sub, hdr.blockSize, WordWidth(hdr.bps)), SubDepth(hdr, i))
  }

  lemma {:induction false} OneFits(s: Stream, p: nat, hdr: Header, i: nat)
    requires p <= |s.bits| && GetSubframe(s, p, hdr.blockSize, SubDepth(hdr, i)).Ok?
    requires GoodAt(hdr, GetSubframe(s, p, hdr.blockSize, SubDepth(hdr, i)).v, i)
    ensures FitsAt(hdr, GetSubframe(s, p, hdr.blockSize, SubDepth(hdr, i)).v, i)
  {
    hide GetSubframe, AllFit, WellShaped, SubDepth, Good;
    SignalFits(s, p, hdr.blockSize, SubDepth(hdr, i), WordWidth(hdr.bps));
  }

  /** Accepted means in range: for arbitrary input, every sample of every channel of an
      accepted frame lies within the frame's bit depth. */
  lemma {:induction false} AcceptedInRange(s: Stream, p: nat, si: StreamInfo)
    requires p <= |s.bits| && |s.bits| % 8 == 0 && Accept(s, p, si).Ok?
    ensures var f := Accept(s, p, si).v;
      FrameShaped(f) && forall c :: 0 <= c < |Pcm(f)| ==> AllFit(Pcm(f)[c], f.hdr.bps)
  {
    hide GetHeader, GetSubs, MatchSum16, AllFit, Output, WellShaped, AllGood, LeftOfAll, RightOfAll;
    FrameIsShaped(s, p, si);
    var f := Accept(s, p, si).v;
    var q := GetHeader(s, p, si).pos;
    SignalsFit(s, q, f.hdr, 0);
    forall c | 0 <= c < |Pcm(f)| ensures AllFit(Pcm(f)[c], f.hdr.bps) {
      assert FitsAt(f.hdr, f.subs[c], 0 + c);
      if f.hdr.chCode == 8 { Stored(8, Signal(f, 0), Signal(f, 1)); }
      if f.hdr.chCode == 9 { Stored(9, Signal(f, 0), Signal(f, 1)); }
    }
  }

  lemma {:induction false} Stored(chCode: nat, a: seq<int>, b: seq<int>)
    requires |a| == |b|
    ensures chCode == 8 ==> LeftOfAll(chCode, a, b) == a
    ensures chCode == 9 ==> RightOfAll(chCode, a, b) == b
  {
  }

  // ---- the stereo inverses ----

  /** Each assignment recovers the pair of samples it was computed from. */
  lemma {:induction false} StereoInverse(l: int, r: int)
    ensures LeftOf(8, l, l - r) == l && RightOf(8, l, l - r) == r
    ensures LeftOf(9, l - r, r) == l && RightOf(9, l - r, r) == r
    ensures LeftOf(10, (l + r) / 2, l - r) == l && RightOf(10, (l + r) / 2, l - r) == r
  {
  }

  // ---- the printer ----

  ghost predicate SubWritable(hdr: Header, sub: Sub, c: Coding, i: nat)
  {
    && WellShaped(sub.body, hdr.blockSize) && CodingOk(sub.body, c, hdr.blockSize)
    && sub.wasted < SubDepth(hdr, i) && sub.wasted <= 32 && Printable(sub.body, SubDepth(hdr, i) - sub.wasted)
  }

  ghost predicate SubsWritable(hdr: Header, subs: seq<Sub>, cs: seq<Coding>, i: nat)
  {
    |subs| == |cs| && forall k :: 0 <= k < |subs| ==> SubWritable(hdr, subs[k], cs[k], i + k)
  }

  ghost function EmitSubs(hdr: Header, subs: seq<Sub>, cs: seq<Coding>, i: nat): seq<bool>
    requires SubsWritable(hdr, subs, cs, i)
    decreases |subs|
  {
    if subs == [] then [] else
      SubsTail(hdr, subs, cs, i);
      EmitSub(subs[0], cs[0], hdr.blockSize, SubDepth(hdr, i)) + EmitSubs(hdr, subs[1..], cs[1..], i + 1)
  }

  lemma {:induction false} SubsTail(hdr: Header, subs: seq<Sub>, cs: seq<Coding>, i: nat)
    requires SubsWritable(hdr, subs, cs, i) && subs != []
    ensures SubWritable(hdr, subs[0], cs[0], i) && SubsWritable(hdr, subs[1..], cs[1..], i + 1)
  {
    hide SubWritable;
    assert SubWritable(hdr, subs[0], cs[0], i + 0);
    forall k | 0 <= k < |subs[1..]| ensures SubWritable(hdr, subs[1..][k], cs[1..][k], i + 1 + k) {
      assert SubWritable(hdr, subs[k + 1], cs[k + 1], i + (k + 1));
    }
  }

  ghost predicate FrameWritable(f: FrameBits, cs: seq<Coding>, si: StreamInfo)
  {
    Writable(f.hdr, si) && |f.subs| == f.hdr.Channels() && SubsWritable(f.hdr, f.subs, cs, 0)
  }

  /** The frame without its footer, padded to a byte boundary. */
  ghost function EmitUnsealed(f: FrameBits, cs: seq<Coding>): seq<bool>
    requires f.hdr.blockSize >= 1 && SubsWritable(f.hdr, f.subs, cs, 0)
  {
    Aligned(EmitHeader(f.hdr) + EmitSubs(f.hdr, f.subs, cs, 0))
  }

  ghost function EmitFrame(f: FrameBits, cs: seq<Coding>): seq<bool>
    requires f.hdr.blockSize >= 1 && SubsWritable(f.hdr, f.subs, cs, 0)
  {
    EmitUnsealed(f, cs) + Bits(Checksum16(BytesOf(EmitUnsealed(f, cs))), 16)
  }

  // ---- the round trip ----

  lemma {:induction false} SubsRoundTrip(s: Stream, p: nat, hdr: Header, subs: seq<Sub>, cs: seq<Coding>, i: nat)
    requires SubsWritable(hdr, subs, cs, i) && |subs| + i == hdr.Channels()
    requires At(s, p, EmitSubs(hdr, subs, cs, i))
    ensures GetSubs(s, p, hdr, i) == Ok(subs, p + |EmitSubs(hdr, subs, cs, i)|)
    decreases |subs|
  {
    hide At, GetSubframe, EmitSub, WellShaped, CodingOk, Printable;
    if subs != [] {
      SubsTail(hdr, subs, cs, i);
      var e := EmitSub(subs[0], cs[0], hdr.blockSize, SubDepth(hdr, i));
      AtCat(s, p, e, EmitSubs(hdr, subs[1..], cs[1..], i + 1));
      SubframeRoundTrip(s, p, subs[0], cs[0], hdr.blockSize, SubDepth(hdr, i));
      SubsRoundTrip(s, p + |e|, hdr, subs[1..], cs[1..], i + 1);
      assert [subs[0]] + subs[1..] == subs;
    }
  }

  lemma {:induction false} PaddingAligns(p: nat, n: nat)
    requires p % 8 == 0
    ensures AlignPos(p + n) == p + n + Padding(n)
  {
  }

  /** Where the parts of a printed frame stand. */
  lemma {:induction false} FrameParts(s: Stream, p: nat, h: seq<bool>, b: seq<bool>, sum: nat)
    requires p % 8 == 0 && At(s, p, Aligned(h + b) + Bits(sum, 16))
    ensures At(s, p, h) && At(s, p + |h|, b) && At(s, p + |Aligned(h + b)|, Bits(sum, 16))
    ensures s.bits[p..p + |Aligned(h + b)|] == Aligned(h + b)
    ensures AlignPos(p + |h| + |b|) == p + |Aligned(h + b)|
  {
    hide Bits;
    var u := Aligned(h + b);
    AtCat(s, p, u, Bits(sum, 16));
    assert s.bits[p..p + |u|] == u;
    hide At;
    AtCat(s, p, h + b, Zeros(Padding(|h + b|)));
    AtCat(s, p, h, b);
    PaddingAligns(p, |h + b|);
  }

  lemma {:induction false} FrameFrom(s: Stream, p: nat, si: StreamInfo, f: FrameBits, q: nat, q1: nat, e: nat, sum: nat)
    requires p <= q <= q1 <= e <= |s.bits| && |s.bits| % 8 == 0 && AlignPos(q1) == e
    requires GetHeader(s, p, si) == Ok(f.hdr, q) && GetSubs(s, q, f.hdr, 0) == Ok(f.subs, q1)
    requires GetBits(s, e, 16) == Ok(sum, e + 16) && sum == Checksum16(BytesOf(s.bits[p..e]))
    ensures GetFrame(s, p, si) == Ok(f, e + 16)
  {
    hide GetHeader, GetSubs, BytesOf, Checksum16, AlignPos, GetBits;
  }

  lemma {:induction false} EmittedParts(f: FrameBits, cs: seq<Coding>, si: StreamInfo)
    returns (h: seq<bool>, b: seq<bool>, u: seq<bool>)
    requires FrameWritable(f, cs, si)
    ensures Writable(f.hdr, si) && f.hdr.blockSize >= 1 && |f.subs| == f.hdr.Channels()
      && SubsWritable(f.hdr, f.subs, cs, 0)
    ensures h == EmitHeader(f.hdr) && b == EmitSubs(f.hdr, f.subs, cs, 0) && u == Aligned(h + b)
    ensures EmitFrame(f, cs) == u + Bits(Checksum16(BytesOf(u)), 16)
  {
    hide EmitHeader, EmitSubs, SubsWritable, Bits, BytesOf, Checksum16, Aligned;
    h, b := EmitHeader(f.hdr), EmitSubs(f.hdr, f.subs, cs, 0);
    u := EmitUnsealed(f, cs);
  }

  /** A printed frame is parsed back wherever it stands in a stream, with both checksums
      matching. */
  lemma {:induction false} FrameRoundTrip(s: Stream, p: nat, f: FrameBits, cs: seq<Coding>, si: StreamInfo)
    requires FrameWritable(f, cs, si) && p % 8 == 0 && |s.bits| % 8 == 0 && At(s, p, EmitFrame(f, cs))
    ensures GetFrame(s, p, si) == Ok(f, p + |EmitFrame(f, cs)|)
  {
    hide *;
    var h, b, u := EmittedParts(f, cs, si);
    var sum := Checksum16(BytesOf(u));
    SumFits(u);
    FrameParts(s, p, h, b, sum);
    AlignedLonger(h + b);
    var q, q1, e := p + |h|, p + |h| + |b|, p + |u|;
    HeaderRoundTrip(s, p, f.hdr, si);
    SubsRoundTrip(s, q, f.hdr, f.subs, cs, 0);
    ReadBack(s, e, sum, 16);
    FrameFrom(s, p, si, f, q, q1, e, sum);
  }

  lemma {:induction false} SumFits(u: seq<bool>)
    ensures Checksum16(BytesOf(u)) < Pow2(16)
  {
    Pow2Values();
    ChecksumBounds(BytesOf(u));
  }

  lemma {:induction false} AlignedLonger(s: seq<bool>)
    ensures |Aligned(s)| >= |s|
  {
  }
}
