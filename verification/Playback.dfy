/** What a stream of frames plays: the interleaved bytes of its frames, and the part of them
    from one sample on. */
module Playback {
  import opened Words
  import opened Cursor
  import opened HeaderSyntax
  import opened SubframeSyntax
  import opened FrameSyntax
  import opened FrameCut
  import opened Packing
  import opened StreamEncoder
  import opened Resync
  import opened SeekSearch

  /** The interleaved bytes of one frame at w bytes a sample. */
  ghost function Packed(f: FrameBits, w: nat): seq<byte>
    requires FrameShaped(f)
  {
    PcmRectangular(f);
    Pack(Pcm(f), f.hdr.blockSize, w)
  }

  lemma {:induction false} PcmRectangular(f: FrameBits)
    requires FrameShaped(f)
    ensures Rectangular(Pcm(f), f.hdr.blockSize)
  {
    hide Output, WellShaped, LeftOf, RightOf;
  }

  /** Everything the frames from p on decode to, up to the first that is not accepted. */
  ghost function Rest(s: Stream, p: nat, si: StreamInfo, w: nat): seq<byte>
    requires p <= |s.bits| && |s.bits| % 8 == 0 && p % 8 == 0
    decreases |s.bits| - p
  {
    var r := Accept(s, p, si);
    if r.Bad? then [] else
      AcceptFacts(s, p, si);
      Packed(r.v, w) + Rest(s, r.pos, si, w)
  }

  /** How that ends: the error of the first frame not accepted. */
  ghost function EndOf(s: Stream, p: nat, si: StreamInfo): Error
    requires p <= |s.bits| && |s.bits| % 8 == 0 && p % 8 == 0
    decreases |s.bits| - p
  {
    var r := Accept(s, p, si);
    if r.Bad? then r.e else
      AcceptFacts(s, p, si);
      EndOf(s, r.pos, si)
  }

  /** How many inter-channel samples that is. */
  ghost function CountFrom(s: Stream, p: nat, si: StreamInfo): nat
    requires p <= |s.bits| && |s.bits| % 8 == 0 && p % 8 == 0
    decreases |s.bits| - p
  {
    var r := Accept(s, p, si);
    if r.Bad? then 0 else
      AcceptFacts(s, p, si);
      r.v.hdr.blockSize + CountFrom(s, r.pos, si)
  }

  lemma {:induction false} AcceptFacts(s: Stream, p: nat, si: StreamInfo)
    requires p <= |s.bits| && |s.bits| % 8 == 0 && p % 8 == 0 && Accept(s, p, si).Ok?
    ensures var r := Accept(s, p, si);
      p + 16 <= r.pos <= |s.bits| && r.pos % 8 == 0 && FrameShaped(r.v) && r.v.hdr.blockSize >= 1
        && r.v.hdr.Channels() >= 1
  {
    hide GetHeader, GetSubs, MatchSum16, InDepth, FrameShaped, AlignPos;
    FrameIsShaped(s, p, si);
    HeaderFacts(s, p, si);
    AlignIn(GetSubs(s, GetHeader(s, p, si).pos, GetHeader(s, p, si).v, 0).pos, |s.bits|);
  }

  lemma {:induction false} RestStep(s: Stream, p: nat, si: StreamInfo, w: nat)
    requires p <= |s.bits| && |s.bits| % 8 == 0 && p % 8 == 0
    ensures Accept(s, p, si).Bad? ==>
      Rest(s, p, si, w) == [] && EndOf(s, p, si) == Accept(s, p, si).e && CountFrom(s, p, si) == 0
    ensures var r := Accept(s, p, si); r.Ok? ==>
      && p + 16 <= r.pos <= |s.bits| && r.pos % 8 == 0 && FrameShaped(r.v) && r.v.hdr.blockSize >= 1
        && r.v.hdr.Channels() >= 1
      && Rest(s, p, si, w) == Packed(r.v, w) + Rest(s, r.pos, si, w) && EndOf(s, p, si) == EndOf(s, r.pos, si)
      && CountFrom(s, p, si) == r.v.hdr.blockSize + CountFrom(s, r.pos, si)
  {
    hide Accept, Packed, FrameShaped;
    if Accept(s, p, si).Ok? { AcceptFacts(s, p, si); }
  }

  /** A source that fails plays the front of what all of it would, up to the failure, or all
      of it. */
  lemma {:induction false} RestShort(s: Stream, m: nat, p: nat, si: StreamInfo, w: nat)
    requires p <= m <= |s.bits| && |s.bits| % 8 == 0 && m % 8 == 0 && p % 8 == 0
    ensures |Short(s, m, IO).bits| == m && Rest(Short(s, m, IO), p, si, w) <= Rest(s, p, si, w)
    ensures EndOf(Short(s, m, IO), p, si) == IO
      || (Rest(Short(s, m, IO), p, si, w) == Rest(s, p, si, w) && EndOf(Short(s, m, IO), p, si) == EndOf(s, p, si))
    decreases m - p
  {
    hide Accept, Packed, FrameShaped, Short;
    var cut := Short(s, m, IO);
    ShortLength(s, m, IO);
    RestStep(cut, p, si, w);
    RestStep(s, p, si, w);
    if Accept(cut, p, si).Ok? {
      ExtendAccept(s, m, IO, p, si);
      RestShort(s, m, Accept(cut, p, si).pos, si, w);
    } else {
      FailsOrFollows(s, m, p, si);
    }
  }

  lemma {:induction false} FailsOrFollows(s: Stream, m: nat, p: nat, si: StreamInfo)
    requires p <= m <= |s.bits| && |s.bits| % 8 == 0 && m % 8 == 0 && p % 8 == 0
    ensures Accept(Short(s, m, IO), p, si) == Accept(s, p, si) || Accept(Short(s, m, IO), p, si) == Bad(IO)
  {
    hide Accept;
    if p + 16 <= m {
      WindowAccept(s, m, IO, p, si);
    } else if p == m {
      NothingLeft(Short(s, m, IO), si);
    } else {
      HalfSync(Short(s, m, IO), p, si);
    }
  }

  lemma {:induction false} ExtendAccept(s: Stream, m: nat, e: Error, p: nat, si: StreamInfo)
    requires p <= m <= |s.bits| && |s.bits| % 8 == 0 && m % 8 == 0 && Accept(Short(s, m, e), p, si).Ok?
    ensures Accept(s, p, si) == Accept(Short(s, m, e), p, si)
  {
    hide GetFrame, InDepth, FrameShaped, Short;
    ExtendFrame(s, m, e, p, si);
  }

  lemma {:induction false} PackedNotEmpty(f: FrameBits, w: nat)
    requires FrameShaped(f) && f.hdr.blockSize >= 1 && f.hdr.Channels() >= 1 && w >= 1
    ensures Packed(f, w) != [] && |Packed(f, w)| == f.hdr.blockSize * (f.hdr.Channels() * w)
  {
    hide FrameShaped, Pcm;
    PcmRectangular(f);
    PackSize(Pcm(f), f.hdr.blockSize, w);
    ProductLe(1, f.hdr.Channels(), w);
    ProductLe(1, f.hdr.blockSize, f.hdr.Channels() * w);
  }

  lemma {:induction false} PackSize(ch: seq<seq<int>>, n: nat, w: nat)
    requires Rectangular(ch, n)
    ensures |Pack(ch, n, w)| == n * (|ch| * w)
  {
    RowsSize(RowsOf(ch, n), |ch|, w);
  }

  lemma {:induction false} RowsSize(rows: seq<seq<int>>, m: nat, w: nat)
    requires forall i :: 0 <= i < |rows| ==> |rows[i]| == m
    ensures |PackRows(rows, w)| == |rows| * (m * w)
  {
    hide PackRow;
    if rows != [] {
      RowsSize(rows[..|rows| - 1], m, w);
      Packing.RowLength(|rows| - 1, m * w);
    }
  }

  /** What the bytes decode to from bit p on. */
  ghost function RestBytes(data: seq<byte>, p: nat, si: StreamInfo, w: nat): seq<byte>
  {
    if p <= 8 * |data| && p % 8 == 0 then Rest(Bytes(data), p, si, w) else []
  }

  ghost function EndBytes(data: seq<byte>, p: nat, si: StreamInfo): Error
  {
    if p <= 8 * |data| && p % 8 == 0 then EndOf(Bytes(data), p, si) else EOF
  }

  /** What a failing source delivers plays the front of what all of the bytes do. */
  lemma {:induction false} RestFront(data: seq<byte>, s: Stream, p: nat, si: StreamInfo, w: nat)
    requires s.bits <= ByteBits(data) && s.end == IO && p <= |s.bits| && |s.bits| % 8 == 0 && p % 8 == 0
    ensures Rest(s, p, si, w) <= RestBytes(data, p, si, w)
    ensures EndOf(s, p, si) == IO
      || (Rest(s, p, si, w) == RestBytes(data, p, si, w) && EndOf(s, p, si) == EndBytes(data, p, si))
  {
    hide Rest, EndOf;
    RestShort(Bytes(data), |s.bits|, p, si, w);
    assert s == Short(Bytes(data), |s.bits|, IO);
  }

  ghost function CountBytes(data: seq<byte>, p: nat, si: StreamInfo): nat
  {
    if p <= 8 * |data| && p % 8 == 0 then CountFrom(Bytes(data), p, si) else 0
  }

  // ---- clean streams ----

  /** The frames from k on, interleaved. */
  ghost function PlayedFrom(fs: seq<FrameBits>, k: nat, w: nat): seq<byte>
    requires k <= |fs| && forall j :: 0 <= j < |fs| ==> FrameShaped(fs[j])
    decreases |fs| - k
  {
    if k == |fs| then [] else Packed(fs[k], w) + PlayedFrom(fs, k + 1, w)
  }

  ghost predicate AllShaped(fs: seq<FrameBits>, m: nat)
  {
    forall j :: 0 <= j < |fs| ==> FrameShaped(fs[j]) && fs[j].hdr.Channels() == m
  }

  /** From base on the data is these frames, one after another, and perhaps the front of one
      more. */
  ghost predicate FramesAt(data: seq<byte>, base: nat, frames: seq<seq<byte>>, fs: seq<FrameBits>, tail: seq<byte>,
      si: StreamInfo)
  {
    && |fs| == |frames| && base <= |data| && data[base..] == Flat(frames) + tail && CutTail(tail, si)
    && forall k :: 0 <= k < |frames| ==> ValidFrame(frames[k], fs[k], si)
  }

  lemma {:induction false} CleanFrames(data: seq<byte>, base: nat, frames: seq<seq<byte>>, fs: seq<FrameBits>,
      tail: seq<byte>, si: StreamInfo)
    requires Clean(data, base, frames, fs, tail, si)
    ensures FramesAt(data, base, frames, fs, tail, si)
  {
    hide ValidFrame, Flat, NoFalseFrame, CutTail;
  }

  lemma {:induction false} FramesShaped(data: seq<byte>, base: nat, frames: seq<seq<byte>>, fs: seq<FrameBits>,
      tail: seq<byte>, si: StreamInfo)
    requires FramesAt(data, base, frames, fs, tail, si)
    ensures |fs| == |frames| && forall j :: 0 <= j < |fs| ==> FrameShaped(fs[j])
  {
    hide FrameShaped, Flat, Accept;
    forall j | 0 <= j < |fs| ensures FrameShaped(fs[j]) { assert ValidFrame(frames[j], fs[j], si); }
  }

  /** Decoding the data from byte o, at the start of frame k. */
  lemma {:induction false} FrameInside(data: seq<byte>, base: nat, frames: seq<seq<byte>>, fs: seq<FrameBits>,
      tail: seq<byte>, si: StreamInfo, o: nat, k: nat)
    requires FramesAt(data, base, frames, fs, tail, si) && k < |frames| && o <= StartOf(frames, base, k)
    ensures o <= StartOf(frames, base, k) <= StartOf(frames, base, k + 1) <= |data|
    ensures var s := Bytes(data[o..]);
      var p := 8 * (StartOf(frames, base, k) - o);
      p <= |s.bits| && |s.bits| % 8 == 0 && Accept(s, p, si) == Ok(fs[k], 8 * (StartOf(frames, base, k + 1) - o))
  {
    hide Flat, Accept, StartOf, FrameShaped, ByteBits;
    FrameBytes(data, base, frames, k);
    var i, j := StartOf(frames, base, k), StartOf(frames, base, k + 1);
    assert data[o..][i - o..j - o] == data[i..j];
    ByteBitsSlice(data[o..], i - o, j - o);
    assert ValidFrame(frames[k], fs[k], si);
    assert At(Bytes(data[o..]), 8 * (i - o), ByteBits(frames[k]));
  }

  /** A clean end, or a frame that the source ends inside. */
  function TailError(tail: seq<byte>): Error
  {
    if tail == [] then EOF else UnexpectedEOF
  }

  /** From a frame start on, the data decodes to its frames and then ends as its tail says. */
  lemma {:induction false} RestPlays(data: seq<byte>, base: nat, frames: seq<seq<byte>>, fs: seq<FrameBits>,
      tail: seq<byte>, si: StreamInfo, w: nat, o: nat, k: nat)
    requires FramesAt(data, base, frames, fs, tail, si) && k <= |frames| && o <= StartOf(frames, base, k)
    ensures o <= StartOf(frames, base, k) <= |data|
    ensures |fs| == |frames| && forall j :: 0 <= j < |fs| ==> FrameShaped(fs[j])
    ensures RestBytes(data[o..], 8 * (StartOf(frames, base, k) - o), si, w) == PlayedFrom(fs, k, w)
    ensures EndBytes(data[o..], 8 * (StartOf(frames, base, k) - o), si) == TailError(tail)
    ensures SampleOf(fs, k) + CountBytes(data[o..], 8 * (StartOf(frames, base, k) - o), si) == SampleOf(fs, |fs|)
    decreases |frames| - k
  {
    hide FramesAt, Accept, StartOf, FrameShaped, ByteBits, Packed, Rest, EndOf, CountFrom;
    FramesShaped(data, base, frames, fs, tail, si);
    FramesEnd(data, base, frames, fs, tail, si);
    if k < |frames| { FrameInside(data, base, frames, fs, tail, si, o, k); }
    var s := Bytes(data[o..]);
    var p := 8 * (StartOf(frames, base, k) - o);
    RestStep(s, p, si, w);
    if k < |frames| { RestPlays(data, base, frames, fs, tail, si, w, o, k + 1); }
      else { TailLeft(data, base, frames, fs, tail, si, o); }
  }

  /** Behind the last whole frame. */
  lemma {:induction false} TailLeft(data: seq<byte>, base: nat, frames: seq<seq<byte>>, fs: seq<FrameBits>,
      tail: seq<byte>, si: StreamInfo, o: nat)
    requires FramesAt(data, base, frames, fs, tail, si) && o <= StartOf(frames, base, |frames|) <= |data|
    ensures Accept(Bytes(data[o..]), 8 * (StartOf(frames, base, |frames|) - o), si) == Bad(TailError(tail))
  {
    hide Accept, Flat, StartOf, ByteBits, ValidFrame, CutTail;
    StartEnd(data, base, frames);
    var n := StartOf(frames, base, |frames|);
    var s := Bytes(data[o..]);
    if tail == [] {
      NothingLeft(s, si);
    } else {
      var d := data[o..];
      assert d[n - o..|d|] == data[n..] == tail;
      ByteBitsSlice(d, n - o, |d|);
      assert s.bits[8 * (n - o)..] == s.bits[8 * (n - o)..8 * |d|];
      TailAt(s, 8 * (n - o), tail, si);
    }
  }

  lemma {:induction false} NothingLeft(s: Stream, si: StreamInfo)
    requires |s.bits| % 8 == 0
    ensures Accept(s, |s.bits|, si) == Bad(s.end)
  {
    hide GetChecked, GetSealed, InDepth, FrameShaped;
  }

  lemma {:induction false} FramesEnd(data: seq<byte>, base: nat, frames: seq<seq<byte>>, fs: seq<FrameBits>,
      tail: seq<byte>, si: StreamInfo)
    requires FramesAt(data, base, frames, fs, tail, si)
    ensures StartOf(frames, base, |frames|) + |tail| == |data|
  {
    hide Flat, ValidFrame, CutTail;
    StartEnd(data, base, frames);
  }

  /** The frames before k are SampleOf(k) inter-channel samples, which take off bytes. */
  lemma {:induction false} PlayedSplit(fs: seq<FrameBits>, m: nat, w: nat, k: nat, off: nat)
    requires AllShaped(fs, m) && k <= |fs| && off == SampleOf(fs, k) * (m * w)
    ensures off <= |PlayedFrom(fs, 0, w)| && PlayedFrom(fs, 0, w)[off..] == PlayedFrom(fs, k, w)
    decreases k
  {
    hide FrameShaped, Packed, SampleOf, PlayedFrom;
    SampleStep(fs, k);
    PlayedStep(fs, k, w);
    if k > 0 {
      var a := SampleOf(fs, k - 1) * (m * w);
      PlayedSplit(fs, m, w, k - 1, a);
      FrameSamples(fs[k - 1], m, w);
      Distribute(SampleOf(fs, k - 1), fs[k - 1].hdr.blockSize, m * w);
      assert PlayedFrom(fs, 0, w)[a..][off - a..] == PlayedFrom(fs, 0, w)[off..];
    }
  }

  lemma {:induction false} SampleStep(fs: seq<FrameBits>, k: nat)
    requires k <= |fs|
    ensures SampleOf(fs, k) == if k == 0 then 0 else SampleOf(fs, k - 1) + fs[k - 1].hdr.blockSize
  {
  }

  lemma {:induction false} PlayedStep(fs: seq<FrameBits>, k: nat, w: nat)
    requires k <= |fs| && forall j :: 0 <= j < |fs| ==> FrameShaped(fs[j])
    ensures k > 0 ==> PlayedFrom(fs, k - 1, w) == Packed(fs[k - 1], w) + PlayedFrom(fs, k, w)
  {
    hide FrameShaped, Packed;
  }

  lemma {:induction false} FrameSamples(f: FrameBits, m: nat, w: nat)
    requires FrameShaped(f) && f.hdr.Channels() == m
    ensures |Packed(f, w)| == f.hdr.blockSize * (m * w)
  {
    hide FrameShaped, Pcm;
    PcmRectangular(f);
    PackSize(Pcm(f), f.hdr.blockSize, w);
  }

  /** Behind frame t the frames from t + 1 on are decoded. */
  lemma {:induction false} RestBehind(data: seq<byte>, base: nat, frames: seq<seq<byte>>, fs: seq<FrameBits>,
      tail: seq<byte>, si: StreamInfo, w: nat, t: nat, f: FrameBits, pos: nat)
    requires Clean(data, base, frames, fs, tail, si) && t < |frames| && StartOf(frames, base, t) <= |data|
    requires AcceptBytes(data[StartOf(frames, base, t)..], si) == Ok(f, pos)
    ensures |fs| == |frames| && f == fs[t] && pos <= 8 * |data[StartOf(frames, base, t)..]| && pos % 8 == 0
    ensures forall j :: 0 <= j < |fs| ==> FrameShaped(fs[j])
    ensures RestBytes(data[StartOf(frames, base, t)..], pos, si, w) == PlayedFrom(fs, t + 1, w)
    ensures EndBytes(data[StartOf(frames, base, t)..], pos, si) == TailError(tail)
  {
    hide Clean, FramesAt, Accept, StartOf, FrameShaped, ByteBits, Packed, Rest, EndOf;
    CleanFrames(data, base, frames, fs, tail, si);
    FramesShaped(data, base, frames, fs, tail, si);
    var o := StartOf(frames, base, t);
    FrameInside(data, base, frames, fs, tail, si, o, t);
    RestPlays(data, base, frames, fs, tail, si, w, o, t + 1);
  }

  /** Reading from the first frame to the end plays them all, whether the source starts there
      or with what stands before. */
  lemma {:induction false} AllPlayed(data: seq<byte>, base: nat, frames: seq<seq<byte>>, fs: seq<FrameBits>,
      tail: seq<byte>, si: StreamInfo, w: nat, o: nat)
    requires FramesAt(data, base, frames, fs, tail, si) && o <= base
    ensures |fs| == |frames| && base <= |data| && forall j :: 0 <= j < |fs| ==> FrameShaped(fs[j])
    ensures RestBytes(data[o..], 8 * (base - o), si, w) == PlayedFrom(fs, 0, w)
      && EndBytes(data[o..], 8 * (base - o), si) == TailError(tail)
    ensures CountBytes(data[o..], 8 * (base - o), si) == SampleOf(fs, |fs|)
  {
    hide Accept, FrameShaped, ByteBits, Packed, Rest, EndOf, CountFrom, ValidFrame, Flat, StartOf;
    FramesShaped(data, base, frames, fs, tail, si);
    StartZero(frames, base);
    RestPlays(data, base, frames, fs, tail, si, w, o, 0);
  }

  /** Skipping n samples of frame t, which take drop bytes, leaves exactly the suffix from
      that sample on, which starts at byte off. */
  lemma {:induction false} SuffixFromSample(fs: seq<FrameBits>, m: nat, w: nat, t: nat, n: nat, drop: nat, off: nat)
    requires AllShaped(fs, m) && t < |fs| && n < fs[t].hdr.blockSize
    requires drop == n * (m * w) && off == (SampleOf(fs, t) + n) * (m * w)
    ensures drop <= |Packed(fs[t], w)| && off <= |PlayedFrom(fs, 0, w)|
    ensures Packed(fs[t], w)[drop..] + PlayedFrom(fs, t + 1, w) == PlayedFrom(fs, 0, w)[off..]
  {
    hide SampleOf, FrameShaped, Packed, PlayedFrom;
    var a := SampleOf(fs, t) * (m * w);
    PlayedSplit(fs, m, w, t, a);
    PlayedStep(fs, t + 1, w);
    FrameSamples(fs[t], m, w);
    Distribute(SampleOf(fs, t), n, m * w);
    ProductLe(n, fs[t].hdr.blockSize, m * w);
    var all, p, rest := PlayedFrom(fs, 0, w), Packed(fs[t], w), PlayedFrom(fs, t + 1, w);
    SuffixOfSuffix(all, a, p, rest, drop);
  }

  lemma {:induction false} SuffixOfSuffix(all: seq<byte>, a: nat, p: seq<byte>, rest: seq<byte>, drop: nat)
    requires a <= |all| && all[a..] == p + rest && drop <= |p|
    ensures a + drop <= |all| && all[a + drop..] == p[drop..] + rest
  {
    assert all[a + drop..] == all[a..][drop..];
    assert (p + rest)[drop..] == p[drop..] + rest;
  }
}
