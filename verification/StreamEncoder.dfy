/** The streaming encoder (pcm/encoder.go): blocks carried across writes, frames handed to a
    sink that may fail, and the final rewrite of the metadata. */
module StreamEncoder {
  import opened Words
  import opened Cursor
  import opened BitWriter
  import SubframeSyntax
  import opened SubframeEncode
  import opened HeaderSyntax
  import opened FrameSyntax
  import opened FrameEncode
  import FrameDecode
  import opened Packing
  import opened Metadata

  const BLOCK: nat := 4096

  // ---- the sink ----

  function Overwrite(d: seq<byte>, at: nat, b: seq<byte>): (r: seq<byte>)
    requires at <= |d|
  {
    d[..at] + b + if at + |b| <= |d| then d[at + |b|..] else []
  }

  /** A writer that may be able to seek. A failed write may have written some bytes. */
  class Sink {
    var data: seq<byte>
    var pos: nat
    const seekable: bool
    /** Some operation has failed. */
    ghost var failed: bool

    constructor (seekable: bool)
      ensures data == [] && pos == 0 && this.seekable == seekable && !failed
    {
      data, pos, failed := [], 0, false;
      this.seekable := seekable;
    }

    method Write(p: seq<byte>) returns (ok: bool)
      requires pos <= |data|
      modifies this
      ensures pos <= |data| && |old(data)| <= |data| && failed == (old(failed) || !ok)
      ensures ok ==> data == Overwrite(old(data), old(pos), p) && pos == old(pos) + |p|
    {
      ok := *;
      var n: nat :| n <= |p|;
      if ok { n := |p|; }
      data, pos := Overwrite(data, pos, p[..n]), pos + n;
      failed := failed || !ok;
      assert p[..|p|] == p;
    }

    method Seek(at: nat) returns (ok: bool)
      requires pos <= |data| && at <= |data|
      modifies this`pos, this`failed
      ensures pos <= |data| && (ok ==> pos == at) && failed == (old(failed) || !ok)
    {
      ok := *;
      if ok { pos := at; }
      failed := failed || !ok;
    }
  }

  // ---- blocks ----

  function Flat(parts: seq<seq<byte>>): (r: seq<byte>)
  {
    if parts == [] then [] else Flat(parts[..|parts| - 1]) + parts[|parts| - 1]
  }

  lemma {:induction false} FlatSnoc(parts: seq<seq<byte>>, b: seq<byte>)
    ensures Flat(parts + [b]) == Flat(parts) + b
  {
    assert (parts + [b])[..|parts|] == parts;
  }

  predicate AllOf(parts: seq<seq<byte>>, n: nat)
  {
    forall i :: 0 <= i < |parts| ==> |parts[i]| == n
  }

  lemma {:induction false} FlatLength(parts: seq<seq<byte>>, n: nat)
    requires AllOf(parts, n)
    ensures |Flat(parts)| == |parts| * n
  {
    if parts != [] {
      FlatLength(parts[..|parts| - 1], n);
      Packing.RowLength(|parts| - 1, n);
    }
  }

  /** Blocks of one size and a shorter remainder are determined by their concatenation: how
      the input was split over writes cannot matter. */
  lemma {:induction false} ChunkingIndependence(a: seq<seq<byte>>, x: seq<byte>, b: seq<seq<byte>>, y: seq<byte>,
      n: nat)
    requires AllOf(a, n) && AllOf(b, n) && |x| < n && |y| < n && Flat(a) + x == Flat(b) + y
    ensures a == b && x == y
    decreases |a|
  {
    FlatLength(a, n);
    FlatLength(b, n);
    QuotUnique(|a|, |x|, |b|, |y|, n);
    assert |Flat(a)| == |Flat(b)|;
    assert Flat(a) == (Flat(a) + x)[..|Flat(a)|] == Flat(b);
    assert x == (Flat(a) + x)[|Flat(a)|..] == y;
    FlatInjective(a, b, n);
  }

  lemma {:induction false} FlatInjective(a: seq<seq<byte>>, b: seq<seq<byte>>, n: nat)
    requires AllOf(a, n) && AllOf(b, n) && |a| == |b| && Flat(a) == Flat(b)
    ensures a == b
    decreases |a|
  {
    if a != [] {
      var i := |a| - 1;
      var p, q := Flat(a[..i]), Flat(b[..i]);
      FlatLength(a[..i], n);
      FlatLength(b[..i], n);
      assert p == Flat(a)[..|p|] && q == Flat(b)[..|q|];
      assert a[i] == Flat(a)[|p|..] && b[i] == Flat(b)[|q|..];
      FlatInjective(a[..i], b[..i], n);
      assert a == a[..i] + [a[i]] && b == b[..i] + [b[i]];
    }
  }

  // ---- the encoder ----

  datatype Config = Config(sampleRate: nat, channels: nat, bitDepth: nat, totalSamples: nat, skipMd5: bool,
    params: Params,
    seekInterval: nat, seekMaxPoints: nat, extra: Option<seq<byte>>)
  {
    /** What validateConfig and the metadata layout accept. */
    predicate Valid()
    {
      && 1 <= sampleRate <= 655350 && 1 <= channels <= 8 && 4 <= bitDepth <= 32 && totalSamples < 0x10_0000_0000
      && ExtraFits(extra)
    }

    function BytesPS(): nat
    {
      (bitDepth + 7) / 8
    }

    function FrameLen(): (d: nat)
      ensures Valid() ==> d > 0
    {
      channels * BytesPS()
    }

    /** The number of reserved seek points: a default, and no more than a block can hold. */
    function MaxPoints(): (n: nat)
      ensures 1 <= n && 18 * n < 0x100_0000
    {
      Min(if seekMaxPoints == 0 then 4096 else seekMaxPoints, 0xFF_FFFF / 18)
    }

    function Info(): StreamInfo
    {
      StreamInfo(sampleRate, channels, bitDepth, totalSamples, Zero16())
    }
  }

  function Zero16(): (z: seq<byte>)
    ensures |z| == 16
  {
    seq(16, _ => 0)
  }

  /** A 16-byte digest of the hashed input; the digest algorithm is a parameter. */
  function Digest(hash: seq<byte> -> seq<byte>, data: seq<byte>): (d: seq<byte>)
    ensures |d| == 16
  {
    if |hash(data)| == 16 then hash(data) else Zero16()
  }

  /** frame is an encoding of the n-sample block chunk with the given number. */
  ghost predicate FrameFor(cfg: Config, frame: seq<byte>, chunk: seq<byte>, number: nat)
  {
    exists f, cs, ch :: EncodesBlock(cfg, frame, chunk, number, f, cs, ch)
  }

  ghost predicate EncodesBlock(cfg: Config, frame: seq<byte>, chunk: seq<byte>, number: nat, f: FrameBits,
      cs: seq<SubframeSyntax.Coding>, ch: seq<seq<int>>)
  {
    && EncodedAs(frame, f, cs, cfg.Info(), ch, number) && |ch| == cfg.channels
    && (exists four :: BestFrame(cfg.params, cfg.Info(), ch, f, cs, four))
    && Rectangular(ch, f.hdr.blockSize) && Pack(ch, f.hdr.blockSize, cfg.BytesPS()) == chunk
    && |chunk| == f.hdr.blockSize * cfg.FrameLen()
  }

  /** The points stand for the frames in marks, in order: their first sample, the length of
      all earlier frames, their own length. */
  ghost predicate PointsOk(cfg: Config, points: seq<SeekPoint>, marks: seq<nat>, blocks: seq<seq<byte>>,
      frames: seq<seq<byte>>)
  {
    && |points| == |marks| && |blocks| == |frames| && cfg.FrameLen() > 0
    && (forall i :: 0 <= i < |marks| ==> marks[i] < |frames| && PointFor(cfg, points[i], marks[i], blocks, frames))
    && forall i, j :: 0 <= i < j < |marks| ==> marks[i] < marks[j]
  }

  ghost predicate PointFor(cfg: Config, p: SeekPoint, k: nat, blocks: seq<seq<byte>>, frames: seq<seq<byte>>)
    requires k < |frames| == |blocks| && cfg.FrameLen() > 0
  {
    p.sampleNumber == BLOCK * k && p.byteOffset == |Flat(frames[..k])| && p.frameSamples * cfg.FrameLen() == |blocks[k]|
  }

  /** A frame starts a new interval when a multiple of it lies between the frame's first
      sample and the one of the frame before. */
  predicate Crosses(k: nat, interval: nat)
    requires interval > 0
  {
    k == 0 || (BLOCK * k) / interval > (BLOCK * (k - 1)) / interval
  }

  /** The frames below m that get a seek point while there is room. */
  function Crossings(m: nat, interval: nat): (ks: seq<nat>)
    requires interval > 0
  {
    if m == 0 then [] else Crossings(m - 1, interval) + if Crosses(m - 1, interval) then [m - 1] else []
  }

  function Take(ks: seq<nat>, n: nat): seq<nat>
  {
    ks[..Min(n, |ks|)]
  }

  /** The shortest and the longest frame, 0 without any. */
  function MinLen(frames: seq<seq<byte>>): nat
  {
    if frames == [] then 0
    else if |frames| == 1 then |frames[0]|
    else Min(MinLen(frames[..|frames| - 1]), |frames[|frames| - 1]|)
  }

  function MaxLen(frames: seq<seq<byte>>): nat
  {
    if frames == [] then 0
    else if |frames| == 1 then |frames[0]|
    else Max(MaxLen(frames[..|frames| - 1]), |frames[|frames| - 1]|)
  }

  /** The boundary after the first sample of frame k. */
  function BoundaryAfter(k: nat, interval: nat): nat
    requires interval > 0
  {
    ((BLOCK * k) / interval + 1) * interval
  }

  // ---- the metadata section ----

  /** The finished table block and the padding behind it. */
  function TableOf(points: seq<SeekPoint>, pad: seq<byte>): seq<byte>
  {
    EncodeBlockHeader(false, TYPE_SEEKTABLE, 18 * |points|) + EncodeSeekPoints(points)
      + EncodeBlockHeader(true, TYPE_PADDING, |pad|) + pad
  }

  /** The section written before any audio, with placeholders for what is not known yet. */
  function Section(cfg: Config, info: seq<byte>): seq<byte>
  {
    if cfg.seekInterval > 0 then TableSection(info, cfg.extra, Placeholders(cfg.MaxPoints()), [])
    else PlainSection(info, cfg.extra)
  }

  /** The section as Close leaves it. */
  function FinalSection(cfg: Config, info: seq<byte>, points: seq<SeekPoint>, pad: seq<byte>): seq<byte>
  {
    if cfg.seekInterval > 0 then TableSection(info, cfg.extra, points, pad) else PlainSection(info, cfg.extra)
  }

  /** The section before and after STREAMINFO. */
  function SectionMark(cfg: Config): (m: seq<byte>)
    ensures |m| == 8
  {
    MAGIC + EncodeBlockHeader(cfg.seekInterval == 0 && cfg.extra == None, TYPE_STREAMINFO, STREAMINFO_LEN)
  }

  function SectionRest(cfg: Config, points: seq<SeekPoint>, pad: seq<byte>): seq<byte>
  {
    if cfg.seekInterval > 0 then ExtraBlock(cfg.extra, false) + TableOf(points, pad) else ExtraBlock(cfg.extra, true)
  }

  /** The block size a header that cannot be patched advertises. */
  function UpfrontBlockSize(seekable: bool, cfg: Config): nat
  {
    if seekable then 0 else Max(if cfg.totalSamples > 0 then Min(cfg.totalSamples, BLOCK) else BLOCK, 16)
  }

  ghost predicate Headed(cfg: Config, seekable: bool, info: seq<byte>, head: seq<byte>)
  {
    var b := if cfg.seekInterval > 0 then 0 else UpfrontBlockSize(seekable, cfg);
    && cfg.Valid() && |info| == STREAMINFO_LEN && ByteBits(info) == EmitStreamInfo(cfg.Info(), Sizes(b, b, 0, 0))
    && head == Section(cfg, info) && (cfg.seekInterval > 0 ==> seekable)
  }

  // ---- the invariant of the encoder, part by part ----

  /** Counters and digest account for exactly the accepted blocks. */
  ghost predicate Counted(cfg: Config, frameNum: nat, total: nat, audioBytes: nat, hashed: seq<byte>,
      blocks: seq<seq<byte>>, frames: seq<seq<byte>>)
  {
    && frameNum == |blocks| == |frames| && total * cfg.FrameLen() == |Flat(blocks)|
    && audioBytes == |Flat(frames)| && hashed == (if cfg.skipMd5 then [] else Flat(blocks))
  }

  /** A block that the format can carry: its samples are within the depth, and its frame number
      within 36 bits. */
  predicate Suits(cfg: Config, chunk: seq<byte>, number: nat)
  {
    cfg.Valid() && SamplesFit(chunk, cfg.BytesPS(), cfg.bitDepth) && number < 0x10_0000_0000
  }

  /** Every accepted frame encodes its block, provided that it suits the format. */
  ghost predicate FramesFor(cfg: Config, blocks: seq<seq<byte>>, frames: seq<seq<byte>>)
  {
    && |frames| == |blocks|
    && forall i :: 0 <= i < |frames| ==> FrameOk(cfg, frames[i], blocks[i], i)
  }

  ghost predicate FrameOk(cfg: Config, frame: seq<byte>, chunk: seq<byte>, number: nat)
  {
    && frame != [] && |chunk| <= BLOCK * cfg.FrameLen()
    && (Suits(cfg, chunk, number) ==> FrameFor(cfg, frame, chunk, number))
  }

  predicate AllSuit(cfg: Config, blocks: seq<seq<byte>>)
  {
    forall i :: 0 <= i < |blocks| ==> Suits(cfg, blocks[i], i)
  }

  /** Every accepted frame encodes its block. */
  ghost predicate Faithful(cfg: Config, blocks: seq<seq<byte>>, frames: seq<seq<byte>>)
  {
    && |frames| == |blocks|
    && forall i :: 0 <= i < |frames| ==>
        frames[i] != [] && |blocks[i]| <= BLOCK * cfg.FrameLen() && FrameFor(cfg, frames[i], blocks[i], i)
  }

  lemma {:induction false} SuitedIsFaithful(cfg: Config, blocks: seq<seq<byte>>, frames: seq<seq<byte>>)
    requires FramesFor(cfg, blocks, frames) && AllSuit(cfg, blocks)
    ensures Faithful(cfg, blocks, frames)
  {
    hide FrameFor, Suits;
    forall i | 0 <= i < |frames|
      ensures frames[i] != [] && |blocks[i]| <= BLOCK * cfg.FrameLen() && FrameFor(cfg, frames[i], blocks[i], i)
    {
      assert Suits(cfg, blocks[i], i) && FrameOk(cfg, frames[i], blocks[i], i);
    }
  }

  /** The seek points are those of the first frames to cross an interval. */
  ghost predicate Recorded(cfg: Config, points: seq<SeekPoint>, marks: seq<nat>, nextBoundary: nat,
      blocks: seq<seq<byte>>, frames: seq<seq<byte>>)
  {
    && PointsOk(cfg, points, marks, blocks, frames)
    && (cfg.seekInterval == 0 ==> points == [])
    && (cfg.seekInterval > 0 ==>
      && marks == Take(Crossings(|frames|, cfg.seekInterval), cfg.MaxPoints())
      && (|marks| < cfg.MaxPoints() ==>
        nextBoundary == if frames == [] then cfg.seekInterval else BoundaryAfter(|frames| - 1, cfg.seekInterval)))
  }

  /** As long as no write failed, the sink holds the section and then the frames. */
  ghost predicate InSink(data: seq<byte>, pos: nat, clean: bool, head: seq<byte>, frames: seq<seq<byte>>)
  {
    pos <= |data| && |head| <= |data| && (clean ==> data == head + Flat(frames) && pos == |data|)
  }

  /** The block size bounds are those of the first block, so a short last block does not
      make the stream look like one of variable block size. */
  ghost predicate Sized(cfg: Config, wrote: bool, minBlock: nat, maxBlock: nat, minFrame: nat, maxFrame: nat,
      blocks: seq<seq<byte>>, frames: seq<seq<byte>>)
  {
    && (wrote <==> frames != []) && |blocks| == |frames| && (!wrote ==> minBlock == maxBlock == 0)
    && (wrote ==> minBlock == maxBlock && minBlock * cfg.FrameLen() == |blocks[0]| && 1 <= minBlock <= BLOCK)
    && minFrame == MinLen(frames) && maxFrame == MaxLen(frames)
  }

  class Encoder {
    const cfg: Config
    const sink: Sink
    const bw: Writer
    const work: Workspace
    const hash: seq<byte> -> seq<byte>
    /** Per-channel block buffers. */
    const ch: seq<array<int>>
    var leftover: seq<byte>
    var frameNum: nat
    var total: nat
    var wrote: bool
    var minBlock: nat
    var maxBlock: nat
    var minFrame: nat
    var maxFrame: nat
    var audioBytes: nat
    var points: seq<SeekPoint>
    var nextBoundary: nat
    /** Everything fed to the digest. */
    var hashed: seq<byte>
    var closed: bool

    /** The blocks and the frames the sink has accepted, and which frames have points. */
    ghost var blocks: seq<seq<byte>>
    ghost var frames: seq<seq<byte>>
    ghost var marks: seq<nat>
    /** No write to the sink has failed yet. */
    ghost var clean: bool
    /** The metadata section in front of the frames and the STREAMINFO in it. */
    ghost var head: seq<byte>
    ghost var info: seq<byte>

    function BlockBytes(): nat
    {
      BLOCK * cfg.FrameLen()
    }

    ghost predicate Fixed()
    {
      cfg.Valid() && |ch| == cfg.channels && Separate(ch, BLOCK) && work.cand.Length == 4
    }

    /** Everything but the sink. */
    ghost predicate Accounted()
      reads this
    {
      && Fixed() && Counted(cfg, frameNum, total, audioBytes, hashed, blocks, frames) && FramesFor(cfg, blocks, frames)
      && Recorded(cfg, points, marks, nextBoundary, blocks, frames)
      && Sized(cfg, wrote, minBlock, maxBlock, minFrame, maxFrame, blocks, frames)
      && Headed(cfg, sink.seekable, info, head)
    }

    ghost predicate Core()
      reads this, sink
    {
      Accounted() && InSink(sink.data, sink.pos, clean, head, frames)
    }

    /** Until the stream is closed every accepted block is full and less than a block is
        carried. */
    ghost predicate Valid()
      reads this, sink
    {
      && Accounted()
      && (!closed ==> (
        && InSink(sink.data, sink.pos, clean, head, frames) && total == BLOCK * |blocks|
        && AllOf(blocks, BlockBytes()) && |leftover| < BlockBytes()))
    }

    /** All bytes taken so far. */
    ghost function Input(): seq<byte>
      reads this
    {
      Flat(blocks) + leftover
    }

    ghost function Repr(): set<object>
    {
      {this, sink, bw, work, work.cand} + set c | 0 <= c < |ch| :: ch[c]
    }

    constructor (cfg: Config, sink: Sink, hash: seq<byte> -> seq<byte>)
      requires cfg.Valid()
      ensures this.cfg == cfg && this.sink == sink && this.hash == hash && Empty()
      ensures fresh(bw) && fresh(work) && fresh(work.cand) && forall c :: 0 <= c < |ch| ==> fresh(ch[c])
    {
      this.cfg, this.sink, this.hash := cfg, sink, hash;
      bw := new Writer();
      var w := new Workspace();
      work := w;
      var bufs := FrameDecode.EnsureChannels(cfg.channels, BLOCK);
      ch := bufs;
      leftover, frameNum, total, wrote, minBlock, maxBlock, minFrame, maxFrame, audioBytes := [], 0, 0, false, 0, 0, 0,
        0, 0;
      points, nextBoundary, hashed, closed := [], cfg.seekInterval, [], false;
      blocks, frames, marks, clean, head, info := [], [], [], true, [], [];
    }

    /** Nothing was taken or written yet. */
    ghost predicate Empty()
      reads this
    {
      && Fixed() && leftover == [] && frameNum == 0 && total == 0 && !wrote
        && minBlock == maxBlock == minFrame == maxFrame == audioBytes == 0
      && points == [] && nextBoundary == cfg.seekInterval && hashed == [] && !closed
      && blocks == [] && frames == [] && marks == [] && clean
    }

    /** Writes the marker and the metadata section with placeholders to a sink that stands at
        offset 0. */
    method WriteInitialMetadata() returns (err: Option<Error>)
      requires Empty() && sink.data == [] && sink.pos == 0
      modifies this`head, this`info, sink
      ensures err == None ==> Valid() && clean && blocks == [] && leftover == []
      ensures err == None || err == Some(IO) || err == Some(SeekUnsupported)
      ensures err == Some(SeekUnsupported) <==> cfg.seekInterval > 0 && !sink.seekable
      ensures sink.failed == (old(sink.failed) || err == Some(IO))
    {
      hide EncodeBlockHeader, EncodeSeekPoints, Placeholders, Section, Headed, Counted, FramesFor, Recorded, Sized,
        InSink, Config.Valid, UpfrontBlockSize, ByteBits, EmitStreamInfo, Config.FrameLen, Config.Info, AllOf;
      FixedFacts();
      if cfg.seekInterval > 0 && !sink.seekable {
        return Some(SeekUnsupported);
      }
      var b := if cfg.seekInterval > 0 then 0 else UpfrontBlockSize(sink.seekable, cfg);
      var si := StreamInfoBody(Sizes(b, b, 0, 0));
      info, head := si, Section(cfg, si);
      var ok := WriteSection(si);
      if !ok { return Some(IO); }
      HeadedNow(cfg, sink.seekable, si, head);
      NothingYet(cfg, sink.data, head);
      return None;
    }

    /** Writes the section block by block. */
    method WriteSection(si: seq<byte>) returns (ok: bool)
      requires sink.data == [] && sink.pos == 0
      modifies sink
      ensures sink.pos <= |sink.data| && (ok ==> sink.data == Section(cfg, si) && sink.pos == |sink.data|)
      ensures sink.failed == (old(sink.failed) || !ok)
    {
      hide EncodeBlockHeader, EncodeSeekPoints, Placeholders, Section, Config.MaxPoints;
      SectionParts(cfg, si);
      var last := cfg.seekInterval == 0 && cfg.extra == None;
      ok := Append(MAGIC + EncodeBlockHeader(last, TYPE_STREAMINFO, STREAMINFO_LEN) + si);
      if !ok { return; }
      if cfg.extra.Some? {
        ok := Append(EncodeBlockHeader(cfg.seekInterval == 0, TYPE_VORBIS_COMMENT, |cfg.extra.value|)
          + cfg.extra.value);
        if !ok { return; }
      }
      if cfg.seekInterval > 0 {
        ok := Append(EncodeBlockHeader(false, TYPE_SEEKTABLE, 18 * cfg.MaxPoints())
          + EncodeSeekPoints(Placeholders(cfg.MaxPoints())));
        if !ok { return; }
        ok := Append(EncodeBlockHeader(true, TYPE_PADDING, 0));
      }
    }

    /** Writes at the end of the sink. */
    method Append(b: seq<byte>) returns (ok: bool)
      requires sink.pos == |sink.data|
      modifies sink
      ensures sink.pos <= |sink.data| && (ok ==> sink.data == old(sink.data) + b && sink.pos == |sink.data|)
      ensures sink.failed == (old(sink.failed) || !ok)
    {
      assert sink.data[..sink.pos] == sink.data;
      ok := sink.Write(b);
    }

    method StreamInfoBody(z: Sizes) returns (b: seq<byte>)
      requires cfg.Valid()
      ensures |b| == STREAMINFO_LEN && ByteBits(b) == EmitStreamInfo(cfg.Info(), z)
    {
      b := EncodeStreamInfo(cfg.Info(), z);
    }

    // ---- one block ----

    /** Splits the chunk into channels and encodes it as the next frame. What is written for
        samples outside the depth, or behind the last frame number, is left open. */
    method EncodeChunk(chunk: seq<byte>, n: nat) returns (buf: seq<byte>)
      requires Fixed() && 1 <= n <= BLOCK && |chunk| == n * cfg.FrameLen()
      modifies bw, work, work.cand, ch
      ensures buf != [] && (Suits(cfg, chunk, frameNum) ==> FrameFor(cfg, buf, chunk, frameNum))
    {
      hide EncodedAs, AllFit, Pack, SamplesFit, EncodesBlock, Encodable;
      Deinterleave(ch, chunk, n, cfg.BytesPS(), cfg.bitDepth);
      var chs := Heads(ch, n);
      if Suits(cfg, chunk, frameNum) { BlockOf(cfg, chs, n, frameNum); }
      if !Encodable(cfg.Info(), chs, frameNum) {
        buf :| buf != [];
        return;
      }
      ghost var f, cs, four;
      buf, f, cs, four := EncodeFrame(bw, work, cfg.params, cfg.Info(), chs, frameNum);
      ChunkEncoded(cfg, buf, chunk, frameNum, f, cs, four, chs, n);
    }

    /** A new seek point for the frame just written, when it crosses a boundary and there is
        room. */
    method RecordPoint(n: nat, ghost chunk: seq<byte>, ghost buf: seq<byte>)
      requires cfg.Valid() && |blocks| == |frames| && Recorded(cfg, points, marks, nextBoundary, blocks, frames)
        && |chunk| == n * cfg.FrameLen()
      requires total == BLOCK * |blocks| && audioBytes == |Flat(frames)| && (audioBytes == 0 <==> frames == [])
      modifies this`points, this`nextBoundary, this`marks
      ensures Recorded(cfg, points, marks, nextBoundary, blocks + [chunk], frames + [buf])
    {
      ghost var k := |frames|;
      AppendKeeps(cfg, points, marks, blocks, frames, chunk, buf);
      if cfg.seekInterval > 0 && |points| < cfg.MaxPoints() {
        BoundaryStep(k, cfg.seekInterval, total);
        CrossingsBound(k, cfg.seekInterval, cfg.MaxPoints());
        if audioBytes == 0 || total >= nextBoundary {
          AppendPoint(cfg, points, marks, blocks, frames, chunk, buf, SeekPoint(total, audioBytes, n));
          points := points + [SeekPoint(total, audioBytes, n)];
          marks := marks + [k];
          if total >= nextBoundary {
            var steps := (total - nextBoundary) / cfg.seekInterval + 1;
            nextBoundary := nextBoundary + steps * cfg.seekInterval;
          }
        }
      }
    }

    /** Encodes chunk, n samples of every channel, writes the frame, and only then counts
        it. When the sink fails nothing changes but the sink. */
    method EmitBlock(chunk: seq<byte>, n: nat, final: bool) returns (ok: bool)
      requires Core() && 1 <= n <= BLOCK && |chunk| == n * cfg.FrameLen()
      requires total == BLOCK * |blocks| && (!final ==> n == BLOCK && AllOf(blocks, BlockBytes()))
      modifies Repr()
      ensures Core() && leftover == old(leftover) && closed == old(closed) && head == old(head)
      ensures ok ==> blocks == old(blocks) + [chunk] && total == old(total) + n && clean == old(clean)
      ensures !ok ==> blocks == old(blocks) && frames == old(frames) && points == old(points) && marks == old(marks)
      ensures !ok ==>
        total == old(total) && hashed == old(hashed) && frameNum == old(frameNum) && audioBytes == old(audioBytes)
      ensures sink.failed == (old(sink.failed) || !ok)
    {
      hide Counted, FramesFor, Recorded, InSink, Sized, Headed, SamplesFit, FrameFor, Flat, Fixed, Config.Valid,
        Config.FrameLen;
      CoreFacts(cfg, frameNum, total, audioBytes, hashed, blocks, frames, sink.data, sink.pos, clean, head);
      FixedFacts();
      var buf := EncodeChunk(chunk, n);
      ghost var was := sink.data;
      ok := sink.Write(buf);
      if !ok {
        InSinkDirty(sink.data, sink.pos, head, frames);
        clean := false;
        return;
      }
      InSinkSnoc(was, sink.data, old(sink.pos), sink.pos, clean, head, frames, buf);
      CountFrame(chunk, n, buf, final);
    }

    lemma {:induction false} FixedFacts()
      requires Fixed()
      ensures cfg.Valid()
    {
    }

    /** What an accepted frame changes: digest, seek points, bounds and counters. */
    method CountFrame(chunk: seq<byte>, n: nat, buf: seq<byte>, final: bool)
      requires Fixed() && Counted(cfg, frameNum, total, audioBytes, hashed, blocks, frames)
        && FramesFor(cfg, blocks, frames)
      requires Recorded(cfg, points, marks, nextBoundary, blocks, frames)
        && InSink(sink.data, sink.pos, clean, head, frames + [buf])
      requires Sized(cfg, wrote, minBlock, maxBlock, minFrame, maxFrame, blocks, frames)
      requires frameNum == |blocks| == |frames| && audioBytes == |Flat(frames)| && (audioBytes == 0 <==> frames == [])
      requires 1 <= n <= BLOCK && |chunk| == n * cfg.FrameLen() && total == BLOCK * |blocks|
        && (!final ==> n == BLOCK && AllOf(blocks, BlockBytes()))
      requires buf != [] && (Suits(cfg, chunk, frameNum) ==> FrameFor(cfg, buf, chunk, frameNum))
      requires Headed(cfg, sink.seekable, info, head)
      modifies this`hashed, this`points, this`nextBoundary, this`marks, this`minBlock, this`maxBlock, this`minFrame,
        this`maxFrame, this`wrote
      modifies this`audioBytes, this`frameNum, this`total, this`blocks, this`frames
      ensures Core() && blocks == old(blocks) + [chunk] && total == old(total) + n
    {
      hide Counted, FramesFor, Recorded, InSink, Sized, Headed, FrameFor, Flat, Fixed, Config.Valid, Config.FrameLen,
        AllOf, BlockBytes;
      FixedFacts();
      ProductLe(n, BLOCK, cfg.FrameLen());
      FramesForSnoc(cfg, blocks, frames, chunk, buf);
      Tally(chunk, n, buf, final);
      blocks, frames := blocks + [chunk], frames + [buf];
    }

    /** The same for everything but the blocks themselves. */
    method Tally(chunk: seq<byte>, n: nat, buf: seq<byte>, final: bool)
      requires cfg.Valid() && Counted(cfg, frameNum, total, audioBytes, hashed, blocks, frames)
      requires Recorded(cfg, points, marks, nextBoundary, blocks, frames)
        && Sized(cfg, wrote, minBlock, maxBlock, minFrame, maxFrame, blocks, frames)
      requires frameNum == |blocks| == |frames| && audioBytes == |Flat(frames)| && (audioBytes == 0 <==> frames == [])
      requires 1 <= n <= BLOCK && |chunk| == n * cfg.FrameLen() && total == BLOCK * |blocks|
        && (!final ==> n == BLOCK && AllOf(blocks, BlockBytes()))
      modifies this`hashed, this`points, this`nextBoundary, this`marks, this`minBlock, this`maxBlock, this`minFrame,
        this`maxFrame, this`wrote
      modifies this`audioBytes, this`frameNum, this`total
      ensures Counted(cfg, frameNum, total, audioBytes, hashed, blocks + [chunk], frames + [buf])
        && total == old(total) + n
      ensures Recorded(cfg, points, marks, nextBoundary, blocks + [chunk], frames + [buf])
      ensures Sized(cfg, wrote, minBlock, maxBlock, minFrame, maxFrame, blocks + [chunk], frames + [buf])
    {
      hide Counted, Recorded, Sized, Flat, Config.Valid, Config.FrameLen, AllOf, BlockBytes;
      RecordPoint(n, chunk, buf);
      BoundSizes(chunk, n, buf, final);
      AddUp(chunk, n, buf);
    }

    /** The digest input and the counters. */
    method AddUp(chunk: seq<byte>, n: nat, buf: seq<byte>)
      requires Counted(cfg, frameNum, total, audioBytes, hashed, blocks, frames) && |chunk| == n * cfg.FrameLen()
      modifies this`hashed, this`audioBytes, this`frameNum, this`total
      ensures Counted(cfg, frameNum, total, audioBytes, hashed, blocks + [chunk], frames + [buf])
        && total == old(total) + n
    {
      hide Counted, Flat, Config.FrameLen;
      ghost var before := hashed;
      if !cfg.skipMd5 { hashed := hashed + chunk; }
      CountedSnoc(cfg, frameNum, total, audioBytes, before, hashed, blocks, frames, chunk, buf, n);
      audioBytes, frameNum, total := audioBytes + |buf|, frameNum + 1, total + n;
    }

    /** Folds the frame into the size bounds. The last block, which may be short, does not
        count for the block size. */
    method BoundSizes(ghost chunk: seq<byte>, n: nat, buf: seq<byte>, final: bool)
      requires cfg.Valid() && Sized(cfg, wrote, minBlock, maxBlock, minFrame, maxFrame, blocks, frames)
      requires 1 <= n <= BLOCK && |chunk| == n * cfg.FrameLen()
        && (!final ==> n == BLOCK && AllOf(blocks, BlockBytes()))
      modifies this`minBlock, this`maxBlock, this`minFrame, this`maxFrame, this`wrote
      ensures Sized(cfg, wrote, minBlock, maxBlock, minFrame, maxFrame, blocks + [chunk], frames + [buf])
    {
      hide MinLen, MaxLen;
      LenSnoc(frames, buf);
      var sz := |buf|;
      if !wrote {
        minFrame, maxFrame, minBlock, maxBlock, wrote := sz, sz, n, n, true;
      } else {
        minFrame, maxFrame := Min(minFrame, sz), Max(maxFrame, sz);
        if !final {
          SameBlock(minBlock, cfg.FrameLen());
          minBlock, maxBlock := Min(minBlock, n), Max(maxBlock, n);
        }
      }
    }

    // ---- the stream ----

    /** All blocks are full and counted as such. */
    ghost predicate Open()
      reads this, sink
    {
      Core() && total == BLOCK * |blocks| && AllOf(blocks, BlockBytes())
    }

    /** One full block of the input. */
    method EmitFull(chunk: seq<byte>) returns (ok: bool)
      requires Open() && |chunk| == BlockBytes()
      modifies Repr()
      ensures Open() && leftover == old(leftover) && closed == old(closed) && head == old(head)
      ensures ok ==> Flat(blocks) == old(Flat(blocks)) + chunk && clean == old(clean)
      ensures !ok ==> Flat(blocks) == old(Flat(blocks))
      ensures old(blocks) <= blocks
      ensures sink.failed == (old(sink.failed) || !ok)
    {
      hide Counted, FramesFor, Recorded, InSink, Sized, Headed, FrameFor, Flat, Config.Valid, Config.FrameLen, AllOf,
        Fixed;
      FixedFacts();
      FlatSnoc(blocks, chunk);
      AllOfSnoc(blocks, chunk, BlockBytes());
      CoreFacts(cfg, frameNum, total, audioBytes, hashed, blocks, frames, sink.data, sink.pos, clean, head);
      ok := EmitBlock(chunk, BLOCK, false);
    }

    lemma {:induction false} BlockPositive()
      requires cfg.Valid()
      ensures BlockBytes() > 0
    {
      ProductLe(1, cfg.BytesPS(), cfg.channels);
    }

    /** Emits whole blocks straight from q and carries the remainder. */
    method WriteBlocks(q: seq<byte>) returns (n: nat, err: Option<Error>)
      requires Open() && leftover == []
      modifies Repr()
      ensures Open() && closed == old(closed) && head == old(head) && n <= |q| && old(blocks) <= blocks
        && |leftover| < BlockBytes()
      ensures Input() == old(Input()) + q[..n] && (err == None || err == Some(IO))
      ensures err == None ==> n == |q| && clean == old(clean)
      ensures sink.failed == (old(sink.failed) || err == Some(IO))
    {
      hide Counted, FramesFor, Recorded, InSink, Sized, Headed, SamplesFit, FrameFor, Flat, Config.Valid,
        Config.FrameLen, AllOf, Fixed, BlockBytes;
      FixedFacts();
      BlockPositive();
      var blockBytes := BlockBytes();
      n, err := 0, None;
      assert Input() == Flat(blocks) by { assert Flat(blocks) + [] == Flat(blocks); }
      assert q[..0] == [] && Flat(blocks) + [] == Flat(blocks);
      while |q| - n >= blockBytes
        invariant n <= |q| && Open() && leftover == [] && closed == old(closed) && head == old(head)
          && clean == old(clean) && old(blocks) <= blocks
        invariant sink.failed == old(sink.failed)
        invariant Flat(blocks) == old(Flat(blocks)) + q[..n]
      {
        var chunk := q[n..n + blockBytes];
        assert q[..n + blockBytes] == q[..n] + chunk;
        var ok := EmitFull(chunk);
        if !ok {
          assert Flat(blocks) + [] == Flat(blocks);
          return n, Some(IO);
        }
        n := n + blockBytes;
      }
      leftover := q[n..];
      assert q[..n] + q[n..] == q == q[..|q|];
      Cat3(old(Flat(blocks)), q[..n], q[n..]);
      n := |q|;
    }

    /** The carried bytes and the first need bytes of p make a block. */
    method EmitCarried(p: seq<byte>, need: nat) returns (ok: bool)
      requires Open() && need <= |p| && |leftover| + need == BlockBytes()
      modifies Repr()
      ensures Open() && closed == old(closed) && head == old(head) && old(blocks) <= blocks
      ensures !ok ==> Flat(blocks) == old(Flat(blocks)) && leftover == old(leftover)
      ensures sink.failed == (old(sink.failed) || !ok)
      ensures ok ==>
        leftover == [] && Input() == old(Input()) + p[..need] && clean == old(clean)
    {
      hide Counted, FramesFor, Recorded, InSink, Sized, Headed, SamplesFit, FrameFor, Flat, Config.Valid,
        Config.FrameLen, AllOf, Fixed, BlockBytes;
      ok := EmitFull(leftover + p[..need]);
      if ok {
        Cat3(old(Flat(blocks)), leftover, p[..need]);
        leftover := [];
        assert Flat(blocks) + [] == Flat(blocks);
      }
    }

    /** Takes interleaved bytes. Whole blocks go out as frames, the rest is carried. The count
        returned, also after a failed write, is that of the bytes now accounted for: the input
        taken so far has grown by exactly them. */
    method Write(p: seq<byte>) returns (n: nat, err: Option<Error>)
      requires Valid()
      modifies Repr()
      ensures Valid() && closed == old(closed) && head == old(head) && n <= |p| && old(blocks) <= blocks
      ensures old(closed) ==> n == 0 && err == Some(Closed) && Input() == old(Input()) && blocks == old(blocks)
      ensures !old(closed) ==> Input() == old(Input()) + p[..n] && (err == None || err == Some(IO))
      ensures err == None ==> n == |p| && clean == old(clean)
      ensures sink.failed == (old(sink.failed) || err == Some(IO))
    {
      hide Counted, FramesFor, Recorded, InSink, Sized, Headed, SamplesFit, FrameFor, Flat, Config.Valid,
        Config.FrameLen, AllOf, Fixed, BlockBytes;
      if closed {
        return 0, Some(Closed);
      }
      FixedFacts();
      BlockPositive();
      var blockBytes := BlockBytes();
      var written, q := 0, p;
      if leftover != [] {
        var need := blockBytes - |leftover|;
        if |p| < need {
          Cat3(Flat(blocks), leftover, p);
          leftover := leftover + p;
          assert p[..|p|] == p;
          return |p|, None;
        }
        var ok := EmitCarried(p, need);
        if !ok {
          assert p[..0] == [] && Input() + [] == Input();
          return 0, Some(IO);
        }
        q, written := p[need..], need;
      }
      n, err := WriteBlocks(q);
      assert p[..written] + q[..n] == p[..written + n];
      n := written + n;
    }

    // ---- the metadata ----

    /** Where the body of the seek table starts. */
    function SeekBodyOff(): nat
    {
      8 + STREAMINFO_LEN + |ExtraBlock(cfg.extra, false)| + 4
    }

    /** Positions the sink and writes there. */
    method Patch(at: nat, b: seq<byte>) returns (ok: bool)
      requires sink.pos <= |sink.data| && at <= |sink.data|
      modifies sink
      ensures sink.pos <= |sink.data| && |old(sink.data)| <= |sink.data|
        && (ok ==> sink.data == Overwrite(old(sink.data), at, b))
      ensures sink.failed == (old(sink.failed) || !ok)
    {
      ok := sink.Seek(at);
      if ok { ok := sink.Write(b); }
    }

    /** Puts the recorded points into the reserved table and, when some places stay unused,
        shrinks the block and turns the rest into padding. */
    method PatchTable(ghost known: bool, ghost front: seq<byte>, ghost audio: seq<byte>)
      returns (ok: bool, ghost pad: seq<byte>)
      requires cfg.Valid() && |points| <= cfg.MaxPoints() && sink.pos <= |sink.data|
      requires SeekBodyOff() + 18 * cfg.MaxPoints() + 4 <= |sink.data|
      requires known ==>
        |front| == SeekBodyOff() - 4 && sink.data == front + TableOf(Placeholders(cfg.MaxPoints()), []) + audio
      modifies sink
      ensures sink.pos <= |sink.data|
      ensures ok ==> |pad| == 18 * (cfg.MaxPoints() - |points|)
      ensures ok && known ==> sink.data == front + TableOf(points, pad) + audio
      ensures sink.failed == (old(sink.failed) || !ok)
    {
      hide EncodeBlockHeader, EncodeSeekPoints, Overwrite, Config.Valid, Placeholders, ExtraBlock;
      var used, max, off := |points|, cfg.MaxPoints(), SeekBodyOff();
      ghost var st, pd := EncodeBlockHeader(false, TYPE_SEEKTABLE, 18 * max), EncodeBlockHeader(true, TYPE_PADDING, 0);
      ghost var old18 := EncodeSeekPoints(Placeholders(max));
      var pts := EncodeSeekPoints(points);
      ghost var rest := old18[18 * used..] + pd;
      pad := rest[4..];
      OverwriteAt(front + st, old18[..18 * used], rest + audio, pts);
      assert old18 == old18[..18 * used] + old18[18 * used..];
      assert TableOf(Placeholders(max), []) == st + (old18[..18 * used] + rest);
      if known { assert sink.data == front + st + old18[..18 * used] + (rest + audio); }
      ok := Patch(off, pts);
      if !ok { return; }
      if used < max {
        if known { assert sink.data == front + (st + pts) + (rest + audio); }
        ok := ShrinkTable(known, front, audio, off, rest);
      } else if known {
        assert old18[18 * used..] == [] && rest == pd && pad == [];
        assert sink.data == front + (st + pts + pd + pad) + audio;
      }
    }

    /** The header for fewer points, and a padding header behind them. */
    method ShrinkTable(ghost known: bool, ghost front: seq<byte>, ghost audio: seq<byte>, off: nat,
        ghost rest: seq<byte>) returns (ok: bool)
      requires |points| < cfg.MaxPoints() && sink.pos <= |sink.data| && 4 <= off
        && off + 18 * cfg.MaxPoints() + 4 <= |sink.data|
      requires |rest| == 18 * (cfg.MaxPoints() - |points|) + 4
      requires known ==> |front| == off - 4
      requires known ==>
        sink.data == front
        + (EncodeBlockHeader(false, TYPE_SEEKTABLE, 18 * cfg.MaxPoints()) + EncodeSeekPoints(points)) + (rest + audio)
      modifies sink
      ensures sink.pos <= |sink.data| && (ok && known ==> sink.data == front + TableOf(points, rest[4..]) + audio)
      ensures sink.failed == (old(sink.failed) || !ok)
    {
      hide EncodeBlockHeader, EncodeSeekPoints, Overwrite, Config.MaxPoints;
      var used, max := |points|, cfg.MaxPoints();
      ghost var st, pts, pad := EncodeBlockHeader(false, TYPE_SEEKTABLE, 18 * max), EncodeSeekPoints(points), rest[4..];
      var st', pd' := EncodeBlockHeader(false, TYPE_SEEKTABLE, used * 18),
        EncodeBlockHeader(true, TYPE_PADDING, (max - used) * 18);
      OverwriteAt(front, st, pts + (rest + audio), st');
      if known { assert sink.data == front + st + (pts + (rest + audio)); }
      ok := Patch(off - 4, st');
      if !ok { return; }
      OverwriteAt(front + st' + pts, rest[..4], pad + audio, pd');
      if known { assert sink.data == front + st' + pts + rest[..4] + (pad + audio); }
      ok := Patch(off + used * 18, pd');
      if ok && known { assert sink.data == front + (st' + pts + pd' + pad) + audio; }
    }

    /** What the finished header says. */
    function FinalInfo(): StreamInfo
      reads this
    {
      cfg.Info().(totalSamples := total, md5 := if cfg.skipMd5 then Zero16() else Digest(hash, hashed))
    }

    function FinalSizes(): Sizes
      reads this
    {
      Sizes(Max(minBlock, 16), Max(maxBlock, 16), minFrame, maxFrame)
    }

    /** The number of samples fits its field in STREAMINFO; everything else always does. */
    predicate FieldsFit()
      reads this
    {
      total < 0x10_0000_0000
    }

    /** Emits what is still carried as a last, possibly short, block. */
    method Flush() returns (err: Option<Error>)
      requires Open() && |leftover| < BlockBytes()
      modifies Repr()
      ensures Core() && closed == old(closed)
      ensures err == Some(PartialSample) ==> blocks == old(blocks) && leftover == old(leftover) && clean == old(clean)
      ensures err == Some(PartialSample) <==> |old(leftover)| % cfg.FrameLen() != 0
      ensures sink.failed == (old(sink.failed) || err == Some(IO))
      ensures err == None || err == Some(PartialSample) || err == Some(IO)
      ensures err == None ==> clean == old(clean) && leftover == [] && Flat(blocks) == old(Input())
      ensures err == None ==> blocks == old(blocks) + if old(leftover) == [] then [] else [old(leftover)]
    {
      hide Counted, FramesFor, Recorded, InSink, Sized, Headed, SamplesFit, FrameFor, Flat, Config.Valid, AllOf, Fixed;
      FixedFacts();
      BlockPositive();
      if leftover != [] {
        var frameLen := cfg.FrameLen();
        if |leftover| % frameLen != 0 { return Some(PartialSample); }
        var n := |leftover| / frameLen;
        WholeSamples(|leftover|, n, frameLen);
        CoreFacts(cfg, frameNum, total, audioBytes, hashed, blocks, frames, sink.data, sink.pos, clean, head);
        FlatSnoc(blocks, leftover);
        var ok := EmitBlock(leftover, n, true);
        if !ok { return Some(IO); }
      } else {
        assert blocks + [] == blocks && Flat(blocks) + [] == Flat(blocks);
      }
      leftover := [];
      err := None;
    }

    /** The finished section: final STREAMINFO, and the recorded points with padding in the
        place that was reserved. */
    ghost predicate Finished(final: seq<byte>, pad: seq<byte>)
      reads this, sink
    {
      if !sink.seekable then sink.data == head + Flat(frames) else
        && |final| == STREAMINFO_LEN && cfg.Valid() && ByteBits(final) == EmitStreamInfo(FinalInfo(), FinalSizes())
        && sink.data == FinalSection(cfg, final, points, pad) + Flat(frames)
        && |FinalSection(cfg, final, points, pad)| == |head| && |pad| <= 18 * cfg.MaxPoints()
    }

    /** Rewrites STREAMINFO and the seek table in place. */
    method PatchHeader() returns (ok: bool, ghost final: seq<byte>, ghost pad: seq<byte>)
      requires Core() && sink.seekable
      modifies sink
      ensures sink.pos <= |sink.data| && (ok && clean ==> Finished(final, pad))
      ensures sink.failed == (old(sink.failed) || !ok)
    {
      hide EncodeBlockHeader, EncodeSeekPoints, Placeholders, Counted, FramesFor, Recorded, Sized, Headed, InSink,
        Config.Valid, Config.MaxPoints,
        FinalSection, Section, Overwrite, ByteBits, EmitStreamInfo, Flat;
      FixedFacts();
      HeadFacts(cfg, sink.seekable, info, head, points, marks, nextBoundary, blocks, frames, sink.data, sink.pos,
        clean);
      final, pad := [], [];
      InfoValid(cfg);
      var body := EncodeStreamInfo(FinalInfo(), FinalSizes());
      final := body;
      ghost var rest := SectionRest(cfg, Placeholders(cfg.MaxPoints()), []);
      OverwriteAt(SectionMark(cfg), info, rest + Flat(frames), body);
      ok := Patch(8, body);
      if !ok { return; }
      if cfg.seekInterval > 0 {
        RestIsTable(cfg, body, Placeholders(cfg.MaxPoints()), [], Flat(frames));
        ok, pad := PatchTable(clean, SectionMark(cfg) + body + ExtraBlock(cfg.extra, false), Flat(frames));
        if !ok { return; }
        RestIsTable(cfg, body, points, pad, Flat(frames));
      }
      FinalIs(cfg, info, final, points, pad, Flat(frames));
    }

    lemma {:induction false} NotRewritten(final: seq<byte>, pad: seq<byte>)
      requires InSink(sink.data, sink.pos, clean, head, frames) && !sink.seekable
      ensures clean ==> Finished(final, pad)
    {
    }

    /** Flushes the last block and finalizes the header. Closing again does nothing. */
    method Close() returns (err: Option<Error>, ghost final: seq<byte>, ghost pad: seq<byte>)
      requires Valid()
      modifies Repr()
      ensures Valid() && closed
      ensures old(closed) ==>
        err == None && sink.data == old(sink.data) && blocks == old(blocks) && Input() == old(Input())
      ensures !old(closed) && err == None ==> leftover == [] && Input() == old(Input())
      ensures !old(closed) && err == None ==>
        blocks == old(blocks) + if old(leftover) == [] then [] else [old(leftover)]
      ensures !old(closed) && err == None && old(clean) ==> Finished(final, pad)
      ensures !old(closed) && err == None && cfg.totalSamples > 0 ==> total == cfg.totalSamples
      ensures sink.failed == (old(sink.failed) || err == Some(IO))
      ensures err == Some(PartialSample) ==> !old(closed) && |old(leftover)| % cfg.FrameLen() != 0
      ensures err == Some(WrongTotal) ==>
        !old(closed) && leftover == [] && Input() == old(Input()) && cfg.totalSamples > 0 && total != cfg.totalSamples
      ensures err == None || err == Some(IO) || err == Some(PartialSample) || err == Some(WrongTotal)
    {
      hide Counted, FramesFor, Recorded, Sized, Headed, InSink, Config.Valid, Flat, Finished, AllOf, BlockBytes,
        SamplesFit, Fixed;
      final, pad := [], [];
      if closed { return None, final, pad; }
      closed := true;
      err := Flush();
      if err.Some? { return; }
      if cfg.totalSamples > 0 && total != cfg.totalSamples { return Some(WrongTotal), final, pad; }
      if !sink.seekable {
        NotRewritten(final, pad);
        return;
      }
      var ok;
      ok, final, pad := PatchHeader();
      if !ok { return Some(IO), final, pad; }
    }

    /** The properties that the finished stream declares. */
    ghost function Declared(): StreamMeta
      reads this
    {
      var b := UpfrontBlockSize(false, cfg);
      if sink.seekable then StreamMeta(FinalInfo(), Max(minBlock, 16), Max(maxBlock, 16), maxFrame, points)
      else StreamMeta(cfg.Info(), b, b, 0, [])
    }

    /** A stream that could not be patched is readable as well. */
    lemma {:induction false} ReadableUnpatched(final: seq<byte>, pad: seq<byte>, end: Error)
      requires Accounted() && Finished(final, pad) && !sink.seekable
      ensures GetMetadata(Cursor.Stream.Stream(ByteBits(sink.data), end), 0) == Ok(Declared(), 8 * |head|)
    {
      hide Flat, ByteBits, EmitStreamInfo, PlainSection, Digest, GetMetadata, Counted, FramesFor, Recorded, Sized;
      var s := Cursor.Stream.Stream(ByteBits(sink.data), end);
      var b := UpfrontBlockSize(false, cfg);
      WholeAt(sink.data, end);
      PlainRoundTrip(s, info, cfg.extra, cfg.Info(), Sizes(b, b, 0, 0), Flat(frames));
    }

    /** The seek-table rewrite: what Close leaves is read back as the stream's properties and
        exactly the recorded points, the audio still starts where it always did, and the
        points have increasing samples and the byte positions of their frames. */
    lemma {:induction false} Readable(final: seq<byte>, pad: seq<byte>, end: Error)
      requires Accounted() && Faithful(cfg, blocks, frames) && Finished(final, pad) && sink.seekable && FieldsFit()
      ensures GetMetadata(Cursor.Stream.Stream(ByteBits(sink.data), end), 0) == Ok(Declared(), 8 * |head|)
      ensures PointsExact(points, marks, frames)
    {
      hide Flat, Headed, ByteBits, EmitStreamInfo, TableSection, PlainSection, FrameFor, Digest, Crossings,
        BoundaryAfter, GetMetadata, PointFor, MinLen, MaxLen, FramesFor, Faithful;
      var s := Cursor.Stream.Stream(ByteBits(sink.data), end);
      var z := FinalSizes();
      LenOrder(frames);
      FramesSmall(cfg, blocks, frames);
      assert InfoFits(FinalInfo(), z);
      WholeAt(sink.data, end);
      PointsOfFrames(cfg, points, marks, blocks, frames);
      if cfg.seekInterval > 0 {
        PointsFit(cfg, points, marks, blocks, frames);
        TableRoundTrip(s, final, cfg.extra, points, pad, FinalInfo(), z, Flat(frames));
      } else {
        PlainRoundTrip(s, final, cfg.extra, FinalInfo(), z, Flat(frames));
      }
    }
  }

  /** The points have strictly increasing sample numbers, those of the first samples of their
      frames, and as byte offsets the length of all earlier frames. */
  predicate PointsExact(points: seq<SeekPoint>, marks: seq<nat>, frames: seq<seq<byte>>)
  {
    && |points| == |marks|
    && (forall i, j :: 0 <= i < j < |points| ==> points[i].sampleNumber < points[j].sampleNumber)
    && (forall i :: 0 <= i < |points| ==> marks[i] < |frames| && points[i].sampleNumber == BLOCK * marks[i])
    && forall i :: 0 <= i < |points| ==> points[i].byteOffset == |Flat(frames[..marks[i]])|
  }

  // ---- facts about single steps ----

  lemma {:induction false} BlockOf(cfg: Config, chs: seq<seq<int>>, n: nat, number: nat)
    requires cfg.Valid() && |chs| == cfg.channels && Rectangular(chs, n) && 1 <= n <= BLOCK && number < 0x10_0000_0000
    requires forall c :: 0 <= c < |chs| ==> AllFit(chs[c], cfg.bitDepth)
    ensures Encodable(cfg.Info(), chs, number)
  {
    hide AllFit;
  }

  lemma {:induction false} ChunkEncoded(cfg: Config, buf: seq<byte>, chunk: seq<byte>, number: nat, f: FrameBits,
      cs: seq<SubframeSyntax.Coding>, four: Option<Four>, chs: seq<seq<int>>, n: nat)
    requires EncodedAs(buf, f, cs, cfg.Info(), chs, number) && BestFrame(cfg.params, cfg.Info(), chs, f, cs, four)
    requires |chs| == cfg.channels > 0 && Rectangular(chs, n)
    requires Pack(chs, n, cfg.BytesPS()) == chunk && |chunk| == n * cfg.FrameLen()
    ensures buf != [] && FrameFor(cfg, buf, chunk, number)
  {
    hide Pack, EmitFrame, InDepth, FrameShaped, Pcm, BestFrame;
    PcmSize(f, chs);
    FrameNotEmpty(f, cs);
    assert EncodesBlock(cfg, buf, chunk, number, f, cs, chs);
  }

  lemma {:induction false} PcmSize(f: FrameBits, chs: seq<seq<int>>)
    requires FrameShaped(f) && Pcm(f) == chs && chs != []
    ensures |chs[0]| == f.hdr.blockSize
  {
    PcmLength(f);
  }

  lemma {:induction false} FrameNotEmpty(f: FrameBits, cs: seq<SubframeSyntax.Coding>)
    requires f.hdr.blockSize >= 1 && SubsWritable(f.hdr, f.subs, cs, 0)
    ensures |EmitFrame(f, cs)| >= 16
  {
    hide EmitUnsealed, BytesOf, Crc.Checksum16;
  }

  /** The earlier points still hold once another frame follows. */
  lemma {:induction false} AppendKeeps(cfg: Config, points: seq<SeekPoint>, marks: seq<nat>, blocks: seq<seq<byte>>,
      frames: seq<seq<byte>>, chunk: seq<byte>, buf: seq<byte>)
    requires PointsOk(cfg, points, marks, blocks, frames)
    ensures PointsOk(cfg, points, marks, blocks + [chunk], frames + [buf])
  {
    forall i | 0 <= i < |marks| ensures PointFor(cfg, points[i], marks[i], blocks + [chunk], frames + [buf]) {
      assert PointFor(cfg, points[i], marks[i], blocks, frames);
      assert (frames + [buf])[..marks[i]] == frames[..marks[i]];
    }
  }

  lemma {:induction false} AppendPoint(cfg: Config, points: seq<SeekPoint>, marks: seq<nat>, blocks: seq<seq<byte>>,
      frames: seq<seq<byte>>, chunk: seq<byte>, buf: seq<byte>, p: SeekPoint)
    requires PointsOk(cfg, points, marks, blocks, frames)
    requires p.sampleNumber == BLOCK * |frames| && p.byteOffset == |Flat(frames)|
      && p.frameSamples * cfg.FrameLen() == |chunk|
    ensures PointsOk(cfg, points + [p], marks + [|frames|], blocks + [chunk], frames + [buf])
  {
    AppendKeeps(cfg, points, marks, blocks, frames, chunk, buf);
    assert (frames + [buf])[..|frames|] == frames;
    hide PointFor;
    PointIs(cfg, p, blocks, frames, chunk, buf);
    var ps, ms := points + [p], marks + [|frames|];
    forall i | 0 <= i < |ms|
      ensures ms[i] < |frames| + 1 && PointFor(cfg, ps[i], ms[i], blocks + [chunk], frames + [buf])
    {
      if i < |marks| { assert PointFor(cfg, points[i], marks[i], blocks + [chunk], frames + [buf]); }
    }
  }

  lemma {:induction false} PointIs(cfg: Config, p: SeekPoint, blocks: seq<seq<byte>>, frames: seq<seq<byte>>,
      chunk: seq<byte>, buf: seq<byte>)
    requires |blocks| == |frames| && cfg.FrameLen() > 0
    requires p.sampleNumber == BLOCK * |frames| && p.byteOffset == |Flat(frames)|
      && p.frameSamples * cfg.FrameLen() == |chunk|
    ensures PointFor(cfg, p, |frames|, blocks + [chunk], frames + [buf])
  {
    assert (frames + [buf])[..|frames|] == frames;
  }

  /** Comparing with the boundary after the previous frame decides the crossing, and the
      steps taken then lead to the boundary after this frame. */
  lemma {:induction false} BoundaryStep(k: nat, interval: nat, total: nat)
    requires interval > 0 && total == BLOCK * k
    ensures k > 0 ==> (total >= BoundaryAfter(k - 1, interval) <==> Crosses(k, interval))
    ensures k > 0 && total < BoundaryAfter(k - 1, interval) ==>
      BoundaryAfter(k, interval) == BoundaryAfter(k - 1, interval)
    ensures k > 0 && total >= BoundaryAfter(k - 1, interval) ==>
      BoundaryAfter(k - 1, interval) + ((total - BoundaryAfter(k - 1, interval)) / interval + 1) * interval ==
        BoundaryAfter(k, interval)
    ensures k == 0 ==> BoundaryAfter(0, interval) == interval
  {
    if k > 0 { StepArith(total, total - BLOCK, interval); }
  }

  lemma {:induction false} StepArith(b: nat, a: nat, d: nat)
    requires d > 0 && a <= b
    ensures var next := (a / d + 1) * d;
      && (b >= next <==> b / d > a / d) && (b < next ==> b / d == a / d)
      && (b >= next ==> next + ((b - next) / d + 1) * d == (b / d + 1) * d)
  {
    var x, y, q := a / d, b / d, a / d + 1;
    QuotRem(a, d);
    QuotRem(b, d);
    Steps(a, b, x, y, a % d, b % d, d);
    if b >= q * d {
      assert (y - q) * d + b % d == b - q * d;
      DivModUnique(y - q, b % d, d);
      assert q * d + ((y - q) + 1) * d == (y + 1) * d;
    }
  }

  lemma {:induction false} Steps(a: nat, b: nat, x: int, y: int, r: int, s: int, d: int)
    requires a <= b && a == x * d + r && b == y * d + s && 0 <= r < d && 0 <= s < d
    ensures x <= y && (b >= (x + 1) * d <==> y > x)
  {
    if y < x { ProductLe(y + 1, x, d); }
    if y > x { ProductLe(x + 1, y, d); }
  }

  lemma {:induction false} CrossingsBound(k: nat, interval: nat, max: nat)
    requires interval > 0
    ensures |Take(Crossings(k, interval), max)| < max ==> Take(Crossings(k, interval), max) == Crossings(k, interval)
  {
  }

  lemma {:induction false} NoBytesNoFrames(frames: seq<seq<byte>>)
    requires forall i :: 0 <= i < |frames| ==> frames[i] != []
    ensures Flat(frames) == [] <==> frames == []
  {
    if frames != [] { assert frames[|frames| - 1] != []; }
  }

  lemma {:induction false} LenSnoc(frames: seq<seq<byte>>, buf: seq<byte>)
    ensures MinLen(frames + [buf]) == if frames == [] then |buf| else Min(MinLen(frames), |buf|)
    ensures MaxLen(frames + [buf]) == if frames == [] then |buf| else Max(MaxLen(frames), |buf|)
  {
    assert (frames + [buf])[..|frames|] == frames;
  }

  lemma {:induction false} CountSamples(total: nat, n: nat, len: nat)
    ensures (total + n) * len == total * len + n * len
  {
  }

  lemma {:induction false} SameBlock(n: nat, len: nat)
    requires n * len == BLOCK * len && len > 0
    ensures n == BLOCK
  {
    if n < BLOCK { ProductLt(n, BLOCK, len); }
    if n > BLOCK { ProductLt(BLOCK, n, len); }
  }

  lemma {:induction false} CoreFacts(cfg: Config, frameNum: nat, total: nat, audioBytes: nat, hashed: seq<byte>,
      blocks: seq<seq<byte>>, frames: seq<seq<byte>>,
    data: seq<byte>, pos: nat, clean: bool, head: seq<byte>)
    requires Counted(cfg, frameNum, total, audioBytes, hashed, blocks, frames) && FramesFor(cfg, blocks, frames)
      && InSink(data, pos, clean, head, frames)
    ensures frameNum == |blocks| == |frames| && audioBytes == |Flat(frames)| && pos <= |data| && |head| <= |data|
      && (audioBytes == 0 <==> frames == [])
  {
    hide FrameFor, Flat, Suits;
    forall i | 0 <= i < |frames| ensures frames[i] != [] { assert FrameOk(cfg, frames[i], blocks[i], i); }
    NoBytesNoFrames(frames);
  }

  lemma {:induction false} CountedSnoc(cfg: Config, frameNum: nat, total: nat, audioBytes: nat, before: seq<byte>,
      hashed: seq<byte>,
    blocks: seq<seq<byte>>, frames: seq<seq<byte>>, chunk: seq<byte>, buf: seq<byte>, n: nat)
    requires Counted(cfg, frameNum, total, audioBytes, before, blocks, frames) && |chunk| == n * cfg.FrameLen()
    requires hashed == if cfg.skipMd5 then before else before + chunk
    ensures Counted(cfg, frameNum + 1, total + n, audioBytes + |buf|, hashed, blocks + [chunk], frames + [buf])
  {
    hide Flat;
    FlatSnoc(blocks, chunk);
    FlatSnoc(frames, buf);
    CountSamples(total, n, cfg.FrameLen());
  }

  lemma {:induction false} FramesForSnoc(cfg: Config, blocks: seq<seq<byte>>, frames: seq<seq<byte>>, chunk: seq<byte>,
      buf: seq<byte>)
    requires FramesFor(cfg, blocks, frames) && FrameOk(cfg, buf, chunk, |blocks|)
    ensures FramesFor(cfg, blocks + [chunk], frames + [buf])
  {
    hide FrameOk;
  }

  lemma {:induction false} InSinkDirty(data: seq<byte>, pos: nat, head: seq<byte>, frames: seq<seq<byte>>)
    requires pos <= |data| && |head| <= |data|
    ensures InSink(data, pos, false, head, frames)
  {
  }

  lemma {:induction false} InSinkSnoc(was: seq<byte>, data: seq<byte>, wasPos: nat, pos: nat, clean: bool,
      head: seq<byte>, frames: seq<seq<byte>>, buf: seq<byte>)
    requires InSink(was, wasPos, clean, head, frames) && data == Overwrite(was, wasPos, buf)
      && pos == wasPos + |buf| <= |data|
    ensures InSink(data, pos, clean, head, frames + [buf])
  {
    hide Flat;
    FlatSnoc(frames, buf);
    Cat3(head, Flat(frames), buf);
    if clean { assert was[..wasPos] == was; }
  }

  lemma {:induction false} BlockAligned(cfg: Config)
    requires cfg.Valid()
    ensures (BLOCK * cfg.FrameLen()) % cfg.BytesPS() == 0 && cfg.BytesPS() > 0
  {
    MulAssoc(BLOCK, cfg.channels, cfg.BytesPS());
    DivModUnique(BLOCK * cfg.channels, 0, cfg.BytesPS());
  }

  lemma {:induction false} AllOfSnoc(parts: seq<seq<byte>>, b: seq<byte>, n: nat)
    requires AllOf(parts, n) && |b| == n
    ensures AllOf(parts + [b], n)
  {
  }

  lemma {:induction false} NumberBound(parts: seq<seq<byte>>, n: nat)
    requires AllOf(parts, n) && |Flat(parts)| < 0x10_0000_0000 * n
    ensures |parts| < 0x10_0000_0000
  {
    FlatLength(parts, n);
    if |parts| >= 0x10_0000_0000 { ProductLe(0x10_0000_0000, |parts|, n); }
  }

  /** Samples within the depth are so block by block: all but the last are whole samples. */
  lemma {:induction false} BlocksFit(cfg: Config, full: seq<seq<byte>>, rest: seq<byte>)
    requires cfg.Valid() && AllOf(full, BLOCK * cfg.FrameLen())
    requires SamplesFit(Flat(full) + rest, cfg.BytesPS(), cfg.bitDepth)
    ensures forall i :: 0 <= i < |full| ==> SamplesFit(full[i], cfg.BytesPS(), cfg.bitDepth)
    ensures SamplesFit(rest, cfg.BytesPS(), cfg.bitDepth)
    decreases |full|
  {
    hide SamplesFit;
    var w, n := cfg.BytesPS(), BLOCK * cfg.FrameLen();
    BlockAligned(cfg);
    FlatLength(full, n);
    WholeMultiple(|full|, n, w);
    SamplesFitSplit(Flat(full), rest, w, cfg.bitDepth);
    if full != [] {
      var k := |full| - 1;
      BlocksFit(cfg, full[..k], full[k]);
      assert full == full[..k] + [full[k]];
    }
  }

  lemma {:induction false} WholeMultiple(k: nat, n: nat, w: nat)
    requires w > 0 && n % w == 0
    ensures (k * n) % w == 0
  {
    QuotRem(n, w);
    MulAssoc(k, n / w, w);
    DivModUnique(k * (n / w), 0, w);
  }

  /** An input that the format can carry as a whole: samples within the depth, and a number of
      them within 36 bits. */
  predicate Suitable(cfg: Config, input: seq<byte>)
  {
    cfg.Valid() && SamplesFit(input, cfg.BytesPS(), cfg.bitDepth) && |input| < 0x10_0000_0000 * cfg.FrameLen()
  }

  /** Then every block of it suits the format. */
  lemma {:induction false} BlocksSuit(cfg: Config, full: seq<seq<byte>>, rest: seq<byte>)
    requires cfg.Valid() && AllOf(full, BLOCK * cfg.FrameLen()) && Suitable(cfg, Flat(full) + rest)
    ensures AllSuit(cfg, full + if rest == [] then [] else [rest])
  {
    hide SamplesFit, Flat, AllOf, Config.Valid, Config.FrameLen;
    BlocksFit(cfg, full, rest);
    var d := cfg.FrameLen();
    ProductLe(1, BLOCK, d);
    BlockRoom(|Flat(full)|, d);
    NumberBound(full, BLOCK * d);
  }

  lemma {:induction false} BlockRoom(len: nat, n: nat)
    requires n > 0 && len < 0x10_0000_0000 * n
    ensures len < 0x10_0000_0000 * (BLOCK * n)
  {
  }

  lemma {:induction false} OverwriteAt(a: seq<byte>, x: seq<byte>, c: seq<byte>, y: seq<byte>)
    requires |x| == |y|
    ensures Overwrite(a + x + c, |a|, y) == a + y + c
  {
    assert (a + x + c)[|a| + |y|..] == c;
    assert (a + x + c)[..|a|] == a;
  }

  /** The section in the pieces in which it is written. */
  lemma {:induction false} SectionParts(cfg: Config, si: seq<byte>)
    ensures var a, x := MAGIC
      + EncodeBlockHeader(cfg.seekInterval == 0 && cfg.extra == None, TYPE_STREAMINFO, STREAMINFO_LEN) + si,
        if cfg.extra == None then []
          else EncodeBlockHeader(cfg.seekInterval == 0, TYPE_VORBIS_COMMENT, |cfg.extra.value|) + cfg.extra.value;
      var t := if cfg.seekInterval == 0 then [] else
        EncodeBlockHeader(false, TYPE_SEEKTABLE, 18 * cfg.MaxPoints())
          + EncodeSeekPoints(Placeholders(cfg.MaxPoints()));
      var p := if cfg.seekInterval == 0 then [] else EncodeBlockHeader(true, TYPE_PADDING, 0);
      [] + a == a && a + [] == a && a + x + [] == a + x && Section(cfg, si) == a + x + t + p
  {
    hide EncodeBlockHeader, EncodeSeekPoints, Placeholders;
  }

  lemma {:induction false} HeadedNow(cfg: Config, seekable: bool, info: seq<byte>, head: seq<byte>)
    requires cfg.Valid() && |info| == STREAMINFO_LEN && head == Section(cfg, info)
      && (cfg.seekInterval > 0 ==> seekable)
    requires var b := if cfg.seekInterval > 0 then 0
      else UpfrontBlockSize(seekable, cfg); ByteBits(info) == EmitStreamInfo(cfg.Info(), Sizes(b, b, 0, 0))
    ensures Headed(cfg, seekable, info, head)
  {
    hide Section, EmitStreamInfo, UpfrontBlockSize, ByteBits;
  }

  lemma {:induction false} NothingYet(cfg: Config, data: seq<byte>, head: seq<byte>)
    requires cfg.Valid() && data == head
    ensures Counted(cfg, 0, 0, 0, [], [], []) && FramesFor(cfg, [], [])
      && Recorded(cfg, [], [], cfg.seekInterval, [], [])
    ensures InSink(data, |data|, true, head, []) && Sized(cfg, false, 0, 0, 0, 0, [], [])
    ensures AllOf([], BLOCK * cfg.FrameLen()) && BLOCK * cfg.FrameLen() > 0
  {
    assert head + [] == head;
    ProductLe(1, cfg.BytesPS(), cfg.channels);
  }

  lemma {:induction false} WholeSamples(len: nat, n: int, d: nat)
    requires d > 0 && len > 0 && len % d == 0 && n == len / d && len < BLOCK * d
    ensures 1 <= n <= BLOCK && len == n * d
  {
    QuotRem(len, d);
    if n > BLOCK { ProductLe(BLOCK, n, d); }
    if n < 1 { ProductLe(n, 0, d); }
  }

  lemma {:induction false} InfoValid(cfg: Config)
    requires cfg.Valid()
    ensures cfg.channels >= 1 && cfg.bitDepth >= 1
  {
  }

  lemma {:induction false} SectionIs(cfg: Config, info: seq<byte>, points: seq<SeekPoint>, pad: seq<byte>,
      audio: seq<byte>)
    ensures FinalSection(cfg, info, points, pad) + audio ==
      SectionMark(cfg) + info + (SectionRest(cfg, points, pad) + audio)
    ensures |FinalSection(cfg, info, points, pad)| == 8 + |info| + |SectionRest(cfg, points, pad)|
  {
    hide EncodeBlockHeader, EncodeSeekPoints, ExtraBlock;
    var m, r := SectionMark(cfg), SectionRest(cfg, points, pad);
    if cfg.seekInterval > 0 {
      var st, pt, ph := EncodeBlockHeader(false, TYPE_SEEKTABLE, 18 * |points|), EncodeSeekPoints(points),
        EncodeBlockHeader(true, TYPE_PADDING, |pad|);
      assert TableSection(info, cfg.extra, points, pad) ==
        m + info + (ExtraBlock(cfg.extra, false) + (st + pt + ph + pad));
    }
    Cat3(m + info, r, audio);
  }

  lemma {:induction false} HeadFacts(cfg: Config, seekable: bool, info: seq<byte>, head: seq<byte>,
      points: seq<SeekPoint>, marks: seq<nat>, nextBoundary: nat,
    blocks: seq<seq<byte>>, frames: seq<seq<byte>>, data: seq<byte>, pos: nat, clean: bool)
    requires Headed(cfg, seekable, info, head) && Recorded(cfg, points, marks, nextBoundary, blocks, frames)
      && InSink(data, pos, clean, head, frames)
    ensures |points| <= cfg.MaxPoints() && (cfg.seekInterval == 0 ==> points == []) && |info| == STREAMINFO_LEN
      && pos <= |data|
    ensures head == FinalSection(cfg, info, Placeholders(cfg.MaxPoints()), [])
    ensures clean ==>
      data == SectionMark(cfg) + info + (SectionRest(cfg, Placeholders(cfg.MaxPoints()), []) + Flat(frames))
    ensures 8 + STREAMINFO_LEN <= |data|
    ensures cfg.seekInterval > 0 ==>
      8 + STREAMINFO_LEN + |ExtraBlock(cfg.extra, false)| + 8 + 18 * cfg.MaxPoints() <= |data|
  {
    hide EmitStreamInfo, ByteBits, PointFor, Crossings, BoundaryAfter, TableSection, PlainSection, SectionMark, Flat,
      Placeholders, ExtraBlock, EncodeBlockHeader, EncodeSeekPoints;
    SectionIs(cfg, info, Placeholders(cfg.MaxPoints()), [], Flat(frames));
  }

  lemma {:induction false} RestIsTable(cfg: Config, body: seq<byte>, points: seq<SeekPoint>, pad: seq<byte>,
      audio: seq<byte>)
    requires cfg.seekInterval > 0 && |body| == STREAMINFO_LEN
    ensures var front := SectionMark(cfg) + body + ExtraBlock(cfg.extra, false);
      && SectionMark(cfg) + body + (SectionRest(cfg, points, pad) + audio) == front + TableOf(points, pad) + audio
      && |front| == 8 + STREAMINFO_LEN + |ExtraBlock(cfg.extra, false)|
  {
    hide EncodeBlockHeader, EncodeSeekPoints, ExtraBlock, SectionMark, TableOf;
    var m, x, t := SectionMark(cfg) + body, ExtraBlock(cfg.extra, false), TableOf(points, pad);
    assert m + ((x + t) + audio) == (m + x) + t + audio;
  }

  /** The finished section stands where the placeholder section stood. */
  lemma {:induction false} FinalIs(cfg: Config, info: seq<byte>, final: seq<byte>, points: seq<SeekPoint>,
      pad: seq<byte>, audio: seq<byte>)
    requires |info| == |final| && |points| <= cfg.MaxPoints()
    requires cfg.seekInterval > 0 ==> |pad| == 18 * (cfg.MaxPoints() - |points|)
    ensures SectionMark(cfg) + final + (SectionRest(cfg, points, pad) + audio) ==
      FinalSection(cfg, final, points, pad) + audio
    ensures |FinalSection(cfg, final, points, pad)| == |FinalSection(cfg, info, Placeholders(cfg.MaxPoints()), [])|
  {
    hide EncodeBlockHeader, EncodeSeekPoints, ExtraBlock, SectionMark, FinalSection, Placeholders, Config.MaxPoints;
    SectionIs(cfg, final, points, pad, audio);
    SectionIs(cfg, info, Placeholders(cfg.MaxPoints()), [], audio);
  }

  lemma {:induction false} LenOrder(frames: seq<seq<byte>>)
    ensures MinLen(frames) <= MaxLen(frames)
  {
    if |frames| > 1 { LenOrder(frames[..|frames| - 1]); }
  }

  lemma {:induction false} WholeAt(data: seq<byte>, end: Error)
    ensures At(Cursor.Stream.Stream(ByteBits(data), end), 0, ByteBits(data))
  {
  }

  lemma {:induction false} PointsOfFrames(cfg: Config, points: seq<SeekPoint>, marks: seq<nat>, blocks: seq<seq<byte>>,
      frames: seq<seq<byte>>)
    requires PointsOk(cfg, points, marks, blocks, frames)
    ensures PointsExact(points, marks, frames)
  {
    hide Flat;
    forall i | 0 <= i < |points| ensures marks[i] < |frames| && points[i].sampleNumber == BLOCK * marks[i] {
      assert PointFor(cfg, points[i], marks[i], blocks, frames);
    }
  }

  lemma {:induction false} FlatPrefix(parts: seq<seq<byte>>, k: nat)
    requires k <= |parts|
    ensures |Flat(parts[..k])| <= |Flat(parts)|
  {
    if k < |parts| {
      FlatPrefix(parts[..|parts| - 1], k);
      assert parts[..|parts| - 1][..k] == parts[..k];
    } else {
      assert parts[..k] == parts;
    }
  }

  /** No frame is longer than 8 MiB and none has a number of more than 36 bits, so lengths and
      offsets stay within the fields of the header and of the seek points. */
  lemma {:induction false} FramesSmall(cfg: Config, blocks: seq<seq<byte>>, frames: seq<seq<byte>>)
    requires Faithful(cfg, blocks, frames)
    ensures |frames| <= 0x10_0000_0000 && MaxLen(frames) <= FRAME_LIMIT && |Flat(frames)| < 0x8000_0000_0000_0000
    ensures forall i :: 0 <= i < |frames| ==> |frames[i]| <= FRAME_LIMIT
  {
    hide FrameFor, Flat, MaxLen;
    forall i | 0 <= i < |frames| ensures |frames[i]| <= FRAME_LIMIT { FrameSmall(cfg, frames[i], blocks[i], i); }
    if frames != [] { FrameSmall(cfg, frames[|frames| - 1], blocks[|frames| - 1], |frames| - 1); }
    LengthsSmall(frames);
  }

  lemma {:induction false} FrameSmall(cfg: Config, frame: seq<byte>, chunk: seq<byte>, number: nat)
    requires FrameFor(cfg, frame, chunk, number)
    ensures |frame| <= FRAME_LIMIT && number < 0x10_0000_0000
  {
    hide EmitFrame, InDepth, FrameShaped, Pcm, Pack, Rectangular, SubsWritable;
    var f, cs, ch :| EncodesBlock(cfg, frame, chunk, number, f, cs, ch);
  }

  lemma {:induction false} LengthsSmall(frames: seq<seq<byte>>)
    requires forall i :: 0 <= i < |frames| ==> |frames[i]| <= FRAME_LIMIT
    ensures MaxLen(frames) <= FRAME_LIMIT && |Flat(frames)| <= |frames| * FRAME_LIMIT
  {
    if frames != [] { LengthsSmall(frames[..|frames| - 1]); }
  }

  lemma {:induction false} PointsFit(cfg: Config, points: seq<SeekPoint>, marks: seq<nat>, blocks: seq<seq<byte>>,
      frames: seq<seq<byte>>)
    requires PointsOk(cfg, points, marks, blocks, frames) && Faithful(cfg, blocks, frames)
    requires |frames| <= 0x10_0000_0000 && |Flat(frames)| < 0x8000_0000_0000_0000
    ensures forall i :: 0 <= i < |points| ==> PointFits(points[i])
  {
    hide Flat, FrameFor;
    forall i | 0 <= i < |points| ensures PointFits(points[i]) {
      assert PointFor(cfg, points[i], marks[i], blocks, frames);
      FlatPrefix(frames, marks[i]);
      assert |blocks[marks[i]]| <= BLOCK * cfg.FrameLen();
      if points[i].frameSamples > BLOCK { ProductLt(BLOCK, points[i].frameSamples, cfg.FrameLen()); }
    }
  }
}
