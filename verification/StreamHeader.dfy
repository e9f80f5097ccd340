/** What the header of a finished stream says, byte for byte, and which frames its seek table
    holds (pcm/encoder.go, internal/meta/encode.go). */
module StreamHeader {
  import opened Words
  import opened Cursor
  import opened HeaderSyntax
  import opened Metadata
  import opened StreamEncoder

  // ---- STREAMINFO ----

  /** The fields of STREAMINFO in their widths (section 8.2 of RFC 9639). */
  function StreamInfoBits(minBlock: nat, maxBlock: nat, minFrame: nat, maxFrame: nat, sampleRate: nat, channels: nat,
      bitDepth: nat, total: nat, md5: seq<byte>): seq<bool>
    requires channels >= 1 && bitDepth >= 1
  {
    Bits(minBlock, 16) + (Bits(maxBlock, 16) + (Bits(minFrame, 24) + (Bits(maxFrame, 24) + (Bits(sampleRate, 20)
      + (Bits(channels - 1, 3) + (Bits(bitDepth - 1, 5) + (Bits(total, 36) + ByteBits(md5))))))))
  }

  /** The least and the largest frame length, 0 without frames. */
  ghost predicate LengthBounds(frames: seq<seq<byte>>, least: nat, most: nat)
  {
    && (frames == [] ==> least == most == 0)
    && (frames != [] ==>
      && (exists i :: 0 <= i < |frames| && |frames[i]| == least)
      && (exists i :: 0 <= i < |frames| && |frames[i]| == most))
    && forall i :: 0 <= i < |frames| ==> least <= |frames[i]| <= most
  }

  lemma {:induction false} LensAreBounds(frames: seq<seq<byte>>)
    ensures LengthBounds(frames, MinLen(frames), MaxLen(frames))
  {
    if |frames| == 1 {
      assert |frames[0]| == MinLen(frames);
    } else if |frames| > 1 {
      var n := |frames| - 1;
      var front := frames[..n];
      LensAreBounds(front);
      var i :| 0 <= i < n && |front[i]| == MinLen(front);
      var j :| 0 <= j < n && |front[j]| == MaxLen(front);
      assert |frames[i]| == MinLen(front) && |frames[j]| == MaxLen(front);
      assert |frames[n]| == |frames[n]|;
      forall k | 0 <= k < |frames| ensures MinLen(frames) <= |frames[k]| <= MaxLen(frames) {
        if k < n { assert frames[k] == front[k]; }
      }
    }
  }

  /** The nominal block size of a stream: that of its first block, 16 when it is shorter. */
  ghost predicate NominalSize(enc: Encoder, size: nat)
    reads enc
  {
    if enc.blocks == [] then size == 16
    else exists n: nat :: n * enc.cfg.FrameLen() == |enc.blocks[0]| && size == if n < 16 then 16 else n
  }

  /** A finished stream that could be patched: bytes 8 to 42 hold the nominal block size twice, the
      lengths of the shortest and of the longest frame, the format, the number of samples and the
      digest of the input, in this order and in these widths. */
  lemma {:induction false} StreamInfoSays(enc: Encoder, final: seq<byte>, pad: seq<byte>)
    returns (size: nat, least: nat, most: nat)
    requires enc.Accounted() && enc.Finished(final, pad) && enc.sink.seekable
    ensures NominalSize(enc, size) && LengthBounds(enc.frames, least, most) && |enc.sink.data| >= 42
    ensures enc.cfg.Valid() && var sum := enc.hash(Flat(enc.blocks)); |sum| == 16 && !enc.cfg.skipMd5 ==>
      ByteBits(enc.sink.data[8..42]) == StreamInfoBits(size, size, least, most, enc.cfg.sampleRate, enc.cfg.channels,
        enc.cfg.bitDepth, enc.total, sum)
    ensures enc.cfg.Valid() && enc.cfg.skipMd5 ==>
      ByteBits(enc.sink.data[8..42]) == StreamInfoBits(size, size, least, most, enc.cfg.sampleRate, enc.cfg.channels,
        enc.cfg.bitDepth, enc.total, seq(16, _ => 0))
  {
    hide Flat, ByteBits, Bits, FinalSection, Recorded, FramesFor, Headed, MinLen, MaxLen, EncodeBlockHeader,
      EncodeSeekPoints, LengthBounds;
    size, least, most := Max(enc.minBlock, 16), MinLen(enc.frames), MaxLen(enc.frames);
    LensAreBounds(enc.frames);
    InfoPlace(enc.cfg, final, enc.points, pad, Flat(enc.frames));
  }

  lemma {:induction false} InfoPlace(cfg: Config, info: seq<byte>, points: seq<SeekPoint>, pad: seq<byte>,
      audio: seq<byte>)
    requires |info| == 34
    ensures var all := FinalSection(cfg, info, points, pad) + audio; |all| >= 42 && all[8..42] == info
  {
    hide FinalSection, SectionMark, SectionRest;
    SectionParts(cfg, info, points, pad);
    var rest := SectionRest(cfg, points, pad);
    assert SectionMark(cfg) + info + rest + audio == SectionMark(cfg) + (info + (rest + audio));
  }

  lemma {:induction false} SectionParts(cfg: Config, info: seq<byte>, points: seq<SeekPoint>, pad: seq<byte>)
    ensures FinalSection(cfg, info, points, pad) == SectionMark(cfg) + info + SectionRest(cfg, points, pad)
  {
    hide EncodeBlockHeader, EncodeSeekPoints, ExtraBlock;
    var mark := SectionMark(cfg);
    if cfg.seekInterval > 0 {
      var x, h, p, e := ExtraBlock(cfg.extra, false), EncodeBlockHeader(false, TYPE_SEEKTABLE, 18 * |points|),
        EncodeSeekPoints(points), EncodeBlockHeader(true, TYPE_PADDING, |pad|);
      assert mark + info + x + h + p + e + pad == mark + info + (x + (h + p + e + pad));
    }
  }

  /** The header of a stream that cannot be patched is final when it is written: the block size is
      4096 or the configured number of samples when that is smaller, 16 at least, the lengths of
      frames are unknown, the number of samples is the configured one and there is no digest. */
  lemma {:induction false} UnpatchedSays(enc: Encoder, final: seq<byte>, pad: seq<byte>)
    requires enc.Accounted() && enc.Finished(final, pad) && !enc.sink.seekable
    ensures enc.cfg.Valid() && |enc.sink.data| >= 42
    ensures var n := enc.cfg.totalSamples;
      var size := if n == 0 || n > 4096 then 4096 else if n < 16 then 16 else n;
      ByteBits(enc.sink.data[8..42]) == StreamInfoBits(size, size, 0, 0, enc.cfg.sampleRate, enc.cfg.channels,
        enc.cfg.bitDepth, n, seq(16, _ => 0))
  {
    hide Flat, ByteBits, Bits, Recorded, FramesFor, MinLen, MaxLen, EncodeBlockHeader, EncodeSeekPoints, Section;
    UnpatchedPlace(enc.cfg, enc.info, Flat(enc.frames));
  }

  lemma {:induction false} UnpatchedPlace(cfg: Config, info: seq<byte>, audio: seq<byte>)
    requires |info| == 34 && cfg.seekInterval == 0
    ensures var all := Section(cfg, info) + audio; |all| >= 42 && all[8..42] == info
  {
    InfoPlace(cfg, info, [], [], audio);
  }

  // ---- the seek table ----

  /** A frame starts a new interval when it is the first, or when a multiple of the interval lies
      behind the first sample of the frame before and not behind its own. */
  lemma {:induction false} CrossesIs(k: nat, interval: nat)
    requires interval > 0
    ensures Crosses(k, interval) <==> k == 0 || exists m: nat :: 4096 * (k - 1) < m * interval <= 4096 * k
  {
    if k > 0 {
      var a, b := 4096 * (k - 1), 4096 * k;
      var q, r := a / interval, b / interval;
      QuotRem(a, interval);
      QuotRem(b, interval);
      if r > q {
        ProductLe(q + 1, r, interval);
        Distribute(q, 1, interval);
        assert a < r * interval <= b;
      }
      if exists m: nat :: a < m * interval <= b {
        var m: nat :| a < m * interval <= b;
        if m <= q { ProductLe(m, q, interval); }
        if r < m { ProductLe(r + 1, m, interval); Distribute(r, 1, interval); }
      }
    }
  }

  /** The number of places that are reserved: 4096 unless configured, and no more than a metadata
      block can hold. */
  function Places(cfg: Config): nat
  {
    if cfg.seekMaxPoints == 0 then 4096 else if cfg.seekMaxPoints > 932067 then 932067 else cfg.seekMaxPoints
  }

  /** The table holds the first frames that start a new interval, as many as there are places, and
      no others. */
  lemma {:induction false} TableHolds(enc: Encoder)
    requires enc.Accounted() && enc.cfg.seekInterval > 0
    ensures |enc.points| == |enc.marks| <= Places(enc.cfg)
    ensures forall i :: 0 <= i < |enc.marks| ==>
      enc.marks[i] < |enc.frames| && Crosses(enc.marks[i], enc.cfg.seekInterval)
    ensures forall i, j :: 0 <= i < j < |enc.marks| ==> enc.marks[i] < enc.marks[j]
    ensures forall k :: 0 <= k < |enc.frames| && Crosses(k, enc.cfg.seekInterval) && k !in enc.marks ==>
      |enc.marks| == Places(enc.cfg) && forall i :: 0 <= i < |enc.marks| ==> enc.marks[i] < k
  {
    hide PointFor, Flat, FramesFor, Crosses, Sized, Headed, Counted;
    CrossingsAre(|enc.frames|, enc.cfg.seekInterval);
  }

  lemma {:induction false} CrossingsAre(m: nat, interval: nat)
    requires interval > 0
    ensures forall i :: 0 <= i < |Crossings(m, interval)| ==>
      Crossings(m, interval)[i] < m && Crosses(Crossings(m, interval)[i], interval)
    ensures forall i, j :: 0 <= i < j < |Crossings(m, interval)| ==>
      Crossings(m, interval)[i] < Crossings(m, interval)[j]
    ensures forall k :: 0 <= k < m && Crosses(k, interval) ==> k in Crossings(m, interval)
  {
    hide Crosses;
    if m > 0 { CrossingsAre(m - 1, interval); }
  }
}
