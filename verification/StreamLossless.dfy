/** The codec from end to end: what the encoder leaves in its sink is decoded to exactly the
    bytes it was given. */
module StreamLossless {
  import opened Words
  import opened Cursor
  import opened BitReader
  import opened LpcRoutes
  import SubframeSyntax
  import opened HeaderSyntax
  import opened FrameSyntax
  import opened FrameEncode
  import opened Packing
  import opened Metadata
  import opened StreamEncoder
  import opened Resync
  import opened SeekSearch
  import opened Playback
  import opened StreamDecoder

  /** The frame that the encoder printed for a block. */
  ghost function FrameOf(cfg: Config, frame: seq<byte>, chunk: seq<byte>, number: nat): FrameBits
    requires FrameFor(cfg, frame, chunk, number)
  {
    var f, cs, ch :| EncodesBlock(cfg, frame, chunk, number, f, cs, ch);
    f
  }

  /** The stream's properties as far as frames depend on them. */
  predicate SameFormat(cfg: Config, si: StreamInfo)
  {
    si.sampleRate == cfg.sampleRate && si.bitDepth == cfg.bitDepth
  }

  lemma {:induction false} SameFrame(bytes: seq<byte>, f: FrameBits, cs: seq<SubframeSyntax.Coding>, cfg: Config,
      si: StreamInfo, ch: seq<seq<int>>, number: nat)
    requires EncodedAs(bytes, f, cs, cfg.Info(), ch, number) && SameFormat(cfg, si)
    ensures EncodedAs(bytes, f, cs, si, ch, number)
  {
    hide FrameShaped, InDepth, Pcm, EmitFrame, SubsWritable;
  }

  /** One frame decodes to its block. */
  lemma {:induction false} BlockBack(cfg: Config, frame: seq<byte>, chunk: seq<byte>, number: nat, si: StreamInfo)
    requires FrameFor(cfg, frame, chunk, number) && SameFormat(cfg, si)
    ensures var f := FrameOf(cfg, frame, chunk, number);
      ValidFrame(frame, f, si) && FrameShaped(f) && Packed(f, cfg.BytesPS()) == chunk
        && |chunk| == f.hdr.blockSize * cfg.FrameLen()
  {
    hide EncodedAs, FrameShaped, Pcm, Pack, Rectangular, ValidFrame, Config.BytesPS, Config.FrameLen;
    var f := FrameOf(cfg, frame, chunk, number);
    var cs, ch :| EncodesBlock(cfg, frame, chunk, number, f, cs, ch);
    SameFrame(frame, f, cs, cfg, si, ch, number);
    EncodedIsValid(frame, f, cs, si, ch, number);
    EncodedPcm(frame, f, cs, si, ch, number);
  }

  lemma {:induction false} EncodedPcm(bytes: seq<byte>, f: FrameBits, cs: seq<SubframeSyntax.Coding>, si: StreamInfo,
      ch: seq<seq<int>>, number: nat)
    requires EncodedAs(bytes, f, cs, si, ch, number)
    ensures FrameShaped(f) && Pcm(f) == ch
  {
    hide FrameShaped, InDepth, Pcm, EmitFrame, FrameWritable;
  }

  ghost function FramesOf(cfg: Config, blocks: seq<seq<byte>>, frames: seq<seq<byte>>): (fs: seq<FrameBits>)
    requires Faithful(cfg, blocks, frames)
    ensures |fs| == |frames| == |blocks|
  {
    seq(|frames|, i requires 0 <= i < |frames| => FrameOf(cfg, frames[i], blocks[i], i))
  }

  ghost predicate Plays(fs: seq<FrameBits>, blocks: seq<seq<byte>>, w: nat, rowLen: nat)
  {
    && |fs| == |blocks|
    && forall i :: 0 <= i < |fs| ==>
      FrameShaped(fs[i]) && Packed(fs[i], w) == blocks[i] && |blocks[i]| == fs[i].hdr.blockSize * rowLen
  }

  /** The frames of the encoder as frames of a decoder. */
  lemma {:induction false} FramesBack(cfg: Config, blocks: seq<seq<byte>>, frames: seq<seq<byte>>, data: seq<byte>,
      base: nat, si: StreamInfo)
    requires Faithful(cfg, blocks, frames) && SameFormat(cfg, si) && base <= |data| && data[base..] == Flat(frames)
    ensures var fs := FramesOf(cfg, blocks, frames);
      FramesAt(data, base, frames, fs, [], si) && Plays(fs, blocks, cfg.BytesPS(), cfg.FrameLen())
  {
    hide FrameFor, Flat, ValidFrame, FrameShaped, Packed, Config.BytesPS, Config.FrameLen, FrameOf;
    var fs := FramesOf(cfg, blocks, frames);
    forall i | 0 <= i < |frames|
      ensures ValidFrame(frames[i], fs[i], si) && FrameShaped(fs[i]) && Packed(fs[i], cfg.BytesPS()) == blocks[i]
      ensures |blocks[i]| == fs[i].hdr.blockSize * cfg.FrameLen()
    {
      BlockBack(cfg, frames[i], blocks[i], i, si);
    }
  }

  lemma {:induction false} BlocksUpTo(blocks: seq<seq<byte>>, k: nat)
    requires 1 <= k <= |blocks|
    ensures Flat(blocks[..k]) == Flat(blocks[..k - 1]) + blocks[k - 1]
  {
    hide Flat;
    FlatSnoc(blocks[..k - 1], blocks[k - 1]);
    assert blocks[..k] == blocks[..k - 1] + [blocks[k - 1]];
  }

  lemma {:induction false} BlocksPlayed(fs: seq<FrameBits>, blocks: seq<seq<byte>>, w: nat, rowLen: nat, k: nat)
    requires Plays(fs, blocks, w, rowLen) && k <= |fs|
    ensures Flat(blocks[..k]) + PlayedFrom(fs, k, w) == PlayedFrom(fs, 0, w)
      && |Flat(blocks[..k])| == SampleOf(fs, k) * rowLen
    decreases k
  {
    hide FrameShaped, Packed, Flat;
    if k == 0 {
      assert Flat(blocks[..0]) == [] by { NothingFlat(); }
      assert [] + PlayedFrom(fs, 0, w) == PlayedFrom(fs, 0, w);
    } else {
      BlocksPlayed(fs, blocks, w, rowLen, k - 1);
      Distribute(SampleOf(fs, k - 1), fs[k - 1].hdr.blockSize, rowLen);
      BlocksUpTo(blocks, k);
      Cat3(Flat(blocks[..k - 1]), blocks[k - 1], PlayedFrom(fs, k, w));
    }
  }

  lemma {:induction false} NothingFlat()
    ensures Flat([]) == []
  {
  }

  /** Stream losslessness: wherever the frames of an encoder stand at the end of some data,
      decoding from their start gives exactly the bytes of the blocks they were made from,
      and ends cleanly. */
  lemma {:induction false} DecodesToInput(cfg: Config, blocks: seq<seq<byte>>, frames: seq<seq<byte>>, data: seq<byte>,
      base: nat, si: StreamInfo, o: nat)
    requires Faithful(cfg, blocks, frames) && SameFormat(cfg, si) && o <= base <= |data| && data[base..] == Flat(frames)
    ensures RestBytes(data[o..], 8 * (base - o), si, cfg.BytesPS()) == Flat(blocks)
    ensures EndBytes(data[o..], 8 * (base - o), si) == EOF
    ensures CountBytes(data[o..], 8 * (base - o), si) * cfg.FrameLen() == |Flat(blocks)|
  {
    hide Faithful, FramesAt, Flat, FrameShaped, Packed, RestBytes, EndBytes, CountBytes, SampleOf, Config.BytesPS,
      Config.FrameLen;
    FramesBack(cfg, blocks, frames, data, base, si);
    var fs, w := FramesOf(cfg, blocks, frames), cfg.BytesPS();
    AllPlayed(data, base, frames, fs, [], si, w, o);
    BlocksPlayed(fs, blocks, w, cfg.FrameLen(), |fs|);
    assert blocks[..|fs|] == blocks;
    assert Flat(blocks) + [] == Flat(blocks);
  }

  /** What an encoder left in its sink after a successful Close of an input that the format
      can carry. */
  ghost predicate Written(enc: Encoder, final: seq<byte>, pad: seq<byte>)
    reads enc, enc.sink
  {
    && enc.Accounted() && Faithful(enc.cfg, enc.blocks, enc.frames) && enc.Finished(final, pad)
    && (enc.sink.seekable ==> enc.FieldsFit())
    && (enc.cfg.totalSamples > 0 ==> enc.total == enc.cfg.totalSamples)
  }

  /** The stream opens at its first frame with the declared properties. */
  lemma {:induction false} Opens(enc: Encoder, final: seq<byte>, pad: seq<byte>)
    requires Written(enc, final, pad)
    ensures GetMetadata(Bytes(enc.sink.data), 0) == Ok(enc.Declared(), 8 * |enc.head|)
    ensures |enc.head| <= |enc.sink.data| && enc.sink.data[|enc.head|..] == Flat(enc.frames)
    ensures SameFormat(enc.cfg, enc.Declared().info) && 4 <= enc.cfg.bitDepth <= 32
  {
    hide Flat, Faithful, FramesFor, Recorded, Sized, Counted, GetMetadata, ByteBits, FinalSection, EmitStreamInfo,
      Digest;
    if enc.sink.seekable { enc.Readable(final, pad, EOF); } else { enc.ReadableUnpatched(final, pad, EOF); }
  }

  /** The whole stream: decoding gives exactly the bytes of the input, and the declared digest
      and sample count are theirs. Where the header cannot be patched it declares the configured
      count and no digest. */
  lemma {:induction false} WholeStream(enc: Encoder, final: seq<byte>, pad: seq<byte>)
    requires Written(enc, final, pad)
    ensures var data, p, si := enc.sink.data, 8 * |enc.head|, enc.Declared().info;
      && RestBytes(data, p, si, enc.cfg.BytesPS()) == Flat(enc.blocks)
      && EndBytes(data, p, si) == EOF && CountBytes(data, p, si) == enc.total
    ensures var si := enc.Declared().info;
      && si.totalSamples == (if enc.sink.seekable then enc.total else enc.cfg.totalSamples)
      && (enc.cfg.totalSamples > 0 ==> si.totalSamples == enc.total)
      && si.sampleRate == enc.cfg.sampleRate && si.channels == enc.cfg.channels && si.bitDepth == enc.cfg.bitDepth
    ensures var si, sum := enc.Declared().info, enc.hash(Flat(enc.blocks));
      && |si.md5| == 16
      && (enc.sink.seekable && !enc.cfg.skipMd5 && |sum| == 16 ==> si.md5 == sum)
      && (!enc.sink.seekable || enc.cfg.skipMd5 ==> forall i :: 0 <= i < 16 ==> si.md5[i] == 0)
    ensures var si := enc.Declared().info;
      (si.md5 != Zero16() ==> si.md5 == Digest(enc.hash, Flat(enc.blocks))) && si.totalSamples <= enc.total
  {
    hide Flat, RestBytes, EndBytes, CountBytes, GetMetadata, Encoder.Finished, Encoder.FieldsFit, Faithful, Recorded,
      Sized, Headed, Config.FrameLen;
    Opens(enc, final, pad);
    var data, n, si := enc.sink.data, |enc.head|, enc.Declared().info;
    assert data[0..] == data;
    DecodesToInput(enc.cfg, enc.blocks, enc.frames, data, n, si, 0);
    SameQuotient(CountBytes(data, 8 * n, si), enc.total, enc.cfg.FrameLen());
  }

  lemma {:induction false} SameQuotient(a: nat, b: nat, d: nat)
    requires d > 0 && a * d == b * d
    ensures a == b
  {
    DivModUnique(a, 0, d);
    DivModUnique(b, 0, d);
  }

  /** Reads the metadata of the data, up to the first frame. */
  method ReadFront(data: seq<byte>, separate: bool, ghost m: StreamMeta, ghost p: nat)
    returns (br: Reader, r: StreamMeta)
    requires GetMetadata(Bytes(data), 0) == Ok(m, p)
    ensures r == m && br.Valid() && br.rtap == null && br.Pos() == p && br.Stream() == Bytes(data) && p <= 8 * |data|
    ensures fresh(br) && fresh(br.src) && fresh(br.buf)
  {
    hide Reader.Valid, GetMetadata, ByteBits;
    br := NewReader(data, EOF, separate, 0x1_0000);
    br.Bounds();
    var res := ReadMetadata(br);
    br.Bounds();
    r := res.v;
  }

  /** Opens a decoder over the file, past its metadata. */
  method OpenStream(file: MediaFile, separate: bool, skipMd5: bool, hash: seq<byte> -> seq<byte>, arch: Arch,
      ghost m: StreamMeta, ghost p: nat) returns (d: Decoder)
    requires GetMetadata(Bytes(file.data), 0) == Ok(m, p) && p % 8 == 0 && 4 <= m.info.bitDepth <= 32 && arch.Valid()
    ensures d.file == file && OpenedAt(d, m, p / 8)
    ensures d.Valid() && d.Running() && !d.seeked && d.info == m.info && d.hash == hash
    ensures d.Remaining() == d.whole == RestBytes(file.data, p, m.info, d.BytesPS())
    ensures d.ending == EndBytes(file.data, p, m.info) && d.count == CountBytes(file.data, p, m.info)
    ensures fresh(d) && fresh(d.frame) && fresh(d.frame.crc) && fresh(d.probeFrame) && fresh(d.probeFrame.crc)
    ensures d.br != null && d.br.rtap == null && fresh(d.br) && fresh(d.br.src) && fresh(d.br.buf)
  {
    hide Reader.Valid, GetMetadata, ByteBits, Rest, EndOf, CountFrom, Arch.Valid;
    var br, r := ReadFront(file.data, separate, m, p);
    br.Bounds();
    d := new Decoder(file, br, r, true, br.BytesRead(), |file.data|, hash, skipMd5, arch);
  }

  /** What the decoder took from the metadata, and where the audio starts. */
  ghost predicate OpenedAt(d: Decoder, m: StreamMeta, start: nat)
    reads d`nominalBlock
  {
    && d.seekable && d.info == m.info && d.seekPoints == m.points && d.nominalBlock == m.maxBlock
    && d.audioStart == start && d.streamEnd == |d.file.data|
  }

  /** Drains a decoder that was just opened. */
  method PlayAll(d: Decoder, w: Drain) returns (e: Option<Error>)
    requires d.Valid() && d.Running() && !d.seeked && d.Remaining() == d.whole
    modifies d, d.frame, d.frame.crc, w, if d.br == null then {} else d.br.Repr()
    ensures old(w.data) <= w.data <= old(w.data) + old(d.whole) && (e == None ==> w.data == old(w.data) + old(d.whole))
    ensures (e == if old(d.Verdict()) == EOF then None else Some(old(d.Verdict()))) || (e == Some(IO) && w.failed)
    ensures old(w.failed) ==> w.failed
  {
    hide Decoder.Valid, Reader.Valid, Rest, EndOf, CountFrom, Decoder.Verdict;
    var total;
    total, e := d.WriteTo(w);
  }

  /** The verdict on a stream whose declared digest and sample count are those of what it
      decodes to. */
  lemma {:induction false} VerdictIsClean(d: Decoder)
    requires d.ending == EOF && d.info.totalSamples <= d.count
    requires d.info.md5 != Zero16() ==> d.info.md5 == Digest(d.hash, d.whole)
    ensures d.Verdict() == EOF
  {
    hide Digest;
  }

  /** Decodes the sink of a closed encoder from its start into w, however the source splits
      its bytes: no error but the drain's own, no byte that was not put in, and without an
      error all of them. */
  method Replay(enc: Encoder, w: Drain, separate: bool, skipMd5: bool, arch: Arch, ghost final: seq<byte>,
      ghost pad: seq<byte>) returns (e: Option<Error>)
    requires Written(enc, final, pad) && arch.Valid()
    modifies w
    ensures e == None || (e == Some(IO) && w.failed)
    ensures old(w.data) <= w.data <= old(w.data) + Flat(enc.blocks) && (old(w.failed) ==> w.failed)
    ensures e == None ==> w.data == old(w.data) + Flat(enc.blocks)
  {
    hide Written, Decoder.Valid, Decoder.Remaining, Decoder.Verdict, Reader.Valid, GetMetadata, RestBytes, EndBytes,
      CountBytes, Flat, Digest, Encoder.Declared;
    Opens(enc, final, pad);
    WholeStream(enc, final, pad);
    var file := new MediaFile(enc.sink.data);
    var d := OpenStream(file, separate, skipMd5, enc.hash, arch, enc.Declared(), 8 * |enc.head|);
    VerdictIsClean(d);
    e := PlayAll(d, w);
  }

  // ---- seeking in an encoded stream ----

  /** Only the last block may be short. */
  predicate FullButLast(blocks: seq<seq<byte>>, n: nat)
  {
    forall i :: 0 <= i < |blocks| - 1 ==> |blocks[i]| == n
  }

  /** The frames are numbered in order and have m channels. */
  ghost predicate Numbered(fs: seq<FrameBits>, m: nat)
  {
    forall i :: 0 <= i < |fs| ==>
      FrameShaped(fs[i]) && fs[i].hdr.number == i && !fs[i].hdr.variable && fs[i].hdr.Channels() == m
  }

  lemma {:induction false} FrameNumber(cfg: Config, frame: seq<byte>, chunk: seq<byte>, number: nat)
    requires FrameFor(cfg, frame, chunk, number)
    ensures var h := FrameOf(cfg, frame, chunk, number).hdr;
      FrameShaped(FrameOf(cfg, frame, chunk, number)) && h.number == number && !h.variable
        && h.Channels() == cfg.channels
  {
    hide EncodedAs, FrameShaped, Pcm, Pack, Rectangular, Config.BytesPS, Config.FrameLen;
    var f := FrameOf(cfg, frame, chunk, number);
    var cs, ch :| EncodesBlock(cfg, frame, chunk, number, f, cs, ch);
    FrameFixed(frame, f, cs, cfg.Info(), ch, number);
  }

  lemma {:induction false} FrameFixed(bytes: seq<byte>, f: FrameBits, cs: seq<SubframeSyntax.Coding>, si: StreamInfo,
      ch: seq<seq<int>>, number: nat)
    requires EncodedAs(bytes, f, cs, si, ch, number)
    ensures FrameShaped(f) && f.hdr.number == number && !f.hdr.variable && f.hdr.Channels() == |ch|
  {
    hide FrameShaped, InDepth, Pcm, EmitFrame, SubsWritable;
  }

  lemma {:induction false} FramesNumbered(cfg: Config, blocks: seq<seq<byte>>, frames: seq<seq<byte>>)
    requires Faithful(cfg, blocks, frames)
    ensures Numbered(FramesOf(cfg, blocks, frames), cfg.channels)
  {
    hide FrameFor, FrameShaped, FrameOf;
    forall i | 0 <= i < |frames|
      ensures var f := FramesOf(cfg, blocks, frames)[i];
        FrameShaped(f) && f.hdr.number == i && !f.hdr.variable && f.hdr.Channels() == cfg.channels
    {
      FrameNumber(cfg, frames[i], blocks[i], i);
    }
  }

  /** Before the last frame all blocks are full, so frame k starts at sample BLOCK * k. */
  lemma {:induction false} FullSamples(fs: seq<FrameBits>, blocks: seq<seq<byte>>, w: nat, rowLen: nat, k: nat)
    requires Plays(fs, blocks, w, rowLen) && FullButLast(blocks, BLOCK * rowLen) && rowLen > 0 && k < |fs|
    ensures SampleOf(fs, k) == BLOCK * k
    decreases k
  {
    hide FrameShaped, Packed;
    if k > 0 {
      FullSamples(fs, blocks, w, rowLen, k - 1);
      assert |blocks[k - 1]| == BLOCK * rowLen;
      SameQuotient(fs[k - 1].hdr.blockSize, BLOCK, rowLen);
    }
  }

  /** Frame numbers, block sizes and seek points of an encoded stream agree, as the seek
      search needs them to. */
  lemma {:induction false} SeekReady(enc: Encoder, final: seq<byte>, pad: seq<byte>)
    requires Written(enc, final, pad) && FullButLast(enc.blocks, enc.BlockBytes())
      && (forall i :: 0 <= i < |enc.blocks| ==> enc.blocks[i] != [])
    ensures var fs := FramesOf(enc.cfg, enc.blocks, enc.frames);
      && Contiguous(fs, enc.Declared().maxBlock) && AllShaped(fs, enc.cfg.channels)
      && forall i :: 0 <= i < |enc.points| ==> SoundPoint(enc.points[i], enc.frames, fs)
  {
    hide Flat, Headed, Counted, Encoder.Finished, Encoder.FieldsFit, FrameFor, FramesOf, FrameShaped, Packed,
      Config.FrameLen, Crossings, BoundaryAfter, Digest, MinLen, MaxLen;
    var cfg, blocks, frames := enc.cfg, enc.blocks, enc.frames;
    var fs := FramesOf(cfg, blocks, frames);
    FramesNumbered(cfg, blocks, frames);
    FramesBack(cfg, blocks, frames, Flat(frames), 0, cfg.Info());
    forall k | 0 <= k < |fs|
      ensures SampleOf(fs, k) == BLOCK * k && FirstSample(fs[k].hdr, enc.Declared().maxBlock) == BLOCK * k
        && fs[k].hdr.blockSize > 0
    {
      FullSamples(fs, blocks, cfg.BytesPS(), cfg.FrameLen(), k);
      if k > 0 { NominalBlock(enc, final, pad); }
    }
    forall i | 0 <= i < |enc.points| ensures SoundPoint(enc.points[i], frames, fs) {
      var k := enc.marks[i];
      assert PointFor(cfg, enc.points[i], k, blocks, frames);
      assert PointOf(enc.points[i], frames, fs, k);
    }
  }

  /** With two frames or more, the declared block size is the one that frames are numbered
      by. */
  lemma {:induction false} NominalBlock(enc: Encoder, final: seq<byte>, pad: seq<byte>)
    requires Written(enc, final, pad) && FullButLast(enc.blocks, enc.BlockBytes()) && |enc.blocks| >= 2
      && enc.blocks[1] != []
    ensures enc.Declared().maxBlock == BLOCK
  {
    hide Headed, Recorded, Encoder.Finished, Encoder.FieldsFit, FrameFor, Config.FrameLen, Digest, MinLen, MaxLen, Flat;
    if enc.sink.seekable {
      SameQuotient(enc.minBlock, BLOCK, enc.cfg.FrameLen());
    } else {
      FlatTwo(enc.blocks);
      if enc.total <= BLOCK { ProductLe(enc.total, BLOCK, enc.cfg.FrameLen()); }
    }
  }

  lemma {:induction false} FlatTwo(blocks: seq<seq<byte>>)
    requires |blocks| >= 2
    ensures |Flat(blocks)| >= |blocks[0]| + |blocks[1]|
  {
    hide Flat;
    FlatPrefix(blocks, 2);
    FlatSnoc(blocks[..1], blocks[1]);
    FlatSnoc([], blocks[0]);
    assert blocks[..2] == blocks[..1] + [blocks[1]];
    assert blocks[..1] == [] + [blocks[0]];
  }
}
