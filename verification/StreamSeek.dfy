/** Seeking in the encoder's own streams: they are clean in the sense of the seek search, so
    what is read after a seek is exactly the input from that sample on. */
module StreamSeek {
  import opened Words
  import opened Cursor
  import opened BitReader
  import opened LpcRoutes
  import opened FrameSyntax
  import opened Metadata
  import opened StreamEncoder
  import opened Resync
  import opened SeekSearch
  import opened Playback
  import opened StreamDecoder
  import opened StreamLossless

  /** Blocks as a session leaves them: all but the last are full, and none is empty. */
  ghost predicate Regular(enc: Encoder)
    reads enc
  {
    FullButLast(enc.blocks, enc.BlockBytes()) && forall i :: 0 <= i < |enc.blocks| ==> enc.blocks[i] != []
  }

  /** The frames of the encoder. */
  ghost function FramesIn(enc: Encoder): (fs: seq<FrameBits>)
    requires Faithful(enc.cfg, enc.blocks, enc.frames)
    reads enc
    ensures |fs| == |enc.frames|
  {
    FramesOf(enc.cfg, enc.blocks, enc.frames)
  }

  lemma {:induction false} WrittenFacts(enc: Encoder, final: seq<byte>, pad: seq<byte>)
    requires Written(enc, final, pad)
    ensures Faithful(enc.cfg, enc.blocks, enc.frames)
      && PointsOk(enc.cfg, enc.points, enc.marks, enc.blocks, enc.frames)
    ensures enc.total * enc.cfg.FrameLen() == |Flat(enc.blocks)| && enc.cfg.Valid()
  {
    hide Faithful, PointsOk, Sized, Headed, Encoder.Finished, Encoder.FieldsFit, Config.FrameLen, Flat;
  }

  /** The frames stand at the end of the sink, clean unless the residuals of some frame happen
      to form another valid frame. */
  lemma {:induction false} EncodedIsClean(enc: Encoder, final: seq<byte>, pad: seq<byte>)
    requires Written(enc, final, pad) && NoFalseFrame(enc.sink.data, |enc.head|, enc.frames, enc.Declared().info)
    ensures Faithful(enc.cfg, enc.blocks, enc.frames)
    ensures Clean(enc.sink.data, |enc.head|, enc.frames, FramesIn(enc), [], enc.Declared().info)
  {
    hide Written, Faithful, ValidFrame, Flat, NoFalseFrame, Encoder.Declared, FramesOf, Plays, CutTail;
    WrittenFacts(enc, final, pad);
    Opens(enc, final, pad);
    FramesBack(enc.cfg, enc.blocks, enc.frames, enc.sink.data, |enc.head|, enc.Declared().info);
    FramesSmall(enc.cfg, enc.blocks, enc.frames);
  }

  /** All numbers in the seek points are far below the signed range. */
  lemma {:induction false} PointsSmall(cfg: Config, points: seq<SeekPoint>, marks: seq<nat>, blocks: seq<seq<byte>>,
      frames: seq<seq<byte>>)
    requires PointsOk(cfg, points, marks, blocks, frames) && |frames| <= 0x10_0000_0000
      && |Flat(frames)| < 0x8000_0000_0000_0000
    ensures forall i :: 0 <= i < |points| ==> SmallPoint(points[i])
  {
    hide Flat;
    forall i | 0 <= i < |points| ensures SmallPoint(points[i]) {
      assert PointFor(cfg, points[i], marks[i], blocks, frames);
      FlatPrefix(frames, marks[i]);
    }
  }

  lemma {:induction false} PointsDeclared(enc: Encoder, final: seq<byte>, pad: seq<byte>)
    requires Written(enc, final, pad) && Regular(enc)
    ensures Faithful(enc.cfg, enc.blocks, enc.frames)
    ensures SoundTable(enc.Declared().points, enc.frames, FramesIn(enc))
    ensures AllShaped(FramesIn(enc), enc.cfg.channels) && Contiguous(FramesIn(enc), enc.Declared().maxBlock)
      && enc.Declared().maxBlock > 0
  {
    hide Written, FrameFor, Flat, SoundPoint, SmallPoint, FramesOf, AllShaped, Contiguous, PointsOk, Encoder.FinalInfo;
    WrittenFacts(enc, final, pad);
    SeekReady(enc, final, pad);
    FramesSmall(enc.cfg, enc.blocks, enc.frames);
    PointsSmall(enc.cfg, enc.points, enc.marks, enc.blocks, enc.frames);
  }

  /** What an encoder wrote is a clean stream for a decoder that opened it. */
  lemma {:induction false} EncodedIsSeekable(enc: Encoder, d: Decoder, final: seq<byte>, pad: seq<byte>)
    requires Written(enc, final, pad) && Regular(enc) && OpenedAt(d, enc.Declared(), |enc.head|)
      && d.file.data == enc.sink.data
    requires NoFalseFrame(enc.sink.data, |enc.head|, enc.frames, enc.Declared().info)
    ensures Faithful(enc.cfg, enc.blocks, enc.frames) && d.CleanSeek(enc.frames, FramesIn(enc), [], enc.cfg.channels)
  {
    hide Written, Regular, Clean, Faithful, SoundTable, AllShaped, Contiguous, NoFalseFrame, Encoder.Declared, FramesOf;
    EncodedIsClean(enc, final, pad);
    PointsDeclared(enc, final, pad);
  }

  /** The input from sample idx on. */
  ghost function InputFrom(enc: Encoder, idx: nat): (r: seq<byte>)
    requires idx * enc.cfg.FrameLen() <= |Flat(enc.blocks)|
    reads enc
  {
    Flat(enc.blocks)[idx * enc.cfg.FrameLen()..]
  }

  /** The frames play these bytes at w bytes a sample, total samples of every channel. */
  ghost predicate PlayAs(fs: seq<FrameBits>, w: nat, bytes: seq<byte>, total: nat)
  {
    && (forall j :: 0 <= j < |fs| ==> FrameShaped(fs[j]))
    && PlayedFrom(fs, 0, w) == bytes && SampleOf(fs, |fs|) == total
  }

  /** Frames that play the blocks play all of their bytes and samples. */
  lemma {:induction false} PlaysBlocks(fs: seq<FrameBits>, blocks: seq<seq<byte>>, w: nat, rowLen: nat, total: nat)
    requires Plays(fs, blocks, w, rowLen) && rowLen > 0 && total * rowLen == |Flat(blocks)|
    ensures PlayAs(fs, w, Flat(blocks), total)
  {
    hide Flat, FrameShaped, Packed, SampleOf;
    BlocksPlayed(fs, blocks, w, rowLen, |fs|);
    assert blocks[..|fs|] == blocks && Flat(blocks) + [] == Flat(blocks);
    SameQuotient(SampleOf(fs, |fs|), total, rowLen);
  }

  /** The encoder's frames play its input. */
  lemma {:induction false} PlaysInput(enc: Encoder, final: seq<byte>, pad: seq<byte>)
    requires Written(enc, final, pad)
    ensures Faithful(enc.cfg, enc.blocks, enc.frames)
      && PlayAs(FramesIn(enc), enc.cfg.BytesPS(), Flat(enc.blocks), enc.total)
  {
    hide *;
    WrittenFacts(enc, final, pad);
    Opens(enc, final, pad);
    FramesBack(enc.cfg, enc.blocks, enc.frames, enc.sink.data, |enc.head|, enc.Declared().info);
    FramesAre(enc);
    PlaysBlocks(FramesIn(enc), enc.blocks, enc.cfg.BytesPS(), enc.cfg.FrameLen(), enc.total);
  }

  lemma {:induction false} FramesAre(enc: Encoder)
    requires Faithful(enc.cfg, enc.blocks, enc.frames)
    ensures FramesIn(enc) == FramesOf(enc.cfg, enc.blocks, enc.frames)
  {
    hide Faithful, FramesOf;
  }

  /** Sample idx of the input, as a place in its bytes. */
  ghost predicate From(input: seq<byte>, rowLen: nat, idx: nat, part: seq<byte>)
  {
    IsSuffix(input, idx * rowLen, part)
  }

  /** The frame that holds sample idx of the input, and the input from there on. */
  lemma {:induction false} TargetIn(enc: Encoder, d: Decoder, idx: nat, final: seq<byte>, pad: seq<byte>)
    returns (t: nat, part: seq<byte>)
    requires Written(enc, final, pad) && idx < enc.total && OpenedAt(d, enc.Declared(), |enc.head|)
    requires Faithful(enc.cfg, enc.blocks, enc.frames)
      && PlayAs(FramesIn(enc), enc.cfg.BytesPS(), Flat(enc.blocks), enc.total)
    ensures Holds(FramesIn(enc), idx, t) && d.Searched(idx) && From(Flat(enc.blocks), enc.cfg.FrameLen(), idx, part)
  {
    hide Faithful, Flat, FramesIn, Holds, FrameShaped, PlayedFrom, SampleOf, Headed, Recorded, Sized, Encoder.Finished,
      Encoder.FieldsFit, Config.FrameLen, Digest;
    t := Holder(FramesIn(enc), idx, |FramesIn(enc)|);
    ProductLe(idx, enc.total, enc.cfg.FrameLen());
    ProductNat(idx, enc.cfg.FrameLen());
    part := Flat(enc.blocks)[idx * enc.cfg.FrameLen()..];
  }

  /** After the seek the decoder is to read the input from that sample on. */
  lemma {:induction false} SeekPlays(enc: Encoder, d: Decoder, idx: nat, part: seq<byte>)
    requires d.Valid() && d.Running() && d.seeked && d.info.bitDepth == enc.cfg.bitDepth
    requires Faithful(enc.cfg, enc.blocks, enc.frames)
      && PlayAs(FramesIn(enc), enc.cfg.BytesPS(), Flat(enc.blocks), enc.total)
    requires From(Flat(enc.blocks), enc.cfg.FrameLen(), idx, part)
    requires d.PlaysFrom(FramesIn(enc), [], enc.cfg.channels, idx)
      || (d.file.failed && d.PlaysPart(FramesIn(enc), enc.cfg.channels, idx))
    ensures (d.Remaining() == part && d.Final() == EOF) || (d.file.failed && d.Remaining() <= part && d.Final() == IO)
  {
    hide Faithful, Flat, FramesIn, FrameShaped, PlayedFrom, SampleOf, Reader.Valid, Decoder.Valid, Decoder.ReaderOk,
      Decoder.Remaining, Decoder.Ending, Decoder.Verdict;
  }

  lemma {:induction false} OpensDepth(enc: Encoder, final: seq<byte>, pad: seq<byte>)
    requires Written(enc, final, pad)
    ensures 4 <= enc.Declared().info.bitDepth == enc.cfg.bitDepth <= 32
  {
    hide Written, GetMetadata, ByteBits, Flat, Encoder.Declared;
    Opens(enc, final, pad);
  }

  lemma {:induction false} FrontOnly(a: seq<byte>, left: seq<byte>, was: seq<byte>, rest: seq<byte>, part: seq<byte>)
    requires a + left == was + rest && rest <= part
    ensures a <= was + part && (left == [] ==> a == was + rest)
  {
    assert was + part == was + rest + part[|rest|..];
    assert a == (was + rest)[..|a|];
    assert left == [] ==> a + left == a;
  }

  lemma {:induction false} EndsAre()
    ensures NoEof(StopError(EOF)) == None && NoEof(StopError(IO)) == Some(IO)
  {
  }

  /** Drains a decoder that was positioned by a seek. */
  method DrainRest(d: Decoder, w: Drain, ghost part: seq<byte>) returns (e: Option<Error>)
    requires d.Valid() && d.Running() && d.seeked
    requires (d.Remaining() == part && d.Final() == EOF)
      || (d.file.failed && d.Remaining() <= part && d.Final() == IO)
    modifies d, d.frame, d.frame.crc, w, if d.br == null then {} else d.br.Repr()
    ensures old(w.data) <= w.data <= old(w.data) + part && (e == None ==> w.data == old(w.data) + part)
    ensures e == None || (e == Some(IO) && (d.file.failed || w.failed))
  {
    hide Reader.Valid, Rest, EndOf, CountFrom, Decoder.Verdict;
    EndsAre();
    ghost var was, rest := w.data, d.Remaining();
    var total;
    total, e := d.WriteTo(w);
    FrontOnly(w.data, d.Remaining(), was, rest, part);
  }

  /** Opens the encoder's stream, seeks to sample idx of the input and drains what follows:
      without a failure of the source or the drain exactly the input from that sample on, and
      never anything but the front of it. */
  method PlayFrom(enc: Encoder, file: MediaFile, idx: nat, w: Drain, separate: bool, skipMd5: bool, arch: Arch,
      ghost final: seq<byte>, ghost pad: seq<byte>)
    returns (pos: nat, e: Option<Error>, ghost part: seq<byte>)
    requires Written(enc, final, pad) && Regular(enc) && idx < enc.total && file.data == enc.sink.data && arch.Valid()
    requires NoFalseFrame(enc.sink.data, |enc.head|, enc.frames, enc.Declared().info)
    modifies file, w
    ensures From(Flat(enc.blocks), enc.cfg.FrameLen(), idx, part)
    ensures old(w.data) <= w.data <= old(w.data) + part
    ensures e == None ==> pos == idx && w.data == old(w.data) + part
    ensures e == None || (e == Some(IO) && (file.failed || w.failed))
  {
    hide Written, Regular, Clean, Faithful, NoFalseFrame, PlayAs, From, FramesIn, Holds, Flat, SampleOf, StartOf,
      GetMetadata, ByteBits, SameFormat, RestBytes, EndBytes, CountBytes,
      Decoder.CleanSeek, Decoder.PlaysFrom, Decoder.PlaysPart, Decoder.Valid, Decoder.Remaining, Decoder.Ending,
        Decoder.Verdict, Decoder.Searched, Decoder.EndFound, Encoder.Declared,
      Arch.Valid, Reader.Valid;
    Opens(enc, final, pad);
    OpensDepth(enc, final, pad);
    PlaysInput(enc, final, pad);
    var d := OpenStream(file, separate, skipMd5, enc.hash, arch, enc.Declared(), 8 * |enc.head|);
    EncodedIsSeekable(enc, d, final, pad);
    ghost var fs := FramesIn(enc);
    ghost var t;
    t, part := TargetIn(enc, d, idx, final, pad);
    pos, e := d.SeekToSample(idx, enc.frames, fs, [], enc.cfg.channels, t);
    if e.Some? { return; }
    SeekPlays(enc, d, idx, part);
    d.Untapped();
    e := DrainRest(d, w, part);
  }

  // ---- behind the end ----

  /** With small frames at the end a seek behind it reports the number of samples. */
  lemma {:induction false} SmallFramesFound(d: Decoder, frames: seq<seq<byte>>, fs: seq<FrameBits>, m: nat, idx: nat)
    requires d.CleanSeek(frames, fs, [], m) && |fs| == |frames| && idx >= SampleOf(fs, |fs|)
    requires |frames| >= 2 ==> |frames[|frames| - 1]| + |frames[|frames| - 2]| <= 0x8001
    ensures d.EndFound(frames, fs, idx) == SampleOf(fs, |fs|)
  {
    hide Clean, StartOf, SoundPoint, AllShaped, Contiguous, KeepsCount, TableLo, TableHi;
    var n, base := |frames|, d.audioStart;
    d.EndIs(frames, fs, []);
    StartZero(frames, base);
    if n >= 1 {
      if n > 1 { StartOrder(frames, base, 0, n - 1); }
      TablePastEnd(d.seekPoints, frames, fs, base, d.streamEnd, idx, base, d.streamEnd);
      TableInside(d.seekPoints, frames, fs, base, d.streamEnd, idx);
      SmallFramesKeepCount(frames, base, d.SearchLo(idx), d.streamEnd);
    }
  }

  /** Two frames of 50000 and 40000 bytes without a declared count or seek points: there the
      count is lost. */
  lemma {:induction false} CountLost(d: Decoder, frames: seq<seq<byte>>, fs: seq<FrameBits>, m: nat, idx: nat)
    requires d.CleanSeek(frames, fs, [], m) && |fs| == |frames| == 2 && |frames[0]| == 50000 && |frames[1]| == 40000
      && d.seekPoints == []
    ensures d.EndFound(frames, fs, idx) == 0 < SampleOf(fs, 2)
  {
    hide Clean, StartOf, SoundPoint, AllShaped, KeepsCount;
    d.EndIs(frames, fs, []);
    PastEndLosesCount(frames, d.audioStart);
  }

  /** Any seek behind the end of such a stream reports sample 0. */
  method SeekBehindTwoFrames(d: Decoder, idx: nat, ghost frames: seq<seq<byte>>, ghost fs: seq<FrameBits>,
      ghost m: nat) returns (pos: nat, e: Option<Error>)
    requires d.Valid() && d.seekable && d.info.totalSamples == 0 && d.seekPoints == [] && d.CleanSeek(frames, fs, [], m)
    requires |fs| == |frames| == 2 && |frames[0]| == 50000 && |frames[1]| == 40000 && idx >= SampleOf(fs, 2)
    modifies d, d.file, d.frame, d.frame.crc, d.probeFrame, d.probeFrame.crc
    ensures SampleOf(fs, 2) > 0 && (e == None ==> pos == 0) && (e == None || (e == Some(IO) && d.file.failed))
  {
    hide Decoder.Valid, Decoder.CleanSeek, Decoder.PlaysFrom, Decoder.PlaysPart, Decoder.EndFound, Reader.Valid,
      SampleOf;
    CountLost(d, frames, fs, m, idx);
    pos, e := d.SeekToSample(idx, frames, fs, [], m, 0);
  }
}
