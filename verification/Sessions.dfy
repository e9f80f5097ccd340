/** Whole sessions: any sequence of writes, any sequence of reads, and both together. */
module Sessions {
  import opened Words
  import opened Cursor
  import opened BitReader
  import opened LpcRoutes
  import opened Packing
  import opened Metadata
  import opened StreamEncoder
  import opened Playback
  import opened StreamDecoder
  import opened StreamLossless

  /** Reads into buffers of these sizes, going on after errors. The bytes delivered are the
      front of what remained, in order, and after a failure there are none. */
  method ReadMany(d: Decoder, sizes: seq<nat>) returns (out: seq<byte>)
    requires d.Valid()
    modifies d, d.frame, d.frame.crc, if d.br == null then {} else d.br.Repr()
    ensures d.Valid() && out + d.Remaining() == old(d.Remaining()) && d.seeked == old(d.seeked)
    ensures old(d.err.Some?) ==> out == [] && d.err == old(d.err)
  {
    hide Reader.Valid, Rest, EndOf, CountFrom, Decoder.Verdict;
    out := [];
    assert [] + d.Remaining() == d.Remaining();
    for i := 0 to |sizes|
      invariant d.Valid() && d.Kept() && d.seeked == old(d.seeked)
      invariant out + d.Remaining() == old(d.Remaining())
      invariant old(d.err.Some?) ==> out == [] && d.err == old(d.err)
    {
      var p, e := d.Read(sizes[i]);
      Cat3(out, p, d.Remaining());
      out := out + p;
    }
  }

  /** Writes the parts one after another. Without an error all of them are accounted for, and
      by then it no longer matters where one ended and the next began. */
  method WriteMany(enc: Encoder, parts: seq<seq<byte>>) returns (err: Option<Error>)
    requires enc.Valid() && !enc.closed
    modifies enc.Repr()
    ensures enc.Valid() && !enc.closed && enc.head == old(enc.head)
    ensures err == None ==> enc.Input() == old(enc.Input()) + Flat(parts) && enc.clean == old(enc.clean)
    ensures (err == None || err == Some(IO)) && enc.sink.failed == (old(enc.sink.failed) || err.Some?)
  {
    hide Counted, FramesFor, Recorded, InSink, Sized, Headed, SamplesFit, FrameFor, Flat, Config.Valid, Config.FrameLen,
      AllOf;
    assert parts[..0] == [] && enc.Input() + Flat([]) == enc.Input() by { NoParts(enc.Input()); }
    for i := 0 to |parts|
      invariant enc.Valid() && !enc.closed && enc.head == old(enc.head) && enc.clean == old(enc.clean)
        && enc.sink.failed == old(enc.sink.failed)
      invariant enc.Input() == old(enc.Input()) + Flat(parts[..i])
    {
      FlatSnoc(parts[..i], parts[i]);
      assert parts[..i + 1] == parts[..i] + [parts[i]];
      var n;
      n, err := enc.Write(parts[i]);
      if err.Some? { return; }
      Cat3(old(enc.Input()), Flat(parts[..i]), parts[i]);
      assert parts[i][..|parts[i]|] == parts[i];
    }
    assert parts[..|parts|] == parts;
    err := None;
  }

  lemma {:induction false} NoParts(a: seq<byte>)
    ensures a + Flat([]) == a
  {
  }

  /** Why the encoder refuses an input although its sink works: a seek table in a sink that
      cannot seek, a last sample that is not whole, or another length than was announced. */
  function Refusal(cfg: Config, seekable: bool, len: nat): Option<Error>
    requires cfg.Valid()
  {
    if cfg.seekInterval > 0 && !seekable then Some(SeekUnsupported)
    else if len % cfg.FrameLen() != 0 then Some(PartialSample)
    else if cfg.totalSamples > 0 && len != cfg.totalSamples * cfg.FrameLen() then Some(WrongTotal)
    else None
  }

  /** Encodes a whole stream from the parts, whatever they hold. The blocks are exactly their
      bytes, and all but the last are full. Only the sink's failures and the refusals are
      errors. A suitable input is then written as a stream. */
  method EncodeStream(cfg: Config, sink: Sink, hash: seq<byte> -> seq<byte>, parts: seq<seq<byte>>)
    returns (enc: Encoder, err: Option<Error>, ghost final: seq<byte>, ghost pad: seq<byte>)
    requires cfg.Valid() && sink.data == [] && sink.pos == 0
    modifies sink
    ensures fresh(enc) && enc.sink == sink && enc.cfg == cfg && enc.hash == hash && (old(sink.failed) ==> sink.failed)
    ensures err == None ==>
      enc.Valid() && enc.closed && enc.Finished(final, pad) && Flat(enc.blocks) == Flat(parts)
    ensures err == None && Suitable(cfg, Flat(parts)) ==> Written(enc, final, pad)
    ensures err == None ==> FullButLast(enc.blocks, enc.BlockBytes())
    ensures err == None ==> forall i :: 0 <= i < |enc.blocks| ==> enc.blocks[i] != []
    ensures err == Refusal(cfg, sink.seekable, |Flat(parts)|) || (err == Some(IO) && sink.failed)
  {
    hide Counted, FramesFor, Recorded, InSink, Sized, Headed, SamplesFit, FrameFor, Flat, Config.Valid, Config.FrameLen,
      AllOf, Encoder.Finished, Refusal;
    enc := new Encoder(cfg, sink, hash);
    final, pad := [], [];
    err := enc.WriteInitialMetadata();
    RefusedAtOnce(cfg, sink.seekable, |Flat(parts)|);
    if err.Some? { return; }
    EmptyInput(Flat(parts));
    err := WriteMany(enc, parts);
    if err.Some? { return; }
    ghost var full, rest := enc.blocks, enc.leftover;
    assert enc.leftover + [] == enc.leftover;
    err, final, pad := enc.Close();
    Tail(cfg, full, rest, Flat(parts));
    enc.BlockPositive();
    if err == None || err == Some(WrongTotal) {
      assert Flat(enc.blocks) + [] == Flat(enc.blocks);
      TotalIs(cfg, enc.frameNum, enc.total, enc.audioBytes, enc.hashed, enc.blocks, enc.frames);
    }
    RefusedAtEnd(cfg, sink.seekable, |Flat(parts)|, enc.total, err);
    if err == None {
      LastShort(full, rest, enc.BlockBytes());
      if Suitable(cfg, Flat(parts)) {
        BlocksSuit(cfg, full, rest);
        SuitedIsFaithful(cfg, enc.blocks, enc.frames);
      }
    }
  }

  lemma {:induction false} RefusedAtOnce(cfg: Config, seekable: bool, len: nat)
    requires cfg.Valid()
    ensures cfg.seekInterval > 0 && !seekable ==> Refusal(cfg, seekable, len) == Some(SeekUnsupported)
  {
  }

  /** The bytes of a partial sample are those of the carried bytes. */
  lemma {:induction false} Tail(cfg: Config, blocks: seq<seq<byte>>, leftover: seq<byte>, all: seq<byte>)
    requires cfg.FrameLen() > 0 && AllOf(blocks, BLOCK * cfg.FrameLen()) && all == Flat(blocks) + leftover
    ensures |all| % cfg.FrameLen() == |leftover| % cfg.FrameLen()
  {
    hide Flat, AllOf, Config.FrameLen;
    var d := cfg.FrameLen();
    FlatLength(blocks, BLOCK * d);
    MulAssoc(|blocks|, BLOCK, d);
    QuotRem(|leftover|, d);
    var q := |blocks| * BLOCK;
    Distribute(q, |leftover| / d, d);
    DivModUnique(q + |leftover| / d, |leftover| % d, d);
  }

  lemma {:induction false} TotalIs(cfg: Config, frameNum: nat, total: nat, audioBytes: nat, hashed: seq<byte>,
      blocks: seq<seq<byte>>, frames: seq<seq<byte>>)
    requires Counted(cfg, frameNum, total, audioBytes, hashed, blocks, frames)
    ensures total * cfg.FrameLen() == |Flat(blocks)|
  {
  }

  lemma {:induction false} RefusedAtEnd(cfg: Config, seekable: bool, len: nat, total: nat, err: Option<Error>)
    requires cfg.Valid() && (cfg.seekInterval > 0 ==> seekable)
    ensures err == Some(PartialSample) && len % cfg.FrameLen() != 0 ==> Refusal(cfg, seekable, len) == err
    ensures err == Some(WrongTotal) && len == total * cfg.FrameLen() && 0 < cfg.totalSamples != total ==>
      Refusal(cfg, seekable, len) == err
    ensures err == None && len == total * cfg.FrameLen() && (cfg.totalSamples > 0 ==> total == cfg.totalSamples) ==>
      Refusal(cfg, seekable, len) == err
    ensures len == total * cfg.FrameLen() && len < 0x10_0000_0000 * cfg.FrameLen() ==> total < 0x10_0000_0000
  {
    hide Config.FrameLen, Config.Valid;
    var d := cfg.FrameLen();
    DivModUnique(total, 0, d);
    if len == total * d && len == cfg.totalSamples * d { SameQuotient(total, cfg.totalSamples, d); }
    if total >= 0x10_0000_0000 { ProductLe(0x10_0000_0000, total, d); }
  }

  lemma {:induction false} EmptyInput(a: seq<byte>)
    ensures Flat([]) + [] == [] && [] + a == a
  {
  }

  lemma {:induction false} LastShort(blocks: seq<seq<byte>>, leftover: seq<byte>, n: nat)
    requires AllOf(blocks, n) && n > 0
    ensures var all := blocks + if leftover == [] then [] else [leftover];
      FullButLast(all, n) && forall i :: 0 <= i < |all| ==> all[i] != []
  {
  }

  /** The law of the codec: whatever the parts the input is written in, whatever the planner
      and the analysis choose, and however the source splits its bytes, encoding a stream and
      decoding it again gives back the input, unless the input is refused or one of the two
      sinks fails. */
  method RoundTrip(cfg: Config, sink: Sink, hash: seq<byte> -> seq<byte>, parts: seq<seq<byte>>, w: Drain,
      separate: bool, arch: Arch) returns (err: Option<Error>)
    requires cfg.Valid() && sink.data == [] && sink.pos == 0 && w.data == [] && arch.Valid()
    requires Suitable(cfg, Flat(parts))
    modifies sink, w
    ensures w.data <= Flat(parts) && (err == None ==> w.data == Flat(parts))
    ensures err == Refusal(cfg, sink.seekable, |Flat(parts)|) || (err == Some(IO) && (sink.failed || w.failed))
  {
    hide Suitable, Flat, Config.Valid, Config.FrameLen, Written, Arch.Valid, FullButLast, Refusal, Encoder.Valid,
      Encoder.Finished;
    var enc, e, final, pad := EncodeStream(cfg, sink, hash, parts);
    if e.Some? { return e; }
    err := Replay(enc, w, separate, false, arch, final, pad);
    assert [] + Flat(parts) == Flat(parts);
  }
}
