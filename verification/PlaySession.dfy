/** Sessions of a decoder over a clean stream: any mix of reads, drains and seeks. */
module PlaySession {
  import opened Words
  import opened Cursor
  import opened BitReader
  import opened LpcRoutes
  import opened SubframeSyntax
  import opened HeaderSyntax
  import opened FrameSyntax
  import opened Metadata
  import opened StreamEncoder
  import opened Resync
  import opened SeekSearch
  import opened Playback
  import opened StreamDecoder
  import opened StreamLossless
  import opened StreamSeek

  datatype Op = ReadOp(n: nat) | DrainOp | SeekOp(idx: int)

  datatype Reply = Reply(out: seq<byte>, pos: nat, err: Option<Error>)

  /** What is still to be read, and what a reader is told once nothing is. */
  datatype Left = Left(bytes: seq<byte>, end: Error)

  /** What a stream has to play: all of its bytes and what a reader is told behind them, the
      bytes of one sample of every channel, how many of those there are, how many it declares,
      and whether the source ends in one more frame. */
  datatype Tape = Tape(bytes: seq<byte>, end: Error, row: nat, count: nat, declared: nat, cut: bool)

  /** One operation: what it replies, and what it leaves. Bytes are only ever delivered from
      the front of what is left, an error only when nothing is, and only a seek changes
      either. failed tells whether the source or the drain has failed by then. */
  ghost predicate StepOk(t: Tape, op: Op, was: Left, r: Reply, now: Left, failed: bool)
  {
    match op
    case ReadOp(n) =>
      && |r.out| <= n && r.out + now.bytes == was.bytes && now.end == was.end
      && (n > 0 && was.bytes != [] ==> r.out != [])
      && r.err == if n > 0 && was.bytes == [] then Some(was.end) else None
    case DrainOp =>
      && r.out + now.bytes == was.bytes && now.end == was.end
      && ((now.bytes == [] && r.err == NoEof(was.end)) || (failed && r.err == Some(IO)))
    case SeekOp(idx) => r.out == [] && SeekOk(t, idx, was, r, now, failed)
  }

  ghost predicate SeekOk(t: Tape, idx: int, was: Left, r: Reply, now: Left, failed: bool)
  {
    if idx < 0 then r.err == Some(InvalidSeek) && now == was
    else if 0 < t.declared <= idx then r.err == None && r.pos == t.declared && now == Left([], EOF)
    else if r.err == Some(IO) then failed && now == Left([], IO)
    else if idx < t.count then
      && r.err == None && r.pos == idx
      && if now.end == t.end then IsSuffix(t.bytes, idx * t.row, now.bytes)
        else failed && now.end == IO && InSuffix(t.bytes, idx * t.row, now.bytes)
    else if t.cut then r.err == Some(Error.Truncated) && now == Left([], Error.Truncated)
    else r.err == None && now == Left([], EOF)
  }

  ghost predicate Broken(d: Decoder, w: Drain)
    reads d.file`failed, w`failed
  {
    d.file.failed || w.failed
  }

  /** The tape of a decoder. */
  ghost function TapeOf(d: Decoder, fs: seq<FrameBits>, tail: seq<byte>, m: nat): Tape
    requires 1 <= d.info.bitDepth && AllShaped(fs, m)
  {
    Tape(PlayedFrom(fs, 0, d.BytesPS()), StopError(TailError(tail)), m * d.BytesPS(), SampleOf(fs, |fs|),
      d.info.totalSamples, |tail| >= 2)
  }

  /** What a decoder has left. */
  ghost function LeftOver(d: Decoder): Left
    requires d.Valid()
    reads d, d.Behind()
  {
    d.Sane();
    Left(d.Remaining(), d.Final())
  }

  /** The decoder's reader is the one it had, over the same source, or a new one. */
  twostate predicate SameOrNew(d: Decoder)
    reads d, d.br
  {
    && (d.br != null ==> d.br.rtap == null)
    && (|| d.br == null
        || (d.br == old(d.br) && d.br.src == old(d.br.src) && d.br.buf == old(d.br.buf))
        || (fresh(d.br) && fresh(d.br.src) && fresh(d.br.buf)))
  }

  /** A seekable decoder over a clean stream. */
  ghost predicate Ready(d: Decoder, frames: seq<seq<byte>>, fs: seq<FrameBits>, tail: seq<byte>, m: nat)
    reads d, d.Footprint()
  {
    d.Valid() && d.seekable && d.CleanSeek(frames, fs, tail, m) && AllShaped(fs, m)
  }

  /** Reads into a buffer of n bytes. */
  method PerformRead(d: Decoder, w: Drain, n: nat, ghost frames: seq<seq<byte>>, ghost fs: seq<FrameBits>,
      ghost tail: seq<byte>, ghost m: nat) returns (r: Reply)
    requires Ready(d, frames, fs, tail, m)
    modifies d, d.frame, d.frame.crc, if d.br == null then {} else d.br.Repr()
    ensures Ready(d, frames, fs, tail, m) && SameOrNew(d)
    ensures StepOk(TapeOf(d, fs, tail, m), ReadOp(n), old(LeftOver(d)), r, LeftOver(d), Broken(d, w))
  {
    hide Reader.Valid, Rest, EndOf, CountFrom, AllShaped, Clean, SoundTable, Contiguous, Decoder.Verdict;
    var out, e := d.Read(n);
    r := Reply(out, 0, e);
    d.Untapped();
  }

  /** Drains all that is left into w. */
  method PerformDrain(d: Decoder, w: Drain, ghost frames: seq<seq<byte>>, ghost fs: seq<FrameBits>,
      ghost tail: seq<byte>, ghost m: nat) returns (r: Reply)
    requires Ready(d, frames, fs, tail, m)
    modifies d, d.frame, d.frame.crc, w, if d.br == null then {} else d.br.Repr()
    ensures Ready(d, frames, fs, tail, m) && SameOrNew(d) && (old(w.failed) ==> w.failed)
    ensures StepOk(TapeOf(d, fs, tail, m), DrainOp, old(LeftOver(d)), r, LeftOver(d), Broken(d, w))
  {
    hide Reader.Valid, Rest, EndOf, CountFrom, AllShaped, Clean, SoundTable, Contiguous, Decoder.Verdict;
    var was := w.data;
    var total, e := d.WriteTo(w);
    r := Reply(w.data[|was|..], 0, e);
    BehindFront(w.data, d.Remaining(), was, old(d.Remaining()));
    d.Untapped();
  }

  lemma {:induction false} BehindFront(a: seq<byte>, next: seq<byte>, was: seq<byte>, rest: seq<byte>)
    requires was <= a && a + next == was + rest
    ensures a[|was|..] + next == rest
  {
    assert (a + next)[|was|..] == a[|was|..] + next;
    assert (was + rest)[|was|..] == rest;
  }

  /** The frame that holds the target, if any does. */
  lemma {:induction false} HolderIf(fs: seq<FrameBits>, idx: int) returns (t: nat)
    ensures 0 <= idx < SampleOf(fs, |fs|) ==> Holds(fs, idx, t)
  {
    t := 0;
    if 0 <= idx < SampleOf(fs, |fs|) { t := Holder(fs, idx, |fs|); }
  }

  /** Seeks. */
  method PerformSeek(d: Decoder, w: Drain, idx: int, ghost frames: seq<seq<byte>>, ghost fs: seq<FrameBits>,
      ghost tail: seq<byte>, ghost m: nat) returns (r: Reply)
    requires Ready(d, frames, fs, tail, m)
    modifies d, d.file, d.frame, d.frame.crc, d.probeFrame, d.probeFrame.crc
    ensures Ready(d, frames, fs, tail, m) && SameOrNew(d) && (old(d.file.failed) ==> d.file.failed)
    ensures StepOk(TapeOf(d, fs, tail, m), SeekOp(idx), old(LeftOver(d)), r, LeftOver(d), Broken(d, w))
  {
    hide Reader.Valid, Rest, EndOf, CountFrom, AllShaped, Clean, SoundTable, Contiguous, Decoder.EndFound, SampleOf;
    ghost var t := HolderIf(fs, idx);
    var pos, e := d.SeekToSample(idx, frames, fs, tail, m, t);
    r := Reply([], pos, e);
    d.Untapped();
  }

  /** Any one operation. */
  method Perform(d: Decoder, w: Drain, op: Op, ghost frames: seq<seq<byte>>, ghost fs: seq<FrameBits>,
      ghost tail: seq<byte>, ghost m: nat) returns (r: Reply)
    requires Ready(d, frames, fs, tail, m)
    modifies d, d.file, d.frame, d.frame.crc, d.probeFrame, d.probeFrame.crc, w,
      if d.br == null then {} else d.br.Repr()
    ensures Ready(d, frames, fs, tail, m) && SameOrNew(d) && (old(Broken(d, w)) ==> Broken(d, w))
    ensures StepOk(TapeOf(d, fs, tail, m), op, old(LeftOver(d)), r, LeftOver(d), Broken(d, w))
  {
    hide Reader.Valid, Decoder.Valid, Decoder.CleanSeek, Decoder.Remaining, Decoder.Footprint, AllShaped, TapeOf,
      StepOk, SameOrNew;
    match op {
      case ReadOp(n) => r := PerformRead(d, w, n, frames, fs, tail, m);
      case DrainOp => r := PerformDrain(d, w, frames, fs, tail, m);
      case SeekOp(idx) => r := PerformSeek(d, w, idx, frames, fs, tail, m);
    }
  }

  /** The operations went one after another as StepOk says: lefts[i] was left before operation
      i, and fails[i] tells whether anything had failed by its end. */
  ghost predicate RunOk(t: Tape, ops: seq<Op>, lefts: seq<Left>, replies: seq<Reply>, fails: seq<bool>)
  {
    && |lefts| == |replies| + 1 && |fails| == |replies| <= |ops|
    && (forall i :: 0 <= i < |replies| ==> StepOk(t, ops[i], lefts[i], replies[i], lefts[i + 1], fails[i]))
    && forall i, j :: 0 <= i < j < |fails| && fails[i] ==> fails[j]
  }

  lemma {:induction false} RunStep(t: Tape, ops: seq<Op>, lefts: seq<Left>, replies: seq<Reply>, fails: seq<bool>,
      r: Reply, now: Left, failed: bool)
    requires RunOk(t, ops, lefts, replies, fails) && |replies| < |ops|
    requires fails != [] && fails[|fails| - 1] ==> failed
    requires StepOk(t, ops[|replies|], lefts[|replies|], r, now, failed)
    ensures RunOk(t, ops, lefts + [now], replies + [r], fails + [failed])
  {
    hide StepOk;
  }

  lemma {:induction false} NothingRun(t: Tape, ops: seq<Op>, left: Left)
    ensures RunOk(t, ops, [left], [], [])
  {
  }

  /** A session over a clean stream, in any mix of operations and whatever fails on the way:
      every byte delivered is the next one of the stream, every error is the one due, and
      every seek goes to the sample asked for. */
  method Session(d: Decoder, w: Drain, ops: seq<Op>, ghost frames: seq<seq<byte>>, ghost fs: seq<FrameBits>,
      ghost tail: seq<byte>, ghost m: nat)
    returns (replies: seq<Reply>, ghost lefts: seq<Left>, ghost fails: seq<bool>)
    requires Ready(d, frames, fs, tail, m)
    modifies d, d.file, d.frame, d.frame.crc, d.probeFrame, d.probeFrame.crc, w,
      if d.br == null then {} else d.br.Repr()
    ensures Ready(d, frames, fs, tail, m) && |replies| == |ops|
    ensures RunOk(TapeOf(d, fs, tail, m), ops, lefts, replies, fails)
    ensures lefts[0] == old(LeftOver(d)) && lefts[|ops|] == LeftOver(d)
    ensures forall i :: 0 <= i < |ops| && fails[i] ==> Broken(d, w)
  {
    hide Reader.Valid, Decoder.Valid, Decoder.CleanSeek, LeftOver, AllShaped, TapeOf, RunOk, StepOk, Broken;
    replies, lefts, fails := [], [LeftOver(d)], [];
    d.Untapped();
    d.Sane();
    NothingRun(TapeOf(d, fs, tail, m), ops, LeftOver(d));
    for i := 0 to |ops|
      invariant Ready(d, frames, fs, tail, m) && SameOrNew(d) && |replies| == i && |lefts| == i + 1 && |fails| == i
      invariant RunOk(TapeOf(d, fs, tail, m), ops, lefts, replies, fails)
      invariant lefts[0] == old(LeftOver(d)) && lefts[i] == LeftOver(d)
      invariant forall j :: 0 <= j < i && fails[j] ==> Broken(d, w)
    {
      var r := Perform(d, w, ops[i], frames, fs, tail, m);
      RunStep(TapeOf(d, fs, tail, m), ops, lefts, replies, fails, r, LeftOver(d), Broken(d, w));
      replies, lefts, fails := replies + [r], lefts + [LeftOver(d)], fails + [Broken(d, w)];
    }
  }

  /** The input of an encoder as a tape. */
  ghost function InputTape(enc: Encoder): Tape
    reads enc, enc.sink
  {
    Tape(Flat(enc.blocks), EOF, enc.cfg.FrameLen(), enc.total, enc.Declared().info.totalSamples, false)
  }

  /** The tape of a stream that an encoder wrote is its input. */
  lemma {:induction false} EncodedTape(enc: Encoder, d: Decoder, final: seq<byte>, pad: seq<byte>)
    requires Written(enc, final, pad) && Regular(enc) && d.Valid() && OpenedAt(d, enc.Declared(), |enc.head|)
      && d.file.data == enc.sink.data
    requires NoFalseFrame(enc.sink.data, |enc.head|, enc.frames, enc.Declared().info)
    ensures Faithful(enc.cfg, enc.blocks, enc.frames) && Ready(d, enc.frames, FramesIn(enc), [], enc.cfg.channels)
    ensures TapeOf(d, FramesIn(enc), [], enc.cfg.channels) == InputTape(enc)
  {
    hide Written, Regular, Clean, Faithful, SoundTable, AllShaped, Contiguous, NoFalseFrame, FrameShaped, Flat,
      FramesIn, PlayedFrom, SampleOf, Decoder.Valid, Encoder.Declared, Arch.Valid;
    EncodedIsSeekable(enc, d, final, pad);
    PlaysInput(enc, final, pad);
    OpensDepth(enc, final, pad);
  }

  /** The same for a stream that an encoder wrote: the first operation has the whole input
      before it, and what is delivered is the input, sample for sample. */
  method EncodedSession(enc: Encoder, file: MediaFile, w: Drain, ops: seq<Op>, separate: bool, skipMd5: bool,
      arch: Arch, ghost final: seq<byte>, ghost pad: seq<byte>)
    returns (replies: seq<Reply>, ghost lefts: seq<Left>, ghost fails: seq<bool>)
    requires Written(enc, final, pad) && Regular(enc) && file.data == enc.sink.data && arch.Valid()
    requires NoFalseFrame(enc.sink.data, |enc.head|, enc.frames, enc.Declared().info)
    modifies file, w
    ensures |replies| == |ops| && RunOk(InputTape(enc), ops, lefts, replies, fails)
    ensures lefts[0] == Left(Flat(enc.blocks), EOF)
    ensures forall i :: 0 <= i < |ops| && fails[i] ==> file.failed || w.failed
  {
    hide Written, Regular, Clean, Faithful, NoFalseFrame, FramesIn, Flat, GetMetadata, ByteBits, SameFormat, RestBytes,
      EndBytes, CountBytes, TapeOf, Ready, OpenedAt, InputTape, StepOk, Decoder.CleanSeek, Decoder.Remaining,
      Decoder.Verdict, Decoder.ReaderOk, Rest, EndOf, CountFrom, Encoder.Declared, Arch.Valid, Reader.Valid;
    Opens(enc, final, pad);
    OpensDepth(enc, final, pad);
    WholeStream(enc, final, pad);
    var d := OpenStream(file, separate, skipMd5, enc.hash, arch, enc.Declared(), 8 * |enc.head|);
    EncodedTape(enc, d, final, pad);
    VerdictIsClean(d);
    replies, lefts, fails := Session(d, w, ops, enc.frames, FramesIn(enc), [], enc.cfg.channels);
  }
}
