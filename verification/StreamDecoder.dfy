/** The streaming decoder (pcm/decoder.go): reading frame by frame, the digest verdict, and
    sample-accurate seeking with sticky failures. */
module StreamDecoder {
  import opened Words
  import opened Cursor
  import opened BitReader
  import opened LpcRoutes
  import opened SubframeSyntax
  import opened HeaderSyntax
  import opened FrameSyntax
  import opened FrameDecode
  import opened FrameCut
  import opened Packing
  import opened Metadata
  import opened StreamEncoder
  import opened Resync
  import opened Playback
  import opened SeekSearch

  /** A seekable source of fixed content whose operations may fail. */
  class MediaFile {
    const data: seq<byte>
    var pos: nat
    /** Some operation has failed. */
    ghost var failed: bool

    constructor (data: seq<byte>)
      ensures this.data == data && pos == 0 && !failed
    {
      this.data, pos, failed := data, 0, false;
    }

    method Seek(at: nat) returns (ok: bool)
      modifies this
      ensures (ok ==> pos == at) && failed == (old(failed) || !ok)
    {
      ok := *;
      if ok { pos := at; }
      failed := failed || !ok;
    }

    /** Up to n bytes, fewer only at the end of the data; err is a failure of the source. */
    method ReadFull(n: nat) returns (p: seq<byte>, err: Option<Error>)
      modifies this
      ensures |p| <= n && (err == None || err == Some(IO)) && failed == (old(failed) || err.Some?)
      ensures err == None ==> p == data[Min(old(pos), |data|)..Min(old(pos) + n, |data|)]
    {
      var ok: bool := *;
      failed := failed || !ok;
      if !ok { return [], Some(IO); }
      p := data[Min(pos, |data|)..Min(pos + n, |data|)];
      pos := pos + |p|;
      err := None;
    }
  }

  const PROBE_CHUNK_DEFAULT: nat := 0x4_0000
  const MAX_PROBE_WINDOW: nat := 0x100_0000

  /** A sink for decoded bytes; a short write comes with an error. */
  class Drain {
    var data: seq<byte>
    /** Some write has failed. */
    ghost var failed: bool

    constructor ()
      ensures data == [] && !failed
    {
      data, failed := [], false;
    }

    method Write(p: seq<byte>) returns (n: nat, ok: bool)
      modifies this
      ensures n <= |p| && data == old(data) + p[..n] && (ok ==> n == |p|) && failed == (old(failed) || !ok)
    {
      ok := *;
      n :| n <= |p|;
      if ok { n := |p|; }
      data := data + p[..n];
      failed := failed || !ok;
    }
  }

  class Decoder {
    const file: MediaFile
    const info: StreamInfo
    const seekable: bool
    const audioStart: nat
    const streamEnd: nat
    const maxFrame: nat
    const seekPoints: seq<SeekPoint>
    const hash: seq<byte> -> seq<byte>
    const skipMd5: bool
    const arch: Arch
    const frame: Frame
    const probeFrame: Frame
    var br: Reader?
    var pending: seq<byte>
    var nominalBlock: nat
    var hashed: seq<byte>
    var decoded: nat
    var seeked: bool
    var done: bool
    var err: Option<Error>

    /** All samples packed since the stream was opened, and all there are from its start. */
    ghost var played: seq<byte>
    ghost var whole: seq<byte>
    /** How reading from the start to the end of the source ends. */
    ghost const ending: Error
    /** How many inter-channel samples are decoded on the way. */
    ghost const count: nat

    function BytesPS(): (w: nat)
      requires info.bitDepth >= 1
      ensures w >= 1
    {
      (info.bitDepth + 7) / 8
    }

    ghost function Repr(): set<object?>
      reads this, br
    {
      {this, file, frame, frame.crc, probeFrame, probeFrame.crc} + if br == null then {} else br.Repr()
    }

    ghost function Footprint(): set<object?>
      reads `br, br
    {
      {this} + Behind()
    }

    /** The reader and what it holds. */
    ghost function Behind(): set<object?>
      reads `br, br
    {
      if br == null then {} else br.Repr()
    }

    /** The reader can go on. */
    ghost predicate Running()
      reads `err, `done
    {
      err == None && !done
    }

    ghost predicate ReaderOk()
      reads `br, `err, `done, Behind()
    {
      br != null ==>
        br.Valid() && br.rtap == null
        && (Running() ==> 0 <= br.Pos() <= |br.Stream().bits| && br.Pos() % 8 == 0 && |br.Stream().bits| % 8 == 0)
    }

    /** What reading on would still deliver. */
    ghost function Remaining(): seq<byte>
      requires 1 <= info.bitDepth <= 32 && ReaderOk()
      reads `br, `err, `done, `pending, Behind()
    {
      pending + if br == null || !Running() then [] else Rest(br.Stream(), br.Pos(), info, BytesPS())
    }

    /** How decoding on would end. */
    ghost function Ending(): Error
      requires ReaderOk()
      reads `br, `err, `done, Behind()
    {
      if br == null || !Running() then EOF else EndOf(br.Stream(), br.Pos(), info)
    }

    /** Without a reader there is a sticky error or nothing left; after an error or at the
        end nothing is pending; and until the first seek the digest covers exactly what was
        decoded. */
    ghost predicate Valid()
      reads `br, `err, `done, `pending, `seeked, `hashed, `played, `whole, `decoded, Behind()
    {
      && 1 <= info.bitDepth <= 32 && arch.Valid() && ReaderOk()
      && (br == null ==> !Running()) && (!Running() ==> pending == []) && err != Some(EOF)
      && (!seeked && !skipMd5 ==> hashed == played)
      && (!seeked && Running() ==> (
        && played + Rest(br.Stream(), br.Pos(), info, BytesPS()) == whole
          && EndOf(br.Stream(), br.Pos(), info) == ending
        && decoded + CountFrom(br.Stream(), br.Pos(), info) == count))
    }

    /** What it takes to ask what remains and how that ends. */
    lemma {:induction false} Sane()
      requires Valid()
      ensures 1 <= info.bitDepth <= 32 && ReaderOk()
    {
      hide Reader.Valid, Rest, EndOf, CountFrom, Arch.Valid;
    }

    lemma {:induction false} Untapped()
      requires Valid()
      ensures br != null ==> br.rtap == null
    {
      hide Reader.Valid, Rest, EndOf, CountFrom, Arch.Valid;
    }

    constructor (file: MediaFile, br: Reader, m: StreamMeta, seekable: bool, audioStart: nat, streamEnd: nat,
        hash: seq<byte> -> seq<byte>, skipMd5: bool, arch: Arch)
      requires br.Valid() && br.rtap == null && 0 <= br.Pos() <= |br.Stream().bits| && br.Pos() % 8 == 0
        && |br.Stream().bits| % 8 == 0
      requires 4 <= m.info.bitDepth <= 32 && arch.Valid()
      ensures Valid() && Running() && !seeked && this.br == br && this.file == file && this.info == m.info
        && pending == []
      ensures Remaining() == whole == Rest(br.Stream(), br.Pos(), info, BytesPS())
      ensures ending == EndOf(br.Stream(), br.Pos(), info) && count == CountFrom(br.Stream(), br.Pos(), info)
      ensures this.hash == hash && this.skipMd5 == skipMd5 && fresh(frame) && fresh(frame.crc) && fresh(probeFrame)
        && fresh(probeFrame.crc)
      ensures this.audioStart == audioStart && this.streamEnd == streamEnd && this.seekable == seekable
        && this.seekPoints == m.points
      ensures nominalBlock == m.maxBlock
    {
      hide Reader.Valid, Rest, EndOf, CountFrom, Accept;
      this.file, this.br, this.info, this.seekable := file, br, m.info, seekable;
      this.audioStart, this.streamEnd, this.hash, this.skipMd5, this.arch := audioStart, streamEnd, hash, skipMd5, arch;
      maxFrame, seekPoints, nominalBlock := m.maxFrame, m.points, m.maxBlock;
      var a := new Frame();
      var b := new Frame();
      frame, probeFrame := a, b;
      pending, hashed, decoded, seeked, done, err := [], [], 0, false, false, None;
      played, whole := [], Rest(br.Stream(), br.Pos(), m.info, (m.info.bitDepth + 7) / 8);
      ending, count := EndOf(br.Stream(), br.Pos(), m.info), CountFrom(br.Stream(), br.Pos(), m.info);
    }

    // ---- reading ----

    /** The interleaved bytes of the decoded frame. */
    method PackFrame(w: nat, hashNative: bool, ghost f: FrameBits) returns (buf: seq<byte>)
      requires Shows(frame, f)
      modifies this`hashed
      ensures buf == Packed(f, w) && hashed == if hashNative then old(hashed) + buf else old(hashed)
    {
      hide FrameShaped, Pcm, Pack;
      PcmRectangular(f);
      ChannelLengths(frame.channels, Pcm(f), frame.blockSize);
      assert Heads(frame.channels, frame.blockSize) == Pcm(f);
      buf := AppendPacked([], frame.channels, frame.blockSize, w);
      if hashNative { hashed := hashed + buf; }
    }

    lemma {:induction false} ChannelLengths(chs: seq<array<int>>, ch: seq<seq<int>>, n: nat)
      requires |chs| == |ch| && Rectangular(ch, n) && forall k :: 0 <= k < |chs| ==> chs[k][..] == ch[k]
      ensures forall k :: 0 <= k < |chs| ==> chs[k].Length == n && chs[k][..n] == ch[k]
    {
      forall k | 0 <= k < |chs| ensures chs[k].Length == n && chs[k][..n] == ch[k] { assert |chs[k][..]| == |ch[k]|; }
    }

    /** The stored digest says something. */
    predicate HasDigest()
    {
      !skipMd5 && info.md5 != Zero16()
    }

    /** The verdict at a clean end of the stream, given only when every frame from the start
        was decoded: over all of its samples, or over their number. */
    method Finish() returns (e: Error)
      requires 1 <= info.bitDepth <= 32 && arch.Valid() && err == None
      modifies this`done, this`err
      ensures done && err == (if e == EOF then None else Some(e))
      ensures seeked ==> e == EOF
      ensures !seeked && HasDigest() ==> e == if Digest(hash, hashed) == info.md5 then EOF else Md5Mismatch
      ensures !seeked && !HasDigest() ==>
        e == if info.totalSamples != 0 && decoded < info.totalSamples then Error.Truncated else EOF
    {
      done := true;
      if !seeked {
        if !skipMd5 && info.md5 != Zero16() {
          var sum := Digest(hash, hashed);
          if sum != info.md5 {
            err := Some(Md5Mismatch);
            return Md5Mismatch;
          }
        } else if info.totalSamples != 0 && decoded < info.totalSamples {
          err := Some(Error.Truncated);
          return Error.Truncated;
        }
      }
      return EOF;
    }

    /** What a reader of the whole stream is told at its end: when the source ends at a frame
        boundary, the verdict on the digest of everything or, without a digest, on the number
        of samples; and otherwise why decoding stopped. */
    ghost function Verdict(): Error
      reads `whole
    {
      if ending != EOF then StopError(ending)
      else if HasDigest() then (if Digest(hash, whole) == info.md5 then EOF else Md5Mismatch)
      else if info.totalSamples != 0 && count < info.totalSamples then Error.Truncated else EOF
    }

    /** What a reader is told once nothing remains: the sticky error, the verdict, or after a
        seek why decoding stops. */
    ghost function Final(): Error
      requires ReaderOk()
      reads `br, `err, `done, `seeked, `whole, Behind()
    {
      if err.Some? then err.value
      else if done then EOF
      else if seeked then StopError(Ending()) else Verdict()
    }

    /** What a reader of the whole stream is told, in terms of what was declared: at a frame
        boundary a digest that is checked decides alone, without one the number of samples does;
        and a source that ends inside a frame is truncated. */
    lemma {:induction false} FinalIs(sum: seq<byte>)
      requires Valid() && Running() && !seeked && |info.md5| == 16 && sum == hash(whole) && |sum| == 16
      ensures var checked := !skipMd5 && exists i :: 0 <= i < 16 && info.md5[i] != 0;
        ending == EOF ==>
          && (Final() == Md5Mismatch <==> checked && sum != info.md5)
          && (Final() == Error.Truncated <==> !checked && count < info.totalSamples)
          && (Final() == EOF <==> if checked then sum == info.md5 else count >= info.totalSamples)
      ensures ending != EOF ==> Final() == if ending == UnexpectedEOF then Error.Truncated else ending
    {
      hide Reader.Valid, Rest, EndOf, CountFrom, Arch.Valid;
      assert info.md5 == Zero16() <==> forall i :: 0 <= i < 16 ==> info.md5[i] == 0;
    }

    /** After a seek nothing is checked: the stream ends clean, truncated, or with the error of
        its source. */
    lemma {:induction false} FinalAfterSeek()
      requires Valid() && Running() && seeked
      ensures Final() == if Ending() == UnexpectedEOF then Error.Truncated else Ending()
    {
      hide Reader.Valid, Rest, EndOf, CountFrom, Arch.Valid;
    }

    /** Decodes one more frame into pending, or settles how the stream ends. */
    method DecodeNextFrame() returns (e: Option<Error>)
      requires Valid() && err == None && pending == []
      modifies this, frame, frame.crc, if br == null then {} else br.Repr()
      ensures Valid() && br == old(br) && seeked == old(seeked) && nominalBlock == old(nominalBlock)
        && whole == old(whole)
      ensures Kept()
      ensures e == None ==>
        Running() && old(Running()) && pending != [] && Remaining() == old(Remaining()) && old(br.Pos()) < br.Pos()
      ensures e.Some? ==>
        !Running() && Remaining() == old(Remaining()) == [] && (err == None || err == e)
        && (err == None <==> e == Some(EOF)) && (e == Some(EOF) ==> done)
      ensures Final() == old(Final()) && (e.Some? ==> e == Some(Final()))
    {
      hide Reader.Valid, Rest, EndOf, CountFrom, Accept, GetHeader, Distinct, Packed, FrameShaped, Shows, Digest,
        ByteBits, HasDigest;
      if done { return Some(EOF); }
      br.Bounds();
      RestStep(br.Stream(), br.Pos(), info, BytesPS());
      var r := Decode(br, info, frame, arch);
      if r.Error? {
        var v := Settle(r.e);
        return Some(v);
      }
      TakeFrame(Accept(old(br.Stream()), old(br.Pos()), info).v, Rest(br.Stream(), br.Pos(), info, BytesPS()));
      return None;
    }

    /** The stream ended, cleanly or not. */
    method Settle(e: Error) returns (v: Error)
      requires 1 <= info.bitDepth <= 32 && arch.Valid() && err == None && (!seeked && !skipMd5 ==> hashed == played)
        && (!seeked ==> played + [] == whole && e == ending && decoded == count)
      modifies this`done, this`err
      ensures (done || err.Some?) && (err == None || err == Some(v)) && (err == None <==> v == EOF)
        && (v == EOF ==> done)
      ensures v == if seeked then StopError(e) else Verdict()
    {
      hide Digest;
      assert played + [] == played;
      if e == EOF {
        v := Finish();
      } else {
        v := StopError(e);
        err := Some(v);
      }
    }

    /** Packs the decoded frame, feeding the digest until the first seek. */
    method TakeFrame(ghost f: FrameBits, ghost rest: seq<byte>)
      requires 1 <= info.bitDepth <= 32 && FrameShaped(f) && Shows(frame, f)
      requires f.hdr.blockSize >= 1 && f.hdr.Channels() >= 1 && (!seeked && !skipMd5 ==> hashed == played)
      modifies this`decoded, this`pending, this`hashed, this`played
      ensures decoded == old(decoded) + f.hdr.blockSize && pending == Packed(f, BytesPS()) != []
        && (!seeked && !skipMd5 ==> hashed == played)
      ensures played == old(played) + pending && played + rest == old(played) + (pending + rest)
    {
      hide Packed, FrameShaped, Pcm;
      PackedNotEmpty(f, BytesPS());
      Cat3(played, Packed(f, BytesPS()), rest);
      decoded := decoded + frame.blockSize;
      pending := PackFrame(BytesPS(), !seeked && !skipMd5, f);
      played := played + pending;
    }

    /** Fills a buffer of n bytes: what is delivered is exactly the front of what remained,
        an error comes with no bytes, and after a failure none ever do. */
    method Read(n: nat) returns (out: seq<byte>, e: Option<Error>)
      requires Valid()
      modifies this, frame, frame.crc, if br == null then {} else br.Repr()
      ensures Valid() && br == old(br) && Kept() && seeked == old(seeked) && whole == old(whole) && |out| <= n
      ensures n == 0 ==> out == [] && e == None && Remaining() == old(Remaining())
      ensures out + Remaining() == old(Remaining())
      ensures e.Some? ==> out == [] && old(Remaining()) == [] && !Running()
      ensures e == None && n > 0 ==> out != []
      ensures e == None && |out| < n ==> pending == []
      ensures old(err) == None && old(pending) != [] ==> out == old(pending)[..Min(n, |old(pending)|)]
      ensures old(err.Some?) ==> err == old(err) && (n > 0 ==> e == old(err))
      ensures Final() == old(Final()) && (e.Some? ==> e == Some(Final()))
      ensures nominalBlock == old(nominalBlock)
    {
      hide Reader.Valid, Rest, EndOf, CountFrom, Digest, HasDigest, ByteBits, Verdict;
      assert [] + Remaining() == Remaining();
      if n == 0 { return [], None; }
      if err.Some? { return [], err; }
      while pending == []
        invariant Valid() && Kept() && seeked == old(seeked) && whole == old(whole) && err == None
          && nominalBlock == old(nominalBlock)
        invariant Remaining() == old(Remaining()) && Final() == old(Final())
        invariant old(pending) != [] ==> pending == old(pending)
        decreases pending == [], if br == null || !Running() then 0 else |br.Stream().bits| + 1 - br.Pos()
      {
        var r := DecodeNextFrame();
        if r.Some? {
          assert [] + Remaining() == Remaining();
          return [], r;
        }
      }
      var k := Min(n, |pending|);
      out := pending[..k];
      ghost var rest := if br == null || !Running() then [] else Rest(br.Stream(), br.Pos(), info, BytesPS());
      assert pending == out + pending[k..];
      Cat3(out, pending[k..], rest);
      pending := pending[k..];
      e := None;
    }

    /** Drains everything into w. */
    method WriteTo(w: Drain) returns (total: nat, e: Option<Error>)
      requires Valid()
      modifies this, frame, frame.crc, w, if br == null then {} else br.Repr()
      ensures Valid() && br == old(br) && seeked == old(seeked) && whole == old(whole)
      ensures |w.data| == |old(w.data)| + total && old(w.data) <= w.data
      ensures w.data + Remaining() == old(w.data) + old(Remaining())
      ensures old(err.Some?) ==> total == 0 && e == old(err)
      ensures e == None ==> Remaining() == [] && done
      ensures Final() == old(Final()) && (e == NoEof(Final()) || (e == Some(IO) && w.failed))
      ensures (Remaining() == [] && !Running()) || (e == Some(IO) && w.failed)
      ensures nominalBlock == old(nominalBlock) && Kept()
      ensures old(w.failed) ==> w.failed
    {
      hide Reader.Valid, Rest, EndOf, CountFrom, Digest, HasDigest, ByteBits, Verdict;
      total := 0;
      if err.Some? { return 0, err; }
      if pending != [] {
        var n, ok := PutPending(w);
        total := total + n;
        if !ok { return total, Some(IO); }
      }
      while true
        invariant Valid() && Kept() && seeked == old(seeked) && whole == old(whole) && err == None && pending == []
          && nominalBlock == old(nominalBlock)
        invariant Final() == old(Final())
        invariant |w.data| == |old(w.data)| + total && old(w.data) <= w.data && w.failed == old(w.failed)
        invariant w.data + Remaining() == old(w.data) + old(Remaining())
        decreases if br == null || !Running() then 0 else |br.Stream().bits| + 1 - br.Pos()
      {
        var n, stop;
        n, stop, e := PumpFrame(w);
        total := total + n;
        if stop { return; }
      }
    }

    /** One frame from the source into w. */
    method PumpFrame(w: Drain) returns (n: nat, stop: bool, e: Option<Error>)
      requires Valid() && err == None && pending == []
      modifies this, frame, frame.crc, w, if br == null then {} else br.Repr()
      ensures Valid() && br == old(br) && Kept() && seeked == old(seeked) && whole == old(whole)
        && nominalBlock == old(nominalBlock)
      ensures |w.data| == |old(w.data)| + n && old(w.data) <= w.data
        && w.data + Remaining() == old(w.data) + old(Remaining())
      ensures w.failed == old(w.failed) || (w.failed && stop && e == Some(IO))
      ensures !stop ==>
        Running() && old(Running()) && pending == [] && old(br.Pos()) < br.Pos()
      ensures stop && !(e == Some(IO) && w.failed) ==> Remaining() == [] && !Running() && (e == None ==> done)
      ensures Final() == old(Final()) && (stop ==> e == NoEof(Final()) || (e == Some(IO) && w.failed))
    {
      hide Reader.Valid, Rest, EndOf, CountFrom, Digest, HasDigest, ByteBits, Verdict;
      var r := DecodeNextFrame();
      if r.Some? { return 0, true, NoEof(r.value); }
      var ok;
      n, ok := PutPending(w);
      stop, e := !ok, if ok then None else Some(IO);
    }

    /** Hands the pending bytes to w and keeps what it did not take. */
    method PutPending(w: Drain) returns (n: nat, ok: bool)
      requires Valid()
      modifies this`pending, w
      ensures Valid() && old(w.data) <= w.data && |w.data| == |old(w.data)| + n && (ok ==> pending == [])
      ensures w.failed == (old(w.failed) || !ok) && Final() == old(Final())
      ensures w.data + Remaining() == old(w.data) + old(Remaining())
    {
      hide Reader.Valid, Rest, EndOf, CountFrom;
      n, ok := w.Write(pending);
      ghost var rest := if br == null || !Running() then [] else Rest(br.Stream(), br.Pos(), info, BytesPS());
      assert pending == pending[..n] + pending[n..];
      Cat3(old(w.data), pending[..n], pending[n..] + rest);
      Cat3(pending[..n], pending[n..], rest);
      pending := pending[n..];
    }

    /** The reader goes on with the same source. */
    twostate predicate Kept()
      reads this, Footprint()
    {
      br == old(br) && (br != null ==> br.src == old(br.src) && br.data == old(br.data) && br.buf == old(br.buf))
    }

    // ---- probing ----

    /** The stream is clean, up to the end of the source. */
    ghost predicate CleanFile(frames: seq<seq<byte>>, fs: seq<FrameBits>, tail: seq<byte>)
    {
      Clean(file.data, audioStart, frames, fs, tail, info) && streamEnd == |file.data|
    }

    /** A frame is accepted at this offset and the probe frame shows its header. */
    ghost predicate Probed(start: nat)
      reads probeFrame
    {
      start <= |file.data| && (
        var r := AcceptBytes(file.data[start..], info);
        && r.Ok? && probeFrame.blockSize == r.v.hdr.blockSize >= 1 && probeFrame.number == r.v.hdr.number
        && probeFrame.variable == r.v.hdr.variable)
    }

    /** The probe found the first frame at or behind b of a clean stream; without one it tells
        a cut frame from a clean end, unless b is inside the cut frame. */
    ghost predicate ProbeExact(frames: seq<seq<byte>>, fs: seq<FrameBits>, tail: seq<byte>, b: nat, start: nat,
        end: nat, res: Outcome)
      requires |fs| == |frames|
      reads probeFrame
    {
      var k := FirstFrom(frames, audioStart, b, 0);
      if k == |frames| then res != FrameFound
        && (b <= StartOf(frames, audioStart, k) ==> (res == FrameTruncated <==> |tail| >= 2)) else
        && res == FrameFound && start == StartOf(frames, audioStart, k) && end == StartOf(frames, audioStart, k + 1)
        && probeFrame.blockSize == fs[k].hdr.blockSize && probeFrame.number == fs[k].hdr.number
          && probeFrame.variable == fs[k].hdr.variable
    }

    /** Probing from b at this base has missed nothing: k is still the first frame, and a cut
        frame is still ahead if it was. */
    ghost predicate Progress(frames: seq<seq<byte>>, fs: seq<FrameBits>, tail: seq<byte>, b: nat, at: nat, k: nat)
    {
      && CleanFile(frames, fs, tail) && audioStart <= at < streamEnd && FirstAt(frames, audioStart, at, k)
      && (b <= StartOf(frames, audioStart, |frames|) ==> at <= StartOf(frames, audioStart, |frames|))
    }

    lemma {:induction false} ProbeStart(frames: seq<seq<byte>>, fs: seq<FrameBits>, tail: seq<byte>, b: nat)
      requires CleanFile(frames, fs, tail) && audioStart <= b
      ensures b < streamEnd ==> Progress(frames, fs, tail, b, b, FirstFrom(frames, audioStart, b, 0))
      ensures b >= streamEnd ==>
        FirstFrom(frames, audioStart, b, 0) == |frames| && (b <= StartOf(frames, audioStart, |frames|) ==> |tail| <= 1)
    {
      hide Accept, StartOf, ValidFrame, FirstFrom, Flat, Clean;
      EndIs(frames, fs, tail);
      var k := FirstFrom(frames, audioStart, b, 0);
      FirstReached(frames, audioStart, b, 0);
      FirstFromIs(frames, audioStart, b, 0);
      if b >= streamEnd && k < |frames| {
        FrameSize(frames, fs, tail, k);
        StartOrder(frames, audioStart, k, |frames|);
      }
    }

    lemma {:induction false} FrameSize(frames: seq<seq<byte>>, fs: seq<FrameBits>, tail: seq<byte>, k: nat)
      requires CleanFile(frames, fs, tail) && k < |frames|
      ensures 2 <= |frames[k]| <= FRAME_LIMIT
    {
      hide Accept, Flat, StartOf, NoFalseFrame, CutTail;
      assert ValidFrame(frames[k], fs[k], info);
    }

    lemma {:induction false} TailSize(frames: seq<seq<byte>>, fs: seq<FrameBits>, tail: seq<byte>)
      requires CleanFile(frames, fs, tail)
      ensures |tail| <= FRAME_LIMIT
    {
      hide ValidFrame, Flat, NoFalseFrame, CutTail;
      TailFacts(tail, info);
    }

    /** The next frame start is never further away than the limit. */
    lemma {:induction false} NearStart(frames: seq<seq<byte>>, fs: seq<FrameBits>, tail: seq<byte>, at: nat, k: nat)
      requires CleanFile(frames, fs, tail) && audioStart <= at && FirstAt(frames, audioStart, at, k)
      ensures StartOf(frames, audioStart, k) <= at + FRAME_LIMIT
    {
      hide StartOf, Clean;
      if k > 0 {
        FrameSize(frames, fs, tail, k - 1);
        StartNext(frames, audioStart, k - 1);
      } else {
        StartZero(frames, audioStart);
      }
    }

    /** What the scan of one window means for the search. */
    lemma {:induction false} WindowFinds(frames: seq<seq<byte>>, fs: seq<FrameBits>, tail: seq<byte>, b: nat, at: nat,
        window: nat, k: nat)
      requires Progress(frames, fs, tail, b, at, k) && PROBE_CHUNK_DEFAULT <= window <= MAX_PROBE_WINDOW
      ensures var e := Min(at + window, streamEnd);
        match Find(file.data[at..e], 0, info)
        case NotFound => if e == streamEnd then k == |frames| && (b <= StartOf(frames, audioStart, k) ==> |tail| <= 1)
          else Progress(frames, fs, tail, b, e - 1, k)
        case Found(s, len, f) => (
          && k < |frames| && f == fs[k] && at + s == StartOf(frames, audioStart, k)
          && at + s + len == StartOf(frames, audioStart, k + 1))
        case Truncated => if e == streamEnd then k == |frames| && (b <= StartOf(frames, audioStart, k) ==> |tail| >= 2)
          else window < MAX_PROBE_WINDOW
    {
      hide Accept, StartOf, Clean, Find, Flat;
      var e := Min(at + window, streamEnd);
      EndIs(frames, fs, tail);
      TailSize(frames, fs, tail);
      NearStart(frames, fs, tail, at, k);
      if at <= StartOf(frames, audioStart, k) {
        FindInWindow(file.data, audioStart, frames, fs, tail, info, at, e, k);
        if k < |frames| {
          FrameSize(frames, fs, tail, k);
          StartNext(frames, audioStart, k);
          StartInside(frames, fs, tail, k);
          StartOrder(frames, audioStart, k, |frames|);
        }
      } else {
        NoneInTail(file.data, audioStart, frames, fs, tail, info, at, e);
      }
    }

    lemma {:induction false} EndIs(frames: seq<seq<byte>>, fs: seq<FrameBits>, tail: seq<byte>)
      requires CleanFile(frames, fs, tail)
      ensures StartOf(frames, audioStart, |frames|) + |tail| == streamEnd && |fs| == |frames|
    {
      hide Accept, ValidFrame, Flat, NoFalseFrame, CutTail;
      StartEnd(file.data, audioStart, frames);
    }

    lemma {:induction false} StartInside(frames: seq<seq<byte>>, fs: seq<FrameBits>, tail: seq<byte>, k: nat)
      requires CleanFile(frames, fs, tail) && k < |frames|
      ensures StartOf(frames, audioStart, k + 1) <= streamEnd
    {
      hide Accept, ValidFrame, Flat, NoFalseFrame, CutTail;
      FrameBytes(file.data, audioStart, frames, k);
    }

    /** A frame found in a window is there in the file. */
    lemma {:induction false} FoundInFile(buf: seq<byte>, at: nat, n: nat, s: nat, consumed: nat)
      requires buf == file.data[Min(at, |file.data|)..Min(at + n, |file.data|)]
      requires Find(buf, 0, info).Found? && Matches(Find(buf, 0, info), s, consumed, FrameFound, probeFrame)
      ensures consumed >= 2 && at + s + consumed <= |file.data| && Probed(at + s)
    {
      hide Accept, Find, ByteBits;
      FoundIs(buf, 0, info);
      var rest := file.data[at + s..];
      assert buf[s..] == rest[..|buf| - s];
      AcceptMore(rest, |buf| - s, buf[s..], info, AcceptBytes(buf[s..], info));
      AcceptedWhole(Bytes(rest), 0, info);
    }

    /** Finds the first frame at or behind b, growing the window while a frame is cut by it.
        It ends on any content; in a clean stream it misses nothing. */
    method Probe(b: nat, ghost frames: seq<seq<byte>>, ghost fs: seq<FrameBits>, ghost tail: seq<byte>)
      returns (start: nat, end: nat, res: Outcome, e: Option<Error>)
      requires 1 <= info.bitDepth <= 32 && arch.Valid()
      modifies file, probeFrame, probeFrame.crc
      ensures (e == None || e == Some(IO)) && file.failed == (old(file.failed) || e.Some?)
      ensures e == None && res == FrameFound ==> b <= start < end <= |file.data| && Probed(start)
      ensures e == None && CleanFile(frames, fs, tail) && audioStart <= b ==>
        ProbeExact(frames, fs, tail, b, start, end, res)
    {
      hide Accept, Find, Clean, StartOf, FirstFrom, ByteBits, FirstAt;
      ghost var clean := CleanFile(frames, fs, tail) && audioStart <= b;
      ghost var k := if clean then FirstFrom(frames, audioStart, b, 0) else 0;
      start, end, res, e := 0, 0, FrameNotFound, None;
      var window := Min(Max(2 * maxFrame, PROBE_CHUNK_DEFAULT), MAX_PROBE_WINDOW);
      var at := b;
      if clean {
        EndIs(frames, fs, tail);
        ProbeStart(frames, fs, tail, b);
      }
      while at < streamEnd
        invariant b <= at && PROBE_CHUNK_DEFAULT <= window <= MAX_PROBE_WINDOW && file.failed == old(file.failed)
        invariant clean && at < streamEnd ==> Progress(frames, fs, tail, b, at, k)
        invariant clean && at >= streamEnd ==> k == |frames| && (b <= StartOf(frames, audioStart, k) ==> |tail| <= 1)
        decreases streamEnd - at, MAX_PROBE_WINDOW - window
      {
        var n := Min(streamEnd - at, window);
        var ok := file.Seek(at);
        if !ok { return 0, 0, FrameNotFound, Some(IO); }
        var buf, rerr := file.ReadFull(n);
        if rerr.Some? { return 0, 0, FrameNotFound, Some(IO); }
        var rn := |buf|;
        var atEnd := at + rn >= streamEnd || rn < n;
        var s, consumed, found := FindNextFrame(buf, info, probeFrame, arch);
        if clean { WindowFinds(frames, fs, tail, b, at, window, k); }
        if found == FrameFound {
          FoundInFile(buf, at, n, s, consumed);
          return at + s, at + s + consumed, FrameFound, None;
        }
        if found == FrameTruncated {
          if atEnd { return 0, 0, FrameTruncated, None; }
          if window >= MAX_PROBE_WINDOW { return 0, 0, FrameNotFound, None; }
          window := Min(2 * window, MAX_PROBE_WINDOW);
        } else {
          if atEnd { return 0, 0, FrameNotFound, None; }
          at := at + rn - 1;
        }
      }
    }

    // ---- searching ----

    function FirstOf(fr: Frame): nat
      reads this`nominalBlock, fr
    {
      if fr.variable then fr.number else fr.number * nominalBlock
    }

    /** A frame is accepted at l, first is its first sample, and the target is not behind it. */
    ghost predicate Landable(l: nat, first: nat, target: nat)
      reads this`nominalBlock
    {
      l <= |file.data| && (
        var r := AcceptBytes(file.data[l..], info);
        r.Ok? && first == FirstSample(r.v.hdr, nominalBlock) && (target < first || target < first + r.v.hdr.blockSize))
    }

    /** The search over a clean stream went as Lands says; without a frame for the target it
        tells a cut frame from the end. */
    ghost predicate SearchExact(frames: seq<seq<byte>>, fs: seq<FrameBits>, tail: seq<byte>, target: nat, lo: nat,
        hi: nat, landStart: Option<nat>, first: nat, endSample: nat, e: Option<Error>)
      requires |fs| == |frames|
    {
      var k := Lands(frames, audioStart, fs, target, lo, hi);
      if k < |frames| then e == None && landStart == Some(StartOf(frames, audioStart, k)) && first == SampleOf(fs, k)
      else if |tail| >= 2 then e == Some(Error.Truncated)
      else e == None && landStart == None && endSample == EndSample(frames, audioStart, fs, target, lo, hi)
    }

    /** A clean stream whose coded numbers agree with the block sizes, searched from a place
        that is not behind its last whole frame. */
    ghost predicate Searchable(frames: seq<seq<byte>>, fs: seq<FrameBits>, tail: seq<byte>, lo: nat)
      reads this`nominalBlock
    {
      CleanFile(frames, fs, tail) && Contiguous(fs, nominalBlock)
        && audioStart <= lo <= StartOf(frames, audioStart, |frames|)
    }

    /** The byte offset and first sample of the frame containing the target, or no frame when
        the stream ends before it. A frame the source ends inside is an error. */
    method SearchFrame(target: nat, lo0: nat, hi0: nat, ghost frames: seq<seq<byte>>, ghost fs: seq<FrameBits>,
        ghost tail: seq<byte>)
      returns (landStart: Option<nat>, first: nat, endSample: nat, e: Option<Error>)
      requires 1 <= info.bitDepth <= 32 && arch.Valid()
      modifies file, probeFrame, probeFrame.crc
      ensures (e == None || e == Some(IO) || e == Some(Error.Truncated))
        && file.failed == (old(file.failed) || e == Some(IO))
      ensures e == None && landStart.Some? ==> Landable(landStart.value, first, target)
      ensures e != Some(IO) && Searchable(frames, fs, tail, lo0) ==>
        |fs| == |frames| && SearchExact(frames, fs, tail, target, lo0, hi0, landStart, first, endSample, e)
    {
      hide AcceptBytes, Clean, StartOf, SampleOf, FirstFrom, Binary, Scan, ByteBits;
      landStart, first, endSample, e := None, 0, 0, None;
      var lo: nat, hi: nat := lo0, hi0;
      ghost var clean := Searchable(frames, fs, tail, lo0);
      if clean { EndIs(frames, fs, tail); }
      while hi - lo > LINEAR_WINDOW
        invariant lo0 <= lo && file.failed == old(file.failed)
        invariant clean ==> lo <= StartOf(frames, audioStart, |frames|)
        invariant clean ==>
          |fs| == |frames| && Binary(frames, audioStart, fs, target, lo0, hi0) ==
          Binary(frames, audioStart, fs, target, lo, hi)
        decreases hi - lo
      {
        var mid := lo + (hi - lo) / 2;
        var start, end, res, perr := Probe(mid, frames, fs, tail);
        if perr.Some? { return None, 0, 0, perr; }
        if clean { BinaryStep(frames, audioStart, fs, target, lo, hi); }
        if res != FrameFound {
          hi := mid;
        } else {
          var f := FirstOf(probeFrame);
          if clean { ProbedFrame(frames, fs, tail, mid, start, end, f); }
          if f > target {
            hi := if start >= hi then mid else start;
          } else if target >= f + probeFrame.blockSize {
            lo := end;
          } else {
            return Some(start), f, 0, None;
          }
        }
      }
      if clean { BinaryEnd(frames, audioStart, fs, target, lo, hi); }
      landStart, first, endSample, e := ScanForward(target, lo, frames, fs, tail);
    }

    /** In a clean stream the probed frame has the first sample of its place. */
    lemma {:induction false} ProbedFrame(frames: seq<seq<byte>>, fs: seq<FrameBits>, tail: seq<byte>, b: nat,
        start: nat, end: nat, f: nat)
      requires |fs| == |frames| && ProbeExact(frames, fs, tail, b, start, end, FrameFound)
        && Contiguous(fs, nominalBlock) && f == FirstOf(probeFrame)
      ensures var k := FirstFrom(frames, audioStart, b, 0);
        && k < |frames| && f == SampleOf(fs, k) && probeFrame.blockSize == fs[k].hdr.blockSize
        && start == StartOf(frames, audioStart, k)
          && end == StartOf(frames, audioStart, k + 1) <= StartOf(frames, audioStart, |frames|)
    {
      hide StartOf, SampleOf, FirstFrom;
      var k := FirstFrom(frames, audioStart, b, 0);
      if k + 1 < |frames| { StartOrder(frames, audioStart, k + 1, |frames|); }
    }

    /** Scans frame by frame from lo. */
    method ScanForward(target: nat, lo: nat, ghost frames: seq<seq<byte>>, ghost fs: seq<FrameBits>,
        ghost tail: seq<byte>)
      returns (landStart: Option<nat>, first: nat, endSample: nat, e: Option<Error>)
      requires 1 <= info.bitDepth <= 32 && arch.Valid()
      modifies file, probeFrame, probeFrame.crc
      ensures (e == None || e == Some(IO) || e == Some(Error.Truncated))
        && file.failed == (old(file.failed) || e == Some(IO))
      ensures e == None && landStart.Some? ==> Landable(landStart.value, first, target)
      ensures e != Some(IO) && Searchable(frames, fs, tail, lo) ==>
        ScanExact(frames, fs, tail, target, FirstFrom(frames, audioStart, lo, 0), landStart, first, endSample, e)
    {
      hide AcceptBytes, Clean, StartOf, SampleOf, FirstFrom, Scan, ByteBits;
      landStart, first, endSample, e := None, 0, 0, None;
      var b := lo;
      ghost var clean := Searchable(frames, fs, tail, lo);
      if clean { EndIs(frames, fs, tail); }
      ghost var k0 := if clean then FirstFrom(frames, audioStart, lo, 0) else 0;
      ghost var k := k0;
      while true
        invariant lo <= b && file.failed == old(file.failed)
        invariant clean ==> b <= StartOf(frames, audioStart, |frames|)
        invariant clean ==> |fs| == |frames| && k0 <= k <= |frames| && FirstFrom(frames, audioStart, b, 0) == k
        invariant clean ==>
          Scan(fs, target, k0) == Scan(fs, target, k) && endSample == if k == k0 then 0 else SampleOf(fs, k)
        decreases |file.data| - b
      {
        var start, end, res, perr := Probe(b, frames, fs, tail);
        if perr.Some? { return None, 0, 0, perr; }
        if res == FrameTruncated { return None, 0, 0, Some(Error.Truncated); }
        if res != FrameFound { return None, 0, endSample, None; }
        var f := FirstOf(probeFrame);
        endSample := f + probeFrame.blockSize;
        if clean {
          ProbedFrame(frames, fs, tail, b, start, end, f);
          ScanStep(fs, target, k);
          NextStart(frames, fs, tail, k);
        }
        if f <= target < endSample || f > target {
          return Some(start), f, endSample, None;
        }
        b := end;
        k := k + 1;
      }
    }

    ghost predicate ScanExact(frames: seq<seq<byte>>, fs: seq<FrameBits>, tail: seq<byte>, target: nat, k0: nat,
        landStart: Option<nat>, first: nat, endSample: nat, e: Option<Error>)
    {
      && |fs| == |frames| && k0 <= |frames| && (
        var k := Scan(fs, target, k0);
        if k < |frames| then e == None && landStart == Some(StartOf(frames, audioStart, k)) && first == SampleOf(fs, k)
        else if |tail| >= 2 then e == Some(Error.Truncated)
        else e == None && landStart == None && endSample == if k0 < |frames| then SampleOf(fs, |fs|) else 0)
    }

    lemma {:induction false} NextStart(frames: seq<seq<byte>>, fs: seq<FrameBits>, tail: seq<byte>, k: nat)
      requires CleanFile(frames, fs, tail) && k < |frames|
      ensures FirstFrom(frames, audioStart, StartOf(frames, audioStart, k + 1), 0) == k + 1
    {
      hide StartOf, FirstFrom, Clean;
      forall j | 0 <= j < |frames| ensures frames[j] != [] { FrameSize(frames, fs, tail, j); }
      FirstAtStart(frames, audioStart, k + 1);
    }

    /** Tightens the byte range by the seek points around the target, ignoring points outside
        the audio. */
    method NarrowBySeekTable(target: nat, lo: nat, hi: nat) returns (newLo: nat, newHi: nat)
      ensures newLo == TableLo(seekPoints, audioStart, streamEnd, target, lo)
        && newHi == TableHi(seekPoints, audioStart, streamEnd, target, hi)
    {
      hide Signed64;
      newLo, newHi := lo, hi;
      assert seekPoints[..0] == [];
      for i := 0 to |seekPoints|
        invariant newLo == TableLo(seekPoints[..i], audioStart, streamEnd, target, lo)
        invariant newHi == TableHi(seekPoints[..i], audioStart, streamEnd, target, hi)
      {
        var p := seekPoints[i];
        assert seekPoints[..i + 1][..i] == seekPoints[..i];
        if Signed64(p.byteOffset) >= 0 && Signed64(p.byteOffset) <= streamEnd - audioStart {
          var off := audioStart + p.byteOffset;
          if Signed64(p.sampleNumber) <= target && off > newLo { newLo := off; }
          if Signed64(p.sampleNumber) > target && off < newHi { newHi := off; }
        }
      }
      assert seekPoints[..|seekPoints|] == seekPoints;
    }

    /** Learns the block size from the first frame of a stream that does not declare it. */
    method EnsureNominalBlock(ghost frames: seq<seq<byte>>, ghost fs: seq<FrameBits>, ghost tail: seq<byte>)
      returns (e: Option<Error>)
      requires 1 <= info.bitDepth <= 32 && arch.Valid()
      modifies file, probeFrame, probeFrame.crc, this`nominalBlock
      ensures (e == None || e == Some(IO)) && file.failed == (old(file.failed) || e.Some?)
      ensures e.Some? ==> nominalBlock == old(nominalBlock)
      ensures e == None && CleanFile(frames, fs, tail) ==> nominalBlock == LearnedBlock(old(nominalBlock), fs)
    {
      hide AcceptBytes, Clean, StartOf, FirstFrom;
      var start, end, res, perr := Probe(audioStart, frames, fs, tail);
      if perr.Some? { return perr; }
      if CleanFile(frames, fs, tail) {
        EndIs(frames, fs, tail);
        FirstIsZero(frames);
      }
      if res == FrameFound && !probeFrame.variable { nominalBlock := probeFrame.blockSize; }
      return None;
    }

    lemma {:induction false} FirstIsZero(frames: seq<seq<byte>>)
      ensures FirstFrom(frames, audioStart, audioStart, 0) == 0
    {
    }

    // ---- seeking ----

    /** A reader over the file from at on. Whether the source will fail before the end is
        settled here. */
    method OpenAt(at: nat) returns (r: Reader, ok: bool, ghost bytes: seq<byte>, ghost end: Error)
      requires at <= |file.data|
      modifies file
      ensures fresh(r) && fresh(r.buf) && fresh(r.src) && r.Valid() && r.Pos() == 0 && r.rtap == null
      ensures r.Stream() == Cursor.Stream.Stream(ByteBits(bytes), end) && bytes <= file.data[at..]
      ensures end == IO || (end == EOF && bytes == file.data[at..])
      ensures file.failed == (old(file.failed) || !ok || end == IO)
    {
      hide Reader.Valid, ByteBits;
      ok := file.Seek(at);
      var rest := file.data[at..];
      var n: nat :| n <= |rest|;
      var fails: bool := *;
      var part := if fails then rest[..n] else rest;
      r := NewReader(part, if fails then IO else EOF, false, 0x1_0000);
      bytes, end := part, if fails then IO else EOF;
      file.failed := file.failed || fails;
    }

    /** Positions at a frame, decodes it and drops the samples before the target. Only a
        failing source is an error. */
    method Land(landStart: nat, target: nat, first: nat) returns (landed: nat, e: Option<Error>, ghost f: FrameBits)
      requires 1 <= info.bitDepth <= 32 && arch.Valid() && Landable(landStart, first, target)
      modifies this, file, frame, frame.crc
      ensures nominalBlock == old(nominalBlock) && whole == old(whole) && (old(file.failed) ==> file.failed)
      ensures e.Some? ==> e == Some(IO) && file.failed
      ensures e == None ==>
        Valid() && Running() && err == None && seeked && br != null && fresh(br) && fresh(br.buf) && fresh(br.src)
      ensures e == None ==> landed == Max(target, first) && FrameShaped(f) && LandedOn(landStart, landed - first, f)
      ensures old(HashKept()) ==> HashKept()
    {
      hide Reader.Valid, Valid, Running, AcceptBytes, AcceptEnding, Accept, Rest, EndOf, CountFrom, FrameShaped,
        ByteBits, Dropped, Landable, Arch.Valid;
      f := FrameBits(Header(false, 0, 0, 0, 0, 0), []);
      LandableInside(landStart, first, target);
      var r, ok, bytes, end := OpenAt(landStart);
      if !ok { return 0, Some(IO), f; }
      FrontBits(bytes, file.data[landStart..]);
      seeked, done, err := true, false, None;
      landed, e, f := DecodeLanding(r, landStart, target, first, bytes, end);
      if e == None { TakeReader(r); }
    }

    /** From here on the new reader is read. */
    method TakeReader(r: Reader)
      requires 1 <= info.bitDepth <= 32 && arch.Valid() && seeked && err == None && !done && r.Valid() && r.rtap == null
      requires 0 <= r.Pos() <= |r.Stream().bits| && r.Pos() % 8 == 0 && |r.Stream().bits| % 8 == 0
      modifies this`br
      ensures Valid() && Running() && br == r
    {
      hide Reader.Valid, Rest, EndOf, CountFrom, Arch.Valid;
      br := r;
    }

    lemma {:induction false} LandableInside(l: nat, first: nat, target: nat)
      requires Landable(l, first, target)
      ensures l <= |file.data|
    {
    }

    /** Decodes the frame in front of the new reader. */
    method DecodeLanding(r: Reader, landStart: nat, target: nat, first: nat, ghost bytes: seq<byte>, ghost end: Error)
      returns (landed: nat, e: Option<Error>, ghost f: FrameBits)
      requires 1 <= info.bitDepth <= 32 && arch.Valid() && Landable(landStart, first, target)
      requires r.Valid() && r.Pos() == 0 && r.rtap == null
      requires r.Stream() == Cursor.Stream.Stream(ByteBits(bytes), end) && landStart <= |file.data|
        && bytes <= file.data[landStart..]
      requires end == IO || (end == EOF && bytes == file.data[landStart..])
      modifies r.Repr(), frame, frame.crc, this`hashed, this`pending
      ensures r.Valid() && r.rtap == null && r.src == old(r.src) && r.buf == old(r.buf) && r.data == old(r.data)
      ensures e.Some? ==> e == Some(IO) && end == IO
      ensures e == None ==> landed == Max(target, first) && FrameShaped(f) && Dropped(f, landed - first)
      ensures e == None ==> 0 <= r.Pos() <= |r.Stream().bits| && r.Pos() % 8 == 0 && |r.Stream().bits| % 8 == 0
      ensures e == None ==> AcceptBytes(file.data[landStart..], info) == Ok(f, r.Pos())
    {
      hide Reader.Valid, AcceptBytes, Accept, GetHeader, Distinct, FrameShaped, Shows, ByteBits, Dropped;
      f := FrameBits(Header(false, 0, 0, 0, 0, 0), []);
      landed := 0;
      r.Bounds();
      ghost var a := AcceptEnding(bytes, end, info);
      if a.Ok? { EndingStep(bytes, end, info, a); }
      OnlyFailing(file.data[landStart..], bytes, end, info);
      var d := Decode(r, info, frame, arch);
      if d.Error? { return 0, Some(d.e), f; }
      f := a.v;
      AcceptDespite(file.data[landStart..], bytes, end, info, a);
      landed := Max(target, first);
      DropFront(f, landed - first);
      e := None;
    }

    lemma {:induction false} EndingStep(bytes: seq<byte>, end: Error, si: StreamInfo, a: Parsed<FrameBits>)
      requires a == AcceptEnding(bytes, end, si) && a.Ok?
      ensures 16 <= a.pos <= 8 * |bytes| && a.pos % 8 == 0 && FrameShaped(a.v) && a.v.hdr.blockSize >= 1
        && a.v.hdr.Channels() >= 1
    {
      hide Accept, FrameShaped, ByteBits;
      AcceptFacts(Cursor.Stream.Stream(ByteBits(bytes), end), 0, si);
    }

    /** Packs the landing frame and skips its first n inter-channel samples. */
    method DropFront(ghost f: FrameBits, n: nat)
      requires 1 <= info.bitDepth <= 32 && FrameShaped(f) && Shows(frame, f) && f.hdr.Channels() >= 1
        && n < f.hdr.blockSize
      modifies this`hashed, this`pending
      ensures Dropped(f, n)
    {
      hide Packed, FrameShaped, Pcm;
      var buf := PackFrame(BytesPS(), false, f);
      PackedNotEmpty(f, BytesPS());
      var drop := n * (|frame.channels| * BytesPS());
      ProductLe(n, f.hdr.blockSize, f.hdr.Channels() * BytesPS());
      pending := buf[drop..];
    }

    /** All but the first n inter-channel samples of the frame are pending. */
    ghost predicate Dropped(f: FrameBits, n: nat)
      requires FrameShaped(f) && 1 <= info.bitDepth
      reads this`pending
    {
      IsSuffix(Packed(f, BytesPS()), n * (f.hdr.Channels() * BytesPS()), pending)
    }

    /** The reader's source has all of the bytes, or fails after a part of them. */
    ghost predicate Delivers(bytes: seq<byte>)
      requires br != null
      reads `br, Behind(), file`failed
    {
      br.Stream() == Bytes(bytes) || (file.failed && br.Stream().end == IO && br.Stream().bits <= ByteBits(bytes))
    }

    /** What remains after landing: the rest of the frame from the sample on, and the frames
        behind it as far as the source delivers them. */
    ghost predicate LandedOn(landStart: nat, n: nat, f: FrameBits)
      requires FrameShaped(f) && 1 <= info.bitDepth
      reads this, Footprint(), file
    {
      && landStart <= |file.data| && Dropped(f, n) && br != null && br.Pos() >= 0
      && AcceptBytes(file.data[landStart..], info) == Ok(f, br.Pos()) && Delivers(file.data[landStart..])
    }

    /** The failure is sticky: nothing is delivered until a later seek succeeds. */
    method SeekFailed(e: Error)
      requires 1 <= info.bitDepth <= 32 && arch.Valid() && HashKept() && e != EOF
      modifies this`err, this`pending, this`br
      ensures Valid() && err == Some(e) && br == null && Remaining() == []
    {
      hide Reader.Valid, Rest, EndOf, CountFrom;
      err, pending, br := Some(e), [], null;
    }

    ghost predicate HashKept()
      reads `seeked, `hashed, `played
    {
      !seeked && !skipMd5 ==> hashed == played
    }

    /** At the end of the stream the next read reports it. */
    method SeekToEnd()
      requires Valid()
      modifies this`seeked, this`done, this`pending, this`err
      ensures Valid() && err == None && done && !Running() && seeked && Remaining() == []
    {
      hide Reader.Valid, Rest, EndOf, CountFrom;
      seeked, done, pending, err := true, true, [], None;
    }

    /** A clean stream of m channels whose frame numbers agree with the block sizes, and
        whose seek table is right or absent. */
    ghost predicate CleanSeek(frames: seq<seq<byte>>, fs: seq<FrameBits>, tail: seq<byte>, m: nat)
      reads this`nominalBlock
    {
      && CleanFile(frames, fs, tail) && AllShaped(fs, m) && SoundTable(seekPoints, frames, fs)
      && Contiguous(fs, if nominalBlock == 0 then LearnedBlock(0, fs) else nominalBlock)
    }

    lemma {:induction false} CleanSeekFacts(frames: seq<seq<byte>>, fs: seq<FrameBits>, tail: seq<byte>, m: nat)
      requires CleanSeek(frames, fs, tail, m)
      ensures CleanFile(frames, fs, tail) && AllShaped(fs, m) && |fs| == |frames|
    {
      hide Clean, AllShaped;
    }

    /** The lower bound of the search for this target. */
    ghost function SearchLo(idx: nat): nat
    {
      TableLo(seekPoints, audioStart, streamEnd, idx, audioStart)
    }

    /** What is found when no frame has the target: the count of samples, unless a probe found
        the last frame and thereby lost it. */
    ghost function EndFound(frames: seq<seq<byte>>, fs: seq<FrameBits>, idx: nat): nat
    {
      if KeepsCount(frames, audioStart, SearchLo(idx), streamEnd) then SampleOf(fs, |fs|) else 0
    }

    /** Finds the frame to land on. */
    method LocateFrame(idx: nat, ghost frames: seq<seq<byte>>, ghost fs: seq<FrameBits>, ghost tail: seq<byte>,
        ghost m: nat, ghost t: nat)
      returns (landStart: Option<nat>, first: nat, endSample: nat, e: Option<Error>)
      requires 1 <= info.bitDepth <= 32 && arch.Valid()
      modifies file, probeFrame, probeFrame.crc, this`nominalBlock
      ensures (e == None || e == Some(IO) || e == Some(Error.Truncated))
        && file.failed == (old(file.failed) || e == Some(IO))
      ensures e == None && landStart.Some? ==> Landable(landStart.value, first, idx)
      ensures e != Some(IO) && old(CleanSeek(frames, fs, tail, m)) && Holds(fs, idx, t) ==>
        e == None && landStart == Some(StartOf(frames, audioStart, t)) && first == SampleOf(fs, t)
      ensures e != Some(IO) && old(CleanSeek(frames, fs, tail, m)) && idx >= SampleOf(fs, |fs|) ==>
        if |tail| >= 2 then e == Some(Error.Truncated)
          else e == None && landStart == None && endSample == EndFound(frames, fs, idx)
      ensures old(CleanSeek(frames, fs, tail, m)) ==> CleanSeek(frames, fs, tail, m)
    {
      hide Clean, StartOf, SampleOf, Landable, FrameShaped, Lands, EndSample, SoundTable, KeepsCount;
      ghost var clean := CleanSeek(frames, fs, tail, m);
      landStart, first, endSample, e := None, 0, 0, None;
      if nominalBlock == 0 {
        e := EnsureNominalBlock(frames, fs, tail);
        if e.Some? { return; }
      }
      var lo, hi := audioStart, streamEnd;
      if |seekPoints| > 0 { lo, hi := NarrowBySeekTable(idx, lo, hi); }
      if clean {
        EndIs(frames, fs, tail);
        if Holds(fs, idx, t) { TargetInside(frames, fs, tail, idx, t, lo, hi); }
        if idx >= SampleOf(fs, |fs|) { TargetBehind(frames, fs, tail, idx, lo, hi); }
        LoInside(frames, fs, tail, idx, t);
      }
      landStart, first, endSample, e := SearchFrame(idx, lo, hi, frames, fs, tail);
    }

    /** The same; what was to be read next is not touched. */
    method Locate(idx: nat, ghost frames: seq<seq<byte>>, ghost fs: seq<FrameBits>, ghost tail: seq<byte>,
        ghost m: nat, ghost t: nat)
      returns (landStart: Option<nat>, first: nat, endSample: nat, e: Option<Error>)
      requires Valid()
      modifies file, probeFrame, probeFrame.crc, this`nominalBlock
      ensures Valid() && (e == None || e == Some(IO) || e == Some(Error.Truncated))
        && file.failed == (old(file.failed) || e == Some(IO))
      ensures e == None && landStart.Some? ==> Landable(landStart.value, first, idx)
      ensures e != Some(IO) && old(CleanSeek(frames, fs, tail, m)) && Holds(fs, idx, t) ==>
        e == None && landStart == Some(StartOf(frames, audioStart, t)) && first == SampleOf(fs, t)
      ensures e != Some(IO) && old(CleanSeek(frames, fs, tail, m)) && idx >= SampleOf(fs, |fs|) ==>
        if |tail| >= 2 then e == Some(Error.Truncated)
          else e == None && landStart == None && endSample == EndFound(frames, fs, idx)
      ensures old(CleanSeek(frames, fs, tail, m)) ==> CleanSeek(frames, fs, tail, m)
    {
      hide Reader.Valid, Rest, EndOf, CountFrom, Landable, CleanSeek, StartOf, SampleOf, EndFound, Holds;
      SeekFacts(idx);
      landStart, first, endSample, e := LocateFrame(idx, frames, fs, tail, m, t);
    }

    lemma {:induction false} TargetInside(frames: seq<seq<byte>>, fs: seq<FrameBits>, tail: seq<byte>, idx: nat,
        t: nat, lo: nat, hi: nat)
      requires CleanFile(frames, fs, tail) && SoundTable(seekPoints, frames, fs) && Holds(fs, idx, t)
      requires lo == SearchLo(idx) && hi == TableHi(seekPoints, audioStart, streamEnd, idx, streamEnd)
      ensures |fs| == |frames| && Lands(frames, audioStart, fs, idx, lo, hi) == t
        && lo <= StartOf(frames, audioStart, |frames|)
    {
      hide Clean, StartOf, SampleOf, SoundPoint, Lands;
      InAudio(frames, fs, tail, t);
      TableKeeps(seekPoints, frames, fs, audioStart, streamEnd, idx, t, audioStart, streamEnd);
      SearchFinds(frames, audioStart, fs, idx, lo, hi, t);
      StartOrder(frames, audioStart, t, |frames|);
    }

    lemma {:induction false} TargetBehind(frames: seq<seq<byte>>, fs: seq<FrameBits>, tail: seq<byte>, idx: nat,
        lo: nat, hi: nat)
      requires CleanFile(frames, fs, tail) && SoundTable(seekPoints, frames, fs) && idx >= SampleOf(fs, |fs|)
      requires lo == SearchLo(idx) && hi == TableHi(seekPoints, audioStart, streamEnd, idx, streamEnd)
      ensures |fs| == |frames| && Lands(frames, audioStart, fs, idx, lo, hi) == |frames|
        && lo <= StartOf(frames, audioStart, |frames|)
      ensures EndSample(frames, audioStart, fs, idx, lo, hi) == EndFound(frames, fs, idx)
    {
      hide Clean, StartOf, SampleOf, SoundPoint, Lands, EndSample, KeepsCount;
      PastEnd(frames, audioStart, fs, idx, lo, hi);
      StartZero(frames, audioStart);
      if frames == [] {
        NoFrames(fs, idx, lo, hi);
      } else {
        var n := |frames|;
        if n > 1 { StartOrder(frames, audioStart, 0, n - 1); }
        TablePastEnd(seekPoints, frames, fs, audioStart, streamEnd, idx, audioStart, streamEnd);
        PastEndExactly(frames, audioStart, fs, idx, lo, hi);
        StartOrder(frames, audioStart, n - 1, n);
      }
    }

    lemma {:induction false} NoFrames(fs: seq<FrameBits>, idx: nat, lo: nat, hi: nat)
      requires fs == [] && SoundTable(seekPoints, [], fs) && lo == SearchLo(idx)
      ensures EndSample([], audioStart, fs, idx, lo, hi) == EndFound([], fs, idx) && lo == audioStart
    {
      hide StartOf, Binary, KeepsCount, SoundTable;
      NoPoints(seekPoints, fs);
    }

    lemma {:induction false} LoInside(frames: seq<seq<byte>>, fs: seq<FrameBits>, tail: seq<byte>, idx: nat, t: nat)
      requires CleanFile(frames, fs, tail) && SoundTable(seekPoints, frames, fs)
      ensures audioStart <= SearchLo(idx) <= StartOf(frames, audioStart, |frames|)
    {
      hide Clean, StartOf, SampleOf, SoundPoint;
      TableInside(seekPoints, frames, fs, audioStart, streamEnd, idx);
    }

    lemma {:induction false} InAudio(frames: seq<seq<byte>>, fs: seq<FrameBits>, tail: seq<byte>, t: nat)
      requires CleanFile(frames, fs, tail) && t < |frames|
      ensures audioStart <= StartOf(frames, audioStart, t) < streamEnd && frames[t] != []
    {
      hide ValidFrame, Flat, NoFalseFrame, CutTail;
      FrameSize(frames, fs, tail, t);
      FrameBytes(file.data, audioStart, frames, t);
    }

    /** Reading on plays exactly what the frames hold from sample idx on, and then ends as
        the tail says. */
    ghost predicate PlaysFrom(fs: seq<FrameBits>, tail: seq<byte>, m: nat, idx: nat)
      requires 1 <= info.bitDepth <= 32 && ReaderOk()
      reads `br, `err, `done, `pending, Behind()
    {
      && (forall j :: 0 <= j < |fs| ==> FrameShaped(fs[j]))
      && IsSuffix(PlayedFrom(fs, 0, BytesPS()), idx * (m * BytesPS()), Remaining()) && Ending() == TailError(tail)
    }

    /** Reading on plays the front of that up to a failure of the source. */
    ghost predicate PlaysPart(fs: seq<FrameBits>, m: nat, idx: nat)
      requires 1 <= info.bitDepth <= 32 && ReaderOk()
      reads `br, `err, `done, `pending, Behind()
    {
      && (forall j :: 0 <= j < |fs| ==> FrameShaped(fs[j]))
      && InSuffix(PlayedFrom(fs, 0, BytesPS()), idx * (m * BytesPS()), Remaining()) && Ending() == IO
    }

    lemma {:induction false} LandedPlays(frames: seq<seq<byte>>, fs: seq<FrameBits>, tail: seq<byte>, m: nat, idx: nat,
        t: nat, f: FrameBits, n: nat)
      requires Valid() && Running() && CleanFile(frames, fs, tail) && AllShaped(fs, m) && |fs| == |frames|
      requires Holds(fs, idx, t) && idx == SampleOf(fs, t) + n && FrameShaped(f)
        && LandedOn(StartOf(frames, audioStart, t), n, f)
      ensures PlaysFrom(fs, tail, m, idx) || (file.failed && PlaysPart(fs, m, idx))
    {
      hide Clean, Reader.Valid, StartOf, SampleOf, FrameShaped, Rest, EndOf, CountFrom, AcceptBytes, Packed, ByteBits;
      var w := BytesPS();
      var data := file.data[StartOf(frames, audioStart, t)..];
      RestBehind(file.data, audioStart, frames, fs, tail, info, w, t, f, br.Pos());
      if br.Stream() != Bytes(data) { RestFront(data, br.Stream(), br.Pos(), info, w); }
      ScanStep(fs, idx, t);
      ProductNat(m, w);
      var row: nat := m * w;
      ProductNat(n, row);
      ProductNat(idx, row);
      SuffixFromSample(fs, m, w, t, n, n * row, idx * row);
    }

    /** The target is looked for, rather than refused or known to be behind the end. */
    predicate Searched(idx: int)
    {
      seekable && idx >= 0 && (info.totalSamples == 0 || idx < info.totalSamples)
    }

    lemma {:induction false} SeekFacts(idx: int)
      requires Valid()
      ensures 1 <= info.bitDepth <= 32 && arch.Valid() && HashKept()
      ensures Searched(idx) <==> seekable && idx >= 0 && (info.totalSamples == 0 || idx < info.totalSamples)
    {
      hide Reader.Valid, Rest, EndOf, CountFrom, Arch.Valid;
    }

    /** Positions at sample idx. Over a clean stream that holds it the position is exact and
        what is then read is exactly the rest of the full decode from that sample; behind the
        last whole frame it is the end or, when the source ends inside one more frame, an
        error. Otherwise only a failing source is an error. */
    method SeekToSample(idx: int, ghost frames: seq<seq<byte>>, ghost fs: seq<FrameBits>, ghost tail: seq<byte>,
        ghost m: nat, ghost t: nat)
      returns (pos: nat, e: Option<Error>)
      requires Valid()
      modifies this, file, frame, frame.crc, probeFrame, probeFrame.crc
      ensures Valid() && whole == old(whole) && (old(file.failed) ==> file.failed)
      ensures br == old(br) || br == null || (fresh(br) && fresh(br.src) && fresh(br.buf))
      ensures e == None && Running() ==> br != null && fresh(br)
      ensures !seekable || idx < 0 ==>
        e == Some(if seekable then InvalidSeek else SeekUnsupported) && unchanged(this, file)
      ensures seekable && idx >= 0 && e.Some? ==> err == e && br == null && Remaining() == []
      ensures e == None && !Running() ==> done && Remaining() == []
      ensures seekable && idx >= 0 && e.Some? ==>
        Searched(idx) && (e == Some(Error.Truncated) || (e == Some(IO) && file.failed))
      ensures e == None ==> err == None && seeked
      ensures seekable && 0 < info.totalSamples <= idx ==>
        e == None && pos == info.totalSamples && done && Remaining() == []
      ensures e == None && info.totalSamples > 0 ==> pos <= info.totalSamples || !Running()
      ensures Searched(idx) && old(CleanSeek(frames, fs, tail, m)) && Holds(fs, idx, t) ==> (
        && e != Some(Error.Truncated) && (e == None ==> pos == idx && Running())
        && (e == None ==> PlaysFrom(fs, tail, m, idx) || (file.failed && PlaysPart(fs, m, idx))))
      ensures Searched(idx) && old(CleanSeek(frames, fs, tail, m)) && idx >= SampleOf(fs, |fs|) && e != Some(IO) ==>
        if |tail| >= 2 then e == Some(Error.Truncated)
          else e == None && done && Remaining() == [] && pos == EndFound(frames, fs, idx)
      ensures old(CleanSeek(frames, fs, tail, m)) ==> CleanSeek(frames, fs, tail, m)
    {
      hide *;
      SeekFacts(idx);
      ghost var clean := CleanSeek(frames, fs, tail, m);
      if clean { CleanSeekFacts(frames, fs, tail, m); }
      if !seekable { return 0, Some(SeekUnsupported); }
      if idx < 0 { return 0, Some(InvalidSeek); }
      if info.totalSamples > 0 && idx >= info.totalSamples {
        SeekToEnd();
        return info.totalSamples, None;
      }
      var landStart, first, endSample, lerr := Locate(idx, frames, fs, tail, m, t);
      if lerr.Some? {
        SeekFailed(lerr.value);
        return 0, lerr;
      }
      if landStart == None {
        SeekToEnd();
        return endSample, None;
      }
      var landed, perr, f := Land(landStart.value, idx, first);
      if perr.Some? {
        SeekFailed(perr.value);
        return 0, perr;
      }
      if clean && Holds(fs, idx, t) {
        HeldFrom(fs, idx, t);
        LandedPlays(frames, fs, tail, m, idx, t, f, idx - first);
      }
      if info.totalSamples > 0 && landed > info.totalSamples { landed := info.totalSamples; }
      return landed, None;
    }
  }

  /** Decoding the front of bytes that hold a frame fails only when the source fails. */
  lemma {:induction false} OnlyFailing(data: seq<byte>, front: seq<byte>, end: Error, si: StreamInfo)
    requires front <= data && AcceptBytes(data, si).Ok? && (end == IO || (end == EOF && front == data))
    ensures var a := AcceptEnding(front, end, si); a.Ok? || (end == IO && a == Bad(IO))
  {
    hide Accept, ByteBits, Short;
    if end == IO {
      assert data[..|front|] == front;
      if |front| >= 2 {
        WindowAccept(Bytes(data), 8 * |front|, IO, 0, si);
        ShortEnding(data, |front|, IO);
      } else {
        TooShort(Cursor.Stream.Stream(ByteBits(front), IO), si);
      }
    }
  }

  lemma {:induction false} FrontBits(front: seq<byte>, data: seq<byte>)
    requires front <= data
    ensures ByteBits(front) <= ByteBits(data)
  {
    hide ByteBits;
    ByteBitsCat(front, data[|front|..]);
    assert data == front + data[|front|..];
  }

  lemma {:induction false} HeldFrom(fs: seq<FrameBits>, idx: nat, t: nat)
    requires Holds(fs, idx, t)
    ensures t < |fs| && SampleOf(fs, t) <= idx == Max(idx, SampleOf(fs, t)) < SampleOf(fs, |fs|)
  {
    hide SampleOf;
    if t + 1 < |fs| { SampleOrder(fs, t + 1, |fs|); }
  }

  lemma {:induction false} TooShort(s: Cursor.Stream, si: StreamInfo)
    requires (|s.bits| == 0 || |s.bits| == 8) && s.end == IO
    ensures Accept(s, 0, si) == Bad(IO)
  {
    hide GetChecked, GetSealed, InDepth, FrameShaped;
  }

  /** What a reader is told when decoding stops: a cut frame is a truncated stream. */
  function StopError(e: Error): Error
  {
    if e == UnexpectedEOF then Error.Truncated else e
  }

  /** A clean end is no error. */
  function NoEof(e: Error): Option<Error>
  {
    if e == EOF then None else Some(e)
  }

  ghost predicate InSuffix(all: seq<byte>, off: int, part: seq<byte>)
  {
    0 <= off <= |all| && part <= all[off..]
  }

  ghost predicate IsSuffix(all: seq<byte>, off: int, part: seq<byte>)
  {
    0 <= off <= |all| && part == all[off..]
  }

  /** The block size used for frame numbers once the first frame was looked at. */
  function LearnedBlock(nominal: nat, fs: seq<FrameBits>): nat
  {
    if fs != [] && !fs[0].hdr.variable then fs[0].hdr.blockSize else nominal
  }
}
