/** Finding frames in a stream of bytes (internal/frame/resync.go): the scan for the next
    frame, and what it finds in a window of a clean stream. */
module Resync {
  import opened Words
  import opened Cursor
  import opened BitReader
  import opened LpcRoutes
  import opened HeaderSyntax
  import opened HeaderCodec
  import opened FrameSyntax
  import opened FrameDecode
  import SubframeSyntax
  import opened FrameEncode
  import opened FrameCut
  import opened StreamEncoder

  datatype FindResult = Found(start: nat, len: nat, f: FrameBits) | NotFound | Truncated

  /** The two bytes a frame header starts with. */
  predicate Sync(data: seq<byte>, i: nat)
  {
    i + 1 < |data| && data[i] == 0xFF && And(data[i + 1], 0xFE) == 0xF8
  }

  function Bytes(data: seq<byte>): (s: Stream)
    ensures |s.bits| == 8 * |data|
  {
    Cursor.Stream.Stream(ByteBits(data), EOF)
  }

  /** Decoding from the front of the bytes. */
  ghost function AcceptBytes(data: seq<byte>, si: StreamInfo): Parsed<FrameBits>
  {
    Accept(Bytes(data), 0, si)
  }

  /** The first candidate from i on that decodes, or that the data ends inside. */
  ghost function Find(data: seq<byte>, i: nat, si: StreamInfo): FindResult
    decreases |data| - i
  {
    if i + 1 >= |data| then NotFound
    else if !Sync(data, i) then Find(data, i + 1, si)
    else
      var r := AcceptBytes(data[i..], si);
      if r.Ok? then Found(i, r.pos / 8, r.v)
      else if r.e == UnexpectedEOF then FindResult.Truncated
      else Find(data, i + 1, si)
  }

  /** The outcome of the scan without the decoded frame, which is left in dst. */
  datatype Outcome = FrameFound | FrameNotFound | FrameTruncated

  ghost predicate Matches(r: FindResult, start: nat, consumed: nat, res: Outcome, dst: Frame)
    reads dst
  {
    match r
    case Found(i, len, f) => (
      && res == FrameFound && start == i && consumed == len
      && dst.blockSize == f.hdr.blockSize && dst.number == f.hdr.number && dst.variable == f.hdr.variable)
    case NotFound => res == FrameNotFound
    case Truncated => res == FrameTruncated
  }

  /** Tries every sync pattern in turn with the strict decoder. */
  method FindNextFrame(data: seq<byte>, si: StreamInfo, dst: Frame, arch: Arch)
    returns (start: nat, consumed: nat, res: Outcome)
    requires 1 <= si.bitDepth <= 32 && arch.Valid()
    modifies dst, dst.crc
    ensures Matches(Find(data, 0, si), start, consumed, res, dst)
  {
    hide Accept, FrameShaped, Pcm, And, ByteBits;
    var i := 0;
    while i + 1 < |data|
      invariant Find(data, 0, si) == Find(data, i, si)
    {
      if data[i] == 0xFF && And(data[i + 1], 0xFE) == 0xF8 {
        var r, n := TryCandidate(data[i..], si, dst, arch);
        if r.Value? { return i, n, FrameFound; }
        if r.e == UnexpectedEOF { return i, 0, FrameTruncated; }
      }
      i := i + 1;
    }
    return 0, 0, FrameNotFound;
  }

  /** Decodes from the front of the bytes with a fresh reader. */
  method TryCandidate(bytes: seq<byte>, si: StreamInfo, dst: Frame, arch: Arch) returns (res: Result<()>, n: nat)
    requires 1 <= si.bitDepth <= 32 && arch.Valid()
    modifies dst, dst.crc
    ensures match AcceptBytes(bytes, si)
      case Bad(e) => res == Result.Error(e)
      case Ok(f, q) => (
        && res == Value(()) && n == q / 8
        && dst.blockSize == f.hdr.blockSize && dst.number == f.hdr.number && dst.variable == f.hdr.variable)
  {
    hide Reader.Valid, Accept, GetHeader, Distinct, FrameShaped, Pcm, ByteBits;
    var src := new Source(bytes, EOF, true);
    var br := new Reader(src, 8192);
    res := Decode(br, si, dst, arch);
    br.Bounds();
    n := br.BytesRead();
  }

  // ---- clean streams ----

  /** The bytes are a frame that decodes to f wherever they stand. */
  ghost predicate ValidFrame(bytes: seq<byte>, f: FrameBits, si: StreamInfo)
  {
    && FrameShaped(f) && |bytes| >= 2
    && forall s: Stream, p: nat :: p % 8 == 0 && |s.bits| % 8 == 0 && At(s, p, ByteBits(bytes)) ==>
        p <= |s.bits| && Accept(s, p, si) == Ok(f, p + 8 * |bytes|)
  }

  /** What the encoder writes is such a frame. */
  lemma {:induction false} EncodedIsValid(bytes: seq<byte>, f: FrameBits, cs: seq<SubframeSyntax.Coding>,
      si: StreamInfo, ch: seq<seq<int>>, number: nat)
    requires EncodedAs(bytes, f, cs, si, ch, number)
    ensures ValidFrame(bytes, f, si)
  {
    hide At, Accept, InDepth, Pcm, EmitFrame, ByteBits, BytesOf, FrameShaped, SubsWritable;
    FrameNotEmpty(f, cs);
    forall s: Stream, p: nat | p % 8 == 0 && |s.bits| % 8 == 0 && At(s, p, ByteBits(bytes))
      ensures p <= |s.bits| && Accept(s, p, si) == Ok(f, p + 8 * |bytes|)
    {
      FrameLossless(s, p, bytes, f, cs, si, ch, number);
    }
  }

  /** Where frame k starts when the first one starts at base. */
  function StartOf(frames: seq<seq<byte>>, base: nat, k: nat): nat
    requires k <= |frames|
  {
    base + |Flat(frames[..k])|
  }

  /** Decoding from i fails, within the limit, for another reason than the end of the data. */
  ghost predicate Rejected(data: seq<byte>, i: nat, si: StreamInfo)
    requires i <= |data|
  {
    var r := AcceptBytes(data[i..Min(i + FRAME_LIMIT, |data|)], si);
    r.Bad? && r.e != UnexpectedEOF
  }

  /** Sync patterns that are not frame starts may stand anywhere, but what follows them is not
      a frame; behind the last whole frame it is enough that none decodes. */
  ghost predicate NoFalseFrame(data: seq<byte>, base: nat, frames: seq<seq<byte>>, si: StreamInfo)
  {
    forall i :: base <= i && Sync(data, i) && !IsStart(frames, base, i) ==> FalseAt(data, base, frames, i, si)
  }

  ghost predicate FalseAt(data: seq<byte>, base: nat, frames: seq<seq<byte>>, i: nat, si: StreamInfo)
  {
    i <= |data| && if i < StartOf(frames, base, |frames|) then Rejected(data, i, si)
      else AcceptBytes(data[i..], si).Bad?
  }

  /** The front of a valid frame that the source ends inside, or nothing. */
  ghost predicate CutTail(tail: seq<byte>, si: StreamInfo)
  {
    tail == [] || exists bytes, f :: FrontOfFrame(tail, bytes, f, si)
  }

  ghost predicate FrontOfFrame(tail: seq<byte>, bytes: seq<byte>, f: FrameBits, si: StreamInfo)
  {
    ValidFrame(bytes, f, si) && |tail| < |bytes| && |tail| <= FRAME_LIMIT && tail == bytes[..|tail|]
  }

  /** From base on the data is contiguous valid frames and then perhaps the front of one
      more, and no other place in it decodes as a frame. */
  ghost predicate Clean(data: seq<byte>, base: nat, frames: seq<seq<byte>>, fs: seq<FrameBits>, tail: seq<byte>,
      si: StreamInfo)
  {
    && |fs| == |frames| && base <= |data| && data[base..] == Flat(frames) + tail && CutTail(tail, si)
    && (forall k :: 0 <= k < |frames| ==> ValidFrame(frames[k], fs[k], si) && |frames[k]| <= FRAME_LIMIT)
    && NoFalseFrame(data, base, frames, si)
  }

  /** The starts of the frames, and the place behind the last one. */
  ghost predicate IsStart(frames: seq<seq<byte>>, base: nat, i: nat)
  {
    exists k :: 0 <= k <= |frames| && StartOf(frames, base, k) == i
  }

  lemma {:induction false} StartNext(frames: seq<seq<byte>>, base: nat, k: nat)
    requires k < |frames|
    ensures StartOf(frames, base, k + 1) == StartOf(frames, base, k) + |frames[k]|
  {
    assert frames[..k + 1][..k] == frames[..k];
  }

  lemma {:induction false} StartOrder(frames: seq<seq<byte>>, base: nat, j: nat, k: nat)
    requires j < k <= |frames|
    ensures StartOf(frames, base, j) + |frames[j]| <= StartOf(frames, base, k)
    decreases k
  {
    StartNext(frames, base, k - 1);
    if j < k - 1 { StartOrder(frames, base, j, k - 1); }
  }

  /** The bytes of frame k in the data. */
  lemma {:induction false} FrameBytes(data: seq<byte>, base: nat, frames: seq<seq<byte>>, k: nat)
    requires base <= |data| && Flat(frames) <= data[base..] && k < |frames|
    ensures StartOf(frames, base, k) + |frames[k]| == StartOf(frames, base, k + 1) <= |data|
    ensures data[StartOf(frames, base, k)..StartOf(frames, base, k + 1)] == frames[k]
  {
    hide Flat;
    StartNext(frames, base, k);
    FlatSplit(frames, k);
    var a, all := Flat(frames[..k]), Flat(frames);
    FlatPrefix(frames, k + 1);
    assert all[|a|..|a| + |frames[k]|] == frames[k];
    assert data[base..][..|all|] == all;
    assert data[base..][..|all|][|a|..|a| + |frames[k]|] == data[base + |a|..base + |a| + |frames[k]|];
  }

  lemma {:induction false} StartEnd(data: seq<byte>, base: nat, frames: seq<seq<byte>>)
    requires base <= |data| && Flat(frames) <= data[base..]
    ensures StartOf(frames, base, |frames|) == base + |Flat(frames)| <= |data|
    ensures data[StartOf(frames, base, |frames|)..] == data[base..][|Flat(frames)|..]
  {
    assert frames[..|frames|] == frames;
  }

  lemma {:induction false} FlatSplit(parts: seq<seq<byte>>, k: nat)
    requires k < |parts|
    ensures |Flat(parts[..k])| + |parts[k]| <= |Flat(parts)|
    ensures Flat(parts)[|Flat(parts[..k])|..|Flat(parts[..k])| + |parts[k]|] == parts[k]
    decreases |parts|
  {
    var n := |parts| - 1;
    var front, i := Flat(parts[..n]), |Flat(parts[..k])|;
    assert Flat(parts) == front + parts[n];
    if k < n {
      FlatSplit(parts[..n], k);
      assert parts[..n][..k] == parts[..k];
      assert (front + parts[n])[i..i + |parts[k]|] == front[i..i + |parts[k]|];
    } else {
      assert (front + parts[n])[i..i + |parts[k]|] == parts[k];
    }
  }

  /** An accepted frame starts with the sync pattern. */
  lemma {:induction false} StartsWithSync(data: seq<byte>, si: StreamInfo)
    requires GetFrame(Bytes(data), 0, si).Ok?
    ensures Sync(data, 0)
  {
    hide GetSealed, GetCoded, GetBlockSize, GetSampleRate, GetLayout, MatchSum8, And, ByteBits, Bits, Val;
    var s := Bytes(data);
    HeaderStarts(s, si);
    ByteBitsAt(data, 0);
    ByteBitsAt(data, 1);
    FirstBytes(s.bits, data[0], data[1]);
  }

  lemma {:induction false} HeaderStarts(s: Stream, si: StreamInfo)
    requires |s.bits| % 8 == 0 && GetFrame(s, 0, si).Ok?
    ensures |s.bits| >= 16 && Val(s.bits[0..14]) == SYNC_CODE && Val(s.bits[14..15]) == 0
  {
    hide GetSealed, GetCoded, GetBlockSize, GetSampleRate, GetLayout, MatchSum8, Val;
  }

  lemma {:induction false} FirstBytes(bits: seq<bool>, a: byte, b: byte)
    requires |bits| >= 16 && Val(bits[0..14]) == SYNC_CODE && Val(bits[14..15]) == 0
    requires bits[0..8] == Bits(a, 8) && bits[8..16] == Bits(b, 8)
    ensures a == 0xFF && And(b, 0xFE) == 0xF8
  {
    hide And, Bits, Val;
    Pow2Values();
    ByteVal(a);
    ByteVal(b);
    assert bits[0..14] == bits[0..8] + bits[8..14] && bits[8..16] == bits[8..14] + (bits[14..15] + bits[15..16]);
    ValCat(bits[0..8], bits[8..14]);
    ValCat(bits[8..14], bits[14..15] + bits[15..16]);
    ValCat(bits[14..15], bits[15..16]);
    ValBound(bits[8..14]);
    ValBound(bits[15..16]);
    MaskIs(b, 1, 124, 0xFE);
  }

  /** A whole frame at the front of the bytes is decoded, and one cut anywhere behind its
      second byte is truncated. */
  lemma {:induction false} FrontFrame(bytes: seq<byte>, f: FrameBits, rest: seq<byte>, n: nat, si: StreamInfo)
    requires ValidFrame(bytes, f, si) && 2 <= n <= |bytes + rest|
    ensures AcceptBytes((bytes + rest)[..n], si) == if |bytes| <= n then Ok(f, 8 * |bytes|) else Bad(UnexpectedEOF)
    ensures Sync(bytes + rest, 0)
  {
    hide At, GetFrame, InDepth, FrameShaped, ByteBits, Short, And;
    var all := bytes + rest;
    var s := Bytes(all);
    FrontAt(bytes, rest, EOF);
    assert Accept(s, 0, si) == Ok(f, 0 + 8 * |bytes|);
    StartsWithSync(all, si);
    if |bytes| <= n {
      assert all[..n] == bytes + rest[..n - |bytes|];
      FrontAt(bytes, rest[..n - |bytes|], EOF);
    } else {
      CutFrame(s, 8 * n, EOF, 0, si);
      ShortBytes(all, n);
    }
  }

  lemma {:induction false} ShortBytes(data: seq<byte>, n: nat)
    requires n <= |data|
    ensures Short(Bytes(data), 8 * n, EOF) == Bytes(data[..n])
  {
    ByteBitsSlice(data, 0, n);
  }

  /** k is the first frame that starts at or behind b; the number of frames when none does. */
  ghost predicate FirstAt(frames: seq<seq<byte>>, base: nat, b: nat, k: nat)
  {
    && k <= |frames| && (k < |frames| ==> b <= StartOf(frames, base, k))
    && (k > 0 ==> StartOf(frames, base, k - 1) < b)
  }

  /** A rejected candidate in a window: rejected as well, or cut by the window when that ends
      before the limit. */
  lemma {:induction false} RejectedInWindow(data: seq<byte>, i: nat, e: nat, si: StreamInfo)
    requires i + 2 <= e <= |data| && Rejected(data, i, si)
    ensures var t := AcceptBytes(data[i..e], si);
      t.Bad? && (t.e == UnexpectedEOF ==> e < |data| && e < i + FRAME_LIMIT)
  {
    hide Accept, ByteBits, Short;
    var n := Min(i + FRAME_LIMIT, |data|);
    if n <= e {
      assert data[i..e][..n - i] == data[i..n];
      FrontOf(data[i..e], n - i, si);
    } else {
      assert data[i..n][..e - i] == data[i..e];
      FrontOf(data[i..n], e - i, si);
    }
  }

  /** The front of the bytes decodes alike, or is truncated. */
  lemma {:induction false} FrontOf(bytes: seq<byte>, n: nat, si: StreamInfo)
    requires 2 <= n <= |bytes|
    ensures AcceptBytes(bytes[..n], si) == AcceptBytes(bytes, si) || AcceptBytes(bytes[..n], si) == Bad(UnexpectedEOF)
  {
    hide Accept, ByteBits, Short;
    WindowAccept(Bytes(bytes), 8 * n, EOF, 0, si);
    ShortBytes(bytes, n);
  }

  /** Scanning past false candidates: none is taken for a frame, and the scan gets past them
      when the window goes on for the limit or to the end of the data. */
  lemma {:induction false} SkipFalse(data: seq<byte>, b: nat, e: nat, i: nat, j: nat, si: StreamInfo)
    requires b + i <= b + j <= e <= |data| && forall c :: b + i <= c < b + j && Sync(data, c) ==> Rejected(data, c, si)
    ensures var w := data[b..e];
      Find(w, i, si) == Find(w, j, si)
        || (Find(w, i, si) == FindResult.Truncated && e < |data| && e < b + j + FRAME_LIMIT)
    decreases j - i
  {
    hide Accept, And, Rejected, AcceptBytes;
    var w := data[b..e];
    if i < j {
      SkipFalse(data, b, e, i + 1, j, si);
      if i + 1 < |w| {
        SyncInside(data, b, e, i);
        if Sync(w, i) {
          assert w[i..] == data[b + i..e];
          RejectedInWindow(data, b + i, e, si);
        }
      }
    }
  }

  lemma {:induction false} SyncInside(data: seq<byte>, b: nat, e: nat, i: nat)
    requires b <= e <= |data| && b + i + 1 < e
    ensures Sync(data[b..e], i) == Sync(data, b + i)
  {
    hide And;
  }

  /** Where nothing decodes nothing is found. */
  lemma {:induction false} NothingFound(data: seq<byte>, b: nat, e: nat, i: nat, si: StreamInfo)
    requires b <= b + i <= e <= |data| && forall c :: b + i <= c <= |data| && Sync(data, c) ==>
      AcceptBytes(data[c..], si).Bad?
    ensures !Find(data[b..e], i, si).Found?
    decreases e - b - i
  {
    hide Accept, And, AcceptBytes;
    var w := data[b..e];
    if i + 1 < |w| {
      NothingFound(data, b, e, i + 1, si);
      SyncInside(data, b, e, i);
      if Sync(w, i) {
        assert w[i..] == data[b + i..][..e - b - i];
        FrontOf(data[b + i..], e - b - i, si);
      }
    }
  }

  /** What scanning the window [b, e) of a clean stream should find: the first frame that
      starts in it with two bytes, when it ends in the window, and truncation otherwise. */
  ghost function Expected(base: nat, frames: seq<seq<byte>>, fs: seq<FrameBits>, b: nat, e: nat, k: nat): FindResult
    requires k <= |frames| == |fs| && b <= StartOf(frames, base, k)
  {
    if StartOf(frames, base, k) + 1 >= e then NotFound
    else if k < |frames| && StartOf(frames, base, k + 1) <= e then
      Found(StartOf(frames, base, k) - b, |frames[k]|, fs[k])
    else FindResult.Truncated
  }

  /** It does find that, false candidates in front of the frame notwithstanding, unless one of
      them is cut by a window that ends too early to tell. */
  lemma {:induction false} FindInWindow(data: seq<byte>, base: nat, frames: seq<seq<byte>>, fs: seq<FrameBits>,
      tail: seq<byte>, si: StreamInfo, b: nat, e: nat, k: nat)
    requires Clean(data, base, frames, fs, tail, si) && base <= b <= e <= |data| && FirstAt(frames, base, b, k)
      && b <= StartOf(frames, base, k)
    ensures var r := Find(data[b..e], 0, si);
      || r == Expected(base, frames, fs, b, e, k)
      || (r == FindResult.Truncated && e < |data| && e < StartOf(frames, base, k) + FRAME_LIMIT)
  {
    hide Accept, And, ValidFrame, Flat, StartOf, Rejected, AcceptBytes, CutTail;
    var w := data[b..e];
    var start := StartOf(frames, base, k);
    StartEnd(data, base, frames);
    if k < |frames| {
      StartOrder(frames, base, k, |frames|);
      StartNext(frames, base, k);
    }
    var i := if start < e then start - b else e - b;
    forall c | b <= c < b + i && Sync(data, c)
      ensures Rejected(data, c, si)
    {
      NotAStart(data, base, frames, fs, tail, si, b, k, c);
    }
    SkipFalse(data, b, e, 0, i, si);
    if start + 1 < e {
      assert w[i..] == data[start..][..e - start];
      StartDecodes(data, base, frames, fs, tail, si, k, e - start);
      SyncInside(data, b, e, i);
      assert data[start..][0] == data[start] && data[start..][1] == data[start + 1];
    }
  }

  /** What decoding from a frame start, or from the tail, gives on n bytes. */
  lemma {:induction false} StartDecodes(data: seq<byte>, base: nat, frames: seq<seq<byte>>, fs: seq<FrameBits>,
      tail: seq<byte>, si: StreamInfo, k: nat, n: nat)
    requires Clean(data, base, frames, fs, tail, si) && k <= |frames| && StartOf(frames, base, k) <= |data|
      && 2 <= n <= |data[StartOf(frames, base, k)..]|
    ensures Sync(data[StartOf(frames, base, k)..], 0)
    ensures AcceptBytes(data[StartOf(frames, base, k)..][..n], si)
      == if k < |frames| && |frames[k]| <= n then Ok(fs[k], 8 * |frames[k]|) else Bad(UnexpectedEOF)
  {
    hide Accept, And, Flat, StartOf, AcceptBytes, NoFalseFrame;
    var start := StartOf(frames, base, k);
    if k < |frames| {
      assert ValidFrame(frames[k], fs[k], si);
      hide ValidFrame;
      FrameBytes(data, base, frames, k);
      var rest := data[start + |frames[k]|..];
      assert data[start..] == frames[k] + rest;
      FrontFrame(frames[k], fs[k], rest, n, si);
    } else {
      StartEnd(data, base, frames);
      assert data[start..] == tail;
      TailFacts(tail, si);
      FrontOf(tail, n, si);
    }
  }

  /** A sync pattern between b and the first frame start behind it is false. */
  lemma {:induction false} NotAStart(data: seq<byte>, base: nat, frames: seq<seq<byte>>, fs: seq<FrameBits>,
      tail: seq<byte>, si: StreamInfo, b: nat, k: nat, c: nat)
    requires Clean(data, base, frames, fs, tail, si) && base <= b <= c && FirstAt(frames, base, b, k)
      && c < StartOf(frames, base, k) && Sync(data, c)
    ensures Rejected(data, c, si)
  {
    hide And, ValidFrame, Flat, StartOf, Rejected, AcceptBytes, CutTail;
    if k < |frames| { StartOrder(frames, base, k, |frames|); }
    if IsStart(frames, base, c) {
      var j :| 0 <= j <= |frames| && StartOf(frames, base, j) == c;
      if j < k {
        if j < k - 1 { StartOrder(frames, base, j, k - 1); }
      } else if j > k {
        StartOrder(frames, base, k, j);
      }
    }
    assert FalseAt(data, base, frames, c, si);
  }

  /** Behind the last whole frame no window has a frame. */
  lemma {:induction false} NoneInTail(data: seq<byte>, base: nat, frames: seq<seq<byte>>, fs: seq<FrameBits>,
      tail: seq<byte>, si: StreamInfo, b: nat, e: nat)
    requires Clean(data, base, frames, fs, tail, si) && base <= b <= e <= |data| && StartOf(frames, base, |frames|) < b
    ensures !Find(data[b..e], 0, si).Found?
  {
    hide Accept, And, ValidFrame, Flat, StartOf, Rejected, AcceptBytes, CutTail;
    forall c | b <= c <= |data| && Sync(data, c) ensures AcceptBytes(data[c..], si).Bad? {
      if IsStart(frames, base, c) {
        var j :| 0 <= j <= |frames| && StartOf(frames, base, j) == c;
        if j < |frames| { StartOrder(frames, base, j, |frames|); }
      }
      assert FalseAt(data, base, frames, c, si);
    }
    NothingFound(data, b, e, 0, si);
  }

  /** The tail looks like a frame and is truncated. */
  lemma {:induction false} TailFacts(tail: seq<byte>, si: StreamInfo)
    requires CutTail(tail, si)
    ensures |tail| <= FRAME_LIMIT && (|tail| >= 2 ==> Sync(tail, 0) && AcceptBytes(tail, si) == Bad(UnexpectedEOF))
  {
    hide Accept, ValidFrame, And, ByteBits, AcceptBytes;
    if |tail| >= 2 {
      var bytes, f :| FrontOfFrame(tail, bytes, f, si);
      assert bytes + [] == bytes;
      FrontFrame(bytes, f, [], |tail|, si);
    }
  }

  /** Wherever it ends a stream, decoding stops there with a truncation. */
  lemma {:induction false} TailAt(s: Stream, p: nat, tail: seq<byte>, si: StreamInfo)
    requires CutTail(tail, si) && tail != [] && p % 8 == 0 && p <= |s.bits| && s.bits[p..] == ByteBits(tail)
    ensures |s.bits| % 8 == 0 && Accept(s, p, si) == Bad(Cut(s.end))
  {
    hide GetFrame, InDepth, FrameShaped, ByteBits, Short, And;
    assert |s.bits[p..]| == 8 * |tail|;
    if |tail| == 1 {
      HalfSync(s, p, si);
    } else {
      var bytes, f :| FrontOfFrame(tail, bytes, f, si);
      var all := Cursor.Stream.Stream(s.bits + ByteBits(bytes[|tail|..]), EOF);
      Completed(s, p, tail, bytes, all);
      assert Accept(all, p, si) == Ok(f, p + 8 * |bytes|);
      CutFrame(all, |s.bits|, s.end, p, si);
    }
  }

  /** The stream with the rest of the frame behind it. */
  lemma {:induction false} Completed(s: Stream, p: nat, tail: seq<byte>, bytes: seq<byte>, all: Stream)
    requires p <= |s.bits| && s.bits[p..] == ByteBits(tail) && |tail| <= |bytes| && tail == bytes[..|tail|]
    requires all == Cursor.Stream.Stream(s.bits + ByteBits(bytes[|tail|..]), EOF)
    ensures At(all, p, ByteBits(bytes)) && |all.bits| == p + 8 * |bytes| && Short(all, |s.bits|, s.end) == s
  {
    hide ByteBits;
    var rest := bytes[|tail|..];
    assert bytes == tail + rest;
    ByteBitsCat(tail, rest);
    assert all.bits[p..] == s.bits[p..] + ByteBits(rest);
    assert all.bits[p..p + |ByteBits(bytes)|] == all.bits[p..];
    assert all.bits[..|s.bits|] == s.bits;
  }

  lemma {:induction false} HalfSync(s: Stream, p: nat, si: StreamInfo)
    requires |s.bits| == p + 8 && p % 8 == 0
    ensures Accept(s, p, si) == Bad(Cut(s.end))
  {
    hide GetChecked, GetSealed, InDepth, FrameShaped;
  }

  /** Why the search needs that no false frame decodes: the scan takes the first place that
      decodes for a frame wherever it stands, such as in the raw samples of another, unless a
      candidate in front of it is cut by a window that ends too early to tell. */
  lemma {:induction false} FalseFrameFound(data: seq<byte>, b: nat, e: nat, j: nat, bytes: seq<byte>, f: FrameBits,
      si: StreamInfo)
    requires ValidFrame(bytes, f, si) && b <= j && j + |bytes| <= e <= |data| && data[j..j + |bytes|] == bytes
    requires forall c :: b <= c < j && Sync(data, c) ==> Rejected(data, c, si)
    ensures var r := Find(data[b..e], 0, si);
      r == Found(j - b, |bytes|, f) || (r == FindResult.Truncated && e < |data| && e < j + FRAME_LIMIT)
  {
    hide Accept, And, ByteBits, AcceptBytes, Rejected, ValidFrame;
    SkipFalse(data, b, e, 0, j - b, si);
    FoundHere(data[b..e], j - b, data[j + |bytes|..e], bytes, f, si);
  }

  lemma {:induction false} FoundHere(w: seq<byte>, i: nat, rest: seq<byte>, bytes: seq<byte>, f: FrameBits,
      si: StreamInfo)
    requires ValidFrame(bytes, f, si) && i <= |w| && w[i..] == bytes + rest
    ensures Find(w, i, si) == Found(i, |bytes|, f)
  {
    hide Accept, And, ByteBits, AcceptBytes;
    FrontFrame(bytes, f, rest, |bytes + rest|, si);
    assert (bytes + rest)[..|bytes + rest|] == bytes + rest;
    assert w[i] == w[i..][0] && w[i + 1] == w[i..][1];
  }

  /** What a successful scan says about the bytes at the place it found. */
  lemma {:induction false} FoundIs(data: seq<byte>, i: nat, si: StreamInfo)
    requires Find(data, i, si).Found?
    ensures var r := Find(data, i, si);
      && i <= r.start < |data| && r.len >= 2 && r.start + r.len <= |data|
      && AcceptBytes(data[r.start..], si) == Ok(r.f, 8 * r.len)
    decreases |data| - i
  {
    hide Accept, And, ByteBits;
    if Sync(data, i) && AcceptBytes(data[i..], si).Ok? {
      AcceptedWhole(Bytes(data[i..]), 0, si);
    } else {
      FoundIs(data, i + 1, si);
    }
  }

  lemma {:induction false} AcceptedWhole(s: Stream, p: nat, si: StreamInfo)
    requires p <= |s.bits| && |s.bits| % 8 == 0 && p % 8 == 0 && Accept(s, p, si).Ok?
    ensures var r := Accept(s, p, si); p + 16 <= r.pos <= |s.bits| && r.pos % 8 == 0 && r.v.hdr.blockSize >= 1
  {
    hide GetHeader, GetSubs, MatchSum16, InDepth, FrameShaped, AlignPos;
    FrameIsShaped(s, p, si);
    HeaderFacts(s, p, si);
    AlignIn(GetSubs(s, GetHeader(s, p, si).pos, GetHeader(s, p, si).v, 0).pos, |s.bits|);
  }

  /** A frame accepted in a window is accepted in all of the data. */
  lemma {:induction false} AcceptMore(data: seq<byte>, n: nat, front: seq<byte>, si: StreamInfo, r: Parsed<FrameBits>)
    requires n <= |data| && front == data[..n] && r.Ok? && AcceptBytes(front, si) == r
    ensures AcceptBytes(data, si) == r
  {
    hide GetFrame, InDepth, FrameShaped, ByteBits, Short;
    ShortBytes(data, n);
    ExtendFrame(Bytes(data), 8 * n, EOF, 0, si);
  }

  /** The same when the window is the part of the data a failing source delivered. */
  lemma {:induction false} AcceptDespite(data: seq<byte>, front: seq<byte>, e: Error, si: StreamInfo,
      r: Parsed<FrameBits>)
    requires front <= data && r.Ok? && AcceptEnding(front, e, si) == r
    ensures AcceptBytes(data, si) == r
  {
    hide GetFrame, InDepth, FrameShaped, ByteBits, Short;
    assert data[..|front|] == front;
    ShortEnding(data, |front|, e);
    ExtendFrame(Bytes(data), 8 * |front|, e, 0, si);
  }

  /** Decoding from the front of bytes that end with e. */
  ghost function AcceptEnding(data: seq<byte>, e: Error, si: StreamInfo): Parsed<FrameBits>
  {
    Accept(Cursor.Stream.Stream(ByteBits(data), e), 0, si)
  }

  lemma {:induction false} ShortEnding(data: seq<byte>, n: nat, e: Error)
    requires n <= |data|
    ensures Short(Bytes(data), 8 * n, e) == Cursor.Stream.Stream(ByteBits(data[..n]), e)
  {
    ByteBitsSlice(data, 0, n);
  }
}
