/** The metadata section (internal/meta): block headers, STREAMINFO and the seek table as
    bytes, a parser over bits, and the reader that agrees with it. */
module Metadata {
  import opened Words
  import opened Cursor
  import opened BitWriter
  import opened BitReader
  import opened RiceWriter
  import opened Rice
  import opened HeaderSyntax

  const TYPE_STREAMINFO: nat := 0
  const TYPE_PADDING: nat := 1
  const TYPE_SEEKTABLE: nat := 3
  const TYPE_VORBIS_COMMENT: nat := 4
  const TYPE_INVALID: nat := 127
  const STREAMINFO_LEN: nat := 34
  const PLACEHOLDER: nat := 0xFFFF_FFFF_FFFF_FFFF
  const MAGIC: seq<byte> := [0x66, 0x4C, 0x61, 0x43]
  const TAG_MARK: seq<byte> := [0x49, 0x44, 0x33]

  /** ByteOffset counts from the first audio frame. */
  datatype SeekPoint = SeekPoint(sampleNumber: nat, byteOffset: nat, frameSamples: nat)

  /** The sizes that STREAMINFO records beside the stream properties. */
  datatype Sizes = Sizes(minBlock: nat, maxBlock: nat, minFrame: nat, maxFrame: nat)

  datatype StreamMeta = StreamMeta(info: StreamInfo, minBlock: nat, maxBlock: nat, maxFrame: nat,
    points: seq<SeekPoint>)

  // ---- printed forms ----

  function EmitBlockHeader(last: bool, kind: nat, len: nat): (s: seq<bool>)
    ensures |s| == 32
  {
    Bits(if last then 1 else 0, 1) + (Bits(kind, 7) + Bits(len, 24))
  }

  /** One header byte for the flag and the type, and the length in three bytes. */
  function EncodeBlockHeader(last: bool, kind: nat, len: nat): (b: seq<byte>)
    ensures |b| == 4
  {
    [kind % 128 + (if last then 128 else 0), (len / 0x1_0000) % 256, (len / 0x100) % 256, len % 256]
  }

  /** The big-endian bytes of v. */
  function BeBytes(v: nat, n: nat): (b: seq<byte>)
    ensures |b| == n
    decreases n
  {
    if n == 0 then [] else BeBytes(v / 256, n - 1) + [v % 256]
  }

  lemma {:induction false} BeBytesBits(v: nat, n: nat)
    ensures ByteBits(BeBytes(v, n)) == Bits(v, 8 * n)
    decreases n
  {
    hide Bits, ByteBits;
    if n == 0 {
      NoBits(v);
    } else {
      BeBytesBits(v / 256, n - 1);
      ByteBitsCat(BeBytes(v / 256, n - 1), [v % 256]);
      ByteBitsOne(v % 256);
      BitsByte(v, 8 * (n - 1));
      assert 8 * n == 8 * (n - 1) + 8;
    }
  }

  lemma {:induction false} NoBits(v: nat)
    ensures Bits(v, 0) == [] && ByteBits([]) == []
  {
  }

  lemma {:induction false} BitsByte(v: nat, m: nat)
    ensures Bits(v, m + 8) == Bits(v / 256, m) + Bits(v % 256, 8)
  {
    assert Pow2(8) == 256 by { Pow2Values(); }
    BitsCat(v, m, 8);
    ShrLowAre(v, 8);
    BitsLow(v, 8);
  }

  lemma {:induction false} BlockHeaderBits(last: bool, kind: nat, len: nat)
    requires kind < 128 && len < 0x100_0000
    ensures ByteBits(EncodeBlockHeader(last, kind, len)) == EmitBlockHeader(last, kind, len)
  {
    hide Bits, ByteBits;
    var b0: byte := kind + if last then 128 else 0;
    var l := BeBytes(len, 3);
    BeBytesBits(len, 3);
    LastThree(len);
    ByteBitsCat([b0], l);
    ByteBitsOne(b0);
    FlagAndType(last, kind);
    Regroup(Bits(if last then 1 else 0, 1), Bits(kind, 7), Bits(len, 24));
    assert EncodeBlockHeader(last, kind, len) == [b0] + l;
  }

  lemma {:induction false} LastThree(len: nat)
    ensures BeBytes(len, 3) == [(len / 0x1_0000) % 256, (len / 0x100) % 256, len % 256]
  {
    assert BeBytes(len / 256 / 256, 1) == BeBytes(len / 256 / 256 / 256, 0) + [(len / 256 / 256) % 256];
    assert BeBytes(len / 256, 2) == BeBytes(len / 256 / 256, 1) + [(len / 256) % 256];
  }

  lemma {:induction false} FlagAndType(last: bool, kind: nat)
    requires kind < 128
    ensures Bits(kind + (if last then 128 else 0), 8) == Bits(if last then 1 else 0, 1) + Bits(kind, 7)
  {
    hide Bits;
    assert Pow2(7) == 128 by { Pow2Values(); }
    BitsJoin(if last then 1 else 0, 1, kind, 7);
  }

  function EncodePoint(p: SeekPoint): (b: seq<byte>)
    ensures |b| == 18
  {
    BeBytes(p.sampleNumber, 8) + BeBytes(p.byteOffset, 8) + BeBytes(p.frameSamples, 2)
  }

  function EncodeSeekPoints(points: seq<SeekPoint>): (b: seq<byte>)
    ensures |b| == 18 * |points|
  {
    if points == [] then [] else EncodeSeekPoints(points[..|points| - 1]) + EncodePoint(points[|points| - 1])
  }

  /** A table of n unused points. */
  function Placeholders(n: nat): (points: seq<SeekPoint>)
    ensures |points| == n
  {
    seq(n, _ => SeekPoint(PLACEHOLDER, 0, 0))
  }

  function BeNat(b: seq<byte>): nat
  {
    Val(ByteBits(b))
  }

  lemma {:induction false} BeNatBytes(v: nat, n: nat)
    requires v < Pow2(8 * n)
    ensures BeNat(BeBytes(v, n)) == v
  {
    BeBytesBits(v, n);
    ValBitsSmall(v, 8 * n);
  }

  /** A seek table body; placeholders are dropped, and a partial point is malformed. */
  function ParsePoints(body: seq<byte>): (points: seq<SeekPoint>)
    decreases |body|
  {
    if |body| < 18 then [] else
      var rest := ParsePoints(body[18..]);
      if BeNat(body[..8]) == PLACEHOLDER then rest
      else [SeekPoint(BeNat(body[..8]), BeNat(body[8..16]), BeNat(body[16..18]))] + rest
  }

  predicate PointFits(p: SeekPoint)
  {
    p.sampleNumber < PLACEHOLDER && p.byteOffset < 0x1_0000_0000_0000_0000 && p.frameSamples < 0x1_0000
  }

  lemma {:induction false} EncodePointsFirst(points: seq<SeekPoint>)
    requires points != []
    ensures EncodeSeekPoints(points) == EncodePoint(points[0]) + EncodeSeekPoints(points[1..])
    decreases |points|
  {
    hide EncodePoint;
    var n := |points| - 1;
    if n == 0 {
      assert points[..0] == [] && points[1..] == [];
      assert EncodeSeekPoints([]) == [];
    } else {
      EncodePointsFirst(points[..n]);
      assert points[..n][1..] == points[1..][..n - 1] && points[1..][n - 1] == points[n];
    }
  }

  /** A written table is read back point by point. */
  lemma {:induction false} PointsRoundTrip(points: seq<SeekPoint>)
    requires forall i :: 0 <= i < |points| ==> PointFits(points[i])
    ensures ParsePoints(EncodeSeekPoints(points)) == points
    decreases |points|
  {
    hide BeNat, BeBytes;
    if points != [] {
      var p, b := points[0], EncodeSeekPoints(points);
      EncodePointsFirst(points);
      PointBack(p);
      var e := EncodePoint(p);
      assert b[..8] == e[..8] && b[8..16] == e[8..16] && b[16..18] == e[16..18]
        && b[18..] == EncodeSeekPoints(points[1..]);
      PointsRoundTrip(points[1..]);
    }
  }

  /** The points of a table that are in use: those with another sample number than all ones. */
  function InUse(points: seq<SeekPoint>): seq<SeekPoint>
  {
    if points == [] then []
    else (if points[0].sampleNumber == 0xFFFF_FFFF_FFFF_FFFF then [] else [points[0]]) + InUse(points[1..])
  }

  /** Any table, unused points anywhere in it: they are dropped and nothing else is. */
  lemma {:induction false} TableParsed(points: seq<SeekPoint>)
    requires forall i :: 0 <= i < |points| ==>
      points[i].sampleNumber <= 0xFFFF_FFFF_FFFF_FFFF && points[i].byteOffset <= 0xFFFF_FFFF_FFFF_FFFF
      && points[i].frameSamples < 0x1_0000
    ensures ParsePoints(EncodeSeekPoints(points)) == InUse(points)
    decreases |points|
  {
    hide BeNat, BeBytes;
    if points != [] {
      var p, b := points[0], EncodeSeekPoints(points);
      EncodePointsFirst(points);
      PointBack(p);
      var e := EncodePoint(p);
      assert b[..8] == e[..8] && b[8..16] == e[8..16] && b[16..18] == e[16..18]
        && b[18..] == EncodeSeekPoints(points[1..]);
      TableParsed(points[1..]);
    }
  }

  /** A point in its place: sample number and offset in 64 bits, and its length in 16. */
  lemma {:induction false} PointBits(p: SeekPoint)
    ensures ByteBits(EncodePoint(p)) == Bits(p.sampleNumber, 64) + (Bits(p.byteOffset, 64) + Bits(p.frameSamples, 16))
  {
    hide Bits, ByteBits, BeBytes;
    var a, b, c := BeBytes(p.sampleNumber, 8), BeBytes(p.byteOffset, 8), BeBytes(p.frameSamples, 2);
    BeBytesBits(p.sampleNumber, 8);
    BeBytesBits(p.byteOffset, 8);
    BeBytesBits(p.frameSamples, 2);
    ByteBitsCat(a + b, c);
    ByteBitsCat(a, b);
    Regroup(ByteBits(a), ByteBits(b), ByteBits(c));
  }

  lemma {:induction false} PointBack(p: SeekPoint)
    requires p.sampleNumber <= PLACEHOLDER && p.byteOffset < 0x1_0000_0000_0000_0000 && p.frameSamples < 0x1_0000
    ensures var e := EncodePoint(p);
      BeNat(e[..8]) == p.sampleNumber && BeNat(e[8..16]) == p.byteOffset && BeNat(e[16..18]) == p.frameSamples
  {
    hide BeNat, BeBytes;
    Pow2Values();
    BeNatBytes(p.sampleNumber, 8);
    BeNatBytes(p.byteOffset, 8);
    BeNatBytes(p.frameSamples, 2);
    var e := EncodePoint(p);
    assert e[..8] == BeBytes(p.sampleNumber, 8) && e[8..16] == BeBytes(p.byteOffset, 8)
      && e[16..18] == BeBytes(p.frameSamples, 2);
  }

  function EmitStreamInfo(si: StreamInfo, z: Sizes): (s: seq<bool>)
    requires si.channels >= 1 && si.bitDepth >= 1
    ensures |s| == 144 + 8 * |si.md5|
  {
    Bits(z.minBlock, 16) + (Bits(z.maxBlock, 16) + (Bits(z.minFrame, 24) + (Bits(z.maxFrame, 24) + EmitProperties(si))))
  }

  function EmitProperties(si: StreamInfo): (s: seq<bool>)
    requires si.channels >= 1 && si.bitDepth >= 1
    ensures |s| == 64 + 8 * |si.md5|
  {
    Bits(si.sampleRate, 20)
      + (Bits(si.channels - 1, 3) + (Bits(si.bitDepth - 1, 5) + (Bits(si.totalSamples, 36) + ByteBits(si.md5))))
  }

  // ---- the parser ----

  function GetBytes(s: Stream, p: nat, n: nat): (r: Parsed<seq<byte>>)
    requires p <= |s.bits|
    ensures r.Ok? ==> r.pos == p + 8 * n <= |s.bits| && |r.v| == n
    decreases n
  {
    if n == 0 then Ok([], p) else
      var (b, q) :- GetByte(s, p);
      var (rest, e) :- GetBytes(s, q, n - 1);
      Ok([b] + rest, e)
  }

  function GetByte(s: Stream, p: nat): (r: Parsed<byte>)
    requires p <= |s.bits|
    ensures r.Ok? ==> r.pos == p + 8 <= |s.bits|
  {
    Pow2Values();
    var (b, q) :- GetBits(s, p, 8);
    Ok(b, q)
  }

  function GetFormat(s: Stream, p: nat): (r: Parsed<(nat, nat, nat)>)
    requires p <= |s.bits|
    ensures r.Ok? ==> p <= r.pos <= |s.bits|
  {
    var (rate, p1) :- GetBits(s, p, 20);
    var (ch, p2) :- GetBits(s, p1, 3);
    var (bps, p3) :- GetBits(s, p2, 5);
    Ok((rate, ch, bps), p3)
  }

  function GetProperties(s: Stream, p: nat): (r: Parsed<StreamInfo>)
    requires p <= |s.bits|
    ensures r.Ok? ==> p <= r.pos <= |s.bits|
  {
    var (f, p1) :- GetFormat(s, p);
    var (total, p2) :- GetBits(s, p1, 36);
    if f.0 == 0 || f.2 < 3 then Bad(Unsupported) else
      var (md5, p3) :- GetBytes(s, p2, 16);
      Ok(StreamInfo(f.0, f.1 + 1, f.2 + 1, total, md5), p3)
  }

  function GetStreamInfo(s: Stream, p: nat): (r: Parsed<StreamMeta>)
    requires p <= |s.bits|
    ensures r.Ok? ==> p <= r.pos <= |s.bits|
  {
    var (minBlock, p1) :- GetBits(s, p, 16);
    var (maxBlock, p2) :- GetBits(s, p1, 16);
    var (_, p3) :- GetBits(s, p2, 24);
    var (maxFrame, p4) :- GetBits(s, p3, 24);
    var (info, p5) :- GetProperties(s, p4);
    Ok(StreamMeta(info, minBlock, maxBlock, maxFrame, []), p5)
  }

  datatype BlockHeader = BlockHeader(last: bool, kind: nat, len: nat)

  function GetBlockHeader(s: Stream, p: nat): (r: Parsed<BlockHeader>)
    requires p <= |s.bits|
    ensures r.Ok? ==> r.pos == p + 32 <= |s.bits|
  {
    var (last, p1) :- GetBits(s, p, 1);
    var (kind, p2) :- GetBits(s, p1, 7);
    var (len, p3) :- GetBits(s, p2, 24);
    Ok(BlockHeader(last == 1, kind, len), p3)
  }

  /** The body of a block other than STREAMINFO. Only a seek table changes the result. */
  function GetOther(s: Stream, p: nat, h: BlockHeader, m: StreamMeta): (r: Parsed<StreamMeta>)
    requires p <= |s.bits|
    ensures r.Ok? ==> p <= r.pos <= |s.bits|
  {
    var (body, q) :- GetBytes(s, p, h.len);
    if h.kind != TYPE_SEEKTABLE then Ok(m, q)
    else if |body| % 18 != 0 then Bad(Unsupported)
    else Ok(m.(points := ParsePoints(body)), q)
  }

  /** The blocks after the first. */
  function GetBlocks(s: Stream, p: nat, m: StreamMeta): (r: Parsed<StreamMeta>)
    requires p <= |s.bits|
    ensures r.Ok? ==> p <= r.pos <= |s.bits|
    decreases |s.bits| - p
  {
    var (h, q) :- GetBlockHeader(s, p);
    if h.kind == TYPE_INVALID then Bad(Unsupported)
    else if h.kind == TYPE_STREAMINFO then Bad(MissingStreamInfo)
    else
      var (m', e) :- GetOther(s, q, h, m);
      if h.last then Ok(m', e) else GetBlocks(s, e, m')
  }

  /** The length of an ID3v2 tag behind its first ten bytes, the last six of which are given:
      four bytes of seven bits each, and a footer when the flags say so. */
  function TagSize(b: seq<byte>): nat
    requires |b| == 6
  {
    var len := AppendSeven(AppendSeven(AppendSeven(And(b[2], 0x7F), b[3]), b[4]), b[5]);
    if And(b[1], 0x10) != 0 then len + 10 else len
  }

  /** Appends the low seven bits of a byte to a length. */
  function AppendSeven(len: nat, b: byte): nat
  {
    0x80 * len + And(b, 0x7F)
  }

  /** Four bytes, those behind an ID3v2 tag when there is one. */
  function GetMarker(s: Stream, p: nat): (r: Parsed<seq<byte>>)
    requires p <= |s.bits|
    ensures r.Ok? ==> p <= r.pos <= |s.bits| && |r.v| == 4
  {
    var (front, p1) :- GetBytes(s, p, 4);
    if front[..3] != TAG_MARK then Ok(front, p1) else
      var (size, p2) :- GetBytes(s, p1, 6);
      var (tag, p3) :- GetBytes(s, p2, TagSize(size));
      GetBytes(s, p3, 4)
  }

  /** The marker, STREAMINFO, and every further block. */
  function GetSections(s: Stream, p: nat): (r: Parsed<StreamMeta>)
    requires p <= |s.bits|
    ensures r.Ok? ==> p <= r.pos <= |s.bits|
  {
    var (marker, p0) :- GetMarker(s, p);
    if marker != MAGIC then Bad(Unsupported) else
      var (h, p1) :- GetBlockHeader(s, p0);
      if h.kind == TYPE_INVALID then Bad(Unsupported)
      else if h.kind != TYPE_STREAMINFO then Bad(MissingStreamInfo)
      else if h.len != STREAMINFO_LEN then Bad(Unsupported)
      else
        var (m, p2) :- GetStreamInfo(s, p1);
        if h.last then Ok(m, p2) else GetBlocks(s, p2, m)
  }

  /** Metadata precedes audio: any end of the stream in it is a truncation. */
  function GetMetadata(s: Stream, p: nat): (r: Parsed<StreamMeta>)
    requires p <= |s.bits|
    ensures r.Ok? ==> p <= r.pos <= |s.bits|
  {
    Committed(GetSections(s, p))
  }

  // ---- reading ----

  lemma {:induction false} GetBytesStep(s: Stream, p: nat, n: nat)
    requires p <= |s.bits| && n > 0
    ensures GetBytes(s, p, n) == match GetByte(s, p)
      case Bad(e) => Bad(e)
      case Ok(b, q) => Prepend([b], GetBytes(s, q, n - 1))
  {
    hide GetByte;
  }

  lemma {:induction false} GetBytesNone(s: Stream, p: nat)
    requires p <= |s.bits|
    ensures GetBytes(s, p, 0) == Ok([], p)
  {
  }

  method ReadBytes(br: Reader, n: nat) returns (res: Result<seq<byte>>)
    requires br.Valid()
    modifies br.Repr()
    ensures br.Valid() && br.Same() && 0 <= old(br.Pos()) <= |br.Stream().bits|
    ensures br.Agrees(GetBytes(br.Stream(), old(br.Pos()), n), res)
  {
    hide Reader.Valid, GetBytes, GetBits;
    br.Bounds();
    ghost var s, p := br.Stream(), br.Pos();
    var out: seq<byte> := [];
    PrependNothing(GetBytes(s, p, n));
    for i := 0 to n
      invariant br.Valid() && br.Same() && 0 <= br.Pos() <= |s.bits| && |out| == i
      invariant GetBytes(s, p, n) == Prepend(out, GetBytes(s, br.Pos(), n - i))
    {
      ghost var here := br.Pos();
      GetBytesStep(s, here, n - i);
      var b := br.ReadBits(8);
      if b.Error? { return Result.Error(b.e); }
      br.Bounds();
      ByteRead(s, here);
      var one: byte := b.v;
      PrependMore(out, [one], GetBytes(s, br.Pos(), n - i - 1));
      out := out + [one];
    }
    GetBytesNone(s, br.Pos());
    assert out + [] == out;
    return Value(out);
  }

  method ReadBlockHeader(br: Reader) returns (res: Result<BlockHeader>)
    requires br.Valid()
    modifies br.Repr()
    ensures br.Valid() && br.Same() && 0 <= old(br.Pos()) <= |br.Stream().bits|
    ensures br.Agrees(GetBlockHeader(br.Stream(), old(br.Pos())), res)
  {
    hide Reader.Valid, GetBits;
    br.Bounds();
    var last := br.ReadBits(1);
    if last.Error? { return Result.Error(last.e); }
    br.Bounds();
    var kind := br.ReadBits(7);
    if kind.Error? { return Result.Error(kind.e); }
    br.Bounds();
    var len := br.ReadBits(24);
    if len.Error? { return Result.Error(len.e); }
    return Value(BlockHeader(last.v == 1, kind.v, len.v));
  }

  method ReadFormat(br: Reader) returns (res: Result<(nat, nat, nat)>)
    requires br.Valid()
    modifies br.Repr()
    ensures br.Valid() && br.Same() && 0 <= old(br.Pos()) <= |br.Stream().bits|
    ensures br.Agrees(GetFormat(br.Stream(), old(br.Pos())), res)
  {
    hide Reader.Valid, GetBits;
    br.Bounds();
    var rate := br.ReadBits(20);
    if rate.Error? { return Result.Error(rate.e); }
    br.Bounds();
    var ch := br.ReadBits(3);
    if ch.Error? { return Result.Error(ch.e); }
    br.Bounds();
    var bps := br.ReadBits(5);
    if bps.Error? { return Result.Error(bps.e); }
    return Value((rate.v, ch.v, bps.v));
  }

  method ReadProperties(br: Reader) returns (res: Result<StreamInfo>)
    requires br.Valid()
    modifies br.Repr()
    ensures br.Valid() && br.Same() && 0 <= old(br.Pos()) <= |br.Stream().bits|
    ensures br.Agrees(GetProperties(br.Stream(), old(br.Pos())), res)
  {
    hide Reader.Valid, GetBits, GetBytes, GetFormat;
    var f := ReadFormat(br);
    if f.Error? { return Result.Error(f.e); }
    br.Bounds();
    var total := br.ReadBits(36);
    if total.Error? { return Result.Error(total.e); }
    if f.v.0 == 0 || f.v.2 < 3 { return Result.Error(Unsupported); }
    br.Bounds();
    var md5 := ReadBytes(br, 16);
    if md5.Error? { return Result.Error(md5.e); }
    return Value(StreamInfo(f.v.0, f.v.1 + 1, f.v.2 + 1, total.v, md5.v));
  }

  method ReadStreamInfo(br: Reader) returns (res: Result<StreamMeta>)
    requires br.Valid()
    modifies br.Repr()
    ensures br.Valid() && br.Same() && 0 <= old(br.Pos()) <= |br.Stream().bits|
    ensures br.Agrees(GetStreamInfo(br.Stream(), old(br.Pos())), res)
  {
    hide Reader.Valid, GetBits, GetProperties;
    br.Bounds();
    var minBlock := br.ReadBits(16);
    if minBlock.Error? { return Result.Error(minBlock.e); }
    br.Bounds();
    var maxBlock := br.ReadBits(16);
    if maxBlock.Error? { return Result.Error(maxBlock.e); }
    br.Bounds();
    var minFrame := br.ReadBits(24);
    if minFrame.Error? { return Result.Error(minFrame.e); }
    br.Bounds();
    var maxFrame := br.ReadBits(24);
    if maxFrame.Error? { return Result.Error(maxFrame.e); }
    br.Bounds();
    var info := ReadProperties(br);
    if info.Error? { return Result.Error(info.e); }
    return Value(StreamMeta(info.v, minBlock.v, maxBlock.v, maxFrame.v, []));
  }

  method ReadOther(br: Reader, h: BlockHeader, m: StreamMeta) returns (res: Result<StreamMeta>)
    requires br.Valid()
    modifies br.Repr()
    ensures br.Valid() && br.Same() && 0 <= old(br.Pos()) <= |br.Stream().bits|
    ensures br.Agrees(GetOther(br.Stream(), old(br.Pos()), h, m), res)
  {
    hide Reader.Valid, GetBytes, ParsePoints;
    br.Bounds();
    var body := ReadBytes(br, h.len);
    if body.Error? { return Result.Error(body.e); }
    if h.kind != TYPE_SEEKTABLE { return Value(m); }
    if |body.v| % 18 != 0 { return Result.Error(Unsupported); }
    return Value(m.(points := ParsePoints(body.v)));
  }

  /** Skips an ID3v2 tag and reads the marker. */
  method ReadMarker(br: Reader) returns (res: Result<seq<byte>>)
    requires br.Valid()
    modifies br.Repr()
    ensures br.Valid() && br.Same() && 0 <= old(br.Pos()) <= |br.Stream().bits|
    ensures br.Agrees(GetMarker(br.Stream(), old(br.Pos())), res)
  {
    hide Reader.Valid, GetBytes, TagSize;
    br.Bounds();
    var front := ReadBytes(br, 4);
    if front.Error? || front.v[..3] != TAG_MARK { return front; }
    br.Bounds();
    var size := ReadBytes(br, 6);
    if size.Error? { return size; }
    br.Bounds();
    var tag := ReadBytes(br, TagSize(size.v));
    if tag.Error? { return tag; }
    br.Bounds();
    res := ReadBytes(br, 4);
  }

  method ReadSections(br: Reader) returns (res: Result<StreamMeta>)
    requires br.Valid()
    modifies br.Repr()
    ensures br.Valid() && br.Same() && 0 <= old(br.Pos()) <= |br.Stream().bits|
    ensures br.Agrees(GetSections(br.Stream(), old(br.Pos())), res)
  {
    hide Reader.Valid, GetMarker, GetBlockHeader, GetStreamInfo, GetBlocks;
    br.Bounds();
    var marker := ReadMarker(br);
    if marker.Error? { return Result.Error(marker.e); }
    if marker.v != MAGIC { return Result.Error(Unsupported); }
    br.Bounds();
    var h := ReadBlockHeader(br);
    if h.Error? { return Result.Error(h.e); }
    if h.v.kind == TYPE_INVALID { return Result.Error(Unsupported); }
    if h.v.kind != TYPE_STREAMINFO { return Result.Error(MissingStreamInfo); }
    if h.v.len != STREAMINFO_LEN { return Result.Error(Unsupported); }
    br.Bounds();
    var m := ReadStreamInfo(br);
    if m.Error? { return Result.Error(m.e); }
    if h.v.last { return m; }
    br.Bounds();
    res := ReadBlocks(br, m.v);
  }

  method ReadBlocks(br: Reader, start: StreamMeta) returns (res: Result<StreamMeta>)
    requires br.Valid()
    modifies br.Repr()
    ensures br.Valid() && br.Same() && 0 <= old(br.Pos()) <= |br.Stream().bits|
    ensures br.Agrees(GetBlocks(br.Stream(), old(br.Pos()), start), res)
  {
    hide Reader.Valid, GetBlockHeader, GetOther;
    br.Bounds();
    ghost var s, p := br.Stream(), br.Pos();
    var m := start;
    while true
      invariant br.Valid() && br.Same() && 0 <= br.Pos() <= |s.bits|
      invariant GetBlocks(s, p, start) == GetBlocks(s, br.Pos(), m)
      decreases |s.bits| - br.Pos()
    {
      var h := ReadBlockHeader(br);
      if h.Error? { return Result.Error(h.e); }
      if h.v.kind == TYPE_INVALID { return Result.Error(Unsupported); }
      if h.v.kind == TYPE_STREAMINFO { return Result.Error(MissingStreamInfo); }
      br.Bounds();
      var next := ReadOther(br, h.v, m);
      if next.Error? { return Result.Error(next.e); }
      if h.v.last { return next; }
      br.Bounds();
      m := next.v;
    }
  }

  /** Reads the marker and all metadata blocks, leaving the reader at the first frame. */
  method ReadMetadata(br: Reader) returns (res: Result<StreamMeta>)
    requires br.Valid()
    modifies br.Repr()
    ensures br.Valid() && br.Same() && 0 <= old(br.Pos()) <= |br.Stream().bits|
    ensures br.Agrees(GetMetadata(br.Stream(), old(br.Pos())), res)
  {
    hide Reader.Valid, GetSections;
    var r := ReadSections(br);
    if r.Error? { return Result.Error(Cut(r.e)); }
    return r;
  }

  // ---- the round trip ----

  lemma {:induction false} ReadBackBytes(s: Stream, p: nat, b: seq<byte>)
    requires At(s, p, ByteBits(b))
    ensures p + 8 * |b| <= |s.bits| && GetBytes(s, p, |b|) == Ok(b, p + 8 * |b|)
    decreases |b|
  {
    hide At, GetBits, Bits, ByteBits;
    AtBound(s, p, ByteBits(b));
    if b == [] {
      GetBytesNone(s, p);
    } else {
      assert b == [b[0]] + b[1..];
      ByteBitsCat([b[0]], b[1..]);
      ByteBitsOne(b[0]);
      AtCat(s, p, Bits(b[0], 8), ByteBits(b[1..]));
      assert Pow2(8) == 256 by { Pow2Values(); }
      ReadBack(s, p, b[0], 8);
      ReadBackBytes(s, p + 8, b[1..]);
      GetBytesStep(s, p, |b|);
    }
  }

  lemma {:induction false} ReadBackHeader(s: Stream, p: nat, h: BlockHeader)
    requires At(s, p, EmitBlockHeader(h.last, h.kind, h.len)) && h.kind < 128 && h.len < 0x100_0000
    ensures GetBlockHeader(s, p) == Ok(h, p + 32)
  {
    hide At, GetBits, Bits;
    var flag := if h.last then 1 else 0;
    assert Pow2(1) == 2 && Pow2(7) == 128 && Pow2(24) == 0x100_0000 by {
      Pow2Values();
      Pow2Add(16, 8);
    }
    AtCat(s, p, Bits(flag, 1), Bits(h.kind, 7) + Bits(h.len, 24));
    AtCat(s, p + 1, Bits(h.kind, 7), Bits(h.len, 24));
    ReadBack(s, p, flag, 1);
    ReadBack(s, p + 1, h.kind, 7);
    ReadBack(s, p + 8, h.len, 24);
  }

  /** The fields fit where STREAMINFO stores them. */
  predicate InfoFits(si: StreamInfo, z: Sizes)
  {
    && 1 <= si.sampleRate < 0x10_0000 && 1 <= si.channels <= 8 && 4 <= si.bitDepth <= 32
    && si.totalSamples < 0x10_0000_0000 && |si.md5| == 16
    && z.minBlock < 0x1_0000 && z.maxBlock < 0x1_0000 && z.minFrame < 0x100_0000 && z.maxFrame < 0x100_0000
  }

  lemma {:induction false} MorePowers()
    ensures Pow2(3) == 8 && Pow2(5) == 32 && Pow2(16) == 0x1_0000 && Pow2(20) == 0x10_0000 && Pow2(24) == 0x100_0000
      && Pow2(36) == 0x10_0000_0000
  {
    Pow2Values();
    Pow2Add(16, 4);
    Pow2Add(16, 8);
    Pow2Add(32, 4);
  }

  lemma {:induction false} ReadBackProperties(s: Stream, p: nat, si: StreamInfo, z: Sizes)
    requires InfoFits(si, z) && At(s, p, EmitProperties(si))
    ensures GetProperties(s, p) == Ok(si, p + 192)
  {
    hide At, GetBits, Bits, GetBytes, ByteBits, Pow2;
    MorePowers();
    var t3 := Bits(si.totalSamples, 36) + ByteBits(si.md5);
    var t2 := Bits(si.bitDepth - 1, 5) + t3;
    var t1 := Bits(si.channels - 1, 3) + t2;
    AtCat(s, p, Bits(si.sampleRate, 20), t1);
    AtCat(s, p + 20, Bits(si.channels - 1, 3), t2);
    AtCat(s, p + 23, Bits(si.bitDepth - 1, 5), t3);
    AtCat(s, p + 28, Bits(si.totalSamples, 36), ByteBits(si.md5));
    ReadBack(s, p, si.sampleRate, 20);
    ReadBack(s, p + 20, si.channels - 1, 3);
    ReadBack(s, p + 23, si.bitDepth - 1, 5);
    ReadBack(s, p + 28, si.totalSamples, 36);
    ReadBackBytes(s, p + 64, si.md5);
  }

  lemma {:induction false} ReadBackInfo(s: Stream, p: nat, si: StreamInfo, z: Sizes)
    requires InfoFits(si, z) && At(s, p, EmitStreamInfo(si, z))
    ensures GetStreamInfo(s, p) == Ok(StreamMeta(si, z.minBlock, z.maxBlock, z.maxFrame, []), p + 272)
  {
    hide At, GetBits, Bits, GetProperties, EmitProperties, Pow2;
    MorePowers();
    var t3 := Bits(z.maxFrame, 24) + EmitProperties(si);
    var t2 := Bits(z.minFrame, 24) + t3;
    var t1 := Bits(z.maxBlock, 16) + t2;
    AtCat(s, p, Bits(z.minBlock, 16), t1);
    AtCat(s, p + 16, Bits(z.maxBlock, 16), t2);
    AtCat(s, p + 32, Bits(z.minFrame, 24), t3);
    AtCat(s, p + 56, Bits(z.maxFrame, 24), EmitProperties(si));
    ReadBack(s, p, z.minBlock, 16);
    ReadBack(s, p + 16, z.maxBlock, 16);
    ReadBack(s, p + 32, z.minFrame, 24);
    ReadBack(s, p + 56, z.maxFrame, 24);
    ReadBackProperties(s, p + 80, si, z);
  }

  // ---- the whole section ----

  /** Builds the 34 bytes of STREAMINFO with the bit writer. */
  method EncodeStreamInfo(si: StreamInfo, z: Sizes) returns (b: seq<byte>)
    requires si.channels >= 1 && si.bitDepth >= 1 && |si.md5| == 16
    ensures |b| == STREAMINFO_LEN && ByteBits(b) == EmitStreamInfo(si, z)
  {
    hide Writer.Valid, Writer.Contents, Bits, ByteBits, BytesOf, EmitProperties;
    var bw := new Writer();
    bw.WriteBits(z.minBlock, 16);
    bw.WriteBits(z.maxBlock, 16);
    bw.WriteBits(z.minFrame, 24);
    bw.WriteBits(z.maxFrame, 24);
    WriteProperties(bw, si);
    ghost var a, c, d, e, g := Bits(z.minBlock, 16), Bits(z.maxBlock, 16), Bits(z.minFrame, 24), Bits(z.maxFrame, 24),
      EmitProperties(si);
    assert [] + a == a;
    Regroup(a + c + d, e, g);
    Regroup(a + c, d, e + g);
    Regroup(a, c, d + (e + g));
    b := bw.Bytes();
    ByteBitsBytesOf(EmitStreamInfo(si, z));
  }

  method WriteProperties(bw: Writer, si: StreamInfo)
    requires bw.Valid() && si.channels >= 1 && si.bitDepth >= 1
    modifies bw
    ensures bw.Valid() && bw.Contents() == old(bw.Contents()) + EmitProperties(si)
  {
    hide Writer.Valid, Writer.Contents, Bits, ByteBits;
    ghost var c0 := bw.Contents();
    bw.WriteBits(si.sampleRate, 20);
    bw.WriteBits(si.channels - 1, 3);
    bw.WriteBits(si.bitDepth - 1, 5);
    bw.WriteBits(si.totalSamples, 36);
    ghost var c1 := bw.Contents();
    EmptyBytes();
    for i := 0 to |si.md5|
      invariant bw.Valid() && bw.Contents() == c1 + ByteBits(si.md5[..i])
    {
      assert si.md5[..i + 1] == si.md5[..i] + [si.md5[i]];
      ByteBitsCat(si.md5[..i], [si.md5[i]]);
      ByteBitsOne(si.md5[i]);
      Regroup(c1, ByteBits(si.md5[..i]), Bits(si.md5[i], 8));
      bw.WriteBits(si.md5[i], 8);
    }
    assert si.md5[..|si.md5|] == si.md5;
    ghost var a, b, c, d, e := Bits(si.sampleRate, 20), Bits(si.channels - 1, 3), Bits(si.bitDepth - 1, 5),
      Bits(si.totalSamples, 36), ByteBits(si.md5);
    Regroup(c0 + a + b + c, d, e);
    Regroup(c0 + a + b, c, d + e);
    Regroup(c0 + a, b, c + (d + e));
    Regroup(c0, a, b + (c + (d + e)));
  }

  lemma {:induction false} EmptyBytes()
    ensures ByteBits([]) == []
  {
  }

  /** An optional further block between STREAMINFO and the seek table. */
  function ExtraBlock(body: Option<seq<byte>>, last: bool): seq<byte>
  {
    if body == None then [] else EncodeBlockHeader(last, TYPE_VORBIS_COMMENT, |body.value|) + body.value
  }

  /** The metadata section of a stream with a seek table: the table holds the points, and
      padding takes the rest of the space. */
  function TableSection(info: seq<byte>, extra: Option<seq<byte>>, points: seq<SeekPoint>, pad: seq<byte>): seq<byte>
  {
    MAGIC + EncodeBlockHeader(false, TYPE_STREAMINFO, STREAMINFO_LEN) + info + ExtraBlock(extra, false)
      + EncodeBlockHeader(false, TYPE_SEEKTABLE, 18 * |points|) + EncodeSeekPoints(points)
      + EncodeBlockHeader(true, TYPE_PADDING, |pad|) + pad
  }

  /** The metadata section of a stream without one. */
  function PlainSection(info: seq<byte>, extra: Option<seq<byte>>): seq<byte>
  {
    MAGIC + EncodeBlockHeader(extra == None, TYPE_STREAMINFO, STREAMINFO_LEN) + info + ExtraBlock(extra, true)
  }

  predicate ExtraFits(extra: Option<seq<byte>>)
  {
    extra.Some? ==> |extra.value| < 0x100_0000
  }

  lemma {:induction false} AtBytes(s: Stream, p: nat, a: seq<byte>, b: seq<byte>)
    requires At(s, p, ByteBits(a + b))
    ensures At(s, p, ByteBits(a)) && At(s, p + 8 * |a|, ByteBits(b)) && p + 8 * |a| + 8 * |b| <= |s.bits|
  {
    ByteBitsCat(a, b);
    hide ByteBits;
    AtBound(s, p, ByteBits(a) + ByteBits(b));
    hide At;
    AtCat(s, p, ByteBits(a), ByteBits(b));
  }

  lemma {:induction false} ReadBackBlockHeader(s: Stream, p: nat, h: BlockHeader)
    requires At(s, p, ByteBits(EncodeBlockHeader(h.last, h.kind, h.len))) && h.kind < 128 && h.len < 0x100_0000
    ensures p + 32 <= |s.bits| && GetBlockHeader(s, p) == Ok(h, p + 32)
  {
    hide At, ByteBits, GetBlockHeader;
    BlockHeaderBits(h.last, h.kind, h.len);
    AtBound(s, p, EmitBlockHeader(h.last, h.kind, h.len));
    ReadBackHeader(s, p, h);
  }

  /** One further block whose body is not a malformed seek table. */
  lemma {:induction false} ReadBackBlock(s: Stream, p: nat, last: bool, kind: nat, body: seq<byte>, m: StreamMeta)
    requires At(s, p, ByteBits(EncodeBlockHeader(last, kind, |body|) + body)) && 0 < kind < 127 && |body| < 0x100_0000
    requires kind == TYPE_SEEKTABLE ==> |body| % 18 == 0
    ensures p + 8 * (4 + |body|) <= |s.bits|
    ensures var m' := if kind == TYPE_SEEKTABLE then m.(points := ParsePoints(body)) else m;
      GetBlocks(s, p, m) == if last then Ok(m', p + 8 * (4 + |body|)) else GetBlocks(s, p + 8 * (4 + |body|), m')
  {
    hide At, ByteBits, GetBlockHeader, GetBytes, ParsePoints, EncodeBlockHeader;
    AtBytes(s, p, EncodeBlockHeader(last, kind, |body|), body);
    ReadBackBlockHeader(s, p, BlockHeader(last, kind, |body|));
    ReadBackBytes(s, p + 32, body);
  }

  lemma {:induction false} ReadBackMarker(s: Stream, p: nat)
    requires At(s, p, ByteBits(MAGIC))
    ensures p + 32 <= |s.bits| && GetMarker(s, p) == Ok(MAGIC, p + 32)
  {
    hide At, ByteBits, GetBytes;
    ReadBackBytes(s, p, MAGIC);
    assert MAGIC[..3] != TAG_MARK by { assert MAGIC[..3][0] != TAG_MARK[0]; }
  }

  /** The length of a tag: four bytes of seven bits, the highest first, and ten more for a footer
      that bit 4 of the flags announces. */
  lemma {:induction false} TagLength(minor: byte, flags: nat, a: nat, b: nat, c: nat, d: nat)
    requires flags < 256 && a < 256 && b < 256 && c < 256 && d < 256
    ensures TagSize([minor, flags, a, b, c, d])
      == a % 128 * 0x20_0000 + b % 128 * 0x4000 + c % 128 * 0x80 + d % 128 + if flags / 16 % 2 == 1 then 10 else 0
  {
    hide And;
    LowSeven(a);
    LowSeven(b);
    LowSeven(c);
    LowSeven(d);
    FourthBit(flags);
  }

  lemma {:induction false} LowSeven(b: nat)
    ensures And(b, 0x7F) == b % 128
  {
    Pow2Values();
    AndMask(b, 7);
    ShrLowAre(b, 7);
  }

  lemma {:induction false} FourthBit(b: nat)
    ensures And(b, 0x10) != 0 <==> b / 16 % 2 == 1
  {
    hide And;
    AndStep(b, 0x10);
    AndStep(b / 2, 0x08);
    AndStep(b / 2 / 2, 0x04);
    AndStep(b / 2 / 2 / 2, 0x02);
    AndStep(b / 2 / 2 / 2 / 2, 0x01);
    AndZero(b / 2 / 2 / 2 / 2 / 2);
  }

  lemma {:induction false} AndStep(a: nat, b: nat)
    ensures And(a, b) == 2 * And(a / 2, b / 2) + if a % 2 == 1 && b % 2 == 1 then 1 else 0
  {
  }

  /** A whole ID3v2 tag in front of the marker is skipped, footer included. */
  lemma {:induction false} TagSkipped(s: Stream, p: nat, version: byte, size: seq<byte>, body: seq<byte>)
    requires |size| == 6 && |body| == TagSize(size)
    requires At(s, p, ByteBits(TAG_MARK + [version] + size + body + MAGIC))
    ensures GetMarker(s, p) == Ok(MAGIC, p + 8 * (14 + |body|))
  {
    hide At, ByteBits, GetBytes, TagSize;
    var front := TAG_MARK + [version];
    AtBytes(s, p, front + size + body, MAGIC);
    AtBytes(s, p, front + size, body);
    AtBytes(s, p, front, size);
    ReadBackBytes(s, p, front);
    ReadBackBytes(s, p + 32, size);
    ReadBackBytes(s, p + 80, body);
    ReadBackBytes(s, p + 80 + 8 * |body|, MAGIC);
    assert front[..3] == TAG_MARK;
  }

  /** The front of every section: the marker and STREAMINFO. */
  lemma {:induction false} ReadBackFront(s: Stream, last: bool, info: seq<byte>, si: StreamInfo, z: Sizes,
      rest: seq<byte>)
    requires At(s, 0, ByteBits(MAGIC + EncodeBlockHeader(last, TYPE_STREAMINFO, STREAMINFO_LEN) + info + rest))
    requires |info| == STREAMINFO_LEN && InfoFits(si, z) && ByteBits(info) == EmitStreamInfo(si, z)
    ensures 336 <= |s.bits| && At(s, 336, ByteBits(rest))
    ensures var m := StreamMeta(si, z.minBlock, z.maxBlock, z.maxFrame, []);
      GetSections(s, 0) == if last then Ok(m, 336) else GetBlocks(s, 336, m)
  {
    hide At, ByteBits, GetBlockHeader, GetMarker, GetStreamInfo, GetBlocks, EncodeBlockHeader, EmitStreamInfo;
    var h := EncodeBlockHeader(last, TYPE_STREAMINFO, STREAMINFO_LEN);
    AtBytes(s, 0, MAGIC + h + info, rest);
    AtBytes(s, 0, MAGIC + h, info);
    AtBytes(s, 0, MAGIC, h);
    ReadBackMarker(s, 0);
    ReadBackBlockHeader(s, 32, BlockHeader(last, TYPE_STREAMINFO, STREAMINFO_LEN));
    ReadBackInfo(s, 64, si, z);
  }

  lemma {:induction false} Cat3<T>(a: seq<T>, b: seq<T>, c: seq<T>)
    ensures (a + b) + c == a + (b + c)
  {
  }

  /** The metadata section with a seek table is read back: the properties, the sizes and
      exactly the recorded points, up to the first audio byte. */
  lemma {:induction false} TableRoundTrip(s: Stream, info: seq<byte>, extra: Option<seq<byte>>, points: seq<SeekPoint>,
      pad: seq<byte>, si: StreamInfo, z: Sizes, audio: seq<byte>)
    requires At(s, 0, ByteBits(TableSection(info, extra, points, pad) + audio))
    requires |info| == STREAMINFO_LEN && InfoFits(si, z) && ByteBits(info) == EmitStreamInfo(si, z) && ExtraFits(extra)
    requires 18 * |points| < 0x100_0000 && |pad| < 0x100_0000 && forall i :: 0 <= i < |points| ==> PointFits(points[i])
    ensures GetMetadata(s, 0)
      == Ok(StreamMeta(si, z.minBlock, z.maxBlock, z.maxFrame, points), 8 * |TableSection(info, extra, points, pad)|)
  {
    hide At, ByteBits, GetBlocks, GetSections, EncodeBlockHeader, EmitStreamInfo, EncodeSeekPoints, ParsePoints,
      PointFits;
    var front := MAGIC + EncodeBlockHeader(false, TYPE_STREAMINFO, STREAMINFO_LEN) + info;
    var x := ExtraBlock(extra, false);
    var st, pt := EncodeBlockHeader(false, TYPE_SEEKTABLE, 18 * |points|), EncodeSeekPoints(points);
    var ph := EncodeBlockHeader(true, TYPE_PADDING, |pad|);
    var m := StreamMeta(si, z.minBlock, z.maxBlock, z.maxFrame, []);
    var tail := ph + pad + audio;
    assert TableSection(info, extra, points, pad) + audio == front + (x + ((st + pt) + tail));
    ReadBackFront(s, false, info, si, z, x + ((st + pt) + tail));
    AtBytes(s, 336, x, (st + pt) + tail);
    AtBytes(s, 336 + 8 * |x|, st + pt, tail);
    AtBytes(s, 336 + 8 * |x| + 8 * |st + pt|, ph + pad, audio);
    if extra.Some? { ReadBackBlock(s, 336, false, TYPE_VORBIS_COMMENT, extra.value, m); }
    ReadBackBlock(s, 336 + 8 * |x|, false, TYPE_SEEKTABLE, pt, m);
    PointsRoundTrip(points);
    ReadBackBlock(s, 336 + 8 * |x| + 8 * |st + pt|, true, TYPE_PADDING, pad, m.(points := points));
  }

  lemma {:induction false} PlainRoundTrip(s: Stream, info: seq<byte>, extra: Option<seq<byte>>, si: StreamInfo,
      z: Sizes, audio: seq<byte>)
    requires At(s, 0, ByteBits(PlainSection(info, extra) + audio))
    requires |info| == STREAMINFO_LEN && InfoFits(si, z) && ByteBits(info) == EmitStreamInfo(si, z) && ExtraFits(extra)
    ensures GetMetadata(s, 0) ==
      Ok(StreamMeta(si, z.minBlock, z.maxBlock, z.maxFrame, []), 8 * |PlainSection(info, extra)|)
  {
    hide At, ByteBits, GetBlocks, GetSections, EncodeBlockHeader, EmitStreamInfo;
    var m := StreamMeta(si, z.minBlock, z.maxBlock, z.maxFrame, []);
    var x := ExtraBlock(extra, true);
    Cat3(MAGIC + EncodeBlockHeader(extra == None, TYPE_STREAMINFO, STREAMINFO_LEN) + info, x, audio);
    ReadBackFront(s, extra == None, info, si, z, x + audio);
    AtBytes(s, 336, x, audio);
    if extra.Some? { ReadBackBlock(s, 336, true, TYPE_VORBIS_COMMENT, extra.value, m); }
  }
}
