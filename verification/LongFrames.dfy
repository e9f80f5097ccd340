/** A file that loses its sample count on a seek behind its end: two mono frames of 50000 and
    40000 bytes of raw samples, with no sync pattern inside. Whatever the checksums of the rest
    are, one of three values of the last sample keeps the sync pattern out of the footer. */
module LongFrames {
  import opened Words
  import opened Cursor
  import opened BitReader
  import opened LpcRoutes
  import opened Crc
  import opened Rice
  import opened SubframeSyntax
  import opened HeaderSyntax
  import opened FrameSyntax
  import opened FrameEncode
  import opened Metadata
  import opened StreamEncoder
  import opened Resync
  import opened SeekSearch
  import opened Playback
  import opened StreamDecoder
  import opened StreamLossless
  import opened StreamSeek

  // ---- the checksum tells last bytes apart ----

  /** One shift of the checksum register. */
  function Shifted16(c: nat): nat
  {
    if c >= 0x8000 then Xor((2 * c) % 0x1_0000, 0x8005) else 2 * c
  }

  lemma {:induction false} ShiftFacts(a: nat, b: nat)
    requires a < 0x1_0000 && b < 0x1_0000
    ensures Shifted16(a) < 0x1_0000 && (Shifted16(a) == Shifted16(b) ==> a == b)
  {
    hide Xor, Pow2;
    Pow2Values();
    var x, y := (2 * a) % 0x1_0000, (2 * b) % 0x1_0000;
    XorBound(x, 0x8005, 16);
    XorHalf(x, 0x8005);
    XorHalf(y, 0x8005);
    if Xor(x, 0x8005) == Xor(y, 0x8005) { XorInjective(0x8005, x, y); }
  }

  lemma {:induction false} TableFacts(a: nat, b: nat, k: nat)
    requires a < 0x1_0000 && b < 0x1_0000
    ensures Table16(a, k) < 0x1_0000 && (Table16(a, k) == Table16(b, k) ==> a == b)
    decreases k
  {
    hide Shifted16;
    if k > 0 {
      ShiftFacts(a, b);
      ShiftFacts(b, a);
      TableStep(a, k);
      TableStep(b, k);
      TableFacts(Shifted16(a), Shifted16(b), k - 1);
    }
  }

  lemma {:induction false} TableStep(c: nat, k: nat)
    requires k > 0
    ensures Table16(c, k) == Table16(Shifted16(c), k - 1)
  {
  }

  /** Different last bytes have different checksums. */
  lemma {:induction false} UpdateInjective(crc: nat, a: byte, b: byte)
    requires crc < 0x1_0000 && Update16(crc, a) == Update16(crc, b)
    ensures a == b
  {
    hide Xor, Table16, Pow2;
    Pow2Values();
    var h, x, y := (crc * 0x100) % 0x1_0000, Xor(crc / 0x100, a), Xor(crc / 0x100, b);
    XorBound(crc / 0x100, a, 8);
    XorBound(crc / 0x100, b, 8);
    TableFacts(x * 0x100, y * 0x100, 8);
    TableFacts(y * 0x100, x * 0x100, 8);
    var s, t := Table16(x * 0x100, 8), Table16(y * 0x100, 8);
    XorBound(h, s, 16);
    XorBound(h, t, 16);
    XorInjective(h, s, t);
    XorInjective(crc / 0x100, a, b);
  }

  /** The checksum could be taken for a sync pattern. */
  predicate LooksLikeSync(crc: nat)
  {
    crc / 2 == 0x7FFC
  }

  lemma {:induction false} SomeLastByte(p: seq<byte>) returns (v: byte)
    ensures v <= 2 && !LooksLikeSync(Checksum16(p + [v]))
  {
    hide Update16;
    var c := Checksum16(p);
    ChecksumBounds(p);
    forall b: byte ensures Checksum16(p + [b]) == Update16(c, b) { assert (p + [b])[..|p|] == p; }
    v := if !LooksLikeSync(Update16(c, 0)) then 0 else if !LooksLikeSync(Update16(c, 1)) then 1 else 2;
    if v == 2 && LooksLikeSync(Update16(c, 2)) {
      if Update16(c, 0) == Update16(c, 1) { UpdateInjective(c, 0, 1); }
      if Update16(c, 0) == Update16(c, 2) { UpdateInjective(c, 0, 2); }
      if Update16(c, 1) == Update16(c, 2) { UpdateInjective(c, 1, 2); }
    }
  }

  // ---- the frame ----

  /** A mono stream of 8-bit samples at 44100 Hz. */
  function LongInfo(md5: seq<byte>): StreamInfo
  {
    StreamInfo(44100, 1, 8, 0, md5)
  }

  /** Block sizes with a 16-bit field neither byte of which starts like a sync pattern. */
  predicate LongBlock(n: nat)
  {
    0x4001 <= n <= 0x1_0000 && n != 0x8000 && (n - 1) / 0x100 < 0xF8 && (n - 1) % 0x100 < 0xF8
  }

  function LongHeader(n: nat, number: nat): Header
  {
    Header(false, n, 44100, 0, 8, number)
  }

  function LongSamples(n: nat, v: byte): (s: seq<byte>)
    requires n > 0
    ensures |s| == n
  {
    seq(n - 1, _ => 0) + [v]
  }

  /** The frame of raw samples. */
  function LongFrame(n: nat, number: nat, v: byte): FrameBits
    requires n > 0
  {
    FrameBits(LongHeader(n, number), [Sub(0, Verbatim(LongSamples(n, v)))])
  }

  const NO_CODING: seq<Coding> := [Coding([], 4, 0)]

  function Front(n: nat, number: nat): seq<byte>
    requires n > 0
  {
    BytesOf(EmitHeader(LongHeader(n, number))) + [2]
  }

  function Footed(p: seq<byte>): seq<byte>
  {
    ChecksumBounds(p);
    p + [Checksum16(p) / 0x100, Checksum16(p) % 0x100]
  }

  function LongBytes(n: nat, number: nat, v: byte): seq<byte>
    requires n > 0
  {
    Footed(Front(n, number) + LongSamples(n, v))
  }

  lemma {:induction false} RawIsBytes(vals: seq<byte>)
    requires forall i :: 0 <= i < |vals| ==> vals[i] < 0x80
    ensures EmitRaw(vals, 8) == ByteBits(vals)
  {
    hide ByteBits, Bits, Pow2;
    if vals == [] {
      NoBits();
    } else {
      Pow2Values();
      RawIsBytes(vals[1..]);
      ByteBitsOne(vals[0]);
      ByteBitsCat([vals[0]], vals[1..]);
      assert [vals[0]] + vals[1..] == vals;
    }
  }

  lemma {:induction false} NoBits()
    ensures ByteBits([]) == []
  {
  }

  lemma {:induction false} SubIsBytes(vals: seq<byte>, c: Coding)
    requires forall i :: 0 <= i < |vals| ==> vals[i] < 0x80
    ensures EmitSub(Sub(0, Verbatim(vals)), c, |vals|, 8) == ByteBits([2] + vals)
  {
    hide ByteBits, Bits, EmitRaw, Pow2;
    TypeByte();
    RawIsBytes(vals);
    ByteBitsOne(2);
    ByteBitsCat([2], vals);
    assert Bits(0, 1) + (Bits(1, 6) + (Bits(0, 1) + EmitRaw(vals, 8)))
      == (Bits(0, 1) + (Bits(1, 6) + Bits(0, 1))) + EmitRaw(vals, 8);
  }

  lemma {:induction false} TypeByte()
    ensures Bits(2, 8) == Bits(0, 1) + (Bits(1, 6) + Bits(0, 1))
  {
    Pow2Values();
    hide Bits, Pow2;
    BitsJoin(1, 7, 0, 1);
    BitsJoin(0, 1, 1, 6);
    assert Bits(0, 1) + Bits(1, 6) + Bits(0, 1) == Bits(0, 1) + (Bits(1, 6) + Bits(0, 1));
  }

  /** The bytes are the printed frame. */
  lemma {:induction false} LongPrinted(n: nat, number: nat, v: byte, md5: seq<byte>)
    requires LongBlock(n) && number < 0x80 && v < 0x80
    ensures var f := LongFrame(n, number, v);
      FrameWritable(f, NO_CODING, LongInfo(md5)) && EmitFrame(f, NO_CODING) == ByteBits(LongBytes(n, number, v))
  {
    hide EmitHeader, EmitSub, ByteBits, BytesOf, Checksum16, Bits, Pow2, AllFit;
    var f, s := LongFrame(n, number, v), LongSamples(n, v);
    SamplesPrintable(n, v);
    var p, h := Front(n, number) + s, EmitHeader(f.hdr);
    OneSub(f.hdr, f.subs[0]);
    SubIsBytes(s, NO_CODING[0]);
    LongHeaderLength(n, number);
    ByteBitsBytesOf(h);
    assert p == BytesOf(h) + ([2] + s);
    ByteBitsCat(BytesOf(h), [2] + s);
    AlreadyAligned(ByteBits(p));
    BytesOfByteBits(p);
    FootedBits(p);
  }

  lemma {:induction false} SamplesPrintable(n: nat, v: byte)
    requires n > 0 && v < 0x80
    ensures AllFit(LongSamples(n, v), 8) && forall i :: 0 <= i < n ==> LongSamples(n, v)[i] < 0x80
  {
    hide Fits;
    forall i | 0 <= i < n ensures LongSamples(n, v)[i] < 0x80 && Fits(LongSamples(n, v)[i], 8) {
      SmallFits(LongSamples(n, v)[i]);
    }
  }

  lemma {:induction false} SmallFits(v: int)
    requires 0 <= v < 0x80
    ensures Fits(v, 8)
  {
    Pow2Values();
  }

  lemma {:induction false} OneSub(hdr: Header, sub: Sub)
    requires SubWritable(hdr, sub, NO_CODING[0], 0)
    ensures SubsWritable(hdr, [sub], NO_CODING, 0)
    ensures EmitSubs(hdr, [sub], NO_CODING, 0) == EmitSub(sub, NO_CODING[0], hdr.blockSize, SubDepth(hdr, 0))
  {
    hide EmitSub, SubWritable;
    assert [sub][1..] == [] && NO_CODING[1..] == [];
  }

  lemma {:induction false} LongHeaderLength(n: nat, number: nat)
    requires LongBlock(n) && number < 0x80
    ensures |EmitHeader(LongHeader(n, number))| == 64
  {
    hide EmitHeader;
    HeaderLength(LongHeader(n, number));
  }

  lemma {:induction false} AlreadyAligned(s: seq<bool>)
    requires |s| % 8 == 0
    ensures Aligned(s) == s
  {
  }

  lemma {:induction false} FootedBits(p: seq<byte>)
    ensures ByteBits(Footed(p)) == ByteBits(p) + Bits(Checksum16(p), 16)
  {
    hide ByteBits, Checksum16, Bits, Pow2;
    ChecksumBounds(p);
    Pow2Values();
    var a: byte, b: byte := Checksum16(p) / 0x100, Checksum16(p) % 0x100;
    BitsJoin(a, 8, b, 8);
    ByteBitsOne(a);
    ByteBitsOne(b);
    ByteBitsCat([a], [b]);
    ByteBitsCat(p, [a] + [b]);
    assert [a] + [b] == [a, b];
  }

  /** It is a valid frame, of 11 bytes more than it has samples. */
  lemma {:induction false} LongIsValid(n: nat, number: nat, v: byte, md5: seq<byte>)
    requires LongBlock(n) && number < 0x80 && v < 0x80
    ensures |LongBytes(n, number, v)| == n + 11
    ensures ValidFrame(LongBytes(n, number, v), LongFrame(n, number, v), LongInfo(md5))
  {
    hide EmitFrame, EmitHeader, ByteBits, BytesOf, Checksum16, FrameWritable, ValidFrame, Pcm;
    var f, b := LongFrame(n, number, v), LongBytes(n, number, v);
    LongPrinted(n, number, v, md5);
    LongHeaderLength(n, number);
    BytesOfByteBits(b);
    EncodedIsValid(b, f, NO_CODING, LongInfo(md5), Pcm(f), number);
  }

  // ---- no sync pattern inside ----

  lemma {:induction false} SyncBytes(data: seq<byte>, i: nat)
    requires Sync(data, i)
    ensures data[i] == 0xFF && data[i + 1] / 2 == 0x7C
  {
    var b := data[i + 1];
    Pow2Values();
    assert And(b, 0xFE) / 2 == And(b / 2, 0x7F);
    AndMask(b / 2, 7);
    LowSmall(b / 2, 7);
  }

  lemma {:induction false} BitsHead(v: nat, n: nat)
    requires n > 0 && v < Pow2(n - 1)
    ensures !Bits(v, n)[0]
  {
    if n > 1 { BitsHead(v / 2, n - 1); }
  }

  lemma {:induction false} HeadFalse(s: seq<bool>, i: nat)
    requires 8 * i + 8 <= |s| && !s[8 * i]
    ensures ByteAt(s, i) < 0x80
  {
    hide Val, Pow2;
    Pow2Values();
    var t := s[8 * i..8 * i + 8];
    assert t == [false] + t[1..];
    ValCat([false], t[1..]);
    ValBound(t[1..]);
    FalseIsZero();
  }

  lemma {:induction false} FalseIsZero()
    ensures Val([false]) == 0
  {
    assert [false][..0] == [];
  }

  /** No byte of the header from the third to the seventh could be the second of a sync
      pattern. */
  lemma {:induction false} HeaderBytesLow(n: nat, number: nat)
    requires LongBlock(n) && number < 0x80
    ensures var h := BytesOf(EmitHeader(LongHeader(n, number)));
      |h| == 8 && (forall i :: 2 <= i < 7 ==> h[i] < 0xF8)
  {
    hide Bits, ByteAt, EmitCodes, EmitCoded, Pow2, Checksum8, BytesOf;
    var hdr := LongHeader(n, number);
    var s, ext := EmitHeader(hdr), Bits(n - 1, 16);
    LongHeaderLength(n, number);
    CodesHead(hdr);
    CodedHead(number);
    LongExt(n, number);
    var h := BytesOf(s);
    assert s[16..32] == EmitCodes(hdr)[2..18];
    assert s[32..40] == EmitCoded(number) && s[40..56] == ext;
    assert s[16] == EmitCodes(hdr)[2] && s[24] == EmitCodes(hdr)[10] && s[32] == EmitCoded(number)[0];
    HeadFalse(s, 2);
    HeadFalse(s, 3);
    HeadFalse(s, 4);
    ExtBytes(n, s);
    BytesAre(s);
  }

  lemma {:induction false} BytesAre(s: seq<bool>)
    ensures forall i :: 0 <= i < |s| / 8 ==> BytesOf(s)[i] == ByteAt(s, i)
  {
  }

  lemma {:induction false} LongExt(n: nat, number: nat)
    requires LongBlock(n) && number < 0x80
    ensures |EmitCoded(number)| == 8 && EmitFields(LongHeader(n, number))
      == Bits(SYNC_CODE, 14) + (EmitCodes(LongHeader(n, number)) + (EmitCoded(number) + Bits(n - 1, 16)))
  {
    hide Bits, EmitCodes;
  }

  lemma {:induction false} CodesHead(h: Header)
    requires LongBlock(h.blockSize) && h.chCode == 0
    ensures !EmitCodes(h)[2] && !EmitCodes(h)[10]
  {
    hide Bits, Pow2, SampleRateCode, BitDepthCode;
    Pow2Values();
    BitsHead(7, 4);
    BitsHead(0, 4);
  }

  lemma {:induction false} CodedHead(number: nat)
    requires number < 0x80
    ensures !EmitCoded(number)[0]
  {
    hide Bits, Pow2;
    Pow2Values();
    BitsHead(number, 8);
  }

  lemma {:induction false} ExtBytes(n: nat, s: seq<bool>)
    requires LongBlock(n) && |s| >= 56 && s[40..56] == Bits(n - 1, 16)
    ensures ByteAt(s, 5) < 0xF8 && ByteAt(s, 6) < 0xF8
  {
    hide Bits, Val, Pow2;
    Pow2Values();
    var a: byte, b: byte := (n - 1) / 0x100, (n - 1) % 0x100;
    BitsJoin(a, 8, b, 8);
    assert s[40..48] == s[40..56][..8] && s[48..56] == s[40..56][8..];
    ByteVal(a);
    ByteVal(b);
  }

  /** A frame that ends where another starts, or where the data ends, has no sync pattern
      behind its first byte. */
  lemma {:induction false} NoSyncInside(data: seq<byte>, at: nat, n: nat, number: nat, v: byte, i: nat)
    requires LongBlock(n) && number < 0x80 && v <= 2
      && !LooksLikeSync(Checksum16(Front(n, number) + LongSamples(n, v)))
    requires var b := LongBytes(n, number, v);
      && at + |b| <= |data| && data[at..at + |b|] == b && 1 <= i < |b|
      && (at + |b| < |data| ==> data[at + |b|] == 0xFF)
    ensures !Sync(data, at + i)
  {
    hide And, Checksum16, EmitHeader, BytesOf, Pow2;
    var h, b, c := BytesOf(EmitHeader(LongHeader(n, number))), LongBytes(n, number, v),
      Checksum16(Front(n, number) + LongSamples(n, v));
    HeaderBytesLow(n, number);
    ChecksumBounds(Front(n, number) + LongSamples(n, v));
    assert |b| == n + 11 && b[n + 9] == c / 0x100 && b[n + 10] == c % 0x100;
    assert forall k :: 0 <= k < 8 ==> b[k] == h[k];
    assert b[8] == 2 && forall k :: 9 <= k < n + 9 ==> b[k] <= 2;
    assert forall k :: 0 <= k < |b| ==> data[at + k] == data[at..at + |b|][k] == b[k];
    if Sync(data, at + i) { SyncBytes(data, at + i); }
  }

  // ---- the file ----

  /** Such a frame with a footer that is no sync pattern. */
  ghost predicate Quiet(n: nat, number: nat, v: byte)
  {
    LongBlock(n) && number < 0x80 && v <= 2 && !LooksLikeSync(Checksum16(Front(n, number) + LongSamples(n, v)))
  }

  lemma {:induction false} SomeQuiet(n: nat, number: nat) returns (v: byte)
    requires LongBlock(n) && number < 0x80
    ensures Quiet(n, number, v)
  {
    hide Front, LooksLikeSync, Checksum16;
    v := SomeLastByte(Front(n, number) + LongSamples(n, 0)[..n - 1]);
    assert LongSamples(n, 0)[..n - 1] + [v] == LongSamples(n, v);
    var p := Front(n, number);
    assert p + LongSamples(n, 0)[..n - 1] + [v] == p + (LongSamples(n, 0)[..n - 1] + [v]);
  }

  lemma {:induction false} TwoFlat(a: seq<byte>, b: seq<byte>)
    ensures Flat([a, b]) == a + b
  {
    FlatSnoc([], a);
    FlatSnoc([a], b);
    assert [] + [a] == [a] && [a] + [b] == [a, b] && Flat([]) + a == a;
  }

  lemma {:induction false} StartsWith(b: seq<byte>, f: FrameBits, si: StreamInfo)
    requires ValidFrame(b, f, si)
    ensures b[0] == 0xFF
  {
    hide ValidFrame, And, AcceptBytes;
    TwoBytes(b, f, si);
    FrontFrame(b, f, [], |b|, si);
    assert b + [] == b;
  }

  lemma {:induction false} TwoBytes(b: seq<byte>, f: FrameBits, si: StreamInfo)
    requires ValidFrame(b, f, si)
    ensures |b| >= 2
  {
  }

  /** One of two frames, in place. */
  lemma {:induction false} NoneBehindStart(data: seq<byte>, at: nat, n: nat, number: nat, v: byte)
    requires Quiet(n, number, v)
    requires var b := LongBytes(n, number, v);
      at + |b| <= |data| && data[at..at + |b|] == b && (at + |b| < |data| ==> data[at + |b|] == 0xFF)
    ensures forall i :: at < i < at + |LongBytes(n, number, v)| ==> !Sync(data, i)
  {
    hide LongBytes, Checksum16, Front, Sync;
    forall i | at < i < at + |LongBytes(n, number, v)|
      ensures !Sync(data, i)
    {
      NoSyncInside(data, at, n, number, v, i - at);
    }
  }

  /** The two frames, clean behind any front of a file. */
  lemma {:induction false} TwoLongFrames(head: seq<byte>, md5: seq<byte>)
    returns (frames: seq<seq<byte>>, fs: seq<FrameBits>)
    ensures |frames| == |fs| == 2 && |frames[0]| == 50000 && |frames[1]| == 40000
    ensures Clean(head + Flat(frames), |head|, frames, fs, [], LongInfo(md5))
    ensures AllShaped(fs, 1) && Contiguous(fs, 49989) && SampleOf(fs, 2) == 89978
  {
    hide ValidFrame, LongBytes, Quiet, NoFalseFrame, Sync, Flat;
    var n0, n1 := 49989, 39989;
    var v0 := SomeQuiet(n0, 0);
    var v1 := SomeQuiet(n1, 1);
    QuietIsValid(n0, 0, v0, md5);
    QuietIsValid(n1, 1, v1, md5);
    var b0, b1 := LongBytes(n0, 0, v0), LongBytes(n1, 1, v1);
    frames, fs := [b0, b1], [LongFrame(n0, 0, v0), LongFrame(n1, 1, v1)];
    TwoFlat(b0, b1);
    StartsWith(b1, fs[1], LongInfo(md5));
    var data := head + Flat(frames);
    assert data[|head|..] == Flat(frames) + [] && data[|head|..|head| + 50000] == b0;
    assert data[|head| + 50000..|data|] == b1;
    NoneBehindStart(data, |head|, n0, 0, v0);
    NoneBehindStart(data, |head| + 50000, n1, 1, v1);
    NothingFalse(data, |head|, frames, LongInfo(md5));
    Counts(fs);
  }

  lemma {:induction false} QuietIsValid(n: nat, number: nat, v: byte, md5: seq<byte>)
    requires Quiet(n, number, v)
    ensures |LongBytes(n, number, v)| == n + 11
    ensures ValidFrame(LongBytes(n, number, v), LongFrame(n, number, v), LongInfo(md5))
  {
    hide ValidFrame, LongBytes, LongFrame, Checksum16, Front;
    LongIsValid(n, number, v, md5);
  }

  lemma {:induction false} Counts(fs: seq<FrameBits>)
    requires |fs| == 2 && fs[0].hdr.blockSize == 49989 && fs[1].hdr.blockSize == 39989
      && forall k :: 0 <= k < 2 ==> fs[k].hdr.number == k && !fs[k].hdr.variable
    ensures Contiguous(fs, 49989) && SampleOf(fs, 2) == 89978
  {
    assert SampleOf(fs, 1) == 49989;
  }

  lemma {:induction false} NothingFalse(data: seq<byte>, base: nat, frames: seq<seq<byte>>, si: StreamInfo)
    requires |frames| == 2 && |frames[0]| == 50000 && |frames[1]| == 40000 && |data| == base + 90000
    requires forall i :: base < i < base + 50000 || base + 50000 < i < base + 90000 ==> !Sync(data, i)
    ensures NoFalseFrame(data, base, frames, si)
  {
    hide StartOf, And, Rejected, AcceptBytes;
    StartZero(frames, base);
    StartNext(frames, base, 0);
    forall i | base <= i && Sync(data, i)
      ensures IsStart(frames, base, i)
    {
      var k := if i == base then 0 else 1;
      assert StartOf(frames, base, k) == i;
    }
  }

  /** A file of those two frames that declares no count and has no seek table. */
  ghost predicate TwoFrameFile(data: seq<byte>, m: StreamMeta, base: nat, frames: seq<seq<byte>>, fs: seq<FrameBits>)
  {
    && GetMetadata(Bytes(data), 0) == Ok(m, 8 * base) && m.info.bitDepth == 8 && m.info.totalSamples == 0
    && m.points == [] && m.maxBlock == 49989 && Clean(data, base, frames, fs, [], m.info)
    && |frames| == |fs| == 2 && |frames[0]| == 50000 && |frames[1]| == 40000 && SampleOf(fs, 2) == 89978
    && AllShaped(fs, 1) && Contiguous(fs, 49989)
  }

  /** There is such a file. */
  lemma {:induction false} TwoFrameFileExists(md5: seq<byte>)
    returns (data: seq<byte>, m: StreamMeta, base: nat, frames: seq<seq<byte>>, fs: seq<FrameBits>)
    requires |md5| == 16
    ensures TwoFrameFile(data, m, base, frames, fs)
  {
    hide Clean, AllShaped, Contiguous, SampleOf, EmitStreamInfo, GetMetadata, ByteBits, PlainSection, Flat;
    var si, z := LongInfo(md5), Sizes(49989, 49989, 0, 0);
    var info := BytesOf(EmitStreamInfo(si, z));
    ByteBitsBytesOf(EmitStreamInfo(si, z));
    var head := PlainSection(info, None);
    frames, fs := TwoLongFrames(head, md5);
    data, base := head + Flat(frames), |head|;
    assert Bytes(data).bits[0..0 + |ByteBits(data)|] == ByteBits(data);
    PlainRoundTrip(Bytes(data), info, None, si, z, Flat(frames));
    m := StreamMeta(si, 49989, 49989, 0, []);
  }

  lemma {:induction false} OpenedIsSeekable(d: Decoder, m: StreamMeta, base: nat, frames: seq<seq<byte>>,
      fs: seq<FrameBits>)
    requires TwoFrameFile(d.file.data, m, base, frames, fs) && OpenedAt(d, m, base)
    ensures d.CleanSeek(frames, fs, [], 1)
  {
    hide Clean, AllShaped, Contiguous, SampleOf, GetMetadata, SoundPoint;
  }

  /** Opened and asked for any place behind its 89978 samples, it is reported to end at sample 0,
      unless the source fails. */
  method SeekBehindItsEnd(file: MediaFile, idx: nat, separate: bool, hash: seq<byte> -> seq<byte>, arch: Arch,
      ghost m: StreamMeta, ghost base: nat, ghost frames: seq<seq<byte>>, ghost fs: seq<FrameBits>)
    returns (pos: nat, e: Option<Error>)
    requires TwoFrameFile(file.data, m, base, frames, fs) && idx >= 89978 && arch.Valid()
    modifies file
    ensures (e == None ==> pos == 0) && (e == None || (e == Some(IO) && file.failed))
  {
    hide Clean, AllShaped, Contiguous, SampleOf, GetMetadata, ByteBits, Decoder.Valid, Decoder.CleanSeek,
      Decoder.Remaining, Decoder.Ending, Arch.Valid, Reader.Valid, RestBytes, EndBytes, CountBytes;
    var d := OpenStream(file, separate, true, hash, arch, m, 8 * base);
    OpenedIsSeekable(d, m, base, frames, fs);
    pos, e := SeekBehindTwoFrames(d, idx, frames, fs, 1);
  }
}
