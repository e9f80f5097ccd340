/** The first example file of appendix D.1 of RFC 9639: 57 bytes with one stereo sample. Its
    bytes fix the layout of STREAMINFO, the codes of the frame header, both checksums, the
    verbatim subframe with wasted bits and the byte order of the output. */
module RfcExample {
  import opened Words
  import opened Cursor
  import opened Crc
  import opened CrcDivision
  import opened CrcValues
  import opened Rice
  import opened SubframeSyntax
  import opened HeaderSyntax
  import opened FrameSyntax
  import opened FrameEncode
  import opened Packing
  import opened Metadata
  import opened Resync
  import opened Playback
  import opened LongFrames

  const HEADER: seq<byte> := [0xFF, 0xF8, 0x69, 0x18, 0x00, 0x00, 0xBF]
  const SUBFRAMES: seq<byte> := [0x03, 0x58, 0xFD, 0x03, 0x12, 0x8B]
  const FOOTER: seq<byte> := [0xAA, 0x9A]
  const FRAME: seq<byte> := HEADER + SUBFRAMES + FOOTER

  const MD5: seq<byte> := [
    0x3E, 0x84, 0xB4, 0x18, 0x07, 0xDC, 0x69, 0x03,
    0x07, 0x58, 0x6A, 0x3D, 0xAD, 0x1A, 0x2E, 0x0F]

  /** What STREAMINFO declares. */
  const INFO: StreamInfo := StreamInfo(44100, 2, 16, 1, MD5)

  const PROPERTIES: seq<byte> := [
    0x10, 0x00, 0x10, 0x00, 0x00, 0x00, 0x0F, 0x00, 0x00, 0x0F,
    0x0A, 0xC4, 0x42, 0xF0, 0x00, 0x00, 0x00, 0x01]

  /** The file. */
  const FILE: seq<byte> := [0x66, 0x4C, 0x61, 0x43, 0x80, 0x00, 0x00, 0x22] + (PROPERTIES + MD5) + FRAME

  /** The one sample of each channel: 25588 has two wasted bits and 10416 has four. */
  const SAMPLES: FrameBits := FrameBits(Header(false, 1, 44100, 1, 16, 0),
    [Sub(2, Verbatim([6397])), Sub(4, Verbatim([651]))])

  const CODINGS: seq<Coding> := [Coding([], 4, 0), Coding([], 4, 0)]

  // ---- the checksums ----

  lemma {:induction false} HeaderByte1()
    ensures Update8(0x0, 0xFF) == 0xF3
  {
    hide Update8;
    Fold8(0x0, 0xFF, [0xFF, 0xF9, 0xF5, 0xED, 0xDD, 0xBD, 0x7D, 0xFA, 0xF3]);
  }

  lemma {:induction false} HeaderByte2()
    ensures Update8(0xF3, 0xF8) == 0x31
  {
    hide Update8;
    Fold8(0xF3, 0xF8, [0xB, 0x16, 0x2C, 0x58, 0xB0, 0x67, 0xCE, 0x9B, 0x31]);
  }

  lemma {:induction false} HeaderByte3()
    ensures Update8(0x31, 0x69) == 0x8F
  {
    hide Update8;
    Fold8(0x31, 0x69, [0x58, 0xB0, 0x67, 0xCE, 0x9B, 0x31, 0x62, 0xC4, 0x8F]);
  }

  lemma {:induction false} HeaderByte4()
    ensures Update8(0x8F, 0x18) == 0xEC
  {
    hide Update8;
    Fold8(0x8F, 0x18, [0x97, 0x29, 0x52, 0xA4, 0x4F, 0x9E, 0x3B, 0x76, 0xEC]);
  }

  lemma {:induction false} HeaderByte5()
    ensures Update8(0xEC, 0x0) == 0x8A
  {
    hide Update8;
    Fold8(0xEC, 0x0, [0xEC, 0xDF, 0xB9, 0x75, 0xEA, 0xD3, 0xA1, 0x45, 0x8A]);
  }

  lemma {:induction false} HeaderByte6()
    ensures Update8(0x8A, 0x0) == 0xBF
  {
    hide Update8;
    Fold8(0x8A, 0x0, [0x8A, 0x13, 0x26, 0x4C, 0x98, 0x37, 0x6E, 0xDC, 0xBF]);
  }

  lemma {:induction false} FrameByte1()
    ensures Update16(0x0, 0xFF) == 0x202
  {
    hide Update16;
    Fold16(0x0, 0x0, 0xFF, 0xFF, [
      0xFF00, 0x7E05, 0xFC0A, 0x7811, 0xF022, 0x6041, 0xC082, 0x101, 0x202], 0x2, 0x2, 0x2);
  }

  lemma {:induction false} FrameByte2()
    ensures Update16(0x202, 0xF8) == 0x1C
  {
    hide Update16;
    Fold16(0x2, 0x2, 0xF8, 0xFA, [
      0xFA00, 0x7405, 0xE80A, 0x5011, 0xA022, 0xC041, 0x87, 0x10E, 0x21C], 0x2, 0x1C, 0x0);
  }

  lemma {:induction false} FrameMix3()
    ensures Mixed(0x0, 0x69, 0x69) && Mixed(0x1C, 0x1, 0x1D)
  {
  }

  lemma {:induction false} FrameByte3()
    ensures Update16(0x1C, 0x69) == 0x1D76
  {
    hide Update16, Mixed;
    FrameMix3();
    Fold16(0x0, 0x1C, 0x69, 0x69, [
      0x6900, 0xD200, 0x2405, 0x480A, 0x9014, 0xA02D, 0xC05F, 0xBB, 0x176], 0x1, 0x76, 0x1D);
  }

  lemma {:induction false} FrameByte4()
    ensures Update16(0x1D76, 0x18) == 0x761E
  {
    hide Update16;
    Fold16(0x1D, 0x76, 0x18, 0x5, [
      0x500, 0xA00, 0x1400, 0x2800, 0x5000, 0xA000, 0xC005, 0xF, 0x1E], 0x0, 0x1E, 0x76);
  }

  lemma {:induction false} FrameByte5()
    ensures Update16(0x761E, 0x0) == 0x9F37
  {
    hide Update16;
    Fold16(0x76, 0x1E, 0x0, 0x76, [
      0x7600, 0xEC00, 0x5805, 0xB00A, 0xE011, 0x4027, 0x804E, 0x8099, 0x8137], 0x81, 0x37, 0x9F);
  }

  lemma {:induction false} FrameByte6()
    ensures Update16(0x9F37, 0x0) == 0x3442
  {
    hide Update16;
    Fold16(0x9F, 0x37, 0x0, 0x9F, [
      0x9F00, 0xBE05, 0xFC0F, 0x781B, 0xF036, 0x6069, 0xC0D2, 0x1A1, 0x342], 0x3, 0x42, 0x34);
  }

  lemma {:induction false} FrameByte7()
    ensures Update16(0x3442, 0xBF) == 0x413A
  {
    hide Update16;
    Fold16(0x34, 0x42, 0xBF, 0x8B, [
      0x8B00, 0x9605, 0xAC0F, 0xD81B, 0x3033, 0x6066, 0xC0CC, 0x19D, 0x33A], 0x3, 0x3A, 0x41);
  }

  lemma {:induction false} FrameByte8()
    ensures Update16(0x413A, 0x3) == 0x3B8C
  {
    hide Update16;
    Fold16(0x41, 0x3A, 0x3, 0x42, [
      0x4200, 0x8400, 0x8805, 0x900F, 0xA01B, 0xC033, 0x63, 0xC6, 0x18C], 0x1, 0x8C, 0x3B);
  }

  lemma {:induction false} FrameByte9()
    ensures Update16(0x3B8C, 0x58) == 0x8D4A
  {
    hide Update16;
    Fold16(0x3B, 0x8C, 0x58, 0x63, [
      0x6300, 0xC600, 0xC05, 0x180A, 0x3014, 0x6028, 0xC050, 0xA5, 0x14A], 0x1, 0x4A, 0x8D);
  }

  lemma {:induction false} FrameByte10()
    ensures Update16(0x8D4A, 0xFD) == 0xCB23
  {
    hide Update16;
    Fold16(0x8D, 0x4A, 0xFD, 0x70, [
      0x7000, 0xE000, 0x4005, 0x800A, 0x8011, 0x8027, 0x804B, 0x8093, 0x8123], 0x81, 0x23, 0xCB);
  }

  lemma {:induction false} FrameByte11()
    ensures Update16(0xCB23, 0x3) == 0xA1B3
  {
    hide Update16;
    Fold16(0xCB, 0x23, 0x3, 0xC8, [
      0xC800, 0x1005, 0x200A, 0x4014, 0x8028, 0x8055, 0x80AF, 0x815B, 0x82B3], 0x82, 0xB3, 0xA1);
  }

  lemma {:induction false} FrameByte12()
    ensures Update16(0xA1B3, 0x12) == 0x30A9
  {
    hide Update16;
    Fold16(0xA1, 0xB3, 0x12, 0xB3, [
      0xB300, 0xE605, 0x4C0F, 0x981E, 0xB039, 0xE077, 0x40EB, 0x81D6, 0x83A9], 0x83, 0xA9, 0x30);
  }

  lemma {:induction false} FrameByte13()
    ensures Update16(0x30A9, 0x8B) == 0xAA9A
  {
    hide Update16;
    Fold16(0x30, 0xA9, 0x8B, 0xBB, [
      0xBB00, 0xF605, 0x6C0F, 0xD81E, 0x3039, 0x6072, 0xC0E4, 0x1CD, 0x39A], 0x3, 0x9A, 0xAA);
  }

  lemma {:induction false} HeaderSum()
    ensures Checksum8(HEADER[..6]) == 0xBF
  {
    hide Checksum8, Update8;
    var cs: seq<nat> := [0, 0xF3, 0x31, 0x8F, 0xEC, 0x8A, 0xBF];
    HeaderByte1();
    HeaderByte2();
    HeaderByte3();
    HeaderByte4();
    HeaderByte5();
    HeaderByte6();
    HeaderSums(HEADER[..6], cs);
  }

  lemma {:induction false} FrameSum()
    ensures Checksum16(HEADER + SUBFRAMES) == 0xAA9A
  {
    hide Checksum16, Update16;
    var cs: seq<nat> :=
      [0, 0x202, 0x1C, 0x1D76, 0x761E, 0x9F37, 0x3442, 0x413A, 0x3B8C, 0x8D4A, 0xCB23, 0xA1B3, 0x30A9, 0xAA9A];
    FrameByte1();
    FrameByte2();
    FrameByte3();
    FrameByte4();
    FrameByte5();
    FrameByte6();
    FrameByte7();
    FrameByte8();
    FrameByte9();
    FrameByte10();
    FrameByte11();
    FrameByte12();
    FrameByte13();
    FrameSums(HEADER + SUBFRAMES, cs);
  }

  // ---- the frame ----

  lemma {:induction false} ByteMore(p: seq<byte>, b: byte)
    ensures ByteBits(p + [b]) == ByteBits(p) + Bits(b, 8)
  {
    hide Bits;
    ByteBitsCat(p, [b]);
    ByteBitsOne(b);
  }

  lemma {:induction false} Four(a: byte, b: byte, c: byte, d: byte)
    ensures ByteBits([a, b, c, d]) == Bits(a, 8) + (Bits(b, 8) + (Bits(c, 8) + Bits(d, 8)))
  {
    hide Bits, ByteBits;
    ByteBitsOne(a);
    ByteMore([a], b);
    ByteMore([a, b], c);
    ByteMore([a, b, c], d);
    assert [a] + [b] == [a, b] && [a, b] + [c] == [a, b, c] && [a, b, c] + [d] == [a, b, c, d];
  }

  lemma {:induction false} Powers()
    ensures Pow2(1) == 2 && Pow2(2) == 4 && Pow2(4) == 16 && Pow2(6) == 64 && Pow2(8) == 256
    ensures Pow2(12) == 0x1000 && Pow2(14) == 0x4000
  {
    Pow2Values();
    Pow2Add(8, 4);
    Pow2Add(8, 6);
  }

  lemma {:induction false} FirstFour()
    ensures Bits(SYNC_CODE, 14) + EmitCodes(SAMPLES.hdr) == ByteBits([0xFF, 0xF8, 0x69, 0x18])
  {
    hide Bits, ByteBits, Pow2;
    Powers();
    Four(0xFF, 0xF8, 0x69, 0x18);
    BitsJoin(0xFF, 8, 0x3E, 6);
    BitsJoin(0x3E, 6, 0, 1);
    BitsJoin(0x7C, 7, 0, 1);
    BitsJoin(6, 4, 9, 4);
    BitsJoin(4, 3, 0, 1);
    BitsJoin(1, 4, 8, 4);
    var a, b, z, bs, sr := Bits(0xFF, 8), Bits(0x3E, 6), Bits(0, 1), Bits(6, 4), Bits(9, 4);
    var ch, bd := Bits(1, 4), Bits(4, 3);
    assert a + b + (z + (z + (bs + (sr + (ch + (bd + z)))))) == a + ((b + z + z) + ((bs + sr) + (ch + (bd + z))));
  }

  lemma {:induction false} NoExt()
    ensures EmitExt(SampleRateCode(44100)) == [] && EmitExt(BlockSizeCode(1)) == Bits(0, 8)
    ensures EmitCoded(0) == Bits(0, 8)
  {
  }

  lemma {:induction false} HeaderPrinted()
    ensures EmitHeader(SAMPLES.hdr) == ByteBits(HEADER)
  {
    hide Bits, ByteBits, EmitCodes, Checksum8, BytesOf, EmitExt, EmitCoded, BlockSizeCode, SampleRateCode;
    FirstFour();
    NoExt();
    var p: seq<byte> := [0xFF, 0xF8, 0x69, 0x18];
    ByteMore(p, 0x00);
    ByteMore(p + [0x00], 0x00);
    assert p + [0x00] + [0x00] == HEADER[..6];
    BytesOfByteBits(HEADER[..6]);
    HeaderSum();
    ByteMore(HEADER[..6], 0xBF);
    assert HEADER[..6] + [0xBF] == HEADER;
    var c, e := EmitCodes(SAMPLES.hdr), Bits(0, 8);
    assert Bits(SYNC_CODE, 14) + (c + (e + (e + []))) == Bits(SYNC_CODE, 14) + c + e + e;
  }

  /** A verbatim subframe of one sample: k zeros and a one say how many bits are wasted. */
  lemma {:induction false} OneSample(wasted: nat, v: nat, b: byte, c: byte)
    requires 1 <= wasted < 16 && v < Pow2(15 - wasted) && Pow2(16 - wasted) + v == b * 256 + c
    ensures EmitSub(Sub(wasted, Verbatim([v])), CODINGS[0], 1, 16) == ByteBits([0x03, b, c])
  {
    hide Bits, ByteBits, Pow2, UnaryBits, EmitRaw;
    WastedWord(wasted, v, b, c);
    TypeBits();
    RawOne(v, 16 - wasted);
    ByteBitsOne(0x03);
    ByteMore([0x03], b);
    ByteMore([0x03, b], c);
    assert [0x03] + [b] == [0x03, b] && [0x03, b] + [c] == [0x03, b, c];
    Regroup6(Bits(0, 1), Bits(1, 6), Bits(1, 1), UnaryBits(wasted - 1), Bits(v, 16 - wasted), Bits(b, 8), Bits(c, 8));
  }

  lemma {:induction false} Regroup6(z: seq<bool>, t: seq<bool>, o: seq<bool>, u: seq<bool>, r: seq<bool>, b: seq<bool>,
      c: seq<bool>)
    requires u + r == b + c
    ensures z + (t + ((o + u) + r)) == z + (t + o) + b + c
  {
    assert z + (t + ((o + u) + r)) == z + (t + o) + (u + r);
  }

  lemma {:induction false} TypeBits()
    ensures Bits(0, 1) + (Bits(1, 6) + Bits(1, 1)) == Bits(0x03, 8)
  {
    hide Bits, Pow2;
    Powers();
    BitsJoin(0, 1, 1, 6);
    BitsJoin(1, 7, 1, 1);
    assert Bits(0, 1) + (Bits(1, 6) + Bits(1, 1)) == Bits(0, 1) + Bits(1, 6) + Bits(1, 1);
  }

  lemma {:induction false} WastedWord(wasted: nat, v: nat, b: byte, c: byte)
    requires 1 <= wasted < 16 && v < Pow2(15 - wasted) && Pow2(16 - wasted) + v == b * 256 + c
    ensures UnaryBits(wasted - 1) + Bits(v, 16 - wasted) == Bits(b, 8) + Bits(c, 8)
  {
    hide Bits, Pow2;
    Powers();
    var k, n := wasted - 1, 16 - wasted;
    BitsZero(k);
    OneBit();
    BitsJoin(0, k, 1, 1);
    assert k + 1 == wasted && wasted + n == 16 && 0 * Pow2(1) + 1 == 1;
    Pow2Mono(15 - wasted, n);
    BitsJoin(1, wasted, v, n);
    BitsJoin(b, 8, c, 8);
    assert 1 * Pow2(n) + v == b * 256 + c;
  }

  lemma {:induction false} OneBit()
    ensures Bits(1, 1) == [true]
  {
    assert Bits(1 / 2, 0) == [];
  }

  lemma {:induction false} RawOne(v: nat, n: nat)
    requires n > 0 && v < Pow2(n - 1)
    ensures EmitRaw([v], n) == Bits(v, n)
  {
    hide Bits;
    Pow2Mono(n - 1, n);
    DivModUnique(0, v, Pow2(n));
    assert [v][1..] == [];
    assert Bits(v, n) + [] == Bits(v, n);
  }

  /** The frame as printed is the bytes of the example. */
  lemma {:induction false} FramePrinted()
    ensures FrameWritable(SAMPLES, CODINGS, INFO) && EmitFrame(SAMPLES, CODINGS) == ByteBits(FRAME)
  {
    hide EmitHeader, EmitSub, ByteBits, BytesOf, Checksum16, Bits, Pow2;
    Powers();
    SubsFit();
    HeaderPrinted();
    OneSample(2, 6397, 0x58, 0xFD);
    OneSample(4, 651, 0x12, 0x8B);
    TwoSubs();
    ByteBitsCat(HEADER, SUBFRAMES);
    ByteBitsCat([0x03, 0x58, 0xFD], [0x03, 0x12, 0x8B]);
    assert [0x03, 0x58, 0xFD] + [0x03, 0x12, 0x8B] == SUBFRAMES;
    AlreadyAligned(ByteBits(HEADER + SUBFRAMES));
    BytesOfByteBits(HEADER + SUBFRAMES);
    FrameSum();
    FootedBits(HEADER + SUBFRAMES);
    assert [Checksum16(HEADER + SUBFRAMES) / 0x100, Checksum16(HEADER + SUBFRAMES) % 0x100] == FOOTER;
  }

  lemma {:induction false} SubsFit()
    ensures SubsWritable(SAMPLES.hdr, SAMPLES.subs, CODINGS, 0) && Writable(SAMPLES.hdr, INFO)
    ensures FrameShaped(SAMPLES) && Fits(6397, 14) && Fits(651, 12)
  {
    hide Pow2;
    Powers();
    Pow2Mono(11, 12);
    assert Pow2(13) == 0x2000 && Pow2(11) == 0x800 by { FewPowers(); }
    forall k | 0 <= k < 2 ensures SubWritable(SAMPLES.hdr, SAMPLES.subs[k], CODINGS[k], 0 + k) {
    }
  }

  lemma {:induction false} FewPowers()
    ensures Pow2(11) == 0x800 && Pow2(13) == 0x2000
  {
    Pow2Values();
    Pow2Add(8, 3);
    Pow2Add(8, 5);
  }

  lemma {:induction false} TwoSubs()
    requires SubsWritable(SAMPLES.hdr, SAMPLES.subs, CODINGS, 0)
    ensures EmitSubs(SAMPLES.hdr, SAMPLES.subs, CODINGS, 0)
      == EmitSub(SAMPLES.subs[0], CODINGS[0], 1, 16) + EmitSub(SAMPLES.subs[1], CODINGS[1], 1, 16)
  {
    hide EmitSub;
    var subs, cs := SAMPLES.subs, CODINGS;
    SubsTail(SAMPLES.hdr, subs, cs, 0);
    SubsTail(SAMPLES.hdr, subs[1..], cs[1..], 1);
    assert subs[1..][1..] == [] && cs[1..][1..] == [];
    assert EmitSubs(SAMPLES.hdr, subs[1..][1..], cs[1..][1..], 2) == [];
  }

  /** It is a valid frame with the one sample of each channel. */
  lemma {:induction false} ExampleFrame()
    ensures |FRAME| == 15 && FrameShaped(SAMPLES) && Pcm(SAMPLES) == [[25588], [10416]]
    ensures ValidFrame(FRAME, SAMPLES, INFO)
  {
    hide EmitFrame, ByteBits, BytesOf, FrameWritable, ValidFrame;
    FramePrinted();
    SubsFit();
    SamplesAre();
    BytesOfByteBits(FRAME);
    EncodedIsValid(FRAME, SAMPLES, CODINGS, INFO, Pcm(SAMPLES), 0);
  }

  lemma {:induction false} SamplesAre()
    requires FrameShaped(SAMPLES)
    ensures Pcm(SAMPLES) == [[25588], [10416]] && InDepth(SAMPLES)
  {
    Powers();
    assert Output(SAMPLES.subs[0], 1, 32) == [25588];
    assert Output(SAMPLES.subs[1], 1, 32) == [10416];
    assert Signal(SAMPLES, 0) == [25588] && Signal(SAMPLES, 1) == [10416];
  }

  // ---- the file ----

  lemma {:induction false} BeStep(v: nat, q: nat, r: byte, n: nat)
    requires v == 256 * q + r
    ensures BeBytes(v, n + 1) == BeBytes(q, n) + [r]
  {
  }

  /** The second half of the properties: rate, channels, depth and count share eight bytes. */
  lemma {:induction false} EightBytes()
    ensures Bits(44100, 20) + (Bits(1, 3) + (Bits(15, 5) + Bits(1, 36)))
      == ByteBits([0x0A, 0xC4, 0x42, 0xF0, 0x00, 0x00, 0x00, 0x01])
  {
    hide Bits, ByteBits, BeBytes, Pow2;
    MorePowers();
    BitsJoin(44100, 20, 1, 3);
    BitsJoin(352801, 23, 15, 5);
    BitsJoin(11289647, 28, 1, 36);
    BeBytesBits(0x0AC4_42F0_0000_0001, 8);
    BeEight();
    var a, b, c, d := Bits(44100, 20), Bits(1, 3), Bits(15, 5), Bits(1, 36);
    assert a + (b + (c + d)) == a + b + c + d;
  }

  lemma {:induction false} BeEight()
    ensures BeBytes(0x0AC4_42F0_0000_0001, 8) == [0x0A, 0xC4, 0x42, 0xF0, 0x00, 0x00, 0x00, 0x01]
  {
    assert BeBytes(0, 0) == [];
    hide BeBytes;
    BeStep(0x0A, 0, 0x0A, 0);
    BeStep(0x0AC4, 0x0A, 0xC4, 1);
    BeStep(0x0AC442, 0x0AC4, 0x42, 2);
    BeStep(0x0AC4_42F0, 0x0AC442, 0xF0, 3);
    BeStep(0x0AC4_42F000, 0x0AC4_42F0, 0x00, 4);
    BeStep(0x0AC4_42F0_0000, 0x0AC4_42F000, 0x00, 5);
    BeStep(0x0AC4_42F0_000000, 0x0AC4_42F0_0000, 0x00, 6);
    BeStep(0x0AC4_42F0_0000_0001, 0x0AC4_42F0_000000, 0x01, 7);
  }

  lemma {:induction false} TenBytes()
    ensures Bits(4096, 16) + (Bits(4096, 16) + (Bits(15, 24) + Bits(15, 24)))
      == ByteBits([0x10, 0x00, 0x10, 0x00, 0x00, 0x00, 0x0F, 0x00, 0x00, 0x0F])
  {
    hide Bits, ByteBits, Pow2;
    BeBytesBits(4096, 2);
    BeBytesBits(15, 3);
    LastThree(15);
    BeStep(4096, 16, 0, 1);
    BeStep(16, 0, 16, 0);
    assert BeBytes(0, 0) == [] && BeBytes(4096, 2) == [0x10, 0x00] && BeBytes(15, 3) == [0x00, 0x00, 0x0F];
    var a: seq<byte>, b: seq<byte> := [0x10, 0x00], [0x00, 0x00, 0x0F];
    ByteBitsCat(a, a);
    ByteBitsCat(b, b);
    ByteBitsCat(a + a, b + b);
    assert a + a + (b + b) == [0x10, 0x00, 0x10, 0x00, 0x00, 0x00, 0x0F, 0x00, 0x00, 0x0F];
    var x, y := Bits(4096, 16), Bits(15, 24);
    assert x + (x + (y + y)) == x + x + (y + y);
  }

  lemma {:induction false} InfoPrinted()
    ensures ByteBits(PROPERTIES + MD5) == EmitStreamInfo(INFO, Sizes(4096, 4096, 15, 15))
  {
    hide Bits, ByteBits;
    TenBytes();
    EightBytes();
    var a: seq<byte>, b: seq<byte> := [0x10, 0x00, 0x10, 0x00, 0x00, 0x00, 0x0F, 0x00, 0x00, 0x0F],
      [0x0A, 0xC4, 0x42, 0xF0, 0x00, 0x00, 0x00, 0x01];
    assert a + b == PROPERTIES;
    ByteBitsCat(a, b);
    ByteBitsCat(a + b, MD5);
    Flatten(Bits(4096, 16), Bits(4096, 16), Bits(15, 24), Bits(15, 24),
      Bits(44100, 20), Bits(1, 3), Bits(15, 5), Bits(1, 36), ByteBits(MD5));
  }

  lemma {:induction false} Flatten(a: seq<bool>, b: seq<bool>, c: seq<bool>, d: seq<bool>, e: seq<bool>, f: seq<bool>,
      g: seq<bool>, h: seq<bool>, i: seq<bool>)
    ensures a + (b + (c + (d + (e + (f + (g + (h + i))))))) == a + (b + (c + d)) + (e + (f + (g + h))) + i
  {
    assert e + (f + (g + (h + i))) == e + (f + (g + h)) + i;
    assert a + (b + (c + (d + (e + (f + (g + h)) + i)))) == a + (b + (c + d)) + (e + (f + (g + h)) + i);
  }

  /** The whole file: what it declares, where its audio starts, and the four bytes that decoding
      it gives, with which it ends cleanly. */
  lemma {:induction false} ExampleFile()
    ensures |FILE| == 57
    ensures GetMetadata(Bytes(FILE), 0) == Ok(StreamMeta(INFO, 4096, 4096, 15, []), 8 * 42)
    ensures RestBytes(FILE, 8 * 42, INFO, 2) == [0xF4, 0x63, 0xB0, 0x28]
    ensures EndBytes(FILE, 8 * 42, INFO) == EOF && CountBytes(FILE, 8 * 42, INFO) == 1
  {
    hide ByteBits, ValidFrame, Accept, GetMetadata, EmitStreamInfo, FrameShaped, Packed;
    InfoPrinted();
    ExampleFrame();
    Sections();
    var s := Bytes(FILE);
    assert s.bits[0..0 + |ByteBits(FILE)|] == ByteBits(FILE);
    PlainRoundTrip(s, PROPERTIES + MD5, None, INFO, Sizes(4096, 4096, 15, 15), FRAME);
    FileFrame();
    RestStep(s, 336, INFO, 2);
    RestStep(s, 456, INFO, 2);
    EndIsClean(s);
    SamplePacked();
  }

  lemma {:induction false} Sections()
    ensures |PlainSection(PROPERTIES + MD5, None)| == 42 && PlainSection(PROPERTIES + MD5, None) + FRAME == FILE
  {
  }

  lemma {:induction false} FileFrame()
    requires ValidFrame(FRAME, SAMPLES, INFO)
    ensures Accept(Bytes(FILE), 336, INFO) == Ok(SAMPLES, 456)
  {
    hide Accept, FrameShaped, ByteBits;
    var front := FILE[..42];
    assert FILE == front + FRAME;
    ByteBitsCat(front, FRAME);
    assert Bytes(FILE).bits[336..336 + |ByteBits(FRAME)|] == ByteBits(FRAME);
  }

  lemma {:induction false} EndIsClean(s: Stream)
    requires |s.bits| == 456
    ensures Accept(s, 456, INFO) == Bad(s.end)
  {
    NothingLeft(s, INFO);
  }

  lemma {:induction false} SamplePacked()
    requires FrameShaped(SAMPLES) && Pcm(SAMPLES) == [[25588], [10416]]
    ensures Packed(SAMPLES, 2) == [0xF4, 0x63, 0xB0, 0x28]
  {
    hide FrameShaped, Pcm;
    PcmRectangular(SAMPLES);
    var row := RowOf([[25588], [10416]], 0);
    assert row == [25588, 10416];
    assert LeBytes(25588, 2) == [0xF4, 0x63] by { assert LeBytes(0, 0) == [] && LeBytes(0x63, 1) == [0x63]; }
    assert LeBytes(10416, 2) == [0xB0, 0x28] by { assert LeBytes(0x28, 1) == [0x28]; }
    assert row[..1] == [25588] && row[..1][..0] == [];
    assert PackRow(row, 2) == [0xF4, 0x63, 0xB0, 0x28];
    var rows := [row];
    assert rows[..0] == [];
    assert PackRows(rows, 2) == PackRow(row, 2);
    assert RowsOf([[25588], [10416]], 1) == rows;
  }
}
