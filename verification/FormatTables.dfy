/** What the code tables of the format mean (RFC 9639): of the frame header, which values have a code
    of their own, which are spelled out and which are left to the STREAMINFO; of subframes, residual
    partitions, metadata blocks and packed samples, the numbers that stand for each. The round trips
    hold of any tables a reader and a writer share. */
module FormatTables {
  import opened Words
  import opened Accumulator
  import opened Cursor
  import opened RiceParam
  import opened Rice
  import opened HeaderSyntax
  import opened SubframeSyntax
  import opened Metadata
  import opened Packing
  import opened StreamEncoder
  import opened StreamDecoder

  // ---- the frame header, sections 9.1.1 to 9.1.5 ----

  /** The common block sizes are 192, 144 times a power of two and the powers of two. */
  lemma {:induction false} CommonSizes(code: nat)
    requires 1 <= code < 16 && code != 6 && code != 7
    ensures code == 1 ==> TabledSize(code) == 192
    ensures 2 <= code <= 5 ==> TabledSize(code) == 144 * Pow2(code)
    ensures 8 <= code ==> TabledSize(code) == Pow2(code)
    ensures BlockSizeCode(TabledSize(code)) == Coded(code, 0, 0)
  {
    assert Pow2(0) == 1 && Pow2(1) == 2 && Pow2(2) == 4 && Pow2(3) == 8 && Pow2(4) == 16 && Pow2(5) == 32;
    assert Pow2(6) == 64 && Pow2(7) == 128 && Pow2(8) == 256;
    if 8 <= code { Pow2Add(8, code - 8); }
  }

  /** Any other size is spelled out, in the shorter field that holds it. */
  lemma {:induction false} UncommonSizes(bs: nat)
    requires 1 <= bs <= 65536
    ensures var c := BlockSizeCode(bs);
      && (c.extN == 0 <==> exists k :: 1 <= k < 16 && k != 6 && k != 7 && TabledSize(k) == bs)
      && (c.extN != 0 ==> c == if bs <= 256 then Coded(6, 8, bs - 1) else Coded(7, 16, bs - 1))
  {
    hide TabledSize;
    BlockSizeFields(bs);
    forall k | 1 <= k < 16 && k != 6 && k != 7 && TabledSize(k) == bs ensures BlockSizeCode(bs).extN == 0 {
      CommonSizes(k);
    }
  }

  /** The eleven rates with a code of their own, in hertz. */
  const RATES: map<nat, nat> := map[
    88200 := 1, 176400 := 2, 192000 := 3, 8000 := 4, 16000 := 5, 22050 := 6,
    24000 := 7, 32000 := 8, 44100 := 9, 48000 := 10, 96000 := 11]

  /** A listed rate takes its code. Any other is spelled out in kilohertz up to 255, in hertz up to
      65535 or in tens of hertz up to 65535 of them, the first that is exact, and only a rate that none
      of them expresses is left to the STREAMINFO. */
  lemma {:induction false} RateCodes(sr: nat)
    ensures var c := SampleRateCode(sr);
      if sr in RATES then c == Coded(RATES[sr], 0, 0)
      else if sr % 1000 == 0 && sr <= 255_000 then c == Coded(12, 8, sr / 1000)
      else if sr <= 65_535 then c == Coded(13, 16, sr)
      else if sr % 10 == 0 && sr <= 655_350 then c == Coded(14, 16, sr / 10)
      else c == Coded(0, 0, 0)
    ensures sr in RATES ==> SAMPLE_RATES[RATES[sr]] == sr
  {
  }

  const DEPTHS: map<nat, nat> := map[8 := 1, 12 := 2, 16 := 4, 20 := 5, 24 := 6, 32 := 7]

  /** A listed depth takes its code and is read from it; only the others are left to the STREAMINFO. */
  lemma {:induction false} DepthCodes(bps: nat, si: StreamInfo)
    ensures BitDepthCode(bps) == if bps in DEPTHS then DEPTHS[bps] else 0
    ensures bps in DEPTHS ==> DepthOf(DEPTHS[bps], si) == bps
    ensures DepthOf(3, si) == 0
  {
  }

  /** A lead byte of n bytes is n ones and a zero in front of its payload; nothing else is one. */
  lemma {:induction false} LeadBytes(b: nat)
    requires b < 0x100
    ensures var n := CodedLen(b);
      && (n == 0 <==> b < 0xC0 || b == 0xFF)
      && (n != 0 ==> 0x100 - Pow2(8 - n) <= b < 0x100 - Pow2(7 - n))
  {
    assert Pow2(0) == 1 && Pow2(1) == 2 && Pow2(2) == 4 && Pow2(3) == 8 && Pow2(4) == 16 && Pow2(5) == 32
      && Pow2(6) == 64;
  }

  /** A number takes as few bytes as hold it: n bytes carry 7 bits for n = 1 and 5n + 1 beyond. */
  lemma {:induction false} ShortestForm(v: nat)
    requires v < 0x10_0000_0000
    ensures var n := CodedBytes(v);
      && (n == 1 <==> v < 0x80) && (n >= 2 ==> v < Pow2(5 * n + 1)) && (n >= 3 ==> v >= Pow2(5 * n - 4))
  {
    hide Pow2;
    CodedRange();
  }

  // ---- subframes and residuals, sections 9.2.1 and 9.2.7 ----

  /** The type code decides the kind and the order of a body, and the other codes are reserved. */
  lemma {:induction false} BodyKinds(s: Stream, p: nat, n: nat, kind: nat, eff: nat)
    requires p <= |s.bits| && kind < 64
    ensures var r := GetBody(s, p, n, kind, eff);
      && (2 <= kind < 8 || 12 < kind < 32 ==> r == Bad(Unsupported))
      && (r.Ok? ==>
        match r.v
        case Constant(_) => kind == 0
        case Verbatim(vals) => kind == 1 && |vals| == n
        case Fixed(warm, res) => kind == 8 + |warm| && |warm| <= 4 && |res| == n - |warm|
        case Lpc(_, _, coeffs, warm, res) =>
          kind == 31 + |warm| && 1 <= |warm| <= 32 && |coeffs| == |warm| && |res| == n - |warm|)
  {
    hide GetRaw, GetSigned, GetResidual, GetQuantization;
    if 8 <= kind <= 12 && GetFixed(s, p, n, kind - 8, eff).Ok? {
      FixedOrder(s, p, n, kind - 8, eff);
    } else if kind >= 32 && GetLpc(s, p, n, kind - 31, eff).Ok? {
      LpcOrder(s, p, n, kind - 31, eff);
    }
  }

  lemma {:induction false} FixedOrder(s: Stream, p: nat, n: nat, order: nat, eff: nat)
    requires p <= |s.bits| && order <= 4 && GetFixed(s, p, n, order, eff).Ok?
    ensures var b := GetFixed(s, p, n, order, eff).v; b.Fixed? && |b.warm| == order <= n && |b.res| == n - order
  {
    hide GetRaw, GetResidual;
  }

  lemma {:induction false} LpcOrder(s: Stream, p: nat, n: nat, order: nat, eff: nat)
    requires p <= |s.bits| && 1 <= order <= 32 && GetLpc(s, p, n, order, eff).Ok?
    ensures var b := GetLpc(s, p, n, order, eff).v;
      b.Lpc? && |b.warm| == |b.coeffs| == order <= n && |b.res| == n - order
  {
    hide GetRaw, GetQuantization, GetResidual;
  }

  /** An escaped partition is marked by a parameter of ones, four or five of them. */
  lemma {:induction false} EscapeIsOnes(w: nat)
    requires w == 4 || w == 5
    ensures EscapeCode(w) == Pow2(w) - 1 && Bits(EscapeCode(w), w) == seq(w, _ => true)
  {
    assert Pow2(4) == 16 && Pow2(5) == 32;
    assert Bits(1, 1) == [true];
    assert Bits(3, 2) == [true, true];
    assert Bits(7, 3) == [true, true, true];
    assert Bits(15, 4) == [true, true, true, true];
    assert w == 5 ==> Bits(31, 5) == [true, true, true, true, true];
  }

  /** A block of n samples splits at an order exactly when its equal parts tile it and the first holds
      the warm-up. */
  lemma {:induction false} PartsTile(n: nat, order: nat, po: nat)
    ensures Splits(n, order, po) <==> exists len: nat :: len * Pow2(po) == n && len >= order
    ensures Splits(n, order, po) ==> PartLen(n, po) * Pow2(po) == n
  {
    hide Pow2;
    var d: nat := Pow2(po);
    Quotient(n, d);
    if Splits(n, order, po) {
      var len: nat := n / d;
      assert len * Pow2(po) == n && len >= order;
    }
    if len: nat :| len * Pow2(po) == n && len >= order { PartOf(n, len, order, po); }
  }

  lemma {:induction false} PartOf(n: nat, len: nat, order: nat, po: nat)
    requires len * Pow2(po) == n && len >= order
    ensures Splits(n, order, po)
  {
    hide Pow2;
    DivModUnique(len, 0, Pow2(po));
  }

  lemma {:induction false} Quotient(n: nat, d: nat)
    requires d > 0
    ensures n % d == 0 ==> n / d * d == n
  {
  }

  // ---- metadata blocks, section 8.1, and packed samples ----

  /** The first byte of a block holds the last-block flag and the type, the other three its length. */
  lemma {:induction false} BlockHeads(last: bool, len: nat)
    requires len < 0x100_0000
    ensures var flag := if last then 0x80 else 0;
      var tail := [len / 0x1_0000, len / 0x100 % 0x100, len % 0x100];
      && EncodeBlockHeader(last, TYPE_STREAMINFO, len) == [flag] + tail
      && EncodeBlockHeader(last, TYPE_PADDING, len) == [flag + 1] + tail
      && EncodeBlockHeader(last, TYPE_SEEKTABLE, len) == [flag + 3] + tail
      && EncodeBlockHeader(last, TYPE_VORBIS_COMMENT, len) == [flag + 4] + tail
  {
  }

  /** An unused seek point is all ones in its sample number and zero elsewhere. */
  lemma {:induction false} PlaceholderBytes()
    ensures EncodeSeekPoints(Placeholders(1)) == seq(8, _ => 0xFF) + seq(10, _ => 0)
  {
    hide EncodePoint;
    var unused := Placeholders(1)[0];
    assert Placeholders(1)[..0] == [];
    assert EncodeSeekPoints([]) == [];
    assert EncodeSeekPoints(Placeholders(1)) == [] + EncodePoint(unused);
    PlaceholderPoint(unused);
  }

  lemma {:induction false} PlaceholderPoint(p: SeekPoint)
    requires p == SeekPoint(PLACEHOLDER, 0, 0)
    ensures EncodePoint(p) == seq(8, _ => 0xFF) + seq(10, _ => 0)
  {
    hide BeBytes;
    Nines();
    Zeros();
  }

  lemma {:induction false} Nines()
    ensures BeBytes(PLACEHOLDER, 8) == seq(8, _ => 0xFF)
  {
    assert BeBytes(0xFF, 1) == [0xFF];
    assert BeBytes(0xFFFF, 2) == [0xFF, 0xFF];
    assert BeBytes(0xFF_FFFF, 3) == [0xFF, 0xFF, 0xFF];
    assert BeBytes(0xFFFF_FFFF, 4) == [0xFF, 0xFF, 0xFF, 0xFF];
    assert BeBytes(0xFF_FFFF_FFFF, 5) == [0xFF, 0xFF, 0xFF, 0xFF, 0xFF];
    assert BeBytes(0xFFFF_FFFF_FFFF, 6) == [0xFF, 0xFF, 0xFF, 0xFF, 0xFF, 0xFF];
    assert BeBytes(0xFF_FFFF_FFFF_FFFF, 7) == [0xFF, 0xFF, 0xFF, 0xFF, 0xFF, 0xFF, 0xFF];
  }

  lemma {:induction false} Zeros()
    ensures BeBytes(0, 8) == seq(8, _ => 0) && BeBytes(0, 2) == seq(2, _ => 0)
  {
    assert BeBytes(0, 2) == [0, 0];
    assert BeBytes(0, 4) == [0, 0, 0, 0];
    assert BeBytes(0, 6) == [0, 0, 0, 0, 0, 0];
  }

  /** Packed samples are little-endian two's complement. */
  lemma {:induction false} LittleEndian(v: int)
    ensures LeBytes(v, 1) == [v % 0x100] && LeBytes(v, 2) == [v % 0x100, v / 0x100 % 0x100]
    ensures LeBytes(v, 3) == [v % 0x100, v / 0x100 % 0x100, v / 0x1_0000 % 0x100]
    ensures LeBytes(v, 4) == [v % 0x100, v / 0x100 % 0x100, v / 0x1_0000 % 0x100, v / 0x100_0000 % 0x100]
  {
  }

  /** A packed sample takes the fewest bytes that hold its depth, on either side. */
  lemma {:induction false} PackedWidths(cfg: Config, d: Decoder)
    requires cfg.bitDepth >= 1 && d.info.bitDepth >= 1
    ensures 8 * (cfg.BytesPS() - 1) < cfg.bitDepth <= 8 * cfg.BytesPS()
    ensures 8 * (d.BytesPS() - 1) < d.info.bitDepth <= 8 * d.BytesPS()
  {
  }
}
