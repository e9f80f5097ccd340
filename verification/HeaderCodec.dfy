/** Writing and reading the frame header through the bit writer and the tapped reader. */
module HeaderCodec {
  import opened Words
  import opened Cursor
  import opened Crc
  import opened BitWriter
  import opened BitReader
  import opened RiceWriter
  import opened HeaderSyntax

  // ---- writing ----

  /** The lead byte: n one bits, a zero, then the top bits of v. */
  lemma {:induction false} LeadBits(n: nat, hi: nat, lead: nat)
    requires 2 <= n <= 7 && hi < Pow2(7 - n) && lead + Pow2(8 - n) == 0x100
    ensures Or(lead, And(hi, 0xFF - lead)) == lead + hi
  {
    hide Or, And, Low, Pow2;
    var m := 8 - n;
    Pow2Mono(7 - n, m);
    Pow2Mono(0, n);
    assert Pow2(8) == 0x100 && Pow2(0) == 1 by { Pow2Values(); }
    Pow2Add(n, m);
    var a, d := Pow2(n), Pow2(m);
    var ones: nat := a - 1;
    AndMask(hi, m);
    LowSmall(hi, m);
    OrDisjoint(ones, hi, m);
    OnesAbove(a, d);
  }

  lemma {:induction false} OnesAbove(a: int, d: int)
    ensures (a - 1) * d == a * d - d
  {
  }

  lemma {:induction false} ContinuationBits(six: nat)
    requires six < 64
    ensures Or(0x80, six) == 0x80 + six
  {
    Pow2Values();
    OrDisjoint(2, six, 6);
  }

  method WriteUTF8(bw: Writer, v: nat)
    requires bw.Valid() && v < 0x10_0000_0000
    modifies bw
    ensures bw.Valid() && bw.Contents() == old(bw.Contents()) + EmitCoded(v)
  {
    hide Writer.Valid, Writer.Contents, Bits, Or, And, Shr, Low, Pow2;
    if v < 0x80 {
      bw.WriteBits(v, 8);
      return;
    }
    var n: nat;
    if v < 0x800 { n := 2; } else if v < 0x1_0000 { n := 3; } else if v < 0x20_0000 { n := 4; }
    else if v < 0x400_0000 { n := 5; } else if v < 0x8000_0000 { n := 6; } else { n := 7; }
    LeadBound(v);
    PowByte(n);
    LeadBits(n, Shr(v, 6 * (n - 1)), 0x100 - Pow2(8 - n));
    var lead := 0x100 - Pow2(8 - n);
    var hi := Shr(v, 6 * (n - 1));
    ghost var c0 := bw.Contents();
    bw.WriteBits(Or(lead, And(hi, 0xFF - lead)), 8);
    WriteContinuation(bw, v, n - 1);
    Regroup(c0, Bits(lead + hi, 8), EmitContinuation(v, n - 1));
  }

  lemma {:induction false} PowByte(n: nat)
    requires 2 <= n <= 7
    ensures Pow2(8 - n) <= 0x80
  {
    Pow2Values();
    Pow2Mono(8 - n, 7);
  }

  method WriteContinuation(bw: Writer, v: nat, m: nat)
    requires bw.Valid()
    modifies bw
    ensures bw.Valid() && bw.Contents() == old(bw.Contents()) + EmitContinuation(v, m)
  {
    hide Writer.Valid, Writer.Contents, Bits, Or, And, Shr, Low, Pow2;
    var i := m;
    while i > 0
      invariant bw.Valid() && bw.Contents() + EmitContinuation(v, i) == old(bw.Contents()) + EmitContinuation(v, m)
    {
      i := i - 1;
      var six := And(Shr(v, 6 * i), 0x3F);
      SixBits(Shr(v, 6 * i));
      ContinuationBits(six);
      Regroup(bw.Contents(), Bits(0x80 + six, 8), EmitContinuation(v, i));
      bw.WriteBits(Or(0x80, six), 8);
    }
    assert bw.Contents() + [] == bw.Contents();
  }

  lemma {:induction false} SixBits(v: nat)
    ensures And(v, 0x3F) == Low(v, 6) < 64
  {
    Pow2Values();
    AndMask(v, 6);
    ShrLow(v, 6);
  }

  /** Bits.len arithmetic on whole bytes: the bytes after a prefix of whole bytes. */
  lemma {:induction false} BytesAfter(a: seq<bool>, b: seq<bool>)
    requires |a| % 8 == 0 && |b| % 8 == 0
    ensures |BytesOf(a)| <= |BytesOf(a + b)| && BytesOf(a + b)[|BytesOf(a)|..] == BytesOf(b)
  {
    var x, y := BytesOf(a + b), BytesOf(b);
    var n := |a| / 8;
    forall i | 0 <= i < |y| ensures x[n + i] == y[i] {
      assert (a + b)[8 * (n + i)..8 * (n + i) + 8] == b[8 * i..8 * i + 8];
    }
  }

  /** Writes a fixed-blocksize header at a byte boundary. */
  method WriteFrameHeader(bw: Writer, blockSize: nat, chCode: nat, sampleRate: nat, bitDepth: nat, number: nat)
    requires bw.Valid() && |bw.Contents()| % 8 == 0 && blockSize >= 1 && number < 0x10_0000_0000
    modifies bw
    ensures bw.Valid()
    ensures bw.Contents() ==
      old(bw.Contents()) + EmitHeader(Header(false, blockSize, sampleRate, chCode, bitDepth, number))
  {
    hide Writer.Valid, Writer.Contents, Bits, EmitFields, Checksum8, BytesOf;
    ghost var h := Header(false, blockSize, sampleRate, chCode, bitDepth, number);
    ghost var c0 := bw.Contents();
    var before := bw.Bytes();
    var start := |before|;
    WriteFields(bw, blockSize, chCode, sampleRate, bitDepth, number);
    EmitFieldsAligned(h);
    var all := bw.Bytes();
    BytesAfter(c0, EmitFields(h));
    bw.WriteBits(Checksum8(all[start..]), 8);
    Regroup(c0, EmitFields(h), Bits(Checksum8(BytesOf(EmitFields(h))), 8));
  }

  method WriteFields(bw: Writer, blockSize: nat, chCode: nat, sampleRate: nat, bitDepth: nat, number: nat)
    requires bw.Valid() && blockSize >= 1 && number < 0x10_0000_0000
    modifies bw
    ensures bw.Valid()
    ensures bw.Contents() ==
      old(bw.Contents()) + EmitFields(Header(false, blockSize, sampleRate, chCode, bitDepth, number))
  {
    hide Writer.Valid, Writer.Contents, Bits, EmitCoded, BlockSizeCode, SampleRateCode, BitDepthCode;
    var h := Header(false, blockSize, sampleRate, chCode, bitDepth, number);
    ghost var c0 := bw.Contents();
    CodeWidths(blockSize, sampleRate);
    bw.WriteBits(SYNC_CODE, 14);
    WriteCodes(bw, h);
    WriteUTF8(bw, number);
    var bs, sr := BlockSizeCode(blockSize), SampleRateCode(sampleRate);
    ghost var c1 := bw.Contents();
    if bs.extN > 0 { bw.WriteBits(bs.extV, bs.extN); }
    ghost var c2 := bw.Contents();
    if sr.extN > 0 { bw.WriteBits(sr.extV, sr.extN); }
    ghost var a, b, c, d, e := Bits(SYNC_CODE, 14), EmitCodes(h), EmitCoded(number), EmitExt(bs), EmitExt(sr);
    assert c2 == c1 + d && bw.Contents() == c2 + e;
    Regroup(c0 + a + b + c, d, e);
    Regroup(c0 + a + b, c, d + e);
    Regroup(c0 + a, b, c + (d + e));
    Regroup(c0, a, b + (c + (d + e)));
  }

  method WriteCodes(bw: Writer, h: Header)
    requires bw.Valid() && h.blockSize >= 1 && !h.variable
    modifies bw
    ensures bw.Valid() && bw.Contents() == old(bw.Contents()) + EmitCodes(h)
  {
    hide Writer.Valid, Writer.Contents, Bits, BlockSizeCode, SampleRateCode, BitDepthCode;
    ghost var c0 := bw.Contents();
    var bs, sr, bd := BlockSizeCode(h.blockSize).code, SampleRateCode(h.sampleRate).code, BitDepthCode(h.bps);
    bw.WriteBits(0, 1);
    bw.WriteBits(0, 1);
    bw.WriteBits(bs, 4);
    bw.WriteBits(sr, 4);
    bw.WriteBits(h.chCode, 4);
    bw.WriteBits(bd, 3);
    bw.WriteBits(0, 1);
    ghost var z, b, s, c, d := Bits(0, 1), Bits(bs, 4), Bits(sr, 4), Bits(h.chCode, 4), Bits(bd, 3);
    Regroup(c0 + z + z + b + s + c, d, z);
    Regroup(c0 + z + z + b + s, c, d + z);
    Regroup(c0 + z + z + b, s, c + (d + z));
    Regroup(c0 + z + z, b, s + (c + (d + z)));
    Regroup(c0 + z, z, b + (s + (c + (d + z))));
    Regroup(c0, z, z + (b + (s + (c + (d + z)))));
  }

  // ---- reading ----

  /** Masking the high bits of a byte. */
  lemma {:induction false} HighMask(b: nat, k: nat, mask: nat)
    requires b < 0x100 && k <= 8 && mask + Pow2(k) == 0x100
    ensures And(b, mask) == Shr(b, k) * Pow2(k)
  {
    hide And, Shr;
    assert Pow2(8) == 0x100 by { Pow2Values(); }
    Pow2Add(8 - k, k);
    OnesAbove(Pow2(8 - k), Pow2(k));
    AndHigh(b, 8 - k, k, Pow2(8 - k) - 1, mask);
  }

  lemma {:induction false} AndHigh(b: nat, m: nat, k: nat, ones: nat, mask: nat)
    requires b < Pow2(m + k) && ones == Pow2(m) - 1 && mask == ones * Pow2(k)
    ensures And(b, mask) == Shr(b, k) * Pow2(k)
  {
    hide And;
    if k == 0 {
      AndMask(b, m);
      LowSmall(b, m);
    } else {
      var p := Pow2(k - 1);
      var x, s := ones * p, Shr(b, k);
      AndHigh(b / 2, m, k - 1, ones, x);
      TwiceProduct(ones, p);
      TwiceProduct(s, p);
      AndDouble(b, x);
    }
  }

  lemma {:induction false} AndDouble(b: nat, x: nat)
    ensures And(b, 2 * x) == 2 * And(b / 2, x)
  {
    if b == 0 && x == 0 { assert And(0, 0) == 0; }
  }

  /** The masked comparisons of the lead byte are ranges. */
  lemma {:induction false} LeadMasks(b: nat)
    requires 0x80 <= b < 0x100
    ensures And(b, 0xE0) == 0xC0 <==> 0xC0 <= b < 0xE0
    ensures And(b, 0xF0) == 0xE0 <==> 0xE0 <= b < 0xF0
    ensures And(b, 0xF8) == 0xF0 <==> 0xF0 <= b < 0xF8
    ensures And(b, 0xFC) == 0xF8 <==> 0xF8 <= b < 0xFC
    ensures And(b, 0xFE) == 0xFC <==> 0xFC <= b < 0xFE
  {
    Pow2Values();
    hide And, Pow2;
    MaskIs(b, 5, 6, 0xE0);
    MaskIs(b, 4, 14, 0xF0);
    MaskIs(b, 3, 30, 0xF8);
    MaskIs(b, 2, 62, 0xFC);
    MaskIs(b, 1, 126, 0xFE);
  }

  lemma {:induction false} MaskIs(b: nat, k: nat, h: nat, mask: nat)
    requires b < 0x100 && k <= 8 && mask + Pow2(k) == 0x100
    ensures And(b, mask) == h * Pow2(k) <==> h * Pow2(k) <= b < h * Pow2(k) + Pow2(k)
  {
    HighMask(b, k, mask);
    ShrLow(b, k);
    hide And, Low, Shr, Pow2;
    if h * Pow2(k) <= b < h * Pow2(k) + Pow2(k) {
      QuotUnique(Shr(b, k), Low(b, k), h, b - h * Pow2(k), Pow2(k));
    }
  }

  lemma {:induction false} ContinuationMask(c: nat)
    requires c < 0x100
    ensures And(c, 0xC0) == 0x80 <==> 0x80 <= c < 0xC0
    ensures 0x80 <= c < 0xC0 ==> And(c, 0x3F) == c - 0x80
  {
    Pow2Values();
    MaskIs(c, 6, 2, 0xC0);
    AndMask(c, 6);
    ShrLow(c, 6);
    if 0x80 <= c < 0xC0 { QuotUnique(Shr(c, 6), Low(c, 6), 2, c - 0x80, 64); }
  }

  lemma {:induction false} Shift6(v: nat, six: nat)
    requires six < 64
    ensures Or(v * 64, six) == v * 64 + six
  {
    Pow2Values();
    OrDisjoint(v, six, 6);
  }

  method ReadCodedNumber(br: Reader) returns (res: Result<nat>)
    requires br.Valid()
    modifies br.Repr()
    ensures br.Valid() && br.Same()
    ensures br.Agrees(GetCoded(br.Stream(), old(br.Pos())), res)
  {
    hide Reader.Valid, GetBits, And, Low, GetContinuation, Pow2;
    br.Bounds();
    var b0 := br.ReadBits(8);
    if b0.Error? { return Result.Error(b0.e); }
    if b0.v < 0x80 { return Value(b0.v); }
    var b := b0.v;
    ByteRead(br.Stream(), old(br.Pos()));
    LeadMasks(b);
    var n: nat;
    if And(b, 0xE0) == 0xC0 { n := 2; } else if And(b, 0xF0) == 0xE0 { n := 3; }
      else if And(b, 0xF8) == 0xF0 { n := 4; }
    else if And(b, 0xFC) == 0xF8 { n := 5; } else if And(b, 0xFE) == 0xFC { n := 6; } else if b == 0xFE { n := 7; }
    else { return Result.Error(Unsupported); }
    AndMask(b, 7 - n);
    res := ReadContinuation(br, n - 1, And(b, Pow2(7 - n) - 1));
  }

  /** One continuation byte is read and its six bits are put below the value. */
  lemma {:induction false} ContinuationStep(s: Stream, p: nat, m: nat, val: nat)
    requires p <= |s.bits| && m > 0
    ensures match GetBits(s, p, 8)
      case Bad(e) => GetContinuation(s, p, m, val) == Bad(e)
      case Ok(c, q) => (
        && c < 0x100 && q <= |s.bits|
        && GetContinuation(s, p, m, val)
          == if And(c, 0xC0) != 0x80 then Bad(Unsupported)
            else GetContinuation(s, q, m - 1, Or(val * 64, And(c, 0x3F))))
  {
    hide GetBits, And, Or;
    var c := GetBits(s, p, 8);
    if c.Ok? {
      ByteRead(s, p);
      ContinuationMask(c.v);
      if And(c.v, 0xC0) == 0x80 { Shift6(val, And(c.v, 0x3F)); }
    }
  }

  method ReadContinuation(br: Reader, m: nat, start: nat) returns (res: Result<nat>)
    requires br.Valid()
    modifies br.Repr()
    ensures br.Valid() && br.Same() && 0 <= old(br.Pos()) <= |br.Stream().bits|
    ensures br.Agrees(GetContinuation(br.Stream(), old(br.Pos()), m, start), res)
  {
    hide Reader.Valid, GetBits, GetContinuation, And, Or;
    br.Bounds();
    var val := start;
    for i := 0 to m
      invariant br.Valid() && br.Same() && 0 <= br.Pos() <= |br.Stream().bits|
      invariant GetContinuation(br.Stream(), old(br.Pos()), m, start) ==
        GetContinuation(br.Stream(), br.Pos(), m - i, val)
    {
      ContinuationStep(br.Stream(), br.Pos(), m - i, val);
      var c := br.ReadBits(8);
      if c.Error? { return Result.Error(c.e); }
      if And(c.v, 0xC0) != 0x80 { return Result.Error(Unsupported); }
      val := Or(val * 64, And(c.v, 0x3F));
      br.Bounds();
    }
    NoContinuation(br.Stream(), br.Pos(), val);
    return Value(val);
  }

  lemma {:induction false} NoContinuation(s: Stream, p: nat, val: nat)
    requires p <= |s.bits|
    ensures GetContinuation(s, p, 0, val) == Ok(val, p)
  {
  }

  method ReadBlockSize(br: Reader, code: nat) returns (res: Result<nat>)
    requires br.Valid() && code < 16
    modifies br.Repr()
    ensures br.Valid() && br.Same() && 0 <= old(br.Pos()) <= |br.Stream().bits|
    ensures br.Agrees(GetBlockSize(br.Stream(), old(br.Pos()), code), res)
  {
    hide Reader.Valid, GetBits, Pow2;
    br.Bounds();
    if code == 0 { return Result.Error(Unsupported); }
    if code == 1 { return Value(192); }
    if code <= 5 { return Value(576 * Pow2(code - 2)); }
    if code == 6 || code == 7 {
      var v := br.ReadBits(if code == 6 then 8 else 16);
      if v.Error? { return Result.Error(v.e); }
      return Value(v.v + 1);
    }
    return Value(256 * Pow2(code - 8));
  }

  method ReadSampleRate(br: Reader, code: nat, si: StreamInfo) returns (res: Result<nat>)
    requires br.Valid() && code < 16
    modifies br.Repr()
    ensures br.Valid() && br.Same() && 0 <= old(br.Pos()) <= |br.Stream().bits|
    ensures br.Agrees(GetSampleRate(br.Stream(), old(br.Pos()), code, si), res)
  {
    hide Reader.Valid, GetBits;
    br.Bounds();
    if code == 0 { return Value(si.sampleRate); }
    if code <= 11 { return Value(SAMPLE_RATES[code]); }
    if code == 15 { return Result.Error(Unsupported); }
    var v := br.ReadBits(if code == 12 then 8 else 16);
    if v.Error? { return Result.Error(v.e); }
    return Value(if code == 12 then v.v * 1000 else if code == 13 then v.v else v.v * 10);
  }

  method ReadSizes(br: Reader) returns (res: Result<(bool, nat, nat)>)
    requires br.Valid()
    modifies br.Repr()
    ensures br.Valid() && br.Same() && 0 <= old(br.Pos()) <= |br.Stream().bits|
    ensures br.Agrees(GetSizes(br.Stream(), old(br.Pos())), res)
  {
    hide Reader.Valid, GetBits, Pow2;
    br.Bounds();
    var zero := br.ReadBits(1);
    if zero.Error? { return Result.Error(zero.e); }
    if zero.v != 0 { return Result.Error(Unsupported); }
    br.Bounds();
    var strategy := br.ReadBits(1);
    if strategy.Error? { return Result.Error(strategy.e); }
    br.Bounds();
    var bs := br.ReadBits(4);
    if bs.Error? { return Result.Error(bs.e); }
    br.Bounds();
    var sr := br.ReadBits(4);
    if sr.Error? { return Result.Error(sr.e); }
    return Value((strategy.v == 1, bs.v, sr.v));
  }

  method ReadLayout(br: Reader) returns (res: Result<(nat, nat)>)
    requires br.Valid()
    modifies br.Repr()
    ensures br.Valid() && br.Same() && 0 <= old(br.Pos()) <= |br.Stream().bits|
    ensures br.Agrees(GetLayout(br.Stream(), old(br.Pos())), res)
  {
    hide Reader.Valid, GetBits, Pow2;
    br.Bounds();
    var ch := br.ReadBits(4);
    if ch.Error? { return Result.Error(ch.e); }
    br.Bounds();
    var depth := br.ReadBits(3);
    if depth.Error? { return Result.Error(depth.e); }
    br.Bounds();
    var last := br.ReadBits(1);
    if last.Error? { return Result.Error(last.e); }
    if last.v != 0 || ch.v >= 11 { return Result.Error(Unsupported); }
    return Value((ch.v, depth.v));
  }

  method ReadCodes(br: Reader) returns (res: Result<Codes>)
    requires br.Valid()
    modifies br.Repr()
    ensures br.Valid() && br.Same() && 0 <= old(br.Pos()) <= |br.Stream().bits|
    ensures br.Agrees(GetCodes(br.Stream(), old(br.Pos())), res)
  {
    hide Reader.Valid, GetSizes, GetLayout;
    var a := ReadSizes(br);
    if a.Error? { return Result.Error(a.e); }
    br.Bounds();
    var b := ReadLayout(br);
    if b.Error? { return Result.Error(b.e); }
    return Value(Codes(a.v.0, a.v.1, a.v.2, b.v.0, b.v.1));
  }

  method ReadFields(br: Reader, si: StreamInfo) returns (res: Result<Header>)
    requires br.Valid()
    modifies br.Repr()
    ensures br.Valid() && br.Same() && 0 <= old(br.Pos()) <= |br.Stream().bits|
    ensures br.Agrees(GetFields(br.Stream(), old(br.Pos()), si), res)
  {
    hide Reader.Valid, GetCodes, GetCoded, GetBlockSize, GetSampleRate, DepthOf;
    br.Bounds();
    var c := ReadCodes(br);
    if c.Error? { return Result.Error(c.e); }
    br.Bounds();
    var number := ReadCodedNumber(br);
    if number.Error? { return Result.Error(number.e); }
    br.Bounds();
    var bs := ReadBlockSize(br, c.v.blockSize);
    if bs.Error? { return Result.Error(bs.e); }
    br.Bounds();
    var sr := ReadSampleRate(br, c.v.sampleRate, si);
    if sr.Error? { return Result.Error(sr.e); }
    br.Bounds();
    if c.v.depth == 3 { return Result.Error(Unsupported); }
    return Value(Header(c.v.variable, bs.v, sr.v, c.v.channels, DepthOf(c.v.depth, si), number.v));
  }

  /** The bytes between two byte positions of the stream. */
  lemma {:induction false} BytesBetween(data: seq<byte>, a: nat, b: nat)
    requires a <= b <= |data|
    ensures BytesOf(ByteBits(data)[8 * a..8 * b]) == data[a..b]
  {
    ByteBitsSlice(data, a, b);
    BytesOfByteBits(data[a..b]);
  }

  /** The running sum of the tap is that of the bytes read since it was installed. */
  lemma {:induction false} TapSum8(br: Reader, start: nat)
    requires br.Valid() && br.tap != null && br.tapPre == [] && start == 8 * br.tapFrom <= br.Pos() && br.Pos() % 8 == 0
    ensures br.Pos() <= |br.Stream().bits| && br.tap.c8 == Checksum8(BytesOf(br.Stream().bits[start..br.Pos()]))
  {
    hide Reader.Valid, Checksum8, BytesOf, ByteBits, FrameCrc.Valid;
    br.Bounds();
    br.TapHolds();
    var q := br.Pos() / 8;
    BytesBetween(br.data, br.tapFrom, q);
    assert br.tap.scratch == br.data[br.tapFrom..q];
  }

  /** The fields after the sync code and the CRC-8 verdict, from the running sum of the
      tap. */
  method ReadChecked(br: Reader, si: StreamInfo, ghost start: nat) returns (res: Result<Header>)
    requires br.Valid() && br.tap != null && br.tapPre == [] && start == 8 * br.tapFrom && br.Pos() == start + 14
    modifies br.Repr()
    ensures br.Valid() && br.Same() && start + 14 <= |br.Stream().bits|
    ensures br.Agrees(GetChecked(br.Stream(), start, si), res)
  {
    hide Reader.Valid, GetFields, GetBits, Checksum8, BytesOf, ByteBits, FrameCrc.Valid;
    br.Bounds();
    var hdr := ReadFields(br, si);
    if hdr.Error? { return Result.Error(hdr.e); }
    br.Bounds();
    FieldsFacts(br.Stream(), start + 14, si);
    TapSum8(br, start);
    var computed := br.tap.c8;
    var stored := br.ReadBits(8);
    if stored.Error? { return Result.Error(stored.e); }
    if stored.v != computed { return Result.Error(CrcMismatch); }
    return Value(hdr.v);
  }

  /** Reads a header from a byte boundary at which the tap was just installed. */
  method ReadHeaderBody(br: Reader, si: StreamInfo) returns (res: Result<Header>)
    requires br.Valid() && br.tap != null && br.tapPre == [] && br.Pos() == 8 * br.tapFrom
    modifies br.Repr()
    ensures br.Valid() && br.Same() && 0 <= old(br.Pos()) <= |br.Stream().bits|
    ensures br.Agrees(GetHeader(br.Stream(), old(br.Pos()), si), res)
  {
    hide Reader.Valid, GetBits, GetChecked;
    br.Bounds();
    var sync := br.ReadBits(14);
    if sync.Error? { return Result.Error(sync.e); }
    if sync.v != SYNC_CODE { return Result.Error(Unsupported); }
    br.Bounds();
    var r := ReadChecked(br, si, old(br.Pos()));
    if r.Error? { return Result.Error(Cut(r.e)); }
    return r;
  }
}
