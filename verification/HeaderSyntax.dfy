/** The frame header as a parser and a printer, and their round trip (internal/frame/header.go
    and header_encode.go, sections 9.1 and 9.1.5 of RFC 9639). */
module HeaderSyntax {
  import opened Words
  import opened Accumulator
  import opened Cursor
  import opened Crc
  import opened RiceParam

  const SYNC_CODE: nat := 0x3FFE

  datatype StreamInfo = StreamInfo(sampleRate: nat, channels: nat, bitDepth: nat, totalSamples: nat, md5: seq<byte>)

  datatype Header = Header(variable: bool, blockSize: nat, sampleRate: nat, chCode: nat, bps: nat, number: nat) {
    /** The channel count implied by the assignment. */
    function Channels(): nat
    {
      if 8 <= chCode <= 10 then 2 else chCode + 1
    }
  }

  /** The coded fields between the sync code and the coded number. */
  datatype Codes = Codes(variable: bool, blockSize: nat, sampleRate: nat, channels: nat, depth: nat)

  /** Past the sync code an end of the stream is a truncated frame. */
  function Committed<T>(r: Parsed<T>): Parsed<T>
  {
    if r.Bad? then Bad(Cut(r.e)) else r
  }

  // ---- the coded number ----

  /** The byte count a lead byte announces, 0 when it is not a lead byte. */
  function CodedLen(b0: nat): (n: nat)
    ensures n <= 7 && n != 1
  {
    if 0xC0 <= b0 < 0xE0 then 2 else if 0xE0 <= b0 < 0xF0 then 3 else if 0xF0 <= b0 < 0xF8 then 4
    else if 0xF8 <= b0 < 0xFC then 5 else if 0xFC <= b0 < 0xFE then 6 else if b0 == 0xFE then 7 else 0
  }

  function GetCoded(s: Stream, p: nat): (r: Parsed<nat>)
    requires p <= |s.bits|
    ensures r.Ok? ==> p <= r.pos <= |s.bits| && (r.pos - p) % 8 == 0
  {
    var (b0, p1) :- GetBits(s, p, 8);
    if b0 < 0x80 then Ok(b0, p1)
    else if CodedLen(b0) == 0 then Bad(Unsupported)
    else GetContinuation(s, p1, CodedLen(b0) - 1, Low(b0, 7 - CodedLen(b0)))
  }

  function GetContinuation(s: Stream, p: nat, m: nat, val: nat): (r: Parsed<nat>)
    requires p <= |s.bits|
    ensures r.Ok? ==> r.pos == p + 8 * m <= |s.bits|
    decreases m
  {
    if m == 0 then Ok(val, p) else
      var (c, p1) :- GetBits(s, p, 8);
      if c < 0x80 || c >= 0xC0 then Bad(Unsupported) else GetContinuation(s, p1, m - 1, val * 64 + (c - 0x80))
  }

  function CodedBytes(v: nat): (n: nat)
    ensures 1 <= n <= 7
  {
    if v < 0x80 then 1 else if v < 0x800 then 2 else if v < 0x1_0000 then 3 else if v < 0x20_0000 then 4
    else if v < 0x400_0000 then 5 else if v < 0x8000_0000 then 6 else 7
  }

  function EmitContinuation(v: nat, m: nat): (s: seq<bool>)
    ensures |s| == 8 * m
  {
    if m == 0 then [] else Bits(0x80 + Low(Shr(v, 6 * (m - 1)), 6), 8) + EmitContinuation(v, m - 1)
  }

  function EmitCoded(v: nat): (s: seq<bool>)
    ensures |s| == 8 * CodedBytes(v)
  {
    var n := CodedBytes(v);
    if n == 1 then Bits(v, 8)
    else Bits(0x100 - Pow2(8 - n) + Shr(v, 6 * (n - 1)), 8) + EmitContinuation(v, n - 1)
  }

  lemma {:induction false} ContinuationRoundTrip(s: Stream, p: nat, v: nat, m: nat)
    requires At(s, p, EmitContinuation(v, m))
    ensures GetContinuation(s, p, m, Shr(v, 6 * m)) == Ok(v, p + 8 * m)
    decreases m
  {
    hide At, GetBits, Bits, Pow2, Low, Shr;
    if m == 0 {
      NoShift(v);
    } else {
      var k := 6 * (m - 1);
      var six := Low(Shr(v, k), 6);
      assert Pow2(6) == 64 && Pow2(8) == 0x100 by { Pow2Values(); }
      ShrLow(Shr(v, k), 6);
      ShrTwice(v, k, 6);
      assert 6 * m == k + 6;
      AtCat(s, p, Bits(0x80 + six, 8), EmitContinuation(v, m - 1));
      ReadBack(s, p, 0x80 + six, 8);
      ContinuationRoundTrip(s, p + 8, v, m - 1);
    }
  }

  lemma {:induction false} NoShift(v: nat)
    ensures Shr(v, 0) == v
  {
  }

  lemma {:induction false} LeadBound(v: nat)
    requires v < 0x10_0000_0000 && v >= 0x80
    ensures Shr(v, 6 * (CodedBytes(v) - 1)) < Pow2(7 - CodedBytes(v))
  {
    var n := CodedBytes(v);
    assert v < Pow2(5 * n + 1) by { CodedRange(); }
    ShrBound(v, 7 - n, 6 * (n - 1));
  }

  lemma {:induction false} CodedRange()
    ensures Pow2(11) == 0x800 && Pow2(16) == 0x1_0000 && Pow2(21) == 0x20_0000 && Pow2(26) == 0x400_0000
    ensures Pow2(31) == 0x8000_0000 && Pow2(36) == 0x10_0000_0000
  {
    Pow2Values();
    Pow2Add(8, 3);
    Pow2Add(16, 5);
    Pow2Add(21, 5);
    Pow2Add(31, 5);
  }

  /** Section 9.1.5 of RFC 9639: a number below 2^36 is read back. */
  lemma {:induction false} CodedRoundTrip(s: Stream, p: nat, v: nat)
    requires At(s, p, EmitCoded(v)) && v < 0x10_0000_0000
    ensures GetCoded(s, p) == Ok(v, p + 8 * CodedBytes(v))
  {
    hide At, GetBits, Bits, Shr, Low, GetContinuation, EmitContinuation, CodedLen, Pow2;
    var n := CodedBytes(v);
    assert Pow2(8) == 0x100 by { Pow2Values(); }
    if n == 1 {
      ReadBack(s, p, v, 8);
    } else {
      LeadBound(v);
      var hi := Shr(v, 6 * (n - 1));
      LeadByte(n, hi);
      var lead := 0x100 - Pow2(8 - n) + hi;
      AtCat(s, p, Bits(lead, 8), EmitContinuation(v, n - 1));
      ReadBack(s, p, lead, 8);
      ContinuationRoundTrip(s, p + 8, v, n - 1);
    }
  }

  lemma {:induction false} LeadByte(n: nat, hi: nat)
    requires 2 <= n <= 7 && hi < Pow2(7 - n)
    ensures var lead := 0x100 - Pow2(8 - n) + hi; 0x80 <= lead < 0x100 && CodedLen(lead) == n && Low(lead, 7 - n) == hi
  {
    hide Low;
    assert Pow2(0) == 1 && Pow2(1) == 2 && Pow2(2) == 4 && Pow2(3) == 8 && Pow2(4) == 16 && Pow2(5) == 32
      && Pow2(6) == 64;
    LowOfLead(n, hi, Pow2(7 - n), 0x100 - Pow2(8 - n) + hi);
  }

  lemma {:induction false} LowOfLead(n: nat, hi: nat, d: nat, v: nat)
    requires 2 <= n <= 7 && hi < d == Pow2(7 - n) && v == 0x100 - 2 * d + hi
    ensures Low(v, 7 - n) == hi
  {
    hide Low, Pow2;
    assert Pow2(8) == 0x100 by { Pow2Values(); }
    var a := Pow2(n + 1);
    Pow2Add(n + 1, 7 - n);
    Pow2Mono(1, n + 1);
    assert Pow2(1) == 2 by { Pow2Values(); }
    var h: nat := a - 2;
    var hd := h * d;
    Distribute(h, 2, d);
    ShrLowJoin(h, hi, 7 - n);
  }

  // ---- the tables ----

  /** The block sizes with a code of their own. */
  function TabledSize(code: nat): (n: nat)
    requires 1 <= code < 16 && code != 6 && code != 7
    ensures 1 <= n <= 65536
  {
    Pow2Mono(if code == 1 then 0 else if code <= 5 then code - 2 else code - 8, 7);
    assert Pow2(7) == 128;
    if code == 1 then 192 else if code <= 5 then 576 * Pow2(code - 2) else 256 * Pow2(code - 8)
  }

  /** A block size less one in n bits. */
  function GetExplicitSize(s: Stream, p: nat, n: nat): (r: Parsed<nat>)
    requires p <= |s.bits| && n <= 16
    ensures r.Ok? ==> r.pos == p + n <= |s.bits| && 1 <= r.v <= 65536
  {
    Pow2Mono(n, 16);
    assert Pow2(16) == 0x1_0000 by { Pow2Values(); }
    var (v, q) :- GetBits(s, p, n);
    Ok(v + 1, q)
  }

  function GetBlockSize(s: Stream, p: nat, code: nat): (r: Parsed<nat>)
    requires p <= |s.bits| && code < 16
    ensures r.Ok? ==> p <= r.pos <= |s.bits| && (r.pos - p) % 8 == 0 && 1 <= r.v <= 65536
  {
    if code == 0 then Bad(Unsupported)
    else if code == 6 then GetExplicitSize(s, p, 8)
    else if code == 7 then GetExplicitSize(s, p, 16)
    else Ok(TabledSize(code), p)
  }

  const SAMPLE_RATES: seq<nat> := [0, 88200, 176400, 192000, 8000, 16000, 22050, 24000, 32000, 44100, 48000, 96000]

  function GetSampleRate(s: Stream, p: nat, code: nat, si: StreamInfo): (r: Parsed<nat>)
    requires p <= |s.bits|
    ensures r.Ok? ==> p <= r.pos <= |s.bits| && (r.pos - p) % 8 == 0
  {
    if code == 0 then Ok(si.sampleRate, p)
    else if code <= 11 then Ok(SAMPLE_RATES[code], p)
    else if code == 12 then
      var (v, q) :- GetBits(s, p, 8);
      Ok(v * 1000, q)
    else if code == 13 then GetBits(s, p, 16)
    else if code == 14 then
      var (v, q) :- GetBits(s, p, 16);
      Ok(v * 10, q)
    else Bad(Unsupported)
  }

  /** The sample size of a 3-bit code, 0 when it is reserved. */
  function DepthOf(code: nat, si: StreamInfo): nat
  {
    if code == 0 then si.bitDepth else if code == 1 then 8 else if code == 2 then 12 else if code == 4 then 16
    else if code == 5 then 20 else if code == 6 then 24 else if code == 7 then 32 else 0
  }

  /** A code with the width and value of its explicit field. */
  datatype Coded = Coded(code: nat, extN: nat, extV: nat)

  function SampleRateCode(sr: nat): Coded
  {
    if sr == 88200 then Coded(1, 0, 0) else if sr == 176400 then Coded(2, 0, 0)
    else if sr == 192000 then Coded(3, 0, 0) else if sr == 8000 then Coded(4, 0, 0)
    else if sr == 16000 then Coded(5, 0, 0) else if sr == 22050 then Coded(6, 0, 0)
    else if sr == 24000 then Coded(7, 0, 0) else if sr == 32000 then Coded(8, 0, 0)
    else if sr == 44100 then Coded(9, 0, 0) else if sr == 48000 then Coded(10, 0, 0)
    else if sr == 96000 then Coded(11, 0, 0)
    else if sr % 1000 == 0 && sr / 1000 <= 0xFF then Coded(12, 8, sr / 1000)
    else if sr <= 0xFFFF then Coded(13, 16, sr)
    else if sr % 10 == 0 && sr / 10 <= 0xFFFF then Coded(14, 16, sr / 10)
    else Coded(0, 0, 0)
  }

  function BitDepthCode(bps: nat): nat
  {
    if bps == 8 then 1 else if bps == 12 then 2 else if bps == 16 then 4 else if bps == 20 then 5
    else if bps == 24 then 6 else if bps == 32 then 7 else 0
  }

  function BlockSizeCode(bs: nat): Coded
    requires bs >= 1
  {
    if bs == 192 then Coded(1, 0, 0) else if bs == 576 then Coded(2, 0, 0)
    else if bs == 1152 then Coded(3, 0, 0) else if bs == 2304 then Coded(4, 0, 0)
    else if bs == 4608 then Coded(5, 0, 0) else if bs == 256 then Coded(8, 0, 0)
    else if bs == 512 then Coded(9, 0, 0) else if bs == 1024 then Coded(10, 0, 0)
    else if bs == 2048 then Coded(11, 0, 0) else if bs == 4096 then Coded(12, 0, 0)
    else if bs == 8192 then Coded(13, 0, 0) else if bs == 16384 then Coded(14, 0, 0)
    else if bs == 32768 then Coded(15, 0, 0)
    else if bs - 1 <= 0xFF then Coded(6, 8, bs - 1) else Coded(7, 16, bs - 1)
  }

  lemma {:induction false} BlockSizeFields(bs: nat)
    requires 1 <= bs <= 65536
    ensures var c := BlockSizeCode(bs);
      && 1 <= c.code < 16 && (c.code == 6 ==> c.extN == 8 && c.extV == bs - 1 < 0x100)
      && (c.code == 7 ==> c.extN == 16 && c.extV == bs - 1 < 0x1_0000)
      && (c.code != 6 && c.code != 7 ==> c.extN == 0 && TabledSize(c.code) == bs)
  {
    assert Pow2(0) == 1 && Pow2(1) == 2 && Pow2(2) == 4 && Pow2(3) == 8 && Pow2(4) == 16 && Pow2(5) == 32
      && Pow2(6) == 64 && Pow2(7) == 128;
  }

  lemma {:induction false} BlockSizeRoundTrip(s: Stream, p: nat, bs: nat)
    requires 1 <= bs <= 65536
    requires var c := BlockSizeCode(bs); At(s, p, Bits(c.extV, c.extN))
    ensures var c := BlockSizeCode(bs); c.code < 16 && GetBlockSize(s, p, c.code) == Ok(bs, p + c.extN)
  {
    hide BlockSizeCode, TabledSize, Bits, At, GetBits, Pow2;
    BlockSizeFields(bs);
    var c := BlockSizeCode(bs);
    assert Pow2(8) == 0x100 && Pow2(16) == 0x1_0000 by { Pow2Values(); }
    if c.code == 6 || c.code == 7 { ReadBack(s, p, c.extV, c.extN); } else { AtBound(s, p, Bits(c.extV, c.extN)); }
  }

  lemma {:induction false} SampleRateFields(sr: nat)
    requires sr >= 1
    ensures var c := SampleRateCode(sr);
      && c.code <= 14 && (c.code == 0 ==> c.extN == 0)
        && (1 <= c.code <= 11 ==> c.extN == 0 && SAMPLE_RATES[c.code] == sr)
      && (c.code == 12 ==> c.extN == 8 && c.extV * 1000 == sr && c.extV < 0x100)
      && (c.code == 13 ==> c.extN == 16 && c.extV == sr < 0x1_0000)
      && (c.code == 14 ==> c.extN == 16 && c.extV * 10 == sr && c.extV < 0x1_0000)
  {
  }

  /** Every rate is recovered, through the STREAMINFO where it has no code of its own. */
  lemma {:induction false} SampleRateRoundTrip(s: Stream, p: nat, sr: nat, si: StreamInfo)
    requires 1 <= sr && sr == si.sampleRate
    requires var c := SampleRateCode(sr); At(s, p, Bits(c.extV, c.extN))
    ensures var c := SampleRateCode(sr); c.code < 16 && GetSampleRate(s, p, c.code, si) == Ok(sr, p + c.extN)
  {
    hide SampleRateCode, Bits, At, GetBits, Pow2;
    SampleRateFields(sr);
    var c := SampleRateCode(sr);
    assert Pow2(8) == 0x100 && Pow2(16) == 0x1_0000 by { Pow2Values(); }
    if c.extN > 0 { ReadBack(s, p, c.extV, c.extN); } else { AtBound(s, p, Bits(c.extV, c.extN)); }
  }

  lemma {:induction false} DepthRoundTrip(bps: nat, si: StreamInfo)
    requires bps == si.bitDepth
    ensures BitDepthCode(bps) < 8 && DepthOf(BitDepthCode(bps), si) == bps
  {
  }

  // ---- the header ----

  function GetSizes(s: Stream, p: nat): (r: Parsed<(bool, nat, nat)>)
    requires p <= |s.bits|
    ensures r.Ok? ==> r.pos == p + 10 <= |s.bits| && r.v.1 < 16 && r.v.2 < 16
  {
    Pow2Values();
    var (zero, p1) :- GetBits(s, p, 1);
    if zero != 0 then Bad(Unsupported) else
      var (strategy, p2) :- GetBits(s, p1, 1);
      var (bs, p3) :- GetBits(s, p2, 4);
      var (sr, p4) :- GetBits(s, p3, 4);
      Ok((strategy == 1, bs, sr), p4)
  }

  function GetLayout(s: Stream, p: nat): (r: Parsed<(nat, nat)>)
    requires p <= |s.bits|
    ensures r.Ok? ==> r.pos == p + 8 <= |s.bits| && r.v.0 < 11 && r.v.1 < 8
  {
    Pow2Values();
    var (ch, p1) :- GetBits(s, p, 4);
    var (depth, p2) :- GetBits(s, p1, 3);
    var (last, p3) :- GetBits(s, p2, 1);
    if last != 0 || ch >= 11 then Bad(Unsupported) else Ok((ch, depth), p3)
  }

  function GetCodes(s: Stream, p: nat): (r: Parsed<Codes>)
    requires p <= |s.bits|
    ensures r.Ok? ==> r.pos == p + 18 <= |s.bits|
    ensures r.Ok? ==> r.v.blockSize < 16 && r.v.sampleRate < 16 && r.v.channels < 11 && r.v.depth < 8
  {
    var (a, p1) :- GetSizes(s, p);
    var (b, p2) :- GetLayout(s, p1);
    Ok(Codes(a.0, a.1, a.2, b.0, b.1), p2)
  }

  /** The fields of the header, without the sync code and the checksum. */
  function GetFields(s: Stream, p: nat, si: StreamInfo): (r: Parsed<Header>)
    requires p <= |s.bits|
    ensures r.Ok? ==> p <= r.pos <= |s.bits|
  {
    var (c, p1) :- GetCodes(s, p);
    var (number, p2) :- GetCoded(s, p1);
    GetExplicit(s, p2, c, number, si)
  }

  /** The fields that may be spelled out after the coded number. */
  function GetExplicit(s: Stream, p: nat, c: Codes, number: nat, si: StreamInfo): (r: Parsed<Header>)
    requires p <= |s.bits| && c.blockSize < 16
    ensures r.Ok? ==> p <= r.pos <= |s.bits|
  {
    var (bs, p1) :- GetBlockSize(s, p, c.blockSize);
    var (sr, p2) :- GetSampleRate(s, p1, c.sampleRate, si);
    if c.depth == 3 then Bad(Unsupported)
    else Ok(Header(c.variable, bs, sr, c.channels, DepthOf(c.depth, si), number), p2)
  }

  lemma {:induction false} FieldsFacts(s: Stream, p: nat, si: StreamInfo)
    requires p <= |s.bits| && GetFields(s, p, si).Ok?
    ensures var r := GetFields(s, p, si);
      && p + 18 <= r.pos <= |s.bits| && (r.pos - p - 18) % 8 == 0
      && r.v.chCode <= 10 && 1 <= r.v.blockSize <= 65536 && (1 <= si.bitDepth <= 32 ==> 1 <= r.v.bps <= 32)
  {
    hide GetCodes, GetCoded, GetBlockSize, GetSampleRate;
  }

  /** The stored CRC-8 must be that of every header byte before it. */
  function GetChecked(s: Stream, p: nat, si: StreamInfo): (r: Parsed<Header>)
    requires p + 14 <= |s.bits|
    ensures r.Ok? ==> p <= r.pos <= |s.bits|
  {
    var r := GetFields(s, p + 14, si);
    if r.Bad? then r else MatchSum8(s, p, r.pos, r.v)
  }

  function MatchSum8(s: Stream, p: nat, q: nat, hdr: Header): (r: Parsed<Header>)
    requires p <= q <= |s.bits|
    ensures r.Ok? ==> r.pos == q + 8 <= |s.bits| && r.v == hdr
  {
    var (stored, end) :- GetBits(s, q, 8);
    if stored != Checksum8(BytesOf(s.bits[p..q])) then Bad(CrcMismatch) else Ok(hdr, end)
  }

  function GetHeader(s: Stream, p: nat, si: StreamInfo): (r: Parsed<Header>)
    requires p <= |s.bits|
    ensures r.Ok? ==> p <= r.pos <= |s.bits|
  {
    var (sync, q) :- GetBits(s, p, 14);
    if sync != SYNC_CODE then Bad(Unsupported) else Committed(GetChecked(s, p, si))
  }

  lemma {:induction false} HeaderFacts(s: Stream, p: nat, si: StreamInfo)
    requires p <= |s.bits| && p % 8 == 0 && GetHeader(s, p, si).Ok?
    ensures var r := GetHeader(s, p, si);
      && p < r.pos <= |s.bits| && r.pos % 8 == 0
      && r.v.chCode <= 10 && 1 <= r.v.blockSize <= 65536 && (1 <= si.bitDepth <= 32 ==> 1 <= r.v.bps <= 32)
  {
    hide GetFields, BytesOf, Checksum8;
    FieldsFacts(s, p + 14, si);
  }

  function EmitCodes(h: Header): (s: seq<bool>)
    requires h.blockSize >= 1
    ensures |s| == 18
  {
    Bits(0, 1) + (Bits(if h.variable then 1 else 0, 1) + (Bits(BlockSizeCode(h.blockSize).code, 4)
      + (Bits(SampleRateCode(h.sampleRate).code, 4)
      + (Bits(h.chCode, 4) + (Bits(BitDepthCode(h.bps), 3) + Bits(0, 1))))))
  }

  function EmitExt(c: Coded): (s: seq<bool>)
    ensures |s| == c.extN
  {
    Bits(c.extV, c.extN)
  }

  lemma {:induction false} CodeWidths(bs: nat, sr: nat)
    requires bs >= 1
    ensures BlockSizeCode(bs).extN % 8 == 0 && SampleRateCode(sr).extN % 8 == 0
    ensures BlockSizeCode(bs).extN <= 16 && SampleRateCode(sr).extN <= 16
  {
  }

  function EmitFields(h: Header): (s: seq<bool>)
    requires h.blockSize >= 1
  {
    Bits(SYNC_CODE, 14) + (EmitCodes(h) + (EmitCoded(h.number)
      + (EmitExt(BlockSizeCode(h.blockSize)) + EmitExt(SampleRateCode(h.sampleRate)))))
  }

  lemma {:induction false} EmitFieldsAligned(h: Header)
    requires h.blockSize >= 1
    ensures |EmitFields(h)| % 8 == 0
  {
    hide Bits, EmitCodes, EmitCoded, EmitExt, BlockSizeCode, SampleRateCode;
    CodeWidths(h.blockSize, h.sampleRate);
  }

  /** A header; the encoder writes only fixed-blocksize ones. */
  function EmitHeader(h: Header): (s: seq<bool>)
    requires h.blockSize >= 1
  {
    EmitFields(h) + Bits(Checksum8(BytesOf(EmitFields(h))), 8)
  }

  lemma {:induction false} CodesRoundTrip(s: Stream, p: nat, h: Header)
    requires 1 <= h.blockSize <= 65536 && 1 <= h.sampleRate && h.chCode <= 10 && At(s, p, EmitCodes(h))
    ensures GetCodes(s, p) ==
      Ok(Codes(h.variable, BlockSizeCode(h.blockSize).code, SampleRateCode(h.sampleRate).code, h.chCode,
      BitDepthCode(h.bps)), p + 18)
  {
    Pow2Values();
    hide At, GetBits, Bits, Pow2;
    var bs, sr, bd := BlockSizeCode(h.blockSize).code, SampleRateCode(h.sampleRate).code, BitDepthCode(h.bps);
    var v := if h.variable then 1 else 0;
    var t5 := Bits(bd, 3) + Bits(0, 1);
    var t4 := Bits(h.chCode, 4) + t5;
    var t3 := Bits(sr, 4) + t4;
    var t2 := Bits(bs, 4) + t3;
    AtCat(s, p, Bits(0, 1), Bits(v, 1) + t2);
    AtCat(s, p + 1, Bits(v, 1), t2);
    AtCat(s, p + 2, Bits(bs, 4), t3);
    AtCat(s, p + 6, Bits(sr, 4), t4);
    AtCat(s, p + 10, Bits(h.chCode, 4), t5);
    AtCat(s, p + 14, Bits(bd, 3), Bits(0, 1));
    ReadBack(s, p, 0, 1);
    ReadBack(s, p + 1, v, 1);
    ReadBack(s, p + 2, bs, 4);
    ReadBack(s, p + 6, sr, 4);
    ReadBack(s, p + 10, h.chCode, 4);
    ReadBack(s, p + 14, bd, 3);
    ReadBack(s, p + 17, 0, 1);
  }

  predicate Writable(h: Header, si: StreamInfo)
  {
    && 1 <= h.blockSize <= 65536 && 1 <= h.sampleRate == si.sampleRate
    && h.chCode <= 10 && h.bps == si.bitDepth && h.number < 0x10_0000_0000
  }

  lemma {:induction false} FieldsRoundTrip(s: Stream, p: nat, h: Header, si: StreamInfo)
    requires Writable(h, si) && At(s, p, EmitFields(h))
    ensures At(s, p, Bits(SYNC_CODE, 14)) && GetFields(s, p + 14, si) == Ok(h, p + |EmitFields(h)|)
  {
    hide At, GetBits, Bits, GetCodes, GetCoded, GetBlockSize, GetSampleRate, EmitCodes, EmitCoded, BlockSizeCode,
      SampleRateCode, BitDepthCode, DepthOf;
    var bs, sr := BlockSizeCode(h.blockSize), SampleRateCode(h.sampleRate);
    var ext := EmitExt(bs) + EmitExt(sr);
    var n := |EmitCoded(h.number)|;
    AtCat(s, p, Bits(SYNC_CODE, 14), EmitCodes(h) + (EmitCoded(h.number) + ext));
    AtCat(s, p + 14, EmitCodes(h), EmitCoded(h.number) + ext);
    AtCat(s, p + 32, EmitCoded(h.number), ext);
    AtCat(s, p + 32 + n, EmitExt(bs), EmitExt(sr));
    CodesRoundTrip(s, p + 14, h);
    CodedRoundTrip(s, p + 32, h.number);
    BlockSizeRoundTrip(s, p + 32 + n, h.blockSize);
    SampleRateRoundTrip(s, p + 32 + n + bs.extN, h.sampleRate, si);
    DepthRoundTrip(h.bps, si);
    DepthCodeUsed(h.bps);
  }

  lemma {:induction false} DepthCodeUsed(bps: nat)
    ensures BitDepthCode(bps) != 3
  {
  }

  lemma {:induction false} AtIs(s: Stream, p: nat, w: seq<bool>)
    requires At(s, p, w)
    ensures p + |w| <= |s.bits| && s.bits[p..p + |w|] == w
  {
  }

  /** A written header is read back with every field, and its stored CRC-8 is the one the
      reader computes. */
  lemma {:induction false} HeaderRoundTrip(s: Stream, p: nat, h: Header, si: StreamInfo)
    requires Writable(h, si) && At(s, p, EmitHeader(h))
    ensures GetHeader(s, p, si) == Ok(h, p + |EmitHeader(h)|)
  {
    hide GetBits, Bits, GetFields, EmitFields, BytesOf, Checksum8, At, Pow2;
    Pow2Values();
    Pow2Add(8, 6);
    var f := EmitFields(h);
    var crc := Checksum8(BytesOf(f));
    ChecksumBounds(BytesOf(f));
    AtCat(s, p, f, Bits(crc, 8));
    AtIs(s, p, f);
    FieldsRoundTrip(s, p, h, si);
    ReadBack(s, p, SYNC_CODE, 14);
    ReadBack(s, p + |f|, crc, 8);
  }
}
