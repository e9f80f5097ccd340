/** The checksums as what they are meant to be: remainders of long division over GF(2), most
    significant bit first (internal/crc/crc.go). */
module CrcDivision {
  import opened Words
  import opened Crc

  /** x^8 + x^2 + x + 1, from the highest power down. */
  const HEADER_GENERATOR: seq<bool> := [true, false, false, false, false, false, true, true, true]

  /** x^16 + x^15 + x^2 + 1. */
  const FRAME_GENERATOR: seq<bool> := [
    true, true, false, false, false, false, false, false, false, false, false, false, false, false, true, false, true]

  /** The sum of two polynomials. */
  function Added(a: seq<bool>, b: seq<bool>): (s: seq<bool>)
    requires |a| == |b|
    ensures |s| == |a|
  {
    seq(|a|, i requires 0 <= i < |a| => a[i] != b[i])
  }

  /** One step of the division: where the highest power is present the divisor is subtracted
      below it, and then that power is gone. */
  function Step(m: seq<bool>, g: seq<bool>): (r: seq<bool>)
    requires 1 <= |g| <= |m|
    ensures |r| == |m| - 1
  {
    if m[0] then Added(m[..|g|], g)[1..] + m[|g|..] else m[1..]
  }

  /** The remainder of m by g. */
  function Remainder(m: seq<bool>, g: seq<bool>): (r: seq<bool>)
    requires 1 <= |g| <= |m| + 1
    ensures |r| == |g| - 1
    decreases |m|
  {
    if |m| < |g| then m else Remainder(Step(m, g), g)
  }

  // ---- what division keeps ----

  /** Dividing the front first changes nothing. */
  lemma {:induction false} FrontFirst(x: seq<bool>, y: seq<bool>, g: seq<bool>)
    requires 1 <= |g| <= |x| + 1
    ensures Remainder(x + y, g) == Remainder(Remainder(x, g) + y, g)
    decreases |x|
  {
    if |x| >= |g| {
      assert Step(x + y, g) == Step(x, g) + y;
      FrontFirst(Step(x, g), y, g);
    }
  }

  lemma {:induction false} StepLinear(x: seq<bool>, y: seq<bool>, g: seq<bool>)
    requires 1 <= |g| <= |x| == |y|
    ensures Step(Added(x, y), g) == Added(Step(x, g), Step(y, g))
  {
    hide Added, Step;
    var z := Added(x, y);
    forall i | 0 <= i < |x| - 1 ensures Step(z, g)[i] == Added(Step(x, g), Step(y, g))[i] {
      AddedAt(x, y, i + 1);
      AddedAt(x, y, 0);
      StepAt(x, g, i);
      StepAt(y, g, i);
      StepAt(z, g, i);
      AddedAt(Step(x, g), Step(y, g), i);
    }
  }

  lemma {:induction false} AddedAt(x: seq<bool>, y: seq<bool>, i: nat)
    requires i < |x| == |y|
    ensures Added(x, y)[i] == (x[i] != y[i])
  {
  }

  lemma {:induction false} StepAt(m: seq<bool>, g: seq<bool>, i: nat)
    requires 1 <= |g| <= |m| && i < |m| - 1
    ensures Step(m, g)[i] == (m[i + 1] != (m[0] && i + 1 < |g| && g[i + 1]))
  {
    if m[0] {
      var front := Added(m[..|g|], g);
      if i + 1 < |g| {
        assert front[1..][i] == front[i + 1];
      } else {
        assert (front[1..] + m[|g|..])[i] == m[|g|..][i + 1 - |g|];
      }
    }
  }

  /** The remainder of a sum is the sum of the remainders. */
  lemma {:induction false} Linear(x: seq<bool>, y: seq<bool>, g: seq<bool>)
    requires 1 <= |g| <= |x| + 1 && |x| == |y|
    ensures Remainder(Added(x, y), g) == Added(Remainder(x, g), Remainder(y, g))
    decreases |x|
  {
    hide Step, Added;
    if |x| >= |g| {
      StepLinear(x, y, g);
      Linear(Step(x, g), Step(y, g), g);
    }
  }

  /** Leading zeros do not matter. */
  lemma {:induction false} LeadingZeros(k: nat, y: seq<bool>, g: seq<bool>)
    requires 1 <= |g| <= |y| + 1
    ensures Remainder(Zeros(k) + y, g) == Remainder(y, g)
  {
    hide Remainder;
    if k == 0 {
      assert Zeros(0) + y == y;
    } else {
      LeadingZeros(k - 1, y, g);
      ZeroStep(k, y, g);
    }
  }

  lemma {:induction false} ZeroStep(k: nat, y: seq<bool>, g: seq<bool>)
    requires 1 <= |g| <= |y| + 1 && k > 0
    ensures Remainder(Zeros(k) + y, g) == Remainder(Zeros(k - 1) + y, g)
  {
    assert (Zeros(k) + y)[1..] == Zeros(k - 1) + y;
  }

  // ---- the register ----

  lemma {:induction false} BitsXor(a: nat, b: nat, n: nat)
    ensures Bits(Xor(a, b), n) == Added(Bits(a, n), Bits(b, n))
  {
    hide Xor;
    if n > 0 {
      XorHalf(a, b);
      BitsXor(a / 2, b / 2, n - 1);
    }
  }

  /** The register after one shift. */
  function Next(v: nat, d: nat, poly: nat): nat
    requires d > 0
  {
    if v >= Pow2(d - 1) then Xor((2 * v) % Pow2(d), poly) else 2 * v
  }

  lemma {:induction false} NextBound(v: nat, d: nat, poly: nat)
    requires d > 0 && v < Pow2(d) && poly < Pow2(d)
    ensures Next(v, d, poly) < Pow2(d)
  {
    hide Xor;
    XorBound((2 * v) % Pow2(d), poly, d);
  }

  /** A register of d bits with a zero behind it makes one step of the division. */
  lemma {:induction false} RegisterStep(v: nat, d: nat, poly: nat, g: seq<bool>, rest: seq<bool>)
    requires d > 0 && v < Pow2(d) && g == [true] + Bits(poly, d)
    ensures Step(Bits(v, d) + ([false] + rest), g) == Bits(Next(v, d, poly), d) + rest
  {
    hide Xor, Pow2, Bits;
    var m, twice := Bits(v, d) + ([false] + rest), Bits((2 * v) % Pow2(d), d);
    TopIs(v, d);
    TwiceBits(v, d);
    assert m[1..d + 1] == twice && m[d + 1..] == rest && m[1..] == m[1..d + 1] + m[d + 1..];
    if v >= Pow2(d - 1) {
      BitsXor((2 * v) % Pow2(d), poly, d);
      assert Added(m[..d + 1], g)[1..] == Added(twice, Bits(poly, d));
    }
  }

  lemma {:induction false} TopIs(v: nat, d: nat)
    requires d > 0 && v < Pow2(d)
    ensures Bits(v, d)[0] <==> v >= Pow2(d - 1)
    ensures v < Pow2(d - 1) ==> (2 * v) % Pow2(d) == 2 * v
  {
    TopBitIs(v, d);
    if v < Pow2(d - 1) { DivModUnique(0, 2 * v, Pow2(d)); }
  }

  lemma {:induction false} TopBitIs(v: nat, d: nat)
    requires d > 0 && v < Pow2(d)
    ensures Bits(v, d)[0] <==> v >= Pow2(d - 1)
  {
    if d > 1 {
      TopBitIs(v / 2, d - 1);
      assert Bits(v, d)[0] == Bits(v / 2, d - 1)[0];
    }
  }

  lemma {:induction false} TwiceBits(v: nat, d: nat)
    requires d > 0
    ensures Bits((2 * v) % Pow2(d), d) == Bits(v, d)[1..] + [false]
  {
    var w := 2 * v;
    ShrLowAre(w, d);
    BitsLow(w, d);
    BitsCat(v, 1, d - 1);
    assert 1 + (d - 1) == d;
    assert Bits(w, d) == Bits(w / 2, d - 1) + [w % 2 == 1];
  }

  lemma {:induction false} Table8Divides(c: nat, k: nat)
    requires c < 0x100
    ensures Table8(c, k) < 0x100 && Bits(Table8(c, k), 8) == Remainder(Bits(c, 8) + Zeros(k), HEADER_GENERATOR)
    decreases k
  {
    hide Bits, Xor, Remainder;
    HeaderGeneratorBits();
    Short(Bits(c, 8), HEADER_GENERATOR);
    if k == 0 {
      assert Bits(c, 8) + Zeros(0) == Bits(c, 8);
    } else {
      Power8();
      Table8Step(c, k);
      NextBound(c, 8, 0x07);
      Table8Divides(Next(c, 8, 0x07), k - 1);
      Long(Bits(c, 8) + Zeros(k), HEADER_GENERATOR);
      assert Zeros(k) == [false] + Zeros(k - 1);
      RegisterStep(c, 8, 0x07, HEADER_GENERATOR, Zeros(k - 1));
    }
  }

  lemma {:induction false} Table8Step(c: nat, k: nat)
    requires k > 0
    ensures Table8(c, k) == Table8(Next(c, 8, 0x07), k - 1)
  {
    Power8();
  }

  lemma {:induction false} Table16Divides(c: nat, k: nat)
    requires c < 0x1_0000
    ensures Table16(c, k) < 0x1_0000 && Bits(Table16(c, k), 16) == Remainder(Bits(c, 16) + Zeros(k), FRAME_GENERATOR)
    decreases k
  {
    hide Bits, Xor, Remainder;
    FrameGeneratorBits();
    Short(Bits(c, 16), FRAME_GENERATOR);
    if k == 0 {
      assert Bits(c, 16) + Zeros(0) == Bits(c, 16);
    } else {
      Power8();
      Table16Step(c, k);
      NextBound(c, 16, 0x8005);
      Table16Divides(Next(c, 16, 0x8005), k - 1);
      Long(Bits(c, 16) + Zeros(k), FRAME_GENERATOR);
      assert Zeros(k) == [false] + Zeros(k - 1);
      RegisterStep(c, 16, 0x8005, FRAME_GENERATOR, Zeros(k - 1));
    }
  }

  lemma {:induction false} Table16Step(c: nat, k: nat)
    requires k > 0
    ensures Table16(c, k) == Table16(Next(c, 16, 0x8005), k - 1)
  {
    Power8();
  }

  lemma {:induction false} Power8()
    ensures Pow2(7) == 0x80 && Pow2(8) == 0x100 && Pow2(15) == 0x8000 && Pow2(16) == 0x1_0000
  {
    Pow2Values();
  }

  lemma {:induction false} Short(m: seq<bool>, g: seq<bool>)
    requires |g| == |m| + 1
    ensures Remainder(m, g) == m
  {
  }

  lemma {:induction false} Long(m: seq<bool>, g: seq<bool>)
    requires 1 <= |g| <= |m|
    ensures Remainder(m, g) == Remainder(Step(m, g), g)
  {
  }

  lemma {:induction false} BitsSnoc(v: nat, n: nat)
    ensures Bits(v, n + 1) == Bits(v / 2, n) + [v % 2 == 1]
  {
  }

  /** The bits of a small number, for generators. */
  lemma {:induction false} FourBits(v: nat)
    requires v < 16
    ensures Bits(v, 4) == [v >= 8, v % 8 >= 4, v % 4 >= 2, v % 2 == 1]
  {
    hide Bits;
    BitsSnoc(v, 3);
    BitsSnoc(v / 2, 2);
    BitsSnoc(v / 2 / 2, 1);
    BitsSnoc(v / 2 / 2 / 2, 0);
  }

  /** The bits of two bytes, four at a time. */
  lemma {:induction false} ByteOf(hi: nat, lo: nat)
    requires hi < 16 && lo < 16
    ensures Bits(hi * 16 + lo, 8) ==
      [hi >= 8, hi % 8 >= 4, hi % 4 >= 2, hi % 2 == 1, lo >= 8, lo % 8 >= 4, lo % 4 >= 2, lo % 2 == 1]
  {
    hide Bits, Pow2;
    Pow2Values();
    BitsJoin(hi, 4, lo, 4);
    FourBits(hi);
    FourBits(lo);
  }

  lemma {:induction false} HeaderGeneratorBits()
    ensures HEADER_GENERATOR == [true] + Bits(0x07, 8)
  {
    hide Bits;
    ByteOf(0, 7);
  }

  lemma {:induction false} FrameGeneratorBits()
    ensures FRAME_GENERATOR == [true] + Bits(0x8005, 16)
  {
    hide Bits, Pow2;
    Pow2Values();
    ByteOf(8, 0);
    ByteOf(0, 5);
    BitsJoin(0x80, 8, 0x05, 8);
  }

  // ---- one more byte ----

  /** One more byte behind a message with a known remainder. */
  lemma {:induction false} MoreBits(m: seq<bool>, b: seq<bool>, g: seq<bool>)
    requires |g| >= 1
    ensures var z := Zeros(|g| - 1);
      Remainder(m + b + z, g) == Added(Remainder(Remainder(m + z, g) + Zeros(|b|), g), Remainder(b + z, g))
  {
    hide Remainder, Added;
    var z, e := Zeros(|g| - 1), Zeros(|b|);
    ZerosCat(|g| - 1, |b|);
    ZerosCat(|b|, |g| - 1);
    assert z + e == e + z;
    Overlay(m, b, z);
    assert m + e + z == m + z + e;
    Linear(m + z + e, Zeros(|m|) + (b + z), g);
    FrontFirst(m + z, e, g);
    LeadingZeros(|m|, b + z, g);
  }

  lemma {:induction false} Overlay(m: seq<bool>, b: seq<bool>, z: seq<bool>)
    requires z == Zeros(|z|)
    ensures m + b + z == Added(m + Zeros(|b|) + z, Zeros(|m|) + (b + z))
  {
  }

  /** The CRC-8 is the remainder by its generator of the bytes with 8 zero bits behind them. */
  lemma {:induction false} HeaderSumIsRemainder(p: seq<byte>)
    ensures Bits(Checksum8(p), 8) == Remainder(ByteBits(p) + Zeros(8), HEADER_GENERATOR)
  {
    hide Remainder, Added, Bits, ByteBits, Update8;
    if p == [] {
      EmptyMessage(8, HEADER_GENERATOR);
    } else {
      var q, b := p[..|p| - 1], p[|p| - 1];
      HeaderSumIsRemainder(q);
      ChecksumBounds(q);
      LastByteBits(p);
      MoreBits(ByteBits(q), Bits(b, 8), HEADER_GENERATOR);
      Update8Is(Checksum8(q), b);
    }
  }

  lemma {:induction false} EmptyMessage(d: nat, g: seq<bool>)
    requires |g| == d + 1
    ensures Bits(0, d) == Remainder(ByteBits([]) + Zeros(d), g)
  {
    BitsZero(d);
    assert [] + Zeros(d) == Zeros(d);
  }

  lemma {:induction false} LastByteBits(p: seq<byte>)
    requires p != []
    ensures ByteBits(p) == ByteBits(p[..|p| - 1]) + Bits(p[|p| - 1], 8)
  {
  }

  lemma {:induction false} Update8Is(c: nat, b: byte)
    requires c < 0x100
    ensures Bits(Update8(c, b), 8) == Added(Remainder(Bits(c, 8) + Zeros(8), HEADER_GENERATOR),
      Remainder(Bits(b, 8) + Zeros(8), HEADER_GENERATOR))
  {
    hide Remainder, Added, Bits, Xor;
    Power8();
    XorBound(c, b, 8);
    Table8Divides(Xor(c, b), 8);
    BitsXor(c, b, 8);
    Linear(Bits(c, 8) + Zeros(8), Bits(b, 8) + Zeros(8), HEADER_GENERATOR);
    AddedBehind(Bits(c, 8), Bits(b, 8), 8);
  }

  lemma {:induction false} AddedBehind(a: seq<bool>, b: seq<bool>, k: nat)
    requires |a| == |b|
    ensures Added(a + Zeros(k), b + Zeros(k)) == Added(a, b) + Zeros(k)
  {
  }

  /** The CRC-16 is the remainder by its generator of the bytes with 16 zero bits behind them. */
  lemma {:induction false} FrameSumIsRemainder(p: seq<byte>)
    ensures Bits(Checksum16(p), 16) == Remainder(ByteBits(p) + Zeros(16), FRAME_GENERATOR)
  {
    hide Remainder, Added, Bits, ByteBits, Update16;
    if p == [] {
      EmptyMessage(16, FRAME_GENERATOR);
    } else {
      var q, b := p[..|p| - 1], p[|p| - 1];
      FrameSumIsRemainder(q);
      ChecksumBounds(q);
      LastByteBits(p);
      MoreBits(ByteBits(q), Bits(b, 8), FRAME_GENERATOR);
      Update16Is(Checksum16(q), b);
    }
  }

  lemma {:induction false} Update16Is(c: nat, b: byte)
    requires c < 0x1_0000
    ensures Bits(Update16(c, b), 16) == Added(Remainder(Bits(c, 16) + Zeros(8), FRAME_GENERATOR),
      Remainder(Bits(b, 8) + Zeros(16), FRAME_GENERATOR))
  {
    hide Remainder, Added, Bits, Xor, Table16;
    Power8();
    var h, l := c / 0x100, c % 0x100;
    var x, low := Xor(h, b), Bits(l, 8) + Zeros(8);
    XorBound(h, b, 8);
    Table16Divides(x * 0x100, 8);
    XorBound((c * 0x100) % 0x1_0000, Table16(x * 0x100, 8), 16);
    BitsXor((c * 0x100) % 0x1_0000, Table16(x * 0x100, 8), 16);
    LowInFront(c);
    HighInFront(x);
    SplitRegister(c);
    BitsXor(h, b, 8);
    AddedBehind(Bits(h, 8), Bits(b, 8), 16);
    Linear(Bits(h, 8) + Zeros(16), Bits(b, 8) + Zeros(16), FRAME_GENERATOR);
    Rearrange(low, Remainder(Bits(h, 8) + Zeros(16), FRAME_GENERATOR),
      Remainder(Bits(b, 8) + Zeros(16), FRAME_GENERATOR));
  }

  lemma {:induction false} Rearrange(l: seq<bool>, h: seq<bool>, b: seq<bool>)
    requires |l| == |h| == |b|
    ensures Added(l, Added(h, b)) == Added(Added(h, l), b)
  {
  }

  lemma {:induction false} LowInFront(c: nat)
    requires c < 0x1_0000
    ensures Bits((c * 0x100) % 0x1_0000, 16) == Bits(c % 0x100, 8) + Zeros(8)
  {
    hide Bits;
    Power8();
    var l := c % 0x100;
    assert (c * 0x100) % 0x1_0000 == l * 0x100;
    BitsJoin(l, 8, 0, 8);
    BitsZero(8);
  }

  lemma {:induction false} HighInFront(x: nat)
    requires x < 0x100
    ensures Bits(x * 0x100, 16) + Zeros(8) == Bits(x, 8) + Zeros(16)
  {
    hide Bits;
    Power8();
    BitsJoin(x, 8, 0, 8);
    BitsZero(8);
    ZerosCat(8, 8);
    assert Bits(x, 8) + Zeros(8) + Zeros(8) == Bits(x, 8) + (Zeros(8) + Zeros(8));
  }

  /** The low byte of the register is only moved by one more byte. */
  lemma {:induction false} SplitRegister(c: nat)
    requires c < 0x1_0000
    ensures Remainder(Bits(c, 16) + Zeros(8), FRAME_GENERATOR)
      == Added(Remainder(Bits(c / 0x100, 8) + Zeros(16), FRAME_GENERATOR), Bits(c % 0x100, 8) + Zeros(8))
  {
    hide Remainder, Added, Bits;
    Power8();
    var h, l := Bits(c / 0x100, 8), Bits(c % 0x100, 8);
    BitsJoin(c / 0x100, 8, c % 0x100, 8);
    Halves(h, l);
    Linear(h + Zeros(16), Zeros(8) + (l + Zeros(8)), FRAME_GENERATOR);
    LeadingZeros(8, l + Zeros(8), FRAME_GENERATOR);
    Short(l + Zeros(8), FRAME_GENERATOR);
  }

  lemma {:induction false} Halves(h: seq<bool>, l: seq<bool>)
    requires |h| == |l| == 8
    ensures h + l + Zeros(8) == Added(h + Zeros(16), Zeros(8) + (l + Zeros(8)))
  {
  }

  // ---- what that means ----

  /** A message followed by its remainder divides exactly. */
  lemma {:induction false} SealedDivides(m: seq<bool>, g: seq<bool>)
    requires |g| >= 1
    ensures Remainder(m + Remainder(m + Zeros(|g| - 1), g), g) == Zeros(|g| - 1)
  {
    hide Remainder, Added;
    var z := Zeros(|g| - 1);
    var r := Remainder(m + z, g);
    Sealing(m, r);
    Linear(m + z, Zeros(|m|) + r, g);
    LeadingZeros(|m|, r, g);
    Short(r, g);
    Twice(r);
  }

  lemma {:induction false} Sealing(m: seq<bool>, r: seq<bool>)
    ensures m + r == Added(m + Zeros(|r|), Zeros(|m|) + r)
  {
  }

  lemma {:induction false} Twice(r: seq<bool>)
    ensures Added(r, r) == Zeros(|r|)
  {
  }
}
