/** Machine words as natural numbers, and bit strings with the most significant bit
    first. Shifts are products and quotients of powers of two; a shift or a sum that
    the program lets wrap is written with the modulus of its word. */
module Words {
  type byte = x: int | 0 <= x < 256

  function Min(a: int, b: int): int { if a <= b then a else b }

  function Max(a: int, b: int): int { if a >= b then a else b }

  function Pow2(n: nat): (r: nat)
    ensures r > 0
  {
    if n == 0 then 1 else 2 * Pow2(n - 1)
  }

  lemma {:induction false} Pow2Add(a: nat, b: nat)
    ensures Pow2(a + b) == Pow2(a) * Pow2(b)
  {
    if a > 0 {
      Pow2Add(a - 1, b);
      assert Pow2(a + b) == 2 * Pow2(a - 1 + b);
    }
  }

  lemma {:induction false} Pow2Mono(a: nat, b: nat)
    requires a <= b
    ensures Pow2(a) <= Pow2(b)
    decreases b
  {
    if a < b { Pow2Mono(a, b - 1); }
  }

  lemma {:induction false} Pow2Values()
    ensures Pow2(0) == 1 && Pow2(1) == 2 && Pow2(2) == 4 && Pow2(3) == 8 && Pow2(4) == 16 && Pow2(5) == 32
    ensures Pow2(6) == 64 && Pow2(7) == 128 && Pow2(8) == 256
    ensures Pow2(16) == 0x1_0000 && Pow2(31) == 0x8000_0000 && Pow2(32) == 0x1_0000_0000
    ensures Pow2(63) == 0x8000_0000_0000_0000 && Pow2(64) == 0x1_0000_0000_0000_0000
  {
    assert Pow2(8) == 256;
    Pow2Add(8, 8);
    assert Pow2(15) == 0x8000 by { Pow2Add(7, 8); }
    Pow2Add(16, 15);
    Pow2Add(16, 16);
    Pow2Add(32, 31);
    Pow2Add(32, 32);
  }

  // ---- quotients and remainders ----

  lemma {:induction false} MulAtLeast(k: int, d: int)
    requires k >= 1 && d >= 0
    ensures k * d >= d
  {
  }

  lemma {:induction false} QuotUnique(q: int, r: int, h: int, l: int, d: int)
    requires q * d + r == h * d + l && 0 <= r < d && 0 <= l < d
    ensures q == h && r == l
  {
    assert (q - h) * d == q * d - h * d;
    if q > h { MulAtLeast(q - h, d); }
    if q < h {
      assert (h - q) * d == h * d - q * d;
      MulAtLeast(h - q, d);
    }
  }

  lemma {:induction false} DivModUnique(h: int, l: int, d: int)
    requires 0 <= l < d
    ensures (h * d + l) / d == h
    ensures (h * d + l) % d == l
  {
    var x := h * d + l;
    QuotUnique(x / d, x % d, h, l, d);
  }

  lemma {:induction false} QuotRem(v: int, d: int)
    requires d > 0
    ensures v == (v / d) * d + v % d
  {
  }

  lemma {:induction false} MulLt(h: nat, d: nat, e: nat, l: nat)
    requires h < e && l < d
    ensures h * d + l < e * d
  {
    assert (h + 1) * d <= e * d;
  }

  lemma {:induction false} TwiceProduct(q: int, p: int)
    ensures q * (2 * p) == 2 * (q * p)
  {
  }

  lemma {:induction false} MulAssoc(h: int, a: int, b: int)
    ensures h * (a * b) == (h * a) * b == h * (b * a)
  {
  }

  /** v >> n on unsigned words, one place at a time. */
  function Shr(v: nat, n: nat): nat
  {
    if n == 0 then v else Shr(v / 2, n - 1)
  }

  /** The low n bits of v as a number. */
  function Low(v: nat, n: nat): nat
  {
    if n == 0 then 0 else 2 * Low(v / 2, n - 1) + v % 2
  }

  lemma {:induction false} ShrLow(v: nat, n: nat)
    ensures v == Shr(v, n) * Pow2(n) + Low(v, n)
    ensures Low(v, n) < Pow2(n)
  {
    if n > 0 {
      ShrLow(v / 2, n - 1);
      TwiceProduct(Shr(v / 2, n - 1), Pow2(n - 1));
    }
  }

  /** Shr and Low are the quotient and the remainder. */
  lemma {:induction false} ShrLowAre(v: nat, n: nat)
    ensures Shr(v, n) == v / Pow2(n) && Low(v, n) == v % Pow2(n)
  {
    ShrLow(v, n);
    DivModUnique(Shr(v, n), Low(v, n), Pow2(n));
  }

  lemma {:induction false} ShrLowJoin(h: nat, l: nat, n: nat)
    requires l < Pow2(n)
    ensures Shr(h * Pow2(n) + l, n) == h && Low(h * Pow2(n) + l, n) == l
  {
    var v := h * Pow2(n) + l;
    ShrLow(v, n);
    QuotUnique(Shr(v, n), Low(v, n), h, l, Pow2(n));
  }

  lemma {:induction false} LowSmall(v: nat, n: nat)
    requires v < Pow2(n)
    ensures Low(v, n) == v && Shr(v, n) == 0
  {
    ShrLowJoin(0, v, n);
  }

  // ---- bit strings ----

  function Val(s: seq<bool>): nat
  {
    if s == [] then 0 else 2 * Val(s[..|s| - 1]) + if s[|s| - 1] then 1 else 0
  }

  /** The low n bits of v. */
  function Bits(v: nat, n: nat): (s: seq<bool>)
    ensures |s| == n
  {
    if n == 0 then [] else Bits(v / 2, n - 1) + [v % 2 == 1]
  }

  lemma {:induction false} ValBound(s: seq<bool>)
    ensures Val(s) < Pow2(|s|)
  {
    if s != [] { ValBound(s[..|s| - 1]); }
  }

  lemma {:induction false} ValCat(a: seq<bool>, b: seq<bool>)
    ensures Val(a + b) == Val(a) * Pow2(|b|) + Val(b)
  {
    if b == [] {
      assert a + b == a;
    } else {
      var c := b[..|b| - 1];
      ValCat(a, c);
      assert (a + b)[..|a + b| - 1] == a + c;
      assert Val(a) * Pow2(|b|) == 2 * (Val(a) * Pow2(|c|));
    }
  }

  lemma {:induction false} ValBits(v: nat, n: nat)
    ensures Val(Bits(v, n)) == Low(v, n)
  {
    if n > 0 {
      ValBits(v / 2, n - 1);
      assert Bits(v, n)[..n - 1] == Bits(v / 2, n - 1);
    }
  }

  lemma {:induction false} ValBitsSmall(v: nat, n: nat)
    requires v < Pow2(n)
    ensures Val(Bits(v, n)) == v
  {
    ValBits(v, n);
    LowSmall(v, n);
  }

  lemma {:induction false} BitsVal(s: seq<bool>)
    ensures Bits(Val(s), |s|) == s
  {
    if s != [] {
      BitsVal(s[..|s| - 1]);
      assert s == s[..|s| - 1] + [s[|s| - 1]];
    }
  }

  lemma {:induction false} BitsCat(v: nat, a: nat, b: nat)
    ensures Bits(v, a + b) == Bits(Shr(v, b), a) + Bits(v, b)
  {
    if b > 0 {
      BitsCat(v / 2, a, b - 1);
      var c := a + (b - 1);
      assert c == a + b - 1;
      assert Bits(v, a + b) == Bits(v / 2, c) + [v % 2 == 1];
      assert Bits(v, b) == Bits(v / 2, b - 1) + [v % 2 == 1];
    }
  }

  /** Only the low n bits matter. */
  lemma {:induction false} BitsLow(v: nat, n: nat)
    ensures Bits(Low(v, n), n) == Bits(v, n)
  {
    ValBits(v, n);
    BitsVal(Bits(v, n));
  }

  /** A value split at bit b is the concatenation of its parts. */
  lemma {:induction false} BitsJoin(h: nat, a: nat, l: nat, b: nat)
    requires l < Pow2(b)
    ensures Bits(h * Pow2(b) + l, a + b) == Bits(h, a) + Bits(l, b)
  {
    var v := h * Pow2(b) + l;
    BitsCat(v, a, b);
    ShrLowJoin(h, l, b);
    BitsLow(v, b);
  }

  function Zeros(n: nat): (s: seq<bool>)
    ensures |s| == n
  {
    seq(n, _ => false)
  }

  lemma {:induction false} BitsZero(n: nat)
    ensures Bits(0, n) == Zeros(n)
  {
    if n > 0 {
      BitsZero(n - 1);
      assert Zeros(n) == Zeros(n - 1) + [false];
    }
  }

  lemma {:induction false} ZerosCat(a: nat, b: nat)
    ensures Zeros(a) + Zeros(b) == Zeros(a + b)
  {
  }

  // ---- bytes ----

  function ByteBits(d: seq<byte>): (s: seq<bool>)
    ensures |s| == 8 * |d|
  {
    if d == [] then [] else ByteBits(d[..|d| - 1]) + Bits(d[|d| - 1], 8)
  }

  lemma {:induction false} CatAssoc(a: seq<bool>, b: seq<bool>, c: seq<bool>)
    ensures a + (b + c) == a + b + c
  {
  }

  lemma {:induction false} ByteBitsCat(a: seq<byte>, b: seq<byte>)
    ensures ByteBits(a + b) == ByteBits(a) + ByteBits(b)
  {
    hide Bits;
    if b == [] {
      assert a + b == a;
    } else {
      var c, last := b[..|b| - 1], Bits(b[|b| - 1], 8);
      ByteBitsCat(a, c);
      assert (a + b)[..|a + b| - 1] == a + c && (a + b)[|a + b| - 1] == b[|b| - 1];
      CatAssoc(ByteBits(a), ByteBits(c), last);
    }
  }

  lemma {:induction false} ByteBitsSlice(d: seq<byte>, i: nat, j: nat)
    requires i <= j <= |d|
    ensures ByteBits(d)[8 * i..8 * j] == ByteBits(d[i..j])
  {
    assert d == d[..i] + d[i..j] + d[j..];
    ByteBitsCat(d[..i] + d[i..j], d[j..]);
    ByteBitsCat(d[..i], d[i..j]);
  }

  lemma {:induction false} ByteBitsOne(b: byte)
    ensures ByteBits([b]) == Bits(b, 8)
  {
    assert [b][..0] == [];
    assert ByteBits([b]) == ByteBits([]) + Bits(b, 8);
  }

  /** The whole bytes of a bit string. */
  function BytesOf(s: seq<bool>): (d: seq<byte>)
    ensures |d| == |s| / 8
  {
    seq(|s| / 8, i requires 0 <= i < |s| / 8 => ByteAt(s, i))
  }

  function ByteAt(s: seq<bool>, i: nat): byte
    requires 8 * i + 8 <= |s|
  {
    ValBound(s[8 * i..8 * i + 8]);
    Pow2Values();
    Val(s[8 * i..8 * i + 8])
  }

  lemma {:induction false} ByteVal(b: byte)
    ensures Val(Bits(b, 8)) == b
  {
    Pow2Values();
    ValBitsSmall(b, 8);
  }

  lemma {:induction false} ByteBitsAt(d: seq<byte>, i: nat)
    requires i < |d|
    ensures ByteBits(d)[8 * i..8 * i + 8] == Bits(d[i], 8)
  {
    ByteBitsSlice(d, i, i + 1);
    assert d[i..i + 1] == [d[i]];
    ByteBitsOne(d[i]);
  }

  lemma {:induction false} ByteBitsBytesOf(s: seq<bool>)
    requires |s| % 8 == 0
    ensures ByteBits(BytesOf(s)) == s
  {
    var t := ByteBits(BytesOf(s));
    forall k | 0 <= k < |s| ensures t[k] == s[k] {
      var i := k / 8;
      ByteBitsAt(BytesOf(s), i);
      BitsVal(s[8 * i..8 * i + 8]);
      assert t[8 * i..8 * i + 8] == s[8 * i..8 * i + 8];
      assert t[k] == t[8 * i..8 * i + 8][k - 8 * i];
    }
  }

  lemma {:induction false} BytesOfByteBits(d: seq<byte>)
    ensures BytesOf(ByteBits(d)) == d
  {
    forall i | 0 <= i < |d| ensures ByteAt(ByteBits(d), i) == d[i] {
      ByteBitsAt(d, i);
      ByteVal(d[i]);
    }
  }

  // ---- bitwise operators ----

  function Or(a: nat, b: nat): nat
    decreases a + b
  {
    if a == 0 && b == 0 then 0
    else 2 * Or(a / 2, b / 2) + if a % 2 == 1 || b % 2 == 1 then 1 else 0
  }

  function And(a: nat, b: nat): nat
    decreases a + b
  {
    if a == 0 && b == 0 then 0
    else 2 * And(a / 2, b / 2) + if a % 2 == 1 && b % 2 == 1 then 1 else 0
  }

  function Xor(a: nat, b: nat): nat
    decreases a + b
  {
    if a == 0 && b == 0 then 0
    else 2 * Xor(a / 2, b / 2) + if a % 2 != b % 2 then 1 else 0
  }

  /** Or of words with no common one bit is their sum. */
  lemma {:induction false} OrDisjoint(h: nat, l: nat, k: nat)
    requires l < Pow2(k)
    ensures Or(h * Pow2(k), l) == h * Pow2(k) + l
  {
    if k == 0 {
      OrZero(h);
    } else {
      var a := h * Pow2(k);
      assert a == 2 * (h * Pow2(k - 1));
      OrDisjoint(h, l / 2, k - 1);
    }
  }

  lemma {:induction false} OrZero(a: nat)
    ensures Or(a, 0) == a
  {
    if a > 0 { OrZero(a / 2); }
  }

  lemma {:induction false} AndZero(a: nat)
    ensures And(a, 0) == 0
  {
    if a > 0 { AndZero(a / 2); }
  }

  lemma {:induction false} AndMask(v: nat, n: nat)
    ensures And(v, Pow2(n) - 1) == Low(v, n)
  {
    if n == 0 {
      AndZero(v);
    } else {
      AndMask(v / 2, n - 1);
      assert (Pow2(n) - 1) / 2 == Pow2(n - 1) - 1;
    }
  }

  lemma {:induction false} XorZero(a: nat)
    ensures Xor(a, 0) == a
  {
    if a > 0 { XorZero(a / 2); }
  }

  lemma {:induction false} XorOnes(a: nat, n: nat)
    requires a < Pow2(n)
    ensures Xor(a, Pow2(n) - 1) == Pow2(n) - 1 - a
  {
    hide Xor;
    if n == 0 {
      XorStep(0, 0, 0, 0);
    } else {
      XorOnes(a / 2, n - 1);
      XorStep(a / 2, a % 2, Pow2(n - 1) - 1, 1);
    }
  }

  /** Xor from the lowest bits up. */
  lemma {:induction false} XorStep(a: nat, i: nat, b: nat, j: nat)
    requires i < 2 && j < 2
    ensures Xor(2 * a + i, 2 * b + j) == 2 * Xor(a, b) + if i != j then 1 else 0
  {
    assert (2 * a + i) / 2 == a && (2 * a + i) % 2 == i;
    assert (2 * b + j) / 2 == b && (2 * b + j) % 2 == j;
  }

  lemma {:induction false} XorHalf(a: nat, b: nat)
    ensures Xor(a, b) / 2 == Xor(a / 2, b / 2) && (Xor(a, b) % 2 == 0 <==> a % 2 == b % 2)
  {
  }

  lemma {:induction false} XorInjective(p: nat, a: nat, b: nat)
    requires Xor(a, p) == Xor(b, p) || Xor(p, a) == Xor(p, b)
    ensures a == b
    decreases p + a + b
  {
    hide Xor;
    XorHalf(a, p);
    XorHalf(b, p);
    XorHalf(p, a);
    XorHalf(p, b);
    if p + a + b > 0 { XorInjective(p / 2, a / 2, b / 2); }
  }

  lemma {:induction false} XorBound(a: nat, b: nat, n: nat)
    requires a < Pow2(n) && b < Pow2(n)
    ensures Xor(a, b) < Pow2(n)
  {
    if n > 0 { XorBound(a / 2, b / 2, n - 1); }
  }

  lemma {:induction false} BitsOr(a: nat, b: nat, n: nat)
    ensures forall i :: 0 <= i < n ==> Bits(Or(a, b), n)[i] == (Bits(a, n)[i] || Bits(b, n)[i])
  {
    if n > 0 { BitsOr(a / 2, b / 2, n - 1); }
  }

  lemma {:induction false} BitsShl(v: nat, k: nat, n: nat)
    ensures Bits(v * Pow2(k), n + k) == Bits(v, n) + Zeros(k)
  {
    BitsJoin(v, n, 0, k);
    BitsZero(k);
  }

  lemma {:induction false} OrBound(a: nat, b: nat, n: nat)
    requires a < Pow2(n) && b < Pow2(n)
    ensures Or(a, b) < Pow2(n)
  {
    if n > 0 { OrBound(a / 2, b / 2, n - 1); }
  }

  /** v << k on 64-bit words. */
  function Shl64(v: nat, k: nat): (r: nat)
    ensures r < Pow2(64)
  {
    ShrLow(v * Pow2(k), 64);
    Low(v * Pow2(k), 64)
  }

  lemma {:induction false} BitsShl64(v: nat, k: nat)
    requires k <= 64
    ensures Bits(Shl64(v, k), 64) == Bits(v, 64 - k) + Zeros(k)
  {
    BitsLow(v * Pow2(k), 64);
    BitsShl(v, k, 64 - k);
  }

  /** A value of n bits written in a wider field has leading zeros. */
  lemma {:induction false} BitsPad(v: nat, n: nat, m: nat)
    requires v < Pow2(n)
    ensures Bits(v, m + n) == Zeros(m) + Bits(v, n)
  {
    BitsCat(v, m, n);
    LowSmall(v, n);
    BitsZero(m);
  }

  /** Go's bits.Len64: the number of bits of v without its leading zeros. */
  function Len(v: nat): nat
  {
    if v == 0 then 0 else 1 + Len(v / 2)
  }

  lemma {:induction false} LenBound(v: nat, n: nat)
    ensures Len(v) <= n <==> v < Pow2(n)
  {
    if n == 0 || v == 0 {
    } else {
      LenBound(v / 2, n - 1);
    }
  }

  /** In a field of n bits, the first one bit of v is at n - Len(v). */
  lemma {:induction false} LenBits(v: nat, n: nat)
    requires v < Pow2(n)
    ensures Len(v) <= n && Bits(v, n)[..n - Len(v)] == Zeros(n - Len(v))
    ensures v > 0 ==> Bits(v, n)[n - Len(v)]
  {
    LenBound(v, n);
    if v == 0 {
      BitsZero(n);
    } else {
      LenBits(v / 2, n - 1);
      var b := Bits(v / 2, n - 1);
      assert Bits(v, n) == b + [v % 2 == 1];
    }
  }

  /** The sign extension int64(u<<k)>>k of an n-bit value, k = 64-n. */
  lemma {:induction false} SignExtend(u: nat, n: nat)
    requires 1 <= n <= 64 && u < Pow2(n)
    ensures Signed(Shl64(u, 64 - n), 64) / Pow2(64 - n) == Signed(u, n)
  {
    hide Shl64, Pow2;
    var p := Pow2(64 - n);
    var h := Pow2(n - 1);
    var x := u * p;
    Pow2Add(n, 64 - n);
    Pow2Add(n - 1, 64 - n);
    TwicePow2(n - 1);
    ProductLt(u, Pow2(n), p);
    ShlExact(u, 64 - n, x);
    TopBit(u, h, p, x);
    MulAssoc(2, h, p);
  }

  lemma {:induction false} TwicePow2(n: nat)
    ensures Pow2(n + 1) == 2 * Pow2(n)
  {
  }

  /** A shift that pushes out no one bit. */
  lemma {:induction false} ShlExact(v: nat, k: nat, x: nat)
    requires x == v * Pow2(k) && x < Pow2(64)
    ensures Shl64(v, k) == x
  {
    LowSmall(x, 64);
  }

  lemma {:induction false} TopBit(u: nat, h: nat, p: nat, x: nat)
    requires p > 0 && x == u * p
    ensures x >= h * p <==> u >= h
    ensures x / p == u && (x - (2 * h) * p) / p == u - 2 * h
  {
    if u >= h { ProductLe(h, u, p); } else { ProductLt(u, h, p); }
    DivModUnique(u, 0, p);
    assert x - (2 * h) * p == (u - 2 * h) * p;
    DivModUnique(u - 2 * h, 0, p);
  }

  lemma {:induction false} ProductNat(a: nat, b: nat)
    ensures a * b >= 0
  {
  }

  lemma {:induction false} ProductLt(a: int, b: int, d: int)
    requires a < b && d > 0
    ensures a * d < b * d
  {
  }

  lemma {:induction false} ProductLe(a: int, b: int, d: int)
    requires a <= b && d >= 0
    ensures a * d <= b * d
  {
  }

  // ---- signed words ----

  /** Go's signed n-bit reading of an n-bit word. */
  function Signed(u: nat, n: nat): int
    requires n > 0
  {
    if u >= Pow2(n - 1) then u - Pow2(n) else u
  }

  /** x as an unsigned n-bit word. */
  function Unsigned(x: int, n: nat): (u: nat)
    ensures u < Pow2(n)
  {
    x % Pow2(n)
  }

  predicate Fits(x: int, n: nat)
  {
    n > 0 && -(Pow2(n - 1) as int) <= x < Pow2(n - 1)
  }

  predicate AllFit(s: seq<int>, n: nat)
  {
    forall i :: 0 <= i < |s| ==> Fits(s[i], n)
  }

  /** Two's-complement wrap-around of x to n bits. */
  function Wrap(x: int, n: nat): (r: int)
    requires n > 0
    ensures Fits(r, n)
  {
    Signed(Unsigned(x, n), n)
  }

  lemma {:induction false} WrapFits(x: int, n: nat)
    requires Fits(x, n)
    ensures Wrap(x, n) == x
  {
    if x < 0 {
      DivModUnique(-1, x + Pow2(n), Pow2(n));
    } else {
      DivModUnique(0, x, Pow2(n));
    }
  }

  /** Wrap-around is a ring homomorphism: what is congruent wraps alike. */
  lemma {:induction false} WrapCongruent(x: int, y: int, c: int, n: nat)
    requires n > 0 && x - y == c * Pow2(n)
    ensures Wrap(x, n) == Wrap(y, n)
  {
    var d := Pow2(n);
    DivModUnique(y / d + c, y % d, d);
    assert x == (y / d + c) * d + y % d;
  }

  lemma {:induction false} WrapIs(x: int, n: nat) returns (c: int)
    requires n > 0
    ensures x - Wrap(x, n) == c * Pow2(n)
  {
    var d := Pow2(n);
    c := if x % d >= Pow2(n - 1) then x / d + 1 else x / d;
    assert x == (x / d) * d + x % d;
    assert (x / d + 1) * d == (x / d) * d + d;
  }

  lemma {:induction false} WrapAdd(x: int, y: int, n: nat)
    requires n > 0
    ensures Wrap(x + Wrap(y, n), n) == Wrap(x + y, n)
    ensures Wrap(x - Wrap(y, n), n) == Wrap(x - y, n)
  {
    var c := WrapIs(y, n);
    WrapCongruent(x + y, x + Wrap(y, n), c, n);
    assert (x - y) - (x - Wrap(y, n)) == -c * Pow2(n);
    WrapCongruent(x - y, x - Wrap(y, n), -c, n);
  }

  // ---- printed forms ----

  /** The bits of v as an n-bit two's-complement number. */
  function SignedBits(v: int, n: nat): (s: seq<bool>)
    ensures |s| == n
  {
    Bits(Unsigned(v, n), n)
  }

  function UnaryBits(q: nat): (s: seq<bool>)
    ensures |s| == q + 1
  {
    Zeros(q) + [true]
  }

  function Padding(n: nat): (k: nat)
    ensures k < 8 && (n + k) % 8 == 0
  {
    (8 - n % 8) % 8
  }

  function Aligned(s: seq<bool>): (t: seq<bool>)
    ensures |t| % 8 == 0
  {
    s + Zeros(Padding(|s|))
  }

  function Abs(x: int): nat
  {
    if x < 0 then -x else x
  }

  lemma {:induction false} Distribute(a: int, b: int, d: int)
    ensures (a + b) * d == a * d + b * d
  {
  }

  lemma {:induction false} AllFitNone(n: nat)
    ensures AllFit([], n)
  {
  }

  lemma {:induction false} AllFitSnoc(a: seq<int>, v: int, n: nat)
    ensures AllFit(a + [v], n) <==> AllFit(a, n) && Fits(v, n)
  {
    hide Fits;
    if AllFit(a + [v], n) {
      forall i | 0 <= i < |a| ensures Fits(a[i], n) { assert (a + [v])[i] == a[i]; }
      assert (a + [v])[|a|] == v;
    }
  }
}
