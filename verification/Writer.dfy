/** The bit writer of internal/bitio/writer.go: a 64-bit accumulator flushed a word at
    a time. Contents() is the bit string written so far. */
module BitWriter {
  import opened Words
  import opened Accumulator

  class Writer {
    var buf: seq<byte>
    var acc: nat
    var nbit: nat
    ghost var pending: seq<bool>

    ghost predicate Valid()
      reads this
    {
      |pending| == nbit < 64 && Holds(acc, pending)
    }

    ghost function Contents(): seq<bool>
      reads this
    {
      ByteBits(buf) + pending
    }

    constructor ()
      ensures Valid() && Contents() == []
    {
      buf, acc, nbit, pending := [], 0, 0, [];
      new;
      HoldsNothing();
    }

    method Reset()
      modifies this
      ensures Valid() && Contents() == []
    {
      buf, acc, nbit, pending := [], 0, 0, [];
      HoldsNothing();
    }

    /** Appends one whole byte to buf. */
    method Append(b: byte)
      modifies this`buf
      ensures buf == old(buf) + [b]
      ensures ByteBits(buf) == old(ByteBits(buf)) + Bits(b, 8)
    {
      ByteBitsCat(buf, [b]);
      ByteBitsOne(b);
      buf := buf + [b];
    }

    /** Appends the full accumulator as 8 big-endian bytes. */
    method FlushWord()
      requires |pending| == 64 && Holds(acc, pending)
      modifies this
      ensures acc == 0 && pending == [] && nbit == old(nbit)
      ensures ByteBits(buf) == old(ByteBits(buf) + pending)
    {
      HoldsTop(acc, pending, 64);
      assert Bits(acc, 64) == pending;
      var out := BytesOf(Bits(acc, 64));
      ByteBitsBytesOf(pending);
      ByteBitsCat(buf, out);
      buf, acc, pending := buf + out, 0, [];
    }

    /** The low n bits of v, most significant first. */
    method WriteBits(v: nat, n: nat)
      requires Valid() && n <= 64
      modifies this
      ensures Valid()
      ensures Contents() == old(Contents()) + Bits(v, n)
    {
      hide Holds, Shr, Low, Or, And, Shl64, Bits, ByteBits;
      if n == 0 { return; }
      var u := And(v, Pow2(n) - 1);
      AndMask(v, n);
      BitsLow(v, n);
      ShrLow(v, n);
      var free := 64 - nbit;
      if n < free {
        HoldsAppend(acc, pending, u, n);
        acc := Or(acc, Shl64(u, free - n));
        nbit, pending := nbit + n, pending + Bits(u, n);
        return;
      }
      WriteAcross(u, n);
    }

    /** Fills the accumulator, flushes it and starts the next one with the remainder. */
    method WriteAcross(u: nat, n: nat)
      requires Valid() && 64 - nbit <= n <= 64 && u < Pow2(n)
      modifies this
      ensures Valid()
      ensures Contents() == old(Contents()) + Bits(u, n)
    {
      hide Holds, Shr, Or, Shl64, Bits, ByteBits;
      var free := 64 - nbit;
      var rem := n - free;
      BitsCat(u, free, rem);
      ShrBound(u, free, rem);
      HoldsAppend(acc, pending, Shr(u, rem), free);
      ShlNone(Shr(u, rem), free);
      acc := Or(acc, Shr(u, rem));
      pending := pending + Bits(Shr(u, rem), free);
      FlushWord();
      nbit, pending := rem, Bits(u, rem);
      HoldsNothing();
      if rem > 0 {
        HoldsLow(u, rem);
        acc := Shl64(u, 64 - rem);
      }
    }

    /** v as an n-bit two's-complement number. */
    method WriteSignedBits(v: int, n: nat)
      requires Valid() && n <= 64
      modifies this
      ensures Valid()
      ensures Contents() == old(Contents()) + SignedBits(v, n)
    {
      AndMask(Unsigned(v, 64), n);
      UnsignedLow(v, n, 64);
      WriteBits(And(Unsigned(v, 64), Pow2(n) - 1), n);
      BitsLow(Unsigned(v, 64), n);
    }

    /** q zeros and a one. */
    method WriteUnary(q: nat)
      requires Valid()
      modifies this
      ensures Valid()
      ensures Contents() == old(Contents()) + UnaryBits(q)
    {
      var left := q;
      while left >= 32
        invariant Valid() && 0 <= left <= q
        invariant Contents() == old(Contents()) + Zeros(q - left)
      {
        BitsZero(32);
        ZerosCat(q - left, 32);
        WriteBits(0, 32);
        left := left - 32;
      }
      UnaryIsOne(left);
      ZerosCat(q - left, left);
      WriteBits(1, left + 1);
    }

    /** Moves every complete pending byte into buf. */
    method FlushFull()
      requires Valid()
      modifies this
      ensures Valid() && nbit < 8 && Contents() == old(Contents())
    {
      hide Holds, Shr, ByteBits, Bits;
      while nbit >= 8
        invariant Valid() && Contents() == old(Contents())
      {
        ShiftOutByte(acc, pending);
        Append(Shr(acc, 56));
        acc, nbit, pending := Shl64(acc, 8), nbit - 8, pending[8..];
      }
    }

    /** Zero-pads to the next byte boundary. */
    method AlignByte()
      requires Valid()
      modifies this
      ensures Valid() && nbit == 0
      ensures Contents() == Aligned(old(Contents()))
    {
      hide Holds, Shr, ByteBits, Bits;
      FlushFull();
      PaddingShift(|buf|, nbit);
      if nbit > 0 {
        LastByte(acc, pending);
        Append(Shr(acc, 56));
        acc, nbit, pending := 0, 0, [];
        HoldsNothing();
      }
    }

    /** The assembled bytes; exact when a whole number of bytes was written. */
    method Bytes() returns (r: seq<byte>)
      requires Valid()
      modifies this
      ensures Valid() && Contents() == old(Contents())
      ensures r == buf
      ensures |Contents()| % 8 == 0 ==> r == BytesOf(Contents())
    {
      FlushFull();
      if |Contents()| % 8 == 0 {
        assert Contents() == ByteBits(buf);
        BytesOfByteBits(buf);
      }
      return buf;
    }
  }

  lemma {:induction false} PaddingShift(k: nat, r: nat)
    ensures Padding(8 * k + r) == Padding(r)
  {
  }

  lemma {:induction false} UnaryIsOne(q: nat)
    ensures Bits(1, q + 1) == UnaryBits(q)
  {
    assert Pow2(1) == 2;
    BitsPad(1, 1, q);
    assert Bits(1, 1) == Bits(0, 0) + [true];
  }

  lemma {:induction false} ShlNone(v: nat, n: nat)
    requires v < Pow2(n) && n <= 64
    ensures Shl64(v, 0) == v
  {
    Pow2Mono(n, 64);
    LowSmall(v, 64);
  }

  lemma {:induction false} TopByte(acc: nat, s: seq<bool>)
    requires Holds(acc, s)
    ensures Shr(acc, 56) < 256
  {
    ShrBound(acc, 8, 56);
    Pow2Values();
  }

  lemma {:induction false} ShiftOutByte(acc: nat, s: seq<bool>)
    requires Holds(acc, s) && |s| >= 8
    ensures Shr(acc, 56) < 256
    ensures Bits(Shr(acc, 56), 8) == s[..8] && Holds(Shl64(acc, 8), s[8..])
  {
    TopByte(acc, s);
    HoldsTop(acc, s, 8);
    HoldsDrop(acc, s, 8);
  }

  /** The padded last byte. */
  lemma {:induction false} LastByte(acc: nat, s: seq<bool>)
    requires Holds(acc, s) && 0 < |s| < 8
    ensures Shr(acc, 56) < 256
    ensures Bits(Shr(acc, 56), 8) == s + Zeros(8 - |s|)
  {
    TopByte(acc, s);
    BitsCat(acc, 8, 56);
    assert Bits(acc, 64)[..8] == Bits(Shr(acc, 56), 8);
  }

  lemma {:induction false} UnsignedLow(v: int, n: nat, m: nat)
    requires n <= m
    ensures Low(Unsigned(v, m), n) == Unsigned(v, n)
  {
    hide Pow2, Low, Shr;
    var u, c, k := Unsigned(v, m), v / Pow2(m), Pow2(m - n);
    QuotRem(v, Pow2(m));
    Pow2Add(n, m - n);
    MulAssoc(c, Pow2(n), k);
    ShrLow(u, n);
    RemShift(v, c * k, Shr(u, n), Low(u, n), Pow2(n));
  }

  lemma {:induction false} RemShift(v: int, a: int, b: int, l: int, d: int)
    requires 0 <= l < d && v == a * d + (b * d + l)
    ensures v % d == l
  {
    assert (a + b) * d == a * d + b * d;
    DivModUnique(a + b, l, d);
  }
}
