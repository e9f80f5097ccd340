/** The left-aligned 64-bit accumulator shared by the bit writer and the bit reader:
    its pending bits are at the top and every bit below them is zero. */
module Accumulator {
  import opened Words

  /** acc holds exactly the bits s, left-aligned. */
  ghost predicate Holds(acc: nat, s: seq<bool>)
  {
    acc < Pow2(64) && |s| <= 64 && Bits(acc, 64) == s + Zeros(64 - |s|)
  }

  lemma {:induction false} HoldsNothing()
    ensures Holds(0, [])
  {
    BitsZero(64);
  }

  /** Or-ing the low n bits of v in just below the pending ones. */
  lemma {:induction false} HoldsAppend(acc: nat, s: seq<bool>, v: nat, n: nat)
    requires Holds(acc, s) && |s| + n <= 64 && v < Pow2(n)
    ensures Holds(Or(acc, Shl64(v, 64 - |s| - n)), s + Bits(v, n))
  {
    var k := 64 - |s| - n;
    var w := Shl64(v, k);
    BitsShl64(v, k);
    BitsPad(v, n, |s|);
    assert Bits(w, 64) == Zeros(|s|) + Bits(v, n) + Zeros(k);
    OrBound(acc, w, 64);
    BitsOr(acc, w, 64);
    OrPointwise(Bits(acc, 64), Bits(w, 64), Bits(Or(acc, w), 64), s, Bits(v, n));
  }

  lemma {:induction false} OrPointwise(x: seq<bool>, y: seq<bool>, z: seq<bool>, s: seq<bool>, t: seq<bool>)
    requires |x| == |y| == |z| == 64 && |s| + |t| <= 64
    requires x == s + Zeros(64 - |s|) && y == Zeros(|s|) + t + Zeros(64 - |s| - |t|)
    requires forall i :: 0 <= i < 64 ==> z[i] == (x[i] || y[i])
    ensures z == s + t + Zeros(64 - |s| - |t|)
  {
  }

  /** Shifting the word left drops the oldest bits. */
  lemma {:induction false} HoldsDrop(acc: nat, s: seq<bool>, k: nat)
    requires Holds(acc, s) && k <= |s|
    ensures Holds(Shl64(acc, k), s[k..])
  {
    BitsShl64(acc, k);
    BitsCat(acc, k, 64 - k);
    assert Bits(acc, 64 - k) == Bits(acc, 64)[k..];
    assert Zeros(64 - |s|) + Zeros(k) == Zeros(64 - |s[k..]|);
  }

  /** Shifting the word right extracts the oldest bits. */
  lemma {:induction false} HoldsTop(acc: nat, s: seq<bool>, k: nat)
    requires Holds(acc, s) && k <= |s|
    ensures Bits(Shr(acc, 64 - k), k) == s[..k]
    ensures Shr(acc, 64 - k) == Val(s[..k])
  {
    BitsCat(acc, k, 64 - k);
    ShrBound(acc, k, 64 - k);
    assert Bits(acc, 64)[..k] == Bits(Shr(acc, 64 - k), k);
    ValBitsSmall(Shr(acc, 64 - k), k);
  }

  lemma {:induction false} ShrBound(v: nat, a: nat, b: nat)
    requires v < Pow2(a + b)
    ensures Shr(v, b) < Pow2(a)
  {
    Pow2Add(a, b);
    ShrLow(v, b);
    if Shr(v, b) >= Pow2(a) { ProductLe(Pow2(a), Shr(v, b), Pow2(b)); }
  }

  /** A fresh word holding the low k bits of v. */
  lemma {:induction false} HoldsLow(v: nat, k: nat)
    requires k <= 64
    ensures Holds(Shl64(v, 64 - k), Bits(v, k))
  {
    BitsShl64(v, 64 - k);
  }

  /** A full word. */
  lemma {:induction false} HoldsWord(s: seq<bool>)
    requires |s| == 64
    ensures Holds(Val(s), s)
  {
    ValBound(s);
    BitsVal(s);
    assert s == s + Zeros(0);
  }

  /** The leading zeros of the word are the zeros at the front of s. */
  lemma {:induction false} HoldsLeading(acc: nat, s: seq<bool>)
    requires Holds(acc, s)
    ensures Len(acc) <= 64
    ensures forall i :: 0 <= i < 64 - Len(acc) && i < |s| ==> !s[i]
    ensures 64 - Len(acc) < |s| ==> s[64 - Len(acc)]
  {
    hide Len;
    LenBits(acc, 64);
    var b, z := Bits(acc, 64), 64 - Len(acc);
    forall i | 0 <= i < z && i < |s| ensures !s[i] {
      assert b[..z][i] == Zeros(z)[i];
      assert b[i] == s[i];
    }
    if z < |s| {
      if acc == 0 { LenBound(0, 0); }
      assert b[z] == s[z];
    }
  }
}
