/** The checksums of given bytes, in plain arithmetic. */
module CrcValues {
  import opened Words
  import opened Crc

  function Over(a: nat, k: nat): nat
    requires k > 0
  {
    a / k
  }

  /** r is a + b without carries, on bytes. */
  predicate Mixed(a: nat, b: nat, r: nat)
  {
    && a < 256 && b < 256 && r < 256
    && Over(r, 1) % 2 == (Over(a, 1) + Over(b, 1)) % 2
    && Over(r, 2) % 2 == (Over(a, 2) + Over(b, 2)) % 2
    && Over(r, 4) % 2 == (Over(a, 4) + Over(b, 4)) % 2
    && Over(r, 8) % 2 == (Over(a, 8) + Over(b, 8)) % 2
    && Over(r, 16) % 2 == (Over(a, 16) + Over(b, 16)) % 2
    && Over(r, 32) % 2 == (Over(a, 32) + Over(b, 32)) % 2
    && Over(r, 64) % 2 == (Over(a, 64) + Over(b, 64)) % 2
    && Over(r, 128) % 2 == (Over(a, 128) + Over(b, 128)) % 2
  }

  lemma {:induction false} MixedIsXor(a: nat, b: nat, r: nat)
    requires Mixed(a, b, r)
    ensures Xor(a, b) == r
  {
    hide Xor, Over;
    XorZero(0);
    OverByte(a);
    OverByte(b);
    OverByte(r);
    UpAt(a, b, r, 128);
    UpAt(a, b, r, 64);
    UpAt(a, b, r, 32);
    UpAt(a, b, r, 16);
    UpAt(a, b, r, 8);
    UpAt(a, b, r, 4);
    UpAt(a, b, r, 2);
    UpAt(a, b, r, 1);
  }

  lemma {:induction false} OverByte(a: nat)
    requires a < 256
    ensures Over(a, 256) == 0 && Over(a, 1) == a
  {
  }

  lemma {:induction false} UpAt(a: nat, b: nat, r: nat, k: nat)
    requires k > 0 && Xor(Over(a, 2 * k), Over(b, 2 * k)) == Over(r, 2 * k)
    requires Over(r, k) % 2 == (Over(a, k) + Over(b, k)) % 2
    ensures Xor(Over(a, k), Over(b, k)) == Over(r, k)
  {
    hide Xor, Over;
    HalfOver(a, k);
    HalfOver(b, k);
    HalfOver(r, k);
    XorHalf(Over(a, k), Over(b, k));
  }

  lemma {:induction false} HalfOver(a: nat, k: nat)
    requires k > 0
    ensures Over(a, k) / 2 == Over(a, 2 * k)
  {
    var q := a / k;
    QuotRem(a, k);
    TwiceProduct(q / 2, k);
    Distribute(q / 2 * 2, q % 2, k);
    MulAssoc(q / 2, 2, k);
    assert q == q / 2 * 2 + q % 2;
    if q % 2 == 1 {
      DivModUnique(q / 2, k + a % k, 2 * k);
    } else {
      DivModUnique(q / 2, a % k, 2 * k);
    }
  }

  lemma {:induction false} XorJoin(g: nat, h: nat, k: nat, l: nat, n: nat)
    requires h < Pow2(n) && l < Pow2(n)
    ensures Xor(g * Pow2(n) + h, k * Pow2(n) + l) == Xor(g, k) * Pow2(n) + Xor(h, l)
  {
    hide Xor;
    if n == 0 {
      XorZero(0);
    } else {
      XorJoin(g, h / 2, k, l / 2, n - 1);
      TwiceProduct(g, Pow2(n - 1));
      TwiceProduct(k, Pow2(n - 1));
      TwiceProduct(Xor(g, k), Pow2(n - 1));
      XorStep(g * Pow2(n - 1) + h / 2, h % 2, k * Pow2(n - 1) + l / 2, l % 2);
      XorStep(h / 2, h % 2, l / 2, l % 2);
    }
  }

  // ---- the header checksum ----

  /** The register after one shift. */
  function Turn8(c: nat): nat
  {
    if c < 0x80 then 2 * c else (2 * c - 0x100) / 8 * 8 + (7 - (2 * c - 0x100) % 8)
  }

  lemma {:induction false} FlipThree(x: nat)
    ensures Xor(x, 0x07) == x / 8 * 8 + (7 - x % 8)
  {
    Pow2Values();
    hide Xor;
    XorZero(x / 8);
    XorJoin(x / 8, x % 8, 0, 7, 3);
    XorOnes(x % 8, 3);
  }

  lemma {:induction false} TurnsAre8(c: nat, k: nat)
    requires c < 0x100 && k > 0
    ensures Turn8(c) < 0x100 && Table8(c, k) == Table8(Turn8(c), k - 1)
  {
    hide Xor;
    if c >= 0x80 { FlipThree(2 * c - 0x100); }
  }

  /** Eight shifts. */
  predicate Chain8(cs: seq<nat>)
  {
    && |cs| == 9 && cs[0] < 0x100 && cs[1] == Turn8(cs[0]) && cs[2] == Turn8(cs[1]) && cs[3] == Turn8(cs[2])
    && cs[4] == Turn8(cs[3]) && cs[5] == Turn8(cs[4]) && cs[6] == Turn8(cs[5]) && cs[7] == Turn8(cs[6])
    && cs[8] == Turn8(cs[7])
  }

  /** One byte folded into the header checksum. */
  lemma {:induction false} Fold8(c: nat, b: byte, cs: seq<nat>)
    requires Chain8(cs) && Mixed(c, b, cs[0])
    ensures Update8(c, b) == cs[8]
  {
    hide Table8, Turn8, Mixed;
    MixedIsXor(c, b, cs[0]);
    TurnsAre8(cs[0], 8);
    TurnsAre8(cs[1], 7);
    TurnsAre8(cs[2], 6);
    TurnsAre8(cs[3], 5);
    TurnsAre8(cs[4], 4);
    TurnsAre8(cs[5], 3);
    TurnsAre8(cs[6], 2);
    TurnsAre8(cs[7], 1);
    TableDone(cs[8]);
  }

  lemma {:induction false} TableDone(c: nat)
    ensures Table8(c, 0) == c && Table16(c, 0) == c
  {
  }

  // ---- the frame checksum ----

  function Turn16(c: nat): nat
  {
    if c < 0x8000 then 2 * c
    else
      var x: nat := 2 * c - 0x1_0000;
      var y := if x / 4 % 2 == 0 then x + 5 else x - 3;
      if x < 0x8000 then y + 0x8000 else y - 0x8000
  }

  lemma {:induction false} FlipTop(x: nat, n: nat)
    requires x < 2 * Pow2(n)
    ensures Xor(x, Pow2(n)) == if x < Pow2(n) then x + Pow2(n) else x - Pow2(n)
  {
    hide Xor;
    var h := if x < Pow2(n) then 0 else 1;
    var l := if x < Pow2(n) then x else x - Pow2(n);
    XorJoin(h, l, 1, 0, n);
    XorZero(l);
    OneXor();
  }

  lemma {:induction false} OneXor()
    ensures Xor(0, 1) == 1 && Xor(1, 1) == 0
  {
  }

  /** The bits 15, 2 and 0 of an even word are inverted. */
  lemma {:induction false} FlipWord(x: nat)
    requires x < 0x1_0000 && x % 2 == 0
    ensures Xor(x, 0x8005) == (if x / 4 % 2 == 0 then x + 5 else x - 3) + if x < 0x8000 then 0x8000 else -0x8000
  {
    hide Xor, Pow2;
    var a, c, b := x / 8, x / 4 % 2, x / 2 % 2;
    ThreeLow(x);
    FlipHigh(x);
    FlipParts(a, c, b);
  }

  /** An even word in terms of its bits 2 and 1 and those above. */
  lemma {:induction false} ThreeLow(x: nat)
    requires x % 2 == 0
    ensures x == 8 * (x / 8) + 4 * (x / 4 % 2) + 2 * (x / 2 % 2)
  {
    Quarter(x);
    Quarter(x / 2);
    Eighth(x);
  }

  lemma {:induction false} Quarter(x: nat)
    ensures x / 4 == x / 2 / 2 && x == 2 * (x / 2) + x % 2
  {
  }

  lemma {:induction false} Eighth(x: nat)
    ensures x / 8 == x / 4 / 2 && x / 4 == 2 * (x / 4 / 2) + x / 4 % 2
  {
  }

  lemma {:induction false} FlipParts(a: nat, c: nat, b: nat)
    requires c < 2 && b < 2
    ensures Xor(8 * a + 4 * c + 2 * b, 0x8005) == 8 * Xor(a, 0x1000) + 4 * (1 - c) + 2 * b + 1
  {
    hide Xor;
    XorStep(a, c, 0x1000, 1);
    XorStep(2 * a + c, b, 0x2001, 0);
    XorStep(2 * (2 * a + c) + b, 0, 0x4002, 1);
  }

  lemma {:induction false} FlipHigh(x: nat)
    requires x < 0x1_0000
    ensures Xor(x / 8, 0x1000) == x / 8 + if x < 0x8000 then 0x1000 else -0x1000
  {
    hide Xor, Pow2;
    TwelveIs();
    FlipTop(x / 8, 12);
  }

  lemma {:induction false} TwelveIs()
    ensures Pow2(12) == 0x1000
  {
    Pow2Values();
    Pow2Add(8, 4);
  }

  lemma {:induction false} TurnsAre16(c: nat, k: nat)
    requires c < 0x1_0000 && k > 0
    ensures Turn16(c) < 0x1_0000 && Table16(c, k) == Table16(Turn16(c), k - 1)
  {
    hide Xor;
    if c >= 0x8000 { FlipWord(2 * c - 0x1_0000); }
  }

  predicate Chain16(cs: seq<nat>)
  {
    && |cs| == 9 && cs[0] < 0x1_0000 && cs[1] == Turn16(cs[0]) && cs[2] == Turn16(cs[1]) && cs[3] == Turn16(cs[2])
    && cs[4] == Turn16(cs[3]) && cs[5] == Turn16(cs[4]) && cs[6] == Turn16(cs[5]) && cs[7] == Turn16(cs[6])
    && cs[8] == Turn16(cs[7])
  }

  /** One byte folded into the frame checksum, whose bytes are u and l: x selects the table entry,
      whose bytes are g and k, and h and k are the bytes of the result. */
  lemma {:induction false} Fold16(u: nat, l: nat, b: byte, x: nat, cs: seq<nat>, g: nat, k: nat, h: nat)
    requires Mixed(u, b, x) && Chain16(cs) && cs[0] == x * 0x100 && cs[8] == g * 0x100 + k && k < 0x100
    requires Mixed(l, g, h)
    ensures Update16(u * 0x100 + l, b) == h * 0x100 + k
  {
    hide Table16, Turn16, Mixed, Xor;
    MixedBytes(u, b, x);
    MixedBytes(l, g, h);
    MixedIsXor(u, b, x);
    TurnsAre16(cs[0], 8);
    TurnsAre16(cs[1], 7);
    TurnsAre16(cs[2], 6);
    TurnsAre16(cs[3], 5);
    TurnsAre16(cs[4], 4);
    TurnsAre16(cs[5], 3);
    TurnsAre16(cs[6], 2);
    TurnsAre16(cs[7], 1);
    TableDone(cs[8]);
    HighBytes(u, l, g, k, h);
    assert (u * 0x100 + l) / 0x100 == u;
  }

  lemma {:induction false} HighBytes(u: nat, l: nat, g: nat, k: nat, h: nat)
    requires u < 0x100 && k < 0x100 && Mixed(l, g, h)
    ensures Xor(((u * 0x100 + l) * 0x100) % 0x1_0000, g * 0x100 + k) % 0x1_0000 == h * 0x100 + k
  {
    hide Mixed, Xor, Pow2;
    Pow2Values();
    MixedBytes(l, g, h);
    MixedIsXor(l, g, h);
    ShiftedByte(u, l);
    XorJoin(l, 0, g, k, 8);
    ZeroXor(k);
  }

  lemma {:induction false} MixedBytes(a: nat, b: nat, r: nat)
    requires Mixed(a, b, r)
    ensures a < 0x100 && b < 0x100 && r < 0x100
  {
  }

  lemma {:induction false} ShiftedByte(u: nat, l: nat)
    requires l < 0x100
    ensures ((u * 0x100 + l) * 0x100) % 0x1_0000 == l * 0x100 + 0
  {
    DivModUnique(u, l * 0x100, 0x1_0000);
  }

  lemma {:induction false} ZeroXor(a: nat)
    ensures Xor(0, a) == a
  {
    if a > 0 { ZeroXor(a / 2); }
  }

  // ---- the check values ----

  const CHECK: seq<byte> := [0x31, 0x32, 0x33, 0x34, 0x35, 0x36, 0x37, 0x38, 0x39]

  /** Both checksums of the bytes "123456789". */
  lemma {:induction false} CheckValues()
    ensures Checksum8(CHECK) == 0xF4 && Checksum16(CHECK) == 0xFEE8
  {
    hide Checksum8, Checksum16;
    HeaderCheck();
    FrameCheck();
  }

  lemma {:induction false} Header1()
    ensures Update8(0x0, 0x31) == 0x97
  {
    hide Update8;
    Fold8(0x0, 0x31, [0x31, 0x62, 0xC4, 0x8F, 0x19, 0x32, 0x64, 0xC8, 0x97]);
  }

  lemma {:induction false} Header2()
    ensures Update8(0x97, 0x32) == 0x72
  {
    hide Update8;
    Fold8(0x97, 0x32, [0xA5, 0x4D, 0x9A, 0x33, 0x66, 0xCC, 0x9F, 0x39, 0x72]);
  }

  lemma {:induction false} Header3()
    ensures Update8(0x72, 0x33) == 0xC0
  {
    hide Update8;
    Fold8(0x72, 0x33, [0x41, 0x82, 0x3, 0x6, 0xC, 0x18, 0x30, 0x60, 0xC0]);
  }

  lemma {:induction false} Header4()
    ensures Update8(0xC0, 0x34) == 0xC2
  {
    hide Update8;
    Fold8(0xC0, 0x34, [0xF4, 0xEF, 0xD9, 0xB5, 0x6D, 0xDA, 0xB3, 0x61, 0xC2]);
  }

  lemma {:induction false} Header5()
    ensures Update8(0xC2, 0x35) == 0xCB
  {
    hide Update8;
    Fold8(0xC2, 0x35, [0xF7, 0xE9, 0xD5, 0xAD, 0x5D, 0xBA, 0x73, 0xE6, 0xCB]);
  }

  lemma {:induction false} Header6()
    ensures Update8(0xCB, 0x36) == 0xFD
  {
    hide Update8;
    Fold8(0xCB, 0x36, [0xFD, 0xFD, 0xFD, 0xFD, 0xFD, 0xFD, 0xFD, 0xFD, 0xFD]);
  }

  lemma {:induction false} Header7()
    ensures Update8(0xFD, 0x37) == 0x78
  {
    hide Update8;
    Fold8(0xFD, 0x37, [0xCA, 0x93, 0x21, 0x42, 0x84, 0xF, 0x1E, 0x3C, 0x78]);
  }

  lemma {:induction false} Header8()
    ensures Update8(0x78, 0x38) == 0xC7
  {
    hide Update8;
    Fold8(0x78, 0x38, [0x40, 0x80, 0x7, 0xE, 0x1C, 0x38, 0x70, 0xE0, 0xC7]);
  }

  lemma {:induction false} Header9()
    ensures Update8(0xC7, 0x39) == 0xF4
  {
    hide Update8;
    Fold8(0xC7, 0x39, [0xFE, 0xFB, 0xF1, 0xE5, 0xCD, 0x9D, 0x3D, 0x7A, 0xF4]);
  }

  lemma {:induction false} HeaderCheck()
    ensures Checksum8(CHECK) == 0xF4
  {
    hide Checksum8, Update8;
    var cs: seq<nat> := [0, 0x97, 0x72, 0xC0, 0xC2, 0xCB, 0xFD, 0x78, 0xC7, 0xF4];
    Header1();
    Header2();
    Header3();
    Header4();
    Header5();
    Header6();
    Header7();
    Header8();
    Header9();
    HeaderSums(CHECK, cs);
  }


  lemma {:induction false} Frame1()
    ensures Update16(0x0, 0x31) == 0x80A5
  {
    hide Update16;
    Fold16(0x0, 0x0, 0x31, 0x31,
      [0x3100, 0x6200, 0xC400, 0x805, 0x100A, 0x2014, 0x4028, 0x8050, 0x80A5], 0x80, 0xA5, 0x80);
  }

  lemma {:induction false} Frame2()
    ensures Update16(0x80A5, 0x32) == 0xA6AC
  {
    hide Update16;
    Fold16(0x80, 0xA5, 0x32, 0xB2,
      [0xB200, 0xE405, 0x480F, 0x901E, 0xA039, 0xC077, 0xEB, 0x1D6, 0x3AC], 0x3, 0xAC, 0xA6);
  }

  lemma {:induction false} Frame3()
    ensures Update16(0xA6AC, 0x33) == 0xAF7E
  {
    hide Update16;
    Fold16(0xA6, 0xAC, 0x33, 0x95,
      [0x9500, 0xAA05, 0xD40F, 0x281B, 0x5036, 0xA06C, 0xC0DD, 0x1BF, 0x37E], 0x3, 0x7E, 0xAF);
  }

  lemma {:induction false} Frame4()
    ensures Update16(0xAF7E, 0x34) == 0xFD59
  {
    hide Update16;
    Fold16(0xAF, 0x7E, 0x34, 0x9B,
      [0x9B00, 0xB605, 0xEC0F, 0x581B, 0xB036, 0xE069, 0x40D7, 0x81AE, 0x8359], 0x83, 0x59, 0xFD);
  }

  lemma {:induction false} Frame5()
    ensures Update16(0xFD59, 0x35) == 0xDBB3
  {
    hide Update16;
    Fold16(0xFD, 0x59, 0x35, 0xC8,
      [0xC800, 0x1005, 0x200A, 0x4014, 0x8028, 0x8055, 0x80AF, 0x815B, 0x82B3], 0x82, 0xB3, 0xDB);
  }

  lemma {:induction false} Frame6()
    ensures Update16(0xDBB3, 0x36) == 0xB16E
  {
    hide Update16;
    Fold16(0xDB, 0xB3, 0x36, 0xED,
      [0xED00, 0x5A05, 0xB40A, 0xE811, 0x5027, 0xA04E, 0xC099, 0x137, 0x26E], 0x2, 0x6E, 0xB1);
  }

  lemma {:induction false} Frame7()
    ensures Update16(0xB16E, 0x37) == 0xED17
  {
    hide Update16;
    Fold16(0xB1, 0x6E, 0x37, 0x86,
      [0x8600, 0x8C05, 0x980F, 0xB01B, 0xE033, 0x4063, 0x80C6, 0x8189, 0x8317], 0x83, 0x17, 0xED);
  }

  lemma {:induction false} Frame8()
    ensures Update16(0xED17, 0x38) == 0x95FD
  {
    hide Update16;
    Fold16(0xED, 0x17, 0x38, 0xD5,
      [0xD500, 0x2A05, 0x540A, 0xA814, 0xD02D, 0x205F, 0x40BE, 0x817C, 0x82FD], 0x82, 0xFD, 0x95);
  }

  lemma {:induction false} Frame9()
    ensures Update16(0x95FD, 0x39) == 0xFEE8
  {
    hide Update16;
    Fold16(0x95, 0xFD, 0x39, 0xAC, [0xAC00, 0xD805, 0x300F, 0x601E, 0xC03C, 0x7D, 0xFA, 0x1F4, 0x3E8], 0x3, 0xE8, 0xFE);
  }

  lemma {:induction false} FrameCheck()
    ensures Checksum16(CHECK) == 0xFEE8
  {
    hide Checksum16, Update16;
    var cs: seq<nat> := [0, 0x80A5, 0xA6AC, 0xAF7E, 0xFD59, 0xDBB3, 0xB16E, 0xED17, 0x95FD, 0xFEE8];
    Frame1();
    Frame2();
    Frame3();
    Frame4();
    Frame5();
    Frame6();
    Frame7();
    Frame8();
    Frame9();
    FrameSums(CHECK, cs);
  }

  /** The sum from its intermediate values. */
  lemma {:induction false} HeaderSums(p: seq<byte>, cs: seq<nat>)
    requires |cs| == |p| + 1 && cs[0] == 0 && forall k :: 0 <= k < |p| ==> Update8(cs[k], p[k]) == cs[k + 1]
    ensures Checksum8(p) == cs[|p|]
  {
    if p != [] { HeaderSums(p[..|p| - 1], cs[..|p|]); }
  }

  lemma {:induction false} FrameSums(p: seq<byte>, cs: seq<nat>)
    requires |cs| == |p| + 1 && cs[0] == 0 && forall k :: 0 <= k < |p| ==> Update16(cs[k], p[k]) == cs[k + 1]
    ensures Checksum16(p) == cs[|p|]
  {
    if p != [] { FrameSums(p[..|p| - 1], cs[..|p|]); }
  }

}
