/** The header CRC-8 and frame CRC-16 of internal/crc/crc.go. */
module Crc {
  import opened Words

  function Table8(c: nat, steps: nat): nat
    decreases steps
  {
    if steps == 0 then c
    else Table8(if c >= 0x80 then Xor((2 * c) % 0x100, 0x07) else 2 * c, steps - 1)
  }

  function Update8(crc: nat, b: byte): nat
  {
    Table8(Xor(crc, b), 8) % 0x100
  }

  function Checksum8(p: seq<byte>): nat
  {
    if p == [] then 0 else Update8(Checksum8(p[..|p| - 1]), p[|p| - 1])
  }

  function Table16(c: nat, steps: nat): nat
    decreases steps
  {
    if steps == 0 then c
    else Table16(if c >= 0x8000 then Xor((2 * c) % 0x1_0000, 0x8005) else 2 * c, steps - 1)
  }

  function Update16(crc: nat, b: byte): nat
  {
    Xor((crc * 0x100) % 0x1_0000, Table16(Xor(crc / 0x100, b) * 0x100, 8)) % 0x1_0000
  }

  function Checksum16(p: seq<byte>): nat
  {
    if p == [] then 0 else Update16(Checksum16(p[..|p| - 1]), p[|p| - 1])
  }

  lemma {:induction false} ChecksumBounds(p: seq<byte>)
    ensures Checksum8(p) < 0x100 && Checksum16(p) < 0x1_0000
  {
  }

  /** The checksum tap of internal/frame/frame.go: it records every byte it is given
      and, byte by byte, folds the header checksum. */
  class FrameCrc {
    var c8: nat
    var scratch: seq<byte>
    /** How many of the recorded bytes the running CRC-8 covers. */
    ghost var folded: nat

    ghost predicate Valid()
      reads this
    {
      folded <= |scratch| && c8 == Checksum8(scratch[..folded])
    }

    constructor ()
      ensures Valid() && scratch == [] && folded == 0
    {
      c8, scratch, folded := 0, [], 0;
    }

    method Reset()
      modifies this
      ensures Valid() && scratch == [] && folded == 0
    {
      c8, scratch, folded := 0, [], 0;
    }

    method TapByte(b: byte)
      requires Valid() && folded == |scratch|
      modifies this
      ensures Valid() && scratch == old(scratch) + [b] && folded == |scratch|
    {
      ghost var was := scratch;
      scratch := scratch + [b];
      c8 := Update8(c8, b);
      folded := folded + 1;
      assert was[..|was|] == was;
      assert scratch[..folded] == scratch && scratch[..|scratch| - 1] == was;
    }

    method TapBytes(p: seq<byte>)
      requires Valid()
      modifies this`scratch
      ensures Valid() && scratch == old(scratch) + p
    {
      assert (scratch + p)[..folded] == scratch[..folded];
      scratch := scratch + p;
    }

    method Sum16() returns (r: nat)
      ensures r == Checksum16(scratch)
    {
      r := Checksum16(scratch);
    }
  }
}
