/** Interleaved little-endian samples (pcm/pack.go, appendPacked in pcm/decoder.go):
    splitting a block into channels and packing channels back. */
module Packing {
  import opened Words

  // ---- one sample ----

  /** The low w bytes of v, least significant first. */
  function LeBytes(v: int, w: nat): (b: seq<byte>)
    ensures |b| == w
    decreases w
  {
    if w == 0 then [] else [v % 256] + LeBytes(v / 256, w - 1)
  }

  function LeNat(b: seq<byte>): nat
  {
    if b == [] then 0 else b[0] + 256 * LeNat(b[1..])
  }

  /** The sign-extended value of the bytes. */
  function LeSigned(b: seq<byte>): int
  {
    if b == [] then 0 else Signed(LeNat(b), 8 * |b|)
  }

  lemma {:induction false} LeNatBound(b: seq<byte>)
    ensures LeNat(b) < Pow2(8 * |b|)
  {
    if b != [] {
      LeNatBound(b[1..]);
      Pow2Add(8, 8 * |b[1..]|);
      Pow2Values();
      assert 8 * |b| == 8 + 8 * |b[1..]|;
    }
  }

  lemma {:induction false} LeBytesNat(b: seq<byte>, c: int)
    ensures LeBytes(LeNat(b) + c * Pow2(8 * |b|), |b|) == b
    decreases |b|
  {
    if b != [] {
      var t := b[1..];
      Pow2Add(8, 8 * |t|);
      Pow2Values();
      assert 8 * |b| == 8 + 8 * |t|;
      var v := LeNat(b) + c * Pow2(8 * |b|);
      Split256(v, b[0], LeNat(t), c, Pow2(8 * |t|));
      LeBytesNat(t, c);
      assert b == [b[0]] + t;
    }
  }

  lemma {:induction false} Split256(v: int, lo: int, hi: int, c: int, d: int)
    requires 0 <= lo < 256 && v == lo + 256 * hi + c * (256 * d)
    ensures v % 256 == lo && v / 256 == hi + c * d
  {
    assert c * (256 * d) == 256 * (c * d);
  }

  /** Packing an unpacked sample gives back its bytes. */
  lemma {:induction false} RepackSample(b: seq<byte>)
    ensures LeBytes(LeSigned(b), |b|) == b
  {
    LeNatBound(b);
    LeBytesNat(b, 0);
    LeBytesNat(b, -1);
  }

  lemma {:induction false} UnpackFits(b: seq<byte>)
    requires b != []
    ensures Fits(LeSigned(b), 8 * |b|)
  {
    LeNatBound(b);
  }

  // ---- interleaved rows ----

  function PackRow(row: seq<int>, w: nat): (b: seq<byte>)
    ensures |b| == |row| * w
  {
    if row == [] then [] else
      RowLength(|row| - 1, w);
      PackRow(row[..|row| - 1], w) + LeBytes(row[|row| - 1], w)
  }

  lemma {:induction false} RowLength(n: nat, w: nat)
    ensures n * w + w == (n + 1) * w
  {
  }

  /** Inter-channel samples, one after another. */
  function PackRows(rows: seq<seq<int>>, w: nat): seq<byte>
  {
    if rows == [] then [] else PackRows(rows[..|rows| - 1], w) + PackRow(rows[|rows| - 1], w)
  }

  function RowOf(ch: seq<seq<int>>, i: nat): (row: seq<int>)
    requires forall c :: 0 <= c < |ch| ==> i < |ch[c]|
    ensures |row| == |ch|
  {
    seq(|ch|, c requires 0 <= c < |ch| => ch[c][i])
  }

  predicate Rectangular(ch: seq<seq<int>>, n: nat)
  {
    forall c :: 0 <= c < |ch| ==> |ch[c]| == n
  }

  function RowsOf(ch: seq<seq<int>>, n: nat): (rows: seq<seq<int>>)
    requires Rectangular(ch, n)
    ensures |rows| == n
  {
    seq(n, i requires 0 <= i < n => RowOf(ch, i))
  }

  /** The interleaved bytes of channels of n samples. */
  function Pack(ch: seq<seq<int>>, n: nat, w: nat): seq<byte>
    requires Rectangular(ch, n)
  {
    PackRows(RowsOf(ch, n), w)
  }

  lemma {:induction false} PackRowsSnoc(rows: seq<seq<int>>, row: seq<int>, w: nat)
    ensures PackRows(rows + [row], w) == PackRows(rows, w) + PackRow(row, w)
  {
    assert (rows + [row])[..|rows|] == rows;
  }

  lemma {:induction false} PackRowSnoc(row: seq<int>, v: int, w: nat)
    ensures PackRow(row + [v], w) == PackRow(row, w) + LeBytes(v, w)
  {
    assert (row + [v])[..|row|] == row;
  }

  /** Every whole sample of the bytes is within the depth. */
  predicate SamplesFit(src: seq<byte>, w: nat, bps: nat)
    requires w > 0
    decreases |src|
  {
    |src| < w || (Fits(LeSigned(src[..w]), bps) && SamplesFit(src[w..], w, bps))
  }

  /** At a depth of whole bytes any bytes will do. */
  lemma {:induction false} WholeByteDepth(src: seq<byte>, w: nat)
    requires w > 0
    ensures SamplesFit(src, w, 8 * w)
    decreases |src|
  {
    if |src| >= w {
      UnpackFits(src[..w]);
      WholeByteDepth(src[w..], w);
    }
  }

  lemma {:induction false} SamplesFitSplit(a: seq<byte>, b: seq<byte>, w: nat, bps: nat)
    requires w > 0 && |a| % w == 0
    ensures SamplesFit(a + b, w, bps) <==> SamplesFit(a, w, bps) && SamplesFit(b, w, bps)
    decreases |a|
  {
    if a == [] {
      assert a + b == b;
    } else {
      OneLess(|a|, w);
      assert (a + b)[..w] == a[..w] && (a + b)[w..] == a[w..] + b;
      SamplesFitSplit(a[w..], b, w, bps);
    }
  }

  lemma {:induction false} SamplesFitPrefix(a: seq<byte>, b: seq<byte>, w: nat, bps: nat)
    requires w > 0 && SamplesFit(a + b, w, bps)
    ensures SamplesFit(a, w, bps)
    decreases |a|
  {
    hide LeSigned, Fits;
    if |a| >= w {
      assert (a + b)[..w] == a[..w] && (a + b)[w..] == a[w..] + b;
      SamplesFitPrefix(a[w..], b, w, bps);
    }
  }

  lemma {:induction false} OneLess(n: nat, w: nat)
    requires w > 0 && n > 0 && n % w == 0
    ensures n >= w && (n - w) % w == 0
  {
    QuotRem(n, w);
    var q: int := n / w;
    assert (q - 1) * w == q * w - w;
    DivModUnique(q - 1, 0, w);
    if n < w { DivModUnique(0, n, w); }
  }

  lemma {:induction false} NextSample(src: seq<byte>, k: nat, w: nat, bps: nat)
    requires w > 0 && k % w == 0 && k + w <= |src| && SamplesFit(src, w, bps)
    ensures Fits(LeSigned(src[k..k + w]), bps)
  {
    assert src == src[..k] + src[k..];
    SamplesFitSplit(src[..k], src[k..], w, bps);
    assert src[k..][..w] == src[k..k + w];
  }

  // ---- the loops ----

  ghost predicate Separate(ch: seq<array<int>>, n: nat)
  {
    && (forall c :: 0 <= c < |ch| ==> ch[c].Length >= n)
    && forall b, c :: 0 <= b < c < |ch| ==> ch[b] != ch[c]
  }

  /** The first n samples of every channel buffer. */
  function Heads(ch: seq<array<int>>, n: nat): (s: seq<seq<int>>)
    requires forall c :: 0 <= c < |ch| ==> ch[c].Length >= n
    reads set c | 0 <= c < |ch| :: ch[c]
    ensures |s| == |ch| && Rectangular(s, n)
  {
    seq(|ch|, c requires 0 <= c < |ch| reads set c | 0 <= c < |ch| :: ch[c] => ch[c][..n])
  }

  /** Reads one inter-channel sample at byte idx into position i of every buffer. */
  method UnpackRow(ch: seq<array<int>>, src: seq<byte>, n: nat, w: nat, i: nat, idx: nat, ghost bps: nat)
    returns (ghost row: seq<int>)
    requires w > 0 && Separate(ch, n) && i < n && idx % w == 0 && idx + |ch| * w <= |src|
    modifies ch
    ensures |row| == |ch| && src[idx..idx + |ch| * w] == PackRow(row, w)
    ensures forall c :: 0 <= c < |ch| ==> ch[c][i] == row[c]
    ensures forall c, j :: 0 <= c < |ch| && 0 <= j < ch[c].Length && j != i ==> ch[c][j] == old(ch[c][j])
    ensures SamplesFit(src, w, bps) ==> AllFit(row, bps)
  {
    hide AllFit, LeSigned, SamplesFit, PackRow, LeBytes;
    var at := idx;
    row := [];
    RowStart(src, idx, w, bps);
    for c := 0 to |ch|
      invariant at == idx + c * w && at % w == 0 && |row| == c
      invariant src[idx..at] == PackRow(row, w) && (SamplesFit(src, w, bps) ==> AllFit(row, bps))
      invariant forall d :: 0 <= d < c ==> ch[d][i] == row[d]
      invariant forall d, j :: 0 <= d < |ch| && 0 <= j < ch[d].Length && j != i ==> ch[d][j] == old(ch[d][j])
    {
      NextIndex(idx, c, |ch|, w, at);
      RowStep(src, idx, at, w, row, bps);
      var v := LeSigned(src[at..at + w]);
      ch[c][i] := v;
      at := at + w;
      row := row + [v];
    }
  }

  lemma {:induction false} RowStart(src: seq<byte>, idx: nat, w: nat, bps: nat)
    requires w > 0 && idx <= |src|
    ensures src[idx..idx] == PackRow([], w) && AllFit([], bps)
  {
    NoRow(w);
    AllFitNone(bps);
  }

  lemma {:induction false} RowStep(src: seq<byte>, idx: nat, at: nat, w: nat, row: seq<int>, bps: nat)
    requires w > 0 && idx <= at && at + w <= |src| && at % w == 0
    requires src[idx..at] == PackRow(row, w) && (SamplesFit(src, w, bps) ==> AllFit(row, bps))
    ensures var r := row + [LeSigned(src[at..at + w])];
      src[idx..at + w] == PackRow(r, w) && (SamplesFit(src, w, bps) ==> AllFit(r, bps))
  {
    hide AllFit, LeSigned, SamplesFit, PackRow, LeBytes;
    var v := LeSigned(src[at..at + w]);
    if SamplesFit(src, w, bps) {
      NextSample(src, at, w, bps);
      AllFitSnoc(row, v, bps);
    }
    RepackSample(src[at..at + w]);
    PackRowSnoc(row, v, w);
    assert src[idx..at + w] == src[idx..at] + src[at..at + w];
  }

  lemma {:induction false} NextIndex(idx: nat, c: nat, m: nat, w: nat, at: nat)
    requires c < m && w > 0 && at == idx + c * w && at % w == 0
    ensures at + w == idx + (c + 1) * w <= idx + m * w && (at + w) % w == 0
  {
    ProductLe(c + 1, m, w);
    QuotRem(at, w);
    assert (at / w + 1) * w == (at / w) * w + w;
    DivModUnique(at / w + 1, 0, w);
  }

  lemma {:induction false} NoRow(w: nat)
    ensures PackRow([], w) == [] && PackRows([], w) == []
  {
  }

  lemma {:induction false} NextRow(i: nat, n: nat, m: nat, w: nat)
    requires i < n && w > 0
    ensures i * (m * w) + m * w == (i + 1) * (m * w) <= n * (m * w)
    ensures (i * (m * w)) % w == 0
  {
    ProductLe(i + 1, n, m * w);
    MulAssoc(i, m, w);
    DivModUnique(i * m, 0, w);
  }

  /** The buffers hold these rows. */
  ghost predicate Holding(ch: seq<array<int>>, rows: seq<seq<int>>)
    reads set c | 0 <= c < |ch| :: ch[c]
  {
    && (forall c :: 0 <= c < |ch| ==> ch[c].Length >= |rows|)
    && (forall j :: 0 <= j < |rows| ==> |rows[j]| == |ch|)
    && forall j, c :: 0 <= j < |rows| && 0 <= c < |ch| ==> ch[c][j] == rows[j][c]
  }

  predicate RowsFit(rows: seq<seq<int>>, bps: nat)
  {
    forall j :: 0 <= j < |rows| ==> AllFit(rows[j], bps)
  }

  lemma {:induction false} HoldingNone(ch: seq<array<int>>, bps: nat)
    ensures Holding(ch, []) && RowsFit([], bps)
  {
  }

  /** Unpacks one more row. */
  method TakeRow(ch: seq<array<int>>, src: seq<byte>, n: nat, w: nat, i: nat, idx: nat, ghost bps: nat,
      ghost rows: seq<seq<int>>)
    returns (ghost more: seq<seq<int>>)
    requires w > 0 && Separate(ch, n) && |rows| == i < n && idx % w == 0 && idx + |ch| * w <= |src|
    requires Holding(ch, rows) && src[..idx] == PackRows(rows, w)
    modifies ch
    ensures |more| == i + 1 && Holding(ch, more) && src[..idx + |ch| * w] == PackRows(more, w)
    ensures SamplesFit(src, w, bps) && RowsFit(rows, bps) ==> RowsFit(more, bps)
  {
    hide AllFit, LeSigned, SamplesFit, PackRows, PackRow, LeBytes;
    var row := UnpackRow(ch, src, n, w, i, idx, bps);
    PackRowsSnoc(rows, row, w);
    assert src[..idx + |ch| * w] == src[..idx] + src[idx..idx + |ch| * w];
    more := rows + [row];
    forall j, c | 0 <= j < |more| && 0 <= c < |ch| ensures ch[c][j] == more[j][c] {
      if j < |rows| { assert more[j] == rows[j]; }
    }
  }

  /** Fills the channel buffers from n interleaved samples with the one content that packs
      back to the bytes; it is within a depth when the bytes are. */
  method Deinterleave(ch: seq<array<int>>, src: seq<byte>, n: nat, w: nat, ghost bps: nat)
    requires w > 0 && |ch| > 0 && Separate(ch, n) && |src| == n * (|ch| * w)
    modifies ch
    ensures Pack(Heads(ch, n), n, w) == src
    ensures SamplesFit(src, w, bps) ==> forall c :: 0 <= c < |ch| ==> AllFit(Heads(ch, n)[c], bps)
  {
    hide AllFit, SamplesFit, PackRows, Holding, RowsFit;
    var idx := 0;
    var frameLen := |ch| * w;
    ghost var rows: seq<seq<int>> := [];
    NoRow(w);
    HoldingNone(ch, bps);
    for i := 0 to n
      invariant |rows| == i && idx == i * frameLen <= |src|
      invariant Holding(ch, rows) && src[..idx] == PackRows(rows, w) && (SamplesFit(src, w, bps) ==> RowsFit(rows, bps))
    {
      NextRow(i, n, |ch|, w);
      rows := TakeRow(ch, src, n, w, i, idx, bps, rows);
      idx := idx + frameLen;
    }
    assert src[..|src|] == src;
    HeadsAre(ch, n, rows, bps);
  }

  lemma {:induction false} HeadsAre(ch: seq<array<int>>, n: nat, rows: seq<seq<int>>, bps: nat)
    requires Separate(ch, n) && |rows| == n && Holding(ch, rows)
    ensures RowsOf(Heads(ch, n), n) == rows
    ensures RowsFit(rows, bps) ==> forall c :: 0 <= c < |ch| ==> AllFit(Heads(ch, n)[c], bps)
  {
    hide Fits;
    var h := Heads(ch, n);
    forall i | 0 <= i < n ensures RowsOf(h, n)[i] == rows[i] {
      assert forall c :: 0 <= c < |ch| ==> h[c][i] == ch[c][i];
    }
    if RowsFit(rows, bps) {
      forall c | 0 <= c < |ch| ensures AllFit(h[c], bps) {
        forall i | 0 <= i < n ensures Fits(h[c][i], bps) {
          assert AllFit(rows[i], bps);
          assert h[c][i] == rows[i][c];
        }
      }
    }
  }

  /** Interleaves the first n samples of the channel buffers behind dst. */
  method AppendPacked(dst: seq<byte>, ch: seq<array<int>>, n: nat, w: nat) returns (buf: seq<byte>)
    requires forall c :: 0 <= c < |ch| ==> ch[c].Length >= n
    ensures buf == dst + Pack(Heads(ch, n), n, w)
  {
    hide PackRows, PackRow, LeBytes;
    buf := dst;
    ghost var rows := RowsOf(Heads(ch, n), n);
    NoRow(w);
    assert rows[..0] == [] && dst + [] == dst;
    for i := 0 to n
      invariant buf == dst + PackRows(rows[..i], w)
    {
      ghost var before := buf;
      assert rows[i][..0] == [] && before + [] == before;
      for c := 0 to |ch|
        invariant buf == before + PackRow(rows[i][..c], w)
      {
        assert rows[i][c] == ch[c][i];
        assert rows[i][..c + 1] == rows[i][..c] + [rows[i][c]];
        PackRowSnoc(rows[i][..c], rows[i][c], w);
        buf := buf + LeBytes(ch[c][i], w);
      }
      assert rows[i][..|ch|] == rows[i];
      assert rows[..i + 1] == rows[..i] + [rows[i]];
      PackRowsSnoc(rows[..i], rows[i], w);
    }
    assert rows[..n] == rows;
  }
}
