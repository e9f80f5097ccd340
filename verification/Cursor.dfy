/** What the bit reader must compute: a cursor over a plain list of bits. */
module Cursor {
  import opened Words

  datatype Error = EOF | UnexpectedEOF | IO | Unsupported | CrcMismatch | OutOfRange
    | MissingStreamInfo | Truncated | Md5Mismatch | InvalidSeek | SeekUnsupported | Closed | PartialSample | WrongTotal

  datatype Option<+T> = None | Some(value: T)

  /** A value read, with the position after it, or the error that stopped the read. */
  datatype Parsed<+T> = Ok(v: T, pos: nat) | Bad(e: Error) {
    predicate IsFailure() { Bad? }
    function PropagateFailure<U>(): Parsed<U>
      requires Bad?
    {
      Bad(e)
    }
    function Extract(): (T, nat)
      requires Ok?
    {
      (v, pos)
    }
  }

  /** The outcome of an operation whose position is kept in an object. */
  datatype Result<+T> = Value(v: T) | Error(e: Error) {
    predicate IsFailure() { Error? }
    function PropagateFailure<U>(): Result<U>
      requires Error?
    {
      Result.Error(e)
    }
    function Extract(): T
      requires Value?
    {
      v
    }
  }

  /** All the bits a source delivers and the error it ends with. */
  datatype Stream = Stream(bits: seq<bool>, end: Error)

  /** A read cut short inside a value. */
  function Cut(e: Error): Error
  {
    if e == EOF then UnexpectedEOF else e
  }

  function GetBits(s: Stream, p: nat, n: nat): (r: Parsed<nat>)
    requires p <= |s.bits|
    ensures r.Ok? ==> r.pos == p + n <= |s.bits| && r.v < Pow2(n)
  {
    if p + n <= |s.bits| then
      ValBound(s.bits[p..p + n]);
      Ok(Val(s.bits[p..p + n]), p + n)
    else Bad(if p == |s.bits| then s.end else Cut(s.end))
  }

  function GetSigned(s: Stream, p: nat, n: nat): (r: Parsed<int>)
    requires p <= |s.bits|
    ensures r.Ok? ==> r.pos == p + n <= |s.bits| && (n > 0 ==> Fits(r.v, n)) && (n == 0 ==> r.v == 0)
  {
    if n == 0 then Ok(0, p) else
      var (u, q) :- GetBits(s, p, n);
      Ok(Signed(u, n), q)
  }

  /** The number of zeros before the next one. */
  function GetUnary(s: Stream, p: nat): (r: Parsed<nat>)
    requires p <= |s.bits|
    ensures r.Ok? ==> r.pos == p + r.v + 1 <= |s.bits|
    decreases |s.bits| - p
  {
    if p == |s.bits| then Bad(s.end)
    else if s.bits[p] then Ok(0, p + 1)
    else
      var (q, e) :- GetUnary(s, p + 1);
      Ok(q + 1, e)
  }

  function Plus(k: nat, r: Parsed<nat>): Parsed<nat>
  {
    match r
    case Ok(q, e) => Ok(q + k, e)
    case Bad(e) => Bad(e)
  }

  /** The position after the padding to a byte boundary. */
  function AlignPos(p: nat): nat
  {
    p + (8 - p % 8) % 8
  }

  /** Skipping k zeros of a unary number. */
  lemma {:induction false} UnarySkip(s: Stream, p: nat, k: nat)
    requires p + k <= |s.bits| && forall i :: p <= i < p + k ==> !s.bits[i]
    ensures GetUnary(s, p) == Plus(k, GetUnary(s, p + k))
    decreases k
  {
    if k > 0 { UnarySkip(s, p + 1, k - 1); }
  }

  lemma {:induction false} UnaryOne(s: Stream, p: nat)
    requires p < |s.bits| && s.bits[p]
    ensures GetUnary(s, p) == Ok(0, p + 1)
  {
  }

  lemma {:induction false} UnaryEnd(s: Stream, p: nat)
    requires p == |s.bits|
    ensures GetUnary(s, p) == Bad(s.end)
  {
  }

  // ---- reading what was printed ----

  /** The bits w are in the stream at position p. */
  ghost predicate At(s: Stream, p: nat, w: seq<bool>)
  {
    p + |w| <= |s.bits| && s.bits[p..p + |w|] == w
  }

  lemma {:induction false} AtBound(s: Stream, p: nat, w: seq<bool>)
    requires At(s, p, w)
    ensures p + |w| <= |s.bits|
  {
  }

  lemma {:induction false} FrontAt(bytes: seq<byte>, rest: seq<byte>, end: Error)
    ensures At(Stream(ByteBits(bytes + rest), end), 0, ByteBits(bytes))
  {
    ByteBitsCat(bytes, rest);
  }

  lemma {:induction false} ByteRead(s: Stream, p: nat)
    requires p <= |s.bits| && GetBits(s, p, 8).Ok?
    ensures GetBits(s, p, 8).v < 0x100
  {
    Pow2Values();
  }

  lemma {:induction false} AtCat(s: Stream, p: nat, a: seq<bool>, b: seq<bool>)
    requires At(s, p, a + b)
    ensures At(s, p, a) && At(s, p + |a|, b)
  {
    var w := s.bits[p..p + |a| + |b|];
    assert w == a + b;
    assert s.bits[p..p + |a|] == w[..|a|];
    assert s.bits[p + |a|..p + |a| + |b|] == w[|a|..];
  }

  lemma {:induction false} ReadBack(s: Stream, p: nat, v: nat, n: nat)
    requires At(s, p, Bits(v, n)) && v < Pow2(n)
    ensures GetBits(s, p, n) == Ok(v, p + n)
  {
    ValBitsSmall(v, n);
  }

  lemma {:induction false} ReadBackSigned(s: Stream, p: nat, v: int, n: nat)
    requires At(s, p, SignedBits(v, n)) && (n == 0 ==> v == 0) && (n > 0 ==> Fits(v, n))
    ensures GetSigned(s, p, n) == Ok(v, p + n)
  {
    if n > 0 {
      ReadBack(s, p, Unsigned(v, n), n);
      WrapFits(v, n);
    }
  }

  lemma {:induction false} ReadBackUnary(s: Stream, p: nat, q: nat)
    requires At(s, p, UnaryBits(q))
    ensures GetUnary(s, p) == Ok(q, p + q + 1)
  {
    var w := s.bits[p..p + q + 1];
    forall i | p <= i < p + q ensures !s.bits[i] { assert s.bits[i] == w[i - p]; }
    assert s.bits[p + q] == w[q];
    UnarySkip(s, p, q);
    UnaryOne(s, p + q);
  }
}
