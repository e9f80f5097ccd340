/** Partitioned Rice coding of a residual (internal/rice), section 9.2.7 of RFC 9639:
    the bit syntax as a parser and a printer, the methods that read and write it, and
    the round trip. */
module Rice {
  import opened Words
  import opened Cursor
  import opened BitWriter
  import opened BitReader

  // ---- zigzag folding ----

  function Fold(r: int): nat
  {
    if r >= 0 then 2 * r else -2 * r - 1
  }

  function Unfold(u: nat): int
  {
    if u % 2 == 0 then u / 2 else -((u + 1) / 2)
  }

  lemma {:induction false} UnfoldFold(r: int)
    ensures Unfold(Fold(r)) == r
  {
  }

  lemma {:induction false} FoldUnfold(u: nat)
    ensures Fold(Unfold(u)) == u
  {
  }

  /** A folded value fits n bits exactly when the value fits n signed bits. */
  lemma {:induction false} FoldFits(r: int, n: nat)
    requires n > 0
    ensures Fold(r) < Pow2(n) <==> Fits(r, n)
  {
  }

  /** The program's fold: (r<<1) ^ (r>>(n-1)) on n-bit words. */
  function Zigzag(r: int, n: nat): nat
    requires n > 0
  {
    Xor(Unsigned(2 * r, n), Unsigned(r / Pow2(n - 1), n))
  }

  lemma {:induction false} ZigzagFolds(r: int, n: nat)
    requires Fits(r, n)
    ensures Zigzag(r, n) == Fold(r)
  {
    var h := Pow2(n - 1);
    if r >= 0 {
      DivModUnique(0, r, h);
      DivModUnique(0, 2 * r, Pow2(n));
      XorZero(2 * r);
    } else {
      DivModUnique(-1, r + h, h);
      DivModUnique(-1, 2 * r + Pow2(n), Pow2(n));
      DivModUnique(-1, Pow2(n) - 1, Pow2(n));
      XorOnes(2 * r + Pow2(n), n);
    }
  }

  /** The program's unfold: int64(u>>1) ^ -int64(u&1). */
  function Unzigzag(u: nat): int
  {
    Signed(Xor(Shr(u, 1), Unsigned(-(And(u, 1) as int), 64)), 64)
  }

  lemma {:induction false} UnzigzagUnfolds(u: nat)
    requires u < Pow2(64)
    ensures Unzigzag(u) == Unfold(u)
  {
    Pow2Values();
    AndMask(u, 1);
    ShrLowAre(u, 1);
    var h := Shr(u, 1);
    hide Pow2, Shr, Low, And, Xor;
    if u % 2 == 0 {
      DivModUnique(0, 0, Pow2(64));
      XorZero(h);
    } else {
      DivModUnique(-1, Pow2(64) - 1, Pow2(64));
      XorOnes(h, 64);
    }
  }

  /** The bits of a quotient q that reach past a folded value of 32 bits. */
  function HighBits(q: nat, k: nat): nat
    requires k <= 30
  {
    Shr(q, 32 - k)
  }

  /** The folded value with quotient q and remainder r. */
  function Symbol(q: nat, k: nat, r: nat): nat
  {
    ProductLe(0, q, Pow2(k));
    q * Pow2(k) + r
  }

  lemma {:induction false} GetRunStep(s: Stream, p: nat, k: nat, n: nat)
    requires p <= |s.bits| && n > 0
    ensures GetRun(s, p, k, n) == match GetSymbol(s, p, k)
      case Bad(e) => Bad(e)
      case Ok(v, q) => Prepend([v], GetRun(s, q, k, n - 1))
  {
  }

  /** One Rice symbol. */
  function GetSymbol(s: Stream, p: nat, k: nat): (r: Parsed<int>)
    requires p <= |s.bits|
    ensures r.Ok? ==> p < r.pos <= |s.bits|
  {
    var (q, p1) :- GetUnary(s, p);
    var (low, p2) :- GetBits(s, p1, k);
    Ok(Unfold(Symbol(q, k, low)), p2)
  }

  lemma {:induction false} OverStep(a: nat, b: nat)
    ensures Or(a, b) == 0 <==> a == 0 && b == 0
  {
    if a > 0 || b > 0 { OverStep(a / 2, b / 2); }
  }

  lemma {:induction false} ShlIs(v: nat, k: nat)
    ensures Shl64(v, k) == Low(v * Pow2(k), 64)
  {
  }

  /** An in-range symbol is stored exactly. */
  lemma {:induction false} SymbolValue(q: nat, k: nat, r: nat, width: nat)
    requires k <= 30 && r < Pow2(k) && width >= 32 && Fits(Unfold(Symbol(q, k, r)), 32)
    ensures Wrap(Unzigzag(Or(Shl64(q, k), r)), width) == Unfold(Symbol(q, k, r))
  {
    var u := Symbol(q, k, r);
    hide Shl64, Or, Unzigzag, Unfold, Wrap, Low, Pow2;
    FoldUnfold(u);
    FoldFits(Unfold(u), 32);
    Pow2Mono(32, 64);
    ShlIs(q, k);
    LowSmall(q * Pow2(k), 64);
    OrDisjoint(q, r, k);
    UnzigzagUnfolds(u);
    Pow2Mono(31, width - 1);
    WrapFits(Unfold(u), width);
  }

  /** The over-range test is exact. */
  lemma {:induction false} HighBitsExact(q: nat, k: nat, r: nat)
    requires k <= 30 && r < Pow2(k)
    ensures HighBits(q, k) != 0 <==> Symbol(q, k, r) >= Pow2(32)
    ensures HighBits(q, k) != 0 <==> !Fits(Unfold(Symbol(q, k, r)), 32)
  {
    var h := 32 - k;
    Pow2Add(h, k);
    ShrLow(q, h);
    if Shr(q, h) == 0 {
      MulLt(q, Pow2(k), Pow2(h), r);
    } else {
      ProductLe(1, Shr(q, h), Pow2(h));
      ProductLe(Pow2(h), q, Pow2(k));
    }
    var u := Symbol(q, k, r);
    FoldUnfold(u);
    FoldFits(Unfold(u), 32);
  }

  // ---- the syntax, as a parser ----

  /** n Rice symbols with parameter k. Quotients are unbounded: a value outside 32 bits
      is judged only after the residual is read. */
  function GetRun(s: Stream, p: nat, k: nat, n: nat): (r: Parsed<seq<int>>)
    requires p <= |s.bits|
    ensures r.Ok? ==> |r.v| == n && p <= r.pos <= |s.bits|
    decreases n
  {
    if n == 0 then Ok([], p) else
      var (q, p1) :- GetUnary(s, p);
      var (low, p2) :- GetBits(s, p1, k);
      var (rest, p3) :- GetRun(s, p2, k, n - 1);
      Ok([Unfold(Symbol(q, k, low))] + rest, p3)
  }

  /** n raw two's-complement values of the given width. */
  function GetRaw(s: Stream, p: nat, width: nat, n: nat): (r: Parsed<seq<int>>)
    requires p <= |s.bits|
    ensures r.Ok? ==> |r.v| == n && p <= r.pos <= |s.bits|
    decreases n
  {
    if n == 0 then Ok([], p) else
      var (v, p1) :- GetSigned(s, p, width);
      var (rest, p2) :- GetRaw(s, p1, width, n - 1);
      Ok([v] + rest, p2)
  }

  function EscapeCode(paramBits: nat): nat
  {
    if paramBits == 4 then 0x0F else 0x1F
  }

  /** One partition of n values. */
  function GetPart(s: Stream, p: nat, paramBits: nat, n: nat): (r: Parsed<seq<int>>)
    requires p <= |s.bits|
    ensures r.Ok? ==> |r.v| == n && p <= r.pos <= |s.bits|
  {
    var (param, p1) :- GetBits(s, p, paramBits);
    if param == EscapeCode(paramBits) then
      var (raw, p2) :- GetBits(s, p1, 5);
      GetRaw(s, p2, raw, n)
    else GetRun(s, p1, param, n)
  }

  /** m partitions, the first of n values and the others of len. */
  function GetParts(s: Stream, p: nat, paramBits: nat, n: nat, len: nat, m: nat): (r: Parsed<seq<int>>)
    requires p <= |s.bits|
    ensures r.Ok? ==> p <= r.pos <= |s.bits| && Tiles(|r.v|, n, len, m)
    decreases m
  {
    if m == 0 then Ok([], p) else
      var (first, p1) :- GetPart(s, p, paramBits, n);
      var (rest, p2) :- GetParts(s, p1, paramBits, len, len, m - 1);
      Ok(first + rest, p2)
  }

  /** total is made of m partitions, the first of n values and the others of len. */
  predicate Tiles(total: int, n: nat, len: nat, m: nat)
    decreases m
  {
    if m == 0 then total == 0 else Tiles(total - n, len, len, m - 1)
  }

  /** Values per partition at partition order po. */
  function PartLen(blockSize: nat, po: nat): nat
  {
    ShrLowAre(blockSize, po);
    blockSize / Pow2(po)
  }

  /** A block of the given size splits into 2^po partitions that hold the warm-up. */
  predicate Splits(blockSize: nat, order: nat, po: nat)
  {
    blockSize % Pow2(po) == 0 && PartLen(blockSize, po) >= order
  }

  /** The whole residual section of a block. */
  function GetResidual(s: Stream, p: nat, blockSize: nat, order: nat): (r: Parsed<seq<int>>)
    requires p <= |s.bits|
    ensures r.Ok? ==> p <= r.pos <= |s.bits| && |r.v| == blockSize - order
  {
    var (coding, p1) :- GetBits(s, p, 2);
    if coding > 1 then Bad(Unsupported) else
      var (po, p2) :- GetBits(s, p1, 4);
      if !Splits(blockSize, order, po) then Bad(Unsupported)
      else GetSplit(s, p2, 4 + coding, blockSize, order, po)
  }

  function GetSplit(s: Stream, p: nat, paramBits: nat, blockSize: nat, order: nat, po: nat): (r: Parsed<seq<int>>)
    requires p <= |s.bits| && Splits(blockSize, order, po)
    ensures r.Ok? ==> p <= r.pos <= |s.bits| && |r.v| == blockSize - order
  {
    var len := PartLen(blockSize, po);
    var r := GetParts(s, p, paramBits, len - order, len, Pow2(po));
    if r.Ok? then
      SplitsTile(blockSize, order, po);
      TilesUnique(|r.v|, blockSize - order, len - order, len, Pow2(po));
      r
    else r
  }

  lemma {:induction false} TilesTotal(n: nat, len: nat, m: nat)
    requires m > 0
    ensures Tiles(n + (m - 1) * len, n, len, m)
    decreases m
  {
    if m > 1 {
      TilesTotal(len, len, m - 1);
      assert (m - 1) * len == len + (m - 2) * len;
    }
  }

  lemma {:induction false} SplitsTile(blockSize: nat, order: nat, po: nat)
    requires Splits(blockSize, order, po)
    ensures var len := PartLen(blockSize, po);
      Tiles(blockSize - order, len - order, len, Pow2(po))
  {
    var m := Pow2(po);
    var len := PartLen(blockSize, po);
    QuotRem(blockSize, m);
    assert len * m == m * len == len + (m - 1) * len;
    TilesTotal(len - order, len, m);
  }

  lemma {:induction false} TilesUnique(a: int, b: int, n: nat, len: nat, m: nat)
    requires Tiles(a, n, len, m) && Tiles(b, n, len, m)
    ensures a == b
    decreases m
  {
    if m > 0 { TilesUnique(a - n, b - n, len, len, m - 1); }
  }

  // ---- the syntax, as a printer ----

  /** How one partition is coded; payload is its length without the parameter field. */
  datatype PartPlan = PartPlan(escape: bool, param: nat, rawBits: nat, payload: nat)

  function EmitSymbol(u: nat, k: nat): seq<bool>
  {
    UnaryBits(Shr(u, k)) + Bits(u, k)
  }

  function EmitRun(vals: seq<int>, k: nat): seq<bool>
  {
    if vals == [] then [] else EmitSymbol(Fold(vals[0]), k) + EmitRun(vals[1..], k)
  }

  function EmitRaw(vals: seq<int>, width: nat): seq<bool>
  {
    if vals == [] then [] else SignedBits(vals[0], width) + EmitRaw(vals[1..], width)
  }

  function EmitPart(vals: seq<int>, pl: PartPlan, paramBits: nat): seq<bool>
  {
    if pl.escape then Bits(EscapeCode(paramBits), paramBits) + (Bits(pl.rawBits, 5) + EmitRaw(vals, pl.rawBits))
    else Bits(pl.param, paramBits) + EmitRun(vals, pl.param)
  }

  /** The partitions of a residual: the first has n values, the others len. */
  function EmitParts(vals: seq<int>, plans: seq<PartPlan>, paramBits: nat, n: nat, len: nat): seq<bool>
    requires Tiles(|vals|, n, len, |plans|)
    decreases |plans|
  {
    if plans == [] then [] else
      TilesFirst(|vals|, n, len, |plans|);
      EmitPart(vals[..n], plans[0], paramBits) + EmitParts(vals[n..], plans[1..], paramBits, len, len)
  }

  lemma {:induction false} TilesFirst(total: int, n: nat, len: nat, m: nat)
    requires Tiles(total, n, len, m)
    ensures total >= 0 && (m > 0 ==> total >= n)
    decreases m
  {
    if m > 0 { TilesFirst(total - n, len, len, m - 1); }
  }

  /** The residual section under a plan of 2^po partitions. */
  function EmitResidual(vals: seq<int>, plans: seq<PartPlan>, paramBits: nat, blockSize: nat, order: nat,
      po: nat): seq<bool>
    requires Splits(blockSize, order, po) && |vals| == blockSize - order && |plans| == Pow2(po)
    requires 4 <= paramBits <= 5
  {
    SplitsTile(blockSize, order, po);
    var len := PartLen(blockSize, po);
    Bits(paramBits - 4, 2) + (Bits(po, 4) + EmitParts(vals, plans, paramBits, len - order, len))
  }

  /** What a plan must meet for its partition to be readable. */
  predicate Codable(vals: seq<int>, pl: PartPlan, paramBits: nat)
  {
    if pl.escape then pl.rawBits <= 31 && forall v :: v in vals ==> FitsOrZero(v, pl.rawBits)
    else pl.param < EscapeCode(paramBits)
  }

  predicate FitsOrZero(v: int, n: nat)
  {
    if n == 0 then v == 0 else Fits(v, n)
  }

  predicate AllCodable(vals: seq<int>, plans: seq<PartPlan>, paramBits: nat, n: nat, len: nat)
    requires Tiles(|vals|, n, len, |plans|)
    decreases |plans|
  {
    plans == [] || (
      TilesFirst(|vals|, n, len, |plans|);
      && Codable(vals[..n], plans[0], paramBits)
      && AllCodable(vals[n..], plans[1..], paramBits, len, len))
  }

  // ---- the round trip ----

  lemma {:induction false} RunRoundTrip(s: Stream, p: nat, vals: seq<int>, k: nat)
    requires At(s, p, EmitRun(vals, k))
    ensures GetRun(s, p, k, |vals|) == Ok(vals, p + |EmitRun(vals, k)|)
    decreases |vals|
  {
    hide At, GetUnary, GetBits, Bits, UnaryBits, Shr, Low, Fold, Unfold, Pow2;
    if vals != [] {
      var u := Fold(vals[0]);
      var q := Shr(u, k);
      var tail := EmitRun(vals[1..], k);
      AtCat(s, p, EmitSymbol(u, k), tail);
      AtCat(s, p, UnaryBits(q), Bits(u, k));
      ReadBackUnary(s, p, q);
      BitsLow(u, k);
      ShrLow(u, k);
      ReadBack(s, p + q + 1, Low(u, k), k);
      UnfoldFold(vals[0]);
      RunRoundTrip(s, p + q + 1 + k, vals[1..], k);
      assert vals == [vals[0]] + vals[1..];
    }
  }

  lemma {:induction false} RawRoundTrip(s: Stream, p: nat, vals: seq<int>, n: nat)
    requires At(s, p, EmitRaw(vals, n)) && forall v :: v in vals ==> FitsOrZero(v, n)
    ensures GetRaw(s, p, n, |vals|) == Ok(vals, p + |EmitRaw(vals, n)|)
    decreases |vals|
  {
    hide At, GetSigned, SignedBits, Fits;
    if vals != [] {
      assert vals[0] in vals;
      AtCat(s, p, SignedBits(vals[0], n), EmitRaw(vals[1..], n));
      ReadBackSigned(s, p, vals[0], n);
      RawRoundTrip(s, p + n, vals[1..], n);
      assert vals == [vals[0]] + vals[1..];
    }
  }

  lemma {:induction false} PartRoundTrip(s: Stream, p: nat, vals: seq<int>, pl: PartPlan, paramBits: nat)
    requires 4 <= paramBits <= 5
    requires At(s, p, EmitPart(vals, pl, paramBits)) && Codable(vals, pl, paramBits)
    ensures GetPart(s, p, paramBits, |vals|) == Ok(vals, p + |EmitPart(vals, pl, paramBits)|)
  {
    Pow2Values();
    hide At, GetBits, Bits, GetRun, GetRaw, EmitRun, EmitRaw, FitsOrZero, Pow2;
    var code := EscapeCode(paramBits);
    if pl.escape {
      var tail := EmitRaw(vals, pl.rawBits);
      AtCat(s, p, Bits(code, paramBits), Bits(pl.rawBits, 5) + tail);
      AtCat(s, p + paramBits, Bits(pl.rawBits, 5), tail);
      ReadBack(s, p, code, paramBits);
      ReadBack(s, p + paramBits, pl.rawBits, 5);
      RawRoundTrip(s, p + paramBits + 5, vals, pl.rawBits);
    } else {
      AtCat(s, p, Bits(pl.param, paramBits), EmitRun(vals, pl.param));
      ReadBack(s, p, pl.param, paramBits);
      RunRoundTrip(s, p + paramBits, vals, pl.param);
    }
  }

  lemma {:induction false} PartsRoundTrip(s: Stream, p: nat, vals: seq<int>, plans: seq<PartPlan>, paramBits: nat,
      n: nat, len: nat)
    requires 4 <= paramBits <= 5 && Tiles(|vals|, n, len, |plans|)
    requires At(s, p, EmitParts(vals, plans, paramBits, n, len)) && AllCodable(vals, plans, paramBits, n, len)
    ensures GetParts(s, p, paramBits, n, len, |plans|)
         == Ok(vals, p + |EmitParts(vals, plans, paramBits, n, len)|)
    decreases |plans|
  {
    hide At, GetPart, EmitPart, Codable;
    if plans != [] {
      TilesFirst(|vals|, n, len, |plans|);
      var first := EmitPart(vals[..n], plans[0], paramBits);
      AtCat(s, p, first, EmitParts(vals[n..], plans[1..], paramBits, len, len));
      PartRoundTrip(s, p, vals[..n], plans[0], paramBits);
      PartsRoundTrip(s, p + |first|, vals[n..], plans[1..], paramBits, len, len);
      assert vals == vals[..n] + vals[n..];
    }
  }

  /** A plan that the syntax can carry for these values. */
  predicate PlanOk(vals: seq<int>, plans: seq<PartPlan>, paramBits: nat, blockSize: nat, order: nat, po: nat)
  {
    && 4 <= paramBits <= 5 && po <= 15 && Splits(blockSize, order, po)
    && |vals| == blockSize - order && |plans| == Pow2(po)
    && (SplitsTile(blockSize, order, po);
        AllCodable(vals, plans, paramBits, PartLen(blockSize, po) - order, PartLen(blockSize, po)))
  }

  /** Section 9.2.7 of RFC 9639: what is printed under a readable plan is read back. */
  lemma {:induction false} ResidualRoundTrip(s: Stream, p: nat, vals: seq<int>, plans: seq<PartPlan>, paramBits: nat,
      blockSize: nat, order: nat, po: nat)
    requires PlanOk(vals, plans, paramBits, blockSize, order, po)
    requires At(s, p, EmitResidual(vals, plans, paramBits, blockSize, order, po))
    ensures GetResidual(s, p, blockSize, order)
         == Ok(vals, p + |EmitResidual(vals, plans, paramBits, blockSize, order, po)|)
  {
    Pow2Values();
    hide At, GetBits, Bits, GetParts, EmitParts, AllCodable, Tiles, Pow2;
    SplitsTile(blockSize, order, po);
    var len := PartLen(blockSize, po);
    var parts := EmitParts(vals, plans, paramBits, len - order, len);
    AtCat(s, p, Bits(paramBits - 4, 2), Bits(po, 4) + parts);
    AtCat(s, p + 2, Bits(po, 4), parts);
    ReadBack(s, p, paramBits - 4, 2);
    ReadBack(s, p + 2, po, 4);
    PartsRoundTrip(s, p + 6, vals, plans, paramBits, len - order, len);
  }

  // ---- reading into a sample buffer ----

  /** Reads one Rice symbol; high is zero exactly when it fits 32 bits. */
  method ReadSymbol(br: Reader, k: nat, width: nat) returns (res: Result<int>, high: nat)
    requires br.Valid() && k <= 30 && width >= 32
    modifies br.Repr()
    ensures br.Valid() && br.Same() && 0 <= old(br.Pos()) <= |br.Stream().bits|
    ensures match GetSymbol(br.Stream(), old(br.Pos()), k)
      case Bad(e) => res == Result.Error(e)
      case Ok(v, q) => br.Pos() == q && res.Value? && (high == 0 <==> Fits(v, 32)) && (Fits(v, 32) ==> res.v == v)
  {
    hide Reader.Valid, GetUnary, GetBits, Pow2, Shl64, Or, Wrap, Unzigzag, Unfold, HighBits, Fits, Symbol;
    br.Bounds();
    var q := br.ReadUnary();
    if q.Error? { return Result.Error(q.e), 0; }
    br.Bounds();
    var r := br.ReadBits(k);
    if r.Error? { return Result.Error(r.e), 0; }
    HighBitsExact(q.v, k, r.v);
    if Fits(Unfold(Symbol(q.v, k, r.v)), 32) { SymbolValue(q.v, k, r.v, width); }
    return Value(Wrap(Unzigzag(Or(Shl64(q.v, k), r.v)), width)), HighBits(q.v, k);
  }

  /** Stores n Rice symbols at dst[idx..]; over reports one outside 32 bits. */
  method ReadRun(br: Reader, dst: array<int>, idx: nat, k: nat, n: nat, width: nat) returns (res: Result<bool>)
    requires br.Valid() && dst !in br.Repr() && idx + n <= dst.Length && k <= 30 && width >= 32
    modifies br.Repr(), dst
    ensures br.Valid() && br.Same()
    ensures dst[..idx] == old(dst[..idx])
    ensures match GetRun(br.Stream(), old(br.Pos()), k, n)
      case Bad(e) => res == Result.Error(e)
      case Ok(vals, q) => (
        && br.Pos() == q && res == Value(!AllFit(vals, 32))
        && (AllFit(vals, 32) ==> dst[idx..idx + n] == vals))
  {
    hide Reader.Valid, GetSymbol, GetRun, Or, Fits, AllFit;
    AllFitNone(32);
    br.Bounds();
    ghost var s, p := br.Stream(), br.Pos();
    ghost var done: seq<int> := [];
    PrependNothing(GetRun(s, p, k, n));
    var over := 0;
    for i := 0 to n
      invariant br.Valid() && br.Same() && 0 <= br.Pos() <= |s.bits| && |done| == i
      invariant GetRun(s, p, k, n) == Prepend(done, GetRun(s, br.Pos(), k, n - i))
      invariant dst[..idx] == old(dst[..idx])
      invariant over == 0 <==> AllFit(done, 32)
      invariant over == 0 ==> dst[idx..idx + i] == done
    {
      GetRunStep(s, br.Pos(), k, n - i);
      ghost var v := GetSymbol(s, br.Pos(), k);
      var sym, high := ReadSymbol(br, k, width);
      if sym.Error? { return Result.Error(sym.e); }
      OverStep(over, high);
      over := Or(over, high);
      dst[idx + i] := sym.v;
      PrependMore(done, [v.v], GetRun(s, br.Pos(), k, n - i - 1));
      AllFitSnoc(done, v.v, 32);
      done := done + [v.v];
      br.Bounds();
    }
    GetRunNone(s, br.Pos(), k);
    assert done + [] == done;
    res := Value(over != 0);
  }

  /** Stores n raw values of the given width at dst[idx..]. */
  method ReadRaw(br: Reader, dst: array<int>, idx: nat, raw: nat, n: nat, width: nat) returns (res: Result<bool>)
    requires br.Valid() && dst !in br.Repr() && idx + n <= dst.Length && raw <= 31 && width >= 32
    modifies br.Repr(), dst
    ensures br.Valid() && br.Same()
    ensures dst[..idx] == old(dst[..idx])
    ensures match GetRaw(br.Stream(), old(br.Pos()), raw, n)
      case Bad(e) => res == Result.Error(e)
      case Ok(vals, q) => br.Pos() == q && res == Value(false) && AllFit(vals, 32) && dst[idx..idx + n] == vals
  {
    hide Reader.Valid, GetSigned, GetRaw, Pow2, Wrap, Fits;
    br.Bounds();
    ghost var s, p := br.Stream(), br.Pos();
    ghost var done: seq<int> := [];
    PrependNothing(GetRaw(s, p, raw, n));
    for i := 0 to n
      invariant br.Valid() && br.Same() && 0 <= br.Pos() <= |s.bits| && |done| == i
      invariant GetRaw(s, p, raw, n) == Prepend(done, GetRaw(s, br.Pos(), raw, n - i))
      invariant dst[..idx] == old(dst[..idx])
      invariant AllFit(done, 32) && dst[idx..idx + i] == done
    {
      GetRawStep(s, br.Pos(), raw, n - i);
      var v := br.ReadSigned(raw);
      if v.Error? { return Result.Error(v.e); }
      NarrowRaw(v.v, raw, width);
      dst[idx + i] := Wrap(v.v, width);
      PrependMore(done, [v.v], GetRaw(s, br.Pos(), raw, n - i - 1));
      done := done + [v.v];
      br.Bounds();
    }
    GetRawNone(s, br.Pos(), raw);
    res := Value(false);
  }

  lemma {:induction false} NarrowRaw(v: int, raw: nat, width: nat)
    requires raw <= 31 && FitsOrZero(v, raw) && width >= 32
    ensures Fits(v, 32) && Wrap(v, width) == v
  {
    hide Wrap;
    if raw > 0 { Pow2Mono(raw - 1, 31); }
    Pow2Mono(31, width - 1);
    hide Pow2;
    WrapFits(v, width);
  }

  method ReadPart(br: Reader, dst: array<int>, idx: nat, paramBits: nat, n: nat, width: nat) returns (res: Result<bool>)
    requires br.Valid() && dst !in br.Repr() && idx + n <= dst.Length && 4 <= paramBits <= 5 && width >= 32
    modifies br.Repr(), dst
    ensures br.Valid() && br.Same()
    ensures dst[..idx] == old(dst[..idx])
    ensures match GetPart(br.Stream(), old(br.Pos()), paramBits, n)
      case Bad(e) => res == Result.Error(e)
      case Ok(vals, q) => (
        && br.Pos() == q && res == Value(!AllFit(vals, 32))
        && (AllFit(vals, 32) ==> dst[idx..idx + n] == vals))
  {
    hide Reader.Valid, GetBits, GetRun, GetRaw, AllFit;
    br.Bounds();
    var param := br.ReadBits(paramBits);
    if param.Error? { return Result.Error(param.e); }
    Pow2Values();
    hide Pow2;
    if param.v == EscapeCode(paramBits) {
      br.Bounds();
      var raw := br.ReadBits(5);
      if raw.Error? { return Result.Error(raw.e); }
      res := ReadRaw(br, dst, idx, raw.v, n, width);
    } else {
      res := ReadRun(br, dst, idx, param.v, n, width);
    }
  }

  /** Decodes the residual of a subframe into dst[order..]. A value outside 32 bits is
      reported, as false, only after the whole residual is read, and moves no later bit. */
  method DecodeResidual(br: Reader, dst: array<int>, order: nat, width: nat) returns (res: Result<bool>)
    requires br.Valid() && dst !in br.Repr() && order <= dst.Length && width >= 32
    modifies br.Repr(), dst
    ensures br.Valid() && br.Same()
    ensures dst[..order] == old(dst[..order])
    ensures match GetResidual(br.Stream(), old(br.Pos()), dst.Length, order)
      case Bad(e) => res == Result.Error(e)
      case Ok(vals, q) => (
        && br.Pos() == q && res == Value(AllFit(vals, 32))
        && (AllFit(vals, 32) ==> dst[order..] == vals))
  {
    hide Reader.Valid, GetBits, GetParts, Pow2, AllFit;
    br.Bounds();
    var coding := br.ReadBits(2);
    if coding.Error? { return Result.Error(coding.e); }
    if coding.v > 1 { return Result.Error(Unsupported); }
    br.Bounds();
    var po := br.ReadBits(4);
    if po.Error? { return Result.Error(po.e); }
    if !Splits(dst.Length, order, po.v) { return Result.Error(Unsupported); }
    SplitsTile(dst.Length, order, po.v);
    var len := PartLen(dst.Length, po.v);
    res := DecodeParts(br, dst, order, 4 + coding.v, len, Pow2(po.v), width);
  }

  /** The loop over the partitions of a residual. */
  method DecodeParts(br: Reader, dst: array<int>, order: nat, paramBits: nat, len: nat, m: nat, width: nat)
    returns (res: Result<bool>)
    requires br.Valid() && dst !in br.Repr() && 4 <= paramBits <= 5 && width >= 32
    requires order <= len && order <= dst.Length && Tiles(dst.Length - order, len - order, len, m)
    modifies br.Repr(), dst
    ensures br.Valid() && br.Same()
    ensures dst[..order] == old(dst[..order])
    ensures 0 <= old(br.Pos()) <= |br.Stream().bits|
    ensures match GetParts(br.Stream(), old(br.Pos()), paramBits, len - order, len, m)
      case Bad(e) => res == Result.Error(e)
      case Ok(vals, q) => (
        && br.Pos() == q && res == Value(AllFit(vals, 32))
        && (AllFit(vals, 32) ==> dst[order..] == vals))
  {
    hide Reader.Valid, GetPart, GetParts, AllFit, Tiles, SoFar, Prepend, ByteBits;
    br.Bounds();
    ghost var s := br.Stream();
    ghost var all, done: seq<int> := GetParts(s, br.Pos(), paramBits, len - order, len, m), [];
    assert dst[order..order] == [];
    SoFarNothing(all);
    var idx := order;
    var over := false;
    var n := len - order;
    for p := 0 to m
      invariant br.Valid() && br.Same() && 0 <= br.Pos() <= |s.bits|
      invariant n == (if p == 0 then len - order else len) && idx == order + |done| <= dst.Length
      invariant Tiles(dst.Length - idx, n, len, m - p)
      invariant dst[..order] == old(dst[..order])
      invariant SoFar(all, GetParts(s, br.Pos(), paramBits, n, len, m - p), done, over, dst[order..idx])
    {
      TilesStep(dst.Length - idx, n, len, m - p);
      GetPartsStep(s, br.Pos(), paramBits, n, len, m - p);
      ghost var front, stored, parsed := dst[..idx], dst[order..idx], GetPart(s, br.Pos(), paramBits, n);
      ghost var was := GetParts(s, br.Pos(), paramBits, n, len, m - p);
      assert front[order..] == stored;
      var bad := ReadPart(br, dst, idx, paramBits, n, width);
      if bad.Error? {
        SoFarBad(all, was, done, over, stored);
        return Result.Error(bad.e);
      }
      assert dst[..order] == front[..order] && dst[order..idx + n] == stored + dst[idx..idx + n];
      br.Bounds();
      SoFarMore(all, was, done, over, stored, parsed.v, bad.v, dst[idx..idx + n],
        GetParts(s, br.Pos(), paramBits, len, len, m - p - 1));
      over := over || bad.v;
      done := done + parsed.v;
      idx := idx + n;
      n := len;
    }
    PartsNone(s, br.Pos(), paramBits, n, len, dst.Length - idx);
    SoFarAll(all, br.Pos(), done, over, dst[order..idx]);
    res := Value(!over);
  }

  /** The values parsed so far, whether one of them exceeds 32 bits, and otherwise what is
      stored of them. */
  ghost predicate SoFar(all: Parsed<seq<int>>, rest: Parsed<seq<int>>, done: seq<int>, over: bool, stored: seq<int>)
  {
    all == Prepend(done, rest) && over == !AllFit(done, 32) && (!over ==> stored == done)
  }

  lemma {:induction false} SoFarNothing(all: Parsed<seq<int>>)
    ensures SoFar(all, all, [], false, [])
  {
    PrependNothing(all);
    AllFitNone(32);
  }

  lemma {:induction false} SoFarBad(all: Parsed<seq<int>>, rest: Parsed<seq<int>>, done: seq<int>, over: bool,
      stored: seq<int>)
    requires SoFar(all, rest, done, over, stored) && rest.Bad?
    ensures all == rest
  {
  }

  lemma {:induction false} SoFarMore(all: Parsed<seq<int>>, was: Parsed<seq<int>>, done: seq<int>, over: bool,
      stored: seq<int>, v: seq<int>, bad: bool, more: seq<int>, rest: Parsed<seq<int>>)
    requires SoFar(all, was, done, over, stored) && was == Prepend(v, rest)
    requires bad == !AllFit(v, 32) && (!bad ==> more == v)
    ensures SoFar(all, rest, done + v, over || bad, stored + more)
  {
    hide AllFit;
    PrependMore(done, v, rest);
    AllFitCat(done, v, 32);
  }

  lemma {:induction false} SoFarAll(all: Parsed<seq<int>>, p: nat, done: seq<int>, over: bool, stored: seq<int>)
    requires SoFar(all, Ok([], p), done, over, stored)
    ensures all == Ok(done, p) && over == !AllFit(done, 32) && (!over ==> stored == done)
  {
    hide AllFit;
    assert done + [] == done;
  }

  lemma {:induction false} AllFitCat(a: seq<int>, b: seq<int>, n: nat)
    ensures AllFit(a + b, n) <==> AllFit(a, n) && AllFit(b, n)
  {
    if AllFit(a + b, n) {
      forall i | 0 <= i < |a| ensures Fits(a[i], n) { assert (a + b)[i] == a[i]; }
      forall i | 0 <= i < |b| ensures Fits(b[i], n) { assert (a + b)[|a| + i] == b[i]; }
    }
  }

  lemma {:induction false} PartsNone(s: Stream, p: nat, paramBits: nat, n: nat, len: nat, total: int)
    requires p <= |s.bits| && Tiles(total, n, len, 0)
    ensures GetParts(s, p, paramBits, n, len, 0) == Ok([], p) && total == 0
  {
  }

  lemma {:induction false} GetRawStep(s: Stream, p: nat, raw: nat, n: nat)
    requires p <= |s.bits| && n > 0
    ensures GetRaw(s, p, raw, n) == match GetSigned(s, p, raw)
      case Bad(e) => Bad(e)
      case Ok(v, q) => Prepend([v], GetRaw(s, q, raw, n - 1))
  {
  }

  lemma {:induction false} GetRawNone(s: Stream, p: nat, raw: nat)
    requires p <= |s.bits|
    ensures GetRaw(s, p, raw, 0) == Ok([], p)
  {
  }

  lemma {:induction false} GetPartsStep(s: Stream, p: nat, paramBits: nat, n: nat, len: nat, m: nat)
    requires p <= |s.bits| && m > 0
    ensures GetParts(s, p, paramBits, n, len, m) == match GetPart(s, p, paramBits, n)
      case Bad(e) => Bad(e)
      case Ok(v, q) => Prepend(v, GetParts(s, q, paramBits, len, len, m - 1))
  {
  }

  lemma {:induction false} TilesStep(total: int, n: nat, len: nat, m: nat)
    requires Tiles(total, n, len, m) && m > 0
    ensures n <= total && Tiles(total - n, len, len, m - 1)
  {
    TilesFirst(total, n, len, m);
  }

  lemma {:induction false} GetRunNone(s: Stream, p: nat, k: nat)
    requires p <= |s.bits|
    ensures GetRun(s, p, k, 0) == Ok([], p)
  {
  }

  lemma {:induction false} PrependNothing<T>(r: Parsed<seq<T>>)
    ensures Prepend([], r) == r
  {
    if r.Ok? { assert [] + r.v == r.v; }
  }

  lemma {:induction false} PrependMore<T>(a: seq<T>, b: seq<T>, r: Parsed<seq<T>>)
    ensures Prepend(a, Prepend(b, r)) == Prepend(a + b, r)
  {
    if r.Ok? { assert a + (b + r.v) == a + b + r.v; }
  }

  function Prepend<T>(done: seq<T>, r: Parsed<seq<T>>): Parsed<seq<T>>
  {
    match r
    case Ok(t, e) => Ok(done + t, e)
    case Bad(e) => Bad(e)
  }
}
