/** Writing a planned residual (internal/rice/encode.go, WritePlanned). */
module RiceWriter {
  import opened Words
  import opened BitWriter
  import opened Rice

  /** Stop bit and remainder written as one field are the same bits as unary, then
      remainder. */
  lemma {:induction false} CombinedSymbol(u: nat, k: nat)
    ensures Bits(Or(Pow2(k), And(u, Pow2(k) - 1)), Shr(u, k) + 1 + k) == EmitSymbol(u, k)
  {
    var q := Shr(u, k);
    AndMask(u, k);
    ShrLow(u, k);
    OrDisjoint(1, Low(u, k), k);
    BitsJoin(1, q + 1, Low(u, k), k);
    UnaryIsOne(q);
    BitsLow(u, k);
  }

  /** One Rice symbol, in one field of up to 57 bits when it fits. */
  method WriteSymbol(bw: Writer, r: int, k: nat, width: nat)
    requires bw.Valid() && k <= 30 && 32 <= width && Fits(r, width)
    modifies bw
    ensures bw.Valid() && bw.Contents() == old(bw.Contents()) + EmitSymbol(Fold(r), k)
  {
    hide Pow2, Fits, And, Or, Shr;
    var u := Zigzag(r, width);
    ZigzagFolds(r, width);
    var q := Shr(u, k);
    if q <= 56 - k {
      CombinedSymbol(u, k);
      bw.WriteBits(Or(Pow2(k), And(u, Pow2(k) - 1)), q + 1 + k);
    } else {
      bw.WriteUnary(q);
      AndMask(u, k);
      BitsLow(u, k);
      bw.WriteBits(And(u, Pow2(k) - 1), k);
    }
  }

  method WritePart(bw: Writer, res: seq<int>, pl: PartPlan, paramBits: nat, width: nat)
    requires bw.Valid() && 4 <= paramBits <= 5 && 32 <= width && Codable(res, pl, paramBits)
    requires AllFit(res, width)
    modifies bw
    ensures bw.Valid() && bw.Contents() == old(bw.Contents()) + EmitPart(res, pl, paramBits)
  {
    hide Pow2, Fits, EmitSymbol, Bits, SignedBits, Writer.Valid, Writer.Contents;
    ghost var c0 := bw.Contents();
    if pl.escape {
      bw.WriteBits(EscapeCode(paramBits), paramBits);
      bw.WriteBits(pl.rawBits, 5);
      ghost var c1 := bw.Contents();
      assert res[0..] == res;
      for i := 0 to |res|
        invariant bw.Valid() && bw.Contents() + EmitRaw(res[i..], pl.rawBits) == c1 + EmitRaw(res, pl.rawBits)
      {
        EmitRawStep(res, i, pl.rawBits);
        Regroup(bw.Contents(), SignedBits(res[i], pl.rawBits), EmitRaw(res[i + 1..], pl.rawBits));
        bw.WriteSignedBits(res[i], pl.rawBits);
      }
      assert bw.Contents() + [] == bw.Contents();
      Regroup(c0, Bits(EscapeCode(paramBits), paramBits), Bits(pl.rawBits, 5) + EmitRaw(res, pl.rawBits));
      Regroup(c0 + Bits(EscapeCode(paramBits), paramBits), Bits(pl.rawBits, 5), EmitRaw(res, pl.rawBits));
    } else {
      bw.WriteBits(pl.param, paramBits);
      ghost var c1 := bw.Contents();
      assert res[0..] == res;
      for i := 0 to |res|
        invariant bw.Valid() && bw.Contents() + EmitRun(res[i..], pl.param) == c1 + EmitRun(res, pl.param)
      {
        EmitRunStep(res, i, pl.param);
        Regroup(bw.Contents(), EmitSymbol(Fold(res[i]), pl.param), EmitRun(res[i + 1..], pl.param));
        WriteSymbol(bw, res[i], pl.param, width);
      }
      assert bw.Contents() + [] == bw.Contents();
      Regroup(c0, Bits(pl.param, paramBits), EmitRun(res, pl.param));
    }
  }

  lemma {:induction false} EmitRawStep(vals: seq<int>, i: nat, n: nat)
    requires i < |vals|
    ensures EmitRaw(vals[i..], n) == SignedBits(vals[i], n) + EmitRaw(vals[i + 1..], n)
  {
    assert vals[i..][1..] == vals[i + 1..];
  }

  lemma {:induction false} EmitRunStep(vals: seq<int>, i: nat, k: nat)
    requires i < |vals|
    ensures EmitRun(vals[i..], k) == EmitSymbol(Fold(vals[i]), k) + EmitRun(vals[i + 1..], k)
  {
    assert vals[i..][1..] == vals[i + 1..];
  }

  lemma {:induction false} Regroup(a: seq<bool>, b: seq<bool>, c: seq<bool>)
    ensures (a + b) + c == a + (b + c)
  {
  }

  /** The length the plans account for: fields and payloads. */
  function PlannedBits(plans: seq<PartPlan>, paramBits: nat): nat
  {
    if plans == [] then 0 else paramBits + plans[0].payload + PlannedBits(plans[1..], paramBits)
  }

  lemma {:induction false} PlannedStep(plans: seq<PartPlan>, i: nat, paramBits: nat)
    requires i < |plans|
    ensures PlannedBits(plans[i..], paramBits) == paramBits + plans[i].payload + PlannedBits(plans[i + 1..], paramBits)
  {
    assert plans[i..][1..] == plans[i + 1..];
  }

  lemma {:induction false} LenPow2(n: nat)
    ensures Len(Pow2(n)) == n + 1
  {
    if n > 0 {
      LenPow2(n - 1);
      assert Pow2(n) / 2 == Pow2(n - 1);
    } else {
      assert Len(1) == 1 + Len(0);
    }
  }

  /** Emits the residual under a plan found earlier; the partition order is recovered
      from the number of partitions. */
  method WritePlanned(bw: Writer, res: seq<int>, order: nat, blockSize: nat, plans: seq<PartPlan>, paramBits: nat,
      width: nat, ghost order2: nat) returns (written: nat)
    requires bw.Valid() && 32 <= width && AllFit(res, width)
    requires PlanOk(res, plans, paramBits, blockSize, order, order2)
    modifies bw
    ensures bw.Valid()
    ensures bw.Contents() == old(bw.Contents()) + EmitResidual(res, plans, paramBits, blockSize, order, order2)
    ensures written == 6 + PlannedBits(plans, paramBits)
  {
    hide Fits, Pow2, Bits, EmitParts, AllCodable, PlannedBits, Tiles, Writer.Valid, Writer.Contents;
    LenPow2(order2);
    var po := Len(|plans|) - 1;
    ghost var c0 := bw.Contents();
    SplitsTile(blockSize, order, po);
    bw.WriteBits(if paramBits == 5 then 1 else 0, 2);
    bw.WriteBits(po, 4);
    var len := PartLen(blockSize, po);
    var parts := WriteParts(bw, res, plans, paramBits, len - order, len, width);
    written := 6 + parts;
    var e := EmitParts(res, plans, paramBits, len - order, len);
    Regroup(c0, Bits(paramBits - 4, 2), Bits(po, 4) + e);
    Regroup(c0 + Bits(paramBits - 4, 2), Bits(po, 4), e);
  }

  method WriteParts(bw: Writer, res: seq<int>, plans: seq<PartPlan>, paramBits: nat, first: nat, len: nat, width: nat)
    returns (written: nat)
    requires bw.Valid() && 4 <= paramBits <= 5 && 32 <= width && AllFit(res, width)
    requires Tiles(|res|, first, len, |plans|) && AllCodable(res, plans, paramBits, first, len)
    modifies bw
    ensures bw.Valid() && bw.Contents() == old(bw.Contents()) + EmitParts(res, plans, paramBits, first, len)
    ensures written == PlannedBits(plans, paramBits)
  {
    hide Fits, EmitPart, Codable, Writer.Valid, Writer.Contents, Tiles, AllCodable, EmitParts, PlannedBits;
    var idx, n := 0, first;
    written := 0;
    assert res[0..] == res && plans[0..] == plans;
    for p := 0 to |plans|
      invariant bw.Valid() && 0 <= idx <= |res| && n == (if p == 0 then first else len)
      invariant Tiles(|res[idx..]|, n, len, |plans[p..]|) && AllCodable(res[idx..], plans[p..], paramBits, n, len)
      invariant bw.Contents() + EmitParts(res[idx..], plans[p..], paramBits, n, len)
        == old(bw.Contents()) + EmitParts(res, plans, paramBits, first, len)
      invariant written + PlannedBits(plans[p..], paramBits) == PlannedBits(plans, paramBits)
    {
      PartsStep(res, plans, idx, p, paramBits, n, len);
      PlannedStep(plans, p, paramBits);
      var part := res[idx..idx + n];
      Regroup(bw.Contents(), EmitPart(part, plans[p], paramBits),
        EmitParts(res[idx + n..], plans[p + 1..], paramBits, len, len));
      WritePart(bw, part, plans[p], paramBits, width);
      written := written + paramBits + plans[p].payload;
      idx, n := idx + n, len;
    }
    PartsEnd(res[idx..], plans[|plans|..], paramBits, n, len);
    assert bw.Contents() + [] == bw.Contents();
  }

  lemma {:induction false} PartsStep(res: seq<int>, plans: seq<PartPlan>, idx: nat, p: nat, paramBits: nat, n: nat,
      len: nat)
    requires idx <= |res| && p < |plans| && Tiles(|res[idx..]|, n, len, |plans[p..]|)
    requires AllCodable(res[idx..], plans[p..], paramBits, n, len)
    ensures idx + n <= |res| && Tiles(|res[idx + n..]|, len, len, |plans[p + 1..]|)
    ensures Codable(res[idx..idx + n], plans[p], paramBits)
      && AllCodable(res[idx + n..], plans[p + 1..], paramBits, len, len)
    ensures EmitParts(res[idx..], plans[p..], paramBits, n, len)
         == EmitPart(res[idx..idx + n], plans[p], paramBits)
           + EmitParts(res[idx + n..], plans[p + 1..], paramBits, len, len)
  {
    hide Codable, EmitPart;
    TilesStep(|res[idx..]|, n, len, |plans[p..]|);
    assert res[idx..][..n] == res[idx..idx + n] && res[idx..][n..] == res[idx + n..];
    assert plans[p..][1..] == plans[p + 1..];
  }

  lemma {:induction false} PartsEnd(res: seq<int>, plans: seq<PartPlan>, paramBits: nat, n: nat, len: nat)
    requires plans == [] && Tiles(|res|, n, len, 0)
    ensures EmitParts(res, plans, paramBits, n, len) == [] && PlannedBits(plans, paramBits) == 0
  {
  }
}
