/** The bit reader of internal/bitio/reader.go: a block buffer refilled from a source
    that splits its bytes as it likes, a 64-bit accumulator, and a checksum tap. */
module BitReader {
  import opened Words
  import opened Accumulator
  import opened Cursor
  import opened Crc

  /** A byte source. Each Read returns any nonempty part of what is left; the error that
      ends the source comes alone or, unless the source is separate, with the last bytes. */
  class Source {
    var rest: seq<byte>
    const end: Error
    const separate: bool

    constructor (bytes: seq<byte>, end: Error, separate: bool)
      ensures rest == bytes && this.end == end && this.separate == separate
    {
      this.rest := bytes;
      this.end := end;
      this.separate := separate;
    }

    method Read(room: nat) returns (p: seq<byte>, e: Option<Error>)
      requires room > 0
      modifies this
      ensures |p| <= room && old(rest) == p + rest
      ensures e == None ==> p != []
      ensures e.Some? ==> e.value == end && rest == []
      ensures e.Some? && separate ==> p == []
    {
      if rest == [] {
        return [], Some(end);
      }
      var n: nat :| 1 <= n <= room && n <= |rest|;
      p, rest, e := rest[..n], rest[n..], None;
      if rest == [] && !separate {
        var together: bool := *;
        if together { e := Some(end); }
      }
    }
  }

  // ---- what the fields mean, as predicates on values ----

  /** part and then rest are what data holds from byte base on. */
  ghost predicate Window(data: seq<byte>, base: nat, part: seq<byte>, rest: seq<byte>)
  {
    base <= |data| && data[base..] == part + rest
  }

  /** s is the bits of data that end just before byte loaded. */
  ghost predicate Loaded(data: seq<byte>, loaded: nat, s: seq<bool>)
  {
    && |s| <= 8 * loaded <= 8 * |data|
    && ByteBits(data)[8 * loaded - |s|..8 * loaded] == s
  }

  /** The tap holds what it held before and then bytes from..to of data, in order. */
  ghost predicate Tapped(scratch: seq<byte>, pre: seq<byte>, data: seq<byte>, from: int, to: int)
  {
    0 <= from <= to <= |data| && scratch == pre + data[from..to]
  }

  lemma {:induction false} WindowDrop(data: seq<byte>, base: nat, part: seq<byte>, rest: seq<byte>, k: nat)
    requires Window(data, base, part, rest) && k <= |part|
    ensures Window(data, base + k, part[k..], rest)
  {
    assert data[base..][k..] == data[base + k..];
    assert (part + rest)[k..] == part[k..] + rest;
  }

  lemma {:induction false} WindowGrow(data: seq<byte>, base: nat, part: seq<byte>, p: seq<byte>, rest: seq<byte>)
    requires Window(data, base, part, p + rest)
    ensures Window(data, base, part + p, rest)
  {
    assert part + (p + rest) == part + p + rest;
  }

  lemma {:induction false} WindowAt(data: seq<byte>, base: nat, part: seq<byte>, rest: seq<byte>, i: nat, j: nat)
    requires Window(data, base, part, rest) && i <= j <= |part|
    ensures base + j <= |data| && part[i..j] == data[base + i..base + j]
    ensures i < j ==> part[i] == data[base + i]
    ensures rest == [] ==> base + |part| == |data|
  {
    assert |data[base..]| == |part| + |rest|;
    assert data[base..][i..j] == data[base + i..base + j];
    assert (part + rest)[i..j] == part[i..j];
    if i < j { assert data[base + i..base + j][0] == part[i..j][0]; }
  }

  lemma {:induction false} LoadedMore(data: seq<byte>, loaded: nat, s: seq<bool>, k: nat)
    requires Loaded(data, loaded, s) && loaded + k <= |data|
    ensures Loaded(data, loaded + k, s + ByteBits(data[loaded..loaded + k]))
  {
    var b := ByteBits(data);
    var m := loaded + k;
    ByteBitsSlice(data, loaded, m);
    assert b[8 * loaded - |s|..8 * m] == b[8 * loaded - |s|..8 * loaded] + b[8 * loaded..8 * m];
  }

  lemma {:induction false} LoadedDrop(data: seq<byte>, loaded: nat, s: seq<bool>, k: nat)
    requires Loaded(data, loaded, s) && k <= |s|
    ensures Loaded(data, loaded, s[k..])
    ensures s[..k] == ByteBits(data)[8 * loaded - |s|..8 * loaded - |s| + k]
  {
    hide ByteBits;
    var b, i := ByteBits(data), 8 * loaded - |s|;
    assert b[i..8 * loaded][k..] == b[i + k..8 * loaded] && b[i..8 * loaded][..k] == b[i..i + k];
  }

  lemma {:induction false} NothingLoaded(data: seq<byte>)
    ensures Window(data, 0, [], data) && Loaded(data, 0, [])
  {
    hide ByteBits;
    assert data[0..] == data == [] + data && ByteBits(data)[0..0] == [];
  }

  lemma {:induction false} NothingTapped(scratch: seq<byte>, data: seq<byte>, at: int)
    requires 0 <= at <= |data|
    ensures Tapped(scratch, scratch, data, at, at)
  {
  }

  lemma {:induction false} TappedMore(scratch: seq<byte>, pre: seq<byte>, data: seq<byte>, from: int, to: int, to': int)
    requires Tapped(scratch, pre, data, from, to) && to <= to' <= |data|
    ensures Tapped(scratch + data[to..to'], pre, data, from, to')
  {
    assert data[from..to] + data[to..to'] == data[from..to'];
  }

  class Reader {
    var src: Source
    var buf: array<byte>
    var r: nat
    var w: nat
    var acc: nat
    var nbits: nat
    var tap: FrameCrc?
    var rtap: FrameCrc?
    var tapCur: nat
    var loaded: nat
    var err: Option<Error>

    /** Every byte the source has delivered or will deliver. */
    ghost var data: seq<byte>
    /** The bits in the accumulator. */
    ghost var pending: seq<bool>
    /** What the tap had recorded, and the byte it was installed at. */
    ghost var tapPre: seq<byte>
    ghost var tapFrom: nat

    ghost function Repr(): set<object?>
      reads this
    {
      {this, buf, src, rtap}
    }

    /** The bit position of the next read. */
    ghost function Pos(): int
      reads this
    {
      8 * loaded - nbits
    }

    ghost function Stream(): Stream
      reads this, src
    {
      Cursor.Stream.Stream(ByteBits(data), src.end)
    }

    /** Fully consumed bytes, in buffer coordinates. */
    function Consumed(): int
      reads `r, `nbits
    {
      (8 * r - nbits) / 8
    }

    ghost predicate BufferOk()
      reads `buf, `src, `r, `w, `loaded, `nbits, `data, `err, buf, src
    {
      && 16 <= buf.Length && r <= w <= buf.Length
      && r <= loaded && nbits <= 8 * r
      && Window(data, loaded - r, buf[..w], src.rest)
      && (err.Some? ==> err.value == src.end && src.rest == [])
      && (err.Some? && src.separate ==> r == w)
    }

    ghost predicate AccOk()
      reads `acc, `pending, `nbits, `data, `loaded
    {
      |pending| == nbits && Holds(acc, pending) && Loaded(data, loaded, pending)
    }

    /** The tap holds every byte from tapFrom to its cursor, once each and in order. */
    ghost predicate TapOk()
      reads `tap, `rtap, `tapCur, `tapPre, `tapFrom, `r, `nbits, `loaded, `data, rtap
    {
      && (rtap != null ==>
           && rtap.Valid() && r <= loaded && tapCur <= Consumed()
           && Tapped(rtap.scratch, tapPre, data, tapFrom, loaded - r + tapCur))
      && (tap != null ==> tap == rtap && tapCur == Consumed() && rtap.folded == |rtap.scratch|)
    }

    ghost predicate Valid()
      reads this, buf, src, rtap
    {
      BufferOk() && AccOk() && TapOk()
    }

    /** A read went as the cursor says, value and position or error. */
    ghost predicate Agrees<T(!new)>(p: Parsed<T>, res: Result<T>)
      reads this
    {
      match p
      case Ok(v, q) => res == Value(v) && Pos() == q
      case Bad(e) => res == Result.Error(e)
    }

    /** What no read changes. */
    twostate predicate Same()
      reads this
    {
      && src == old(src) && buf == old(buf) && data == old(data)
      && tap == old(tap) && rtap == old(rtap) && tapPre == old(tapPre) && tapFrom == old(tapFrom)
    }

    constructor (src: Source, size: nat)
      ensures Valid() && Pos() == 0 && data == src.rest && this.src == src
      ensures tap == rtap == null && fresh(buf) && buf.Length == Max(size, 16) && err == None && nbits == 0
    {
      hide Holds, Loaded, Window, Tapped, ByteBits;
      this.src := src;
      buf := new byte[Max(size, 16)];
      r, w, acc, nbits, tapCur, loaded := 0, 0, 0, 0, 0, 0;
      tap, rtap, err := null, null, None;
      data, pending := src.rest, [];
      tapPre, tapFrom := [], 0;
      new;
      HoldsNothing();
      NothingLoaded(data);
      assert buf[..w] == [];
      assert BufferOk();
      assert AccOk();
      assert TapOk();
    }

    /** Where the consumed bytes end, in the buffer and in the source. */
    lemma {:induction false} Place()
      requires BufferOk()
      ensures r <= w && r <= loaded <= |data| && nbits <= 8 * r
      ensures 0 <= Consumed() <= r && loaded - r + Consumed() == Pos() / 8
    {
      hide Window;
      WindowAt(data, loaded - r, buf[..w], src.rest, 0, w);
    }

    method SetTapper(t: FrameCrc)
      requires Valid() && t.Valid() && t.folded == |t.scratch|
      modifies this`tap, this`rtap, this`tapCur, this`tapPre, this`tapFrom
      ensures Valid() && tap == rtap == t && tapPre == t.scratch && tapFrom == Pos() / 8
    {
      hide BufferOk, AccOk, Tapped;
      Place();
      NothingTapped(t.scratch, data, loaded - r + Consumed());
      tapCur := Consumed();
      tap, rtap := t, t;
      tapPre, tapFrom := t.scratch, loaded - r + tapCur;
    }

    method ClearTapper()
      requires Valid()
      modifies this`tap, this`rtap
      ensures Valid() && tap == null && rtap == null
    {
      hide BufferOk, AccOk;
      tap, rtap := null, null;
    }

    /** In per-byte mode the tap is up to date: it holds every consumed byte and their
        running CRC-8. */
    lemma {:induction false} TapHolds()
      requires Valid() && tap != null
      ensures tap == rtap && tap.Valid() && tap.folded == |tap.scratch| && tap.c8 == Checksum8(tap.scratch)
      ensures Tapped(tap.scratch, tapPre, data, tapFrom, Pos() / 8)
    {
      hide Holds, Loaded, Window, Tapped;
      assert tap.scratch[..tap.folded] == tap.scratch;
    }

    method SwitchTapToDeferred()
      requires Valid()
      modifies this`tap
      ensures Valid() && (rtap != null ==> tap == null)
    {
      hide BufferOk, AccOk, Tapped;
      if rtap != null { tap := null; }
    }

    /** Hands the tap every byte consumed since the last flush. */
    method FlushTap()
      requires Valid()
      modifies this`tapCur, rtap
      ensures Valid()
      ensures rtap != null ==> tapCur == Consumed() && Tapped(rtap.scratch, tapPre, data, tapFrom, Pos() / 8)
      ensures rtap == null ==> tapCur == old(tapCur)
    {
      hide BufferOk, AccOk, Tapped;
      if rtap == null { return; }
      Place();
      var fc := Consumed();
      if fc > tapCur { TapUpTo(fc); }
    }

    method TapUpTo(fc: nat)
      requires BufferOk() && rtap != null && rtap.Valid() && tapCur <= fc <= w
      requires Tapped(rtap.scratch, tapPre, data, tapFrom, loaded - r + tapCur)
      modifies this`tapCur, rtap
      ensures BufferOk() && rtap.Valid() && tapCur == fc && Tapped(rtap.scratch, tapPre, data, tapFrom, loaded - r + fc)
    {
      hide BufferOk, Tapped;
      Buffered(tapCur, fc);
      TappedMore(rtap.scratch, tapPre, data, tapFrom, loaded - r + tapCur, loaded - r + fc);
      rtap.TapBytes(buf[tapCur..fc]);
      tapCur := fc;
    }

    /** What the buffer holds of the source. */
    lemma {:induction false} Buffered(i: nat, j: nat)
      requires BufferOk() && i <= j <= w
      ensures w <= buf.Length && 0 <= loaded - r && loaded - r + j <= |data|
      ensures buf[i..j] == data[loaded - r + i..loaded - r + j]
      ensures i < j ==> data[loaded - r + i] == buf[i]
    {
      hide Window;
      WindowAt(data, loaded - r, buf[..w], src.rest, i, j);
      assert |buf[..w]| == w && |buf[i..j]| == j - i;
      assert forall k :: 0 <= k < j - i ==> buf[i..j][k] == buf[..w][i..j][k];
      assert buf[i..j] == buf[..w][i..j];
    }

    /** Drops the fully consumed prefix of the buffer. */
    method Compact()
      requires Valid() && (rtap != null ==> tapCur == Consumed())
      modifies this`r, this`w, this`tapCur, buf
      ensures Valid() && r == old(r - Consumed()) && w == old(w - Consumed())
      ensures nbits <= 56 && r == w ==> w < buf.Length
    {
      hide AccOk, Window, Tapped;
      var fc := Consumed();
      assert 0 <= 8 * (r - fc) - nbits < 8;
      if fc > 0 {
        WindowDrop(data, loaded - r, buf[..w], src.rest, fc);
        var tail := buf[fc..w];
        assert buf[..w][fc..] == tail;
        forall i | 0 <= i < |tail| { buf[i] := tail[i]; }
        w, r := |tail|, r - fc;
        tapCur := Max(tapCur - fc, 0);
        assert buf[..w] == tail;
        assert BufferOk();
        assert TapOk();
      }
    }

    /** Moves bytes from the source into the drained buffer. */
    method ReadMore()
      requires Valid() && r == w && nbits <= 56
      modifies Repr()
      ensures Valid() && Same()
      ensures acc == old(acc) && nbits == old(nbits) && loaded == old(loaded) && pending == old(pending)
      ensures r < w || (err.Some? && loaded == |data|)
      ensures old(err.Some?) ==> err == old(err)
    {
      hide Valid;
      if err.Some? {
        Drained();
        return;
      }
      FlushTap();
      Compact();
      Refill();
    }

    lemma {:induction false} Bounds()
      requires Valid()
      ensures r <= w <= buf.Length && loaded <= |data| && nbits == |pending| <= 64 && nbits <= 8 * loaded
      ensures pending == ByteBits(data)[8 * loaded - nbits..8 * loaded] && |Stream().bits| == 8 * |data|
      ensures err.Some? ==> err.value == src.end
      ensures err.Some? && src.separate ==> loaded == |data|
    {
      WindowAt(data, loaded - r, buf[..w], src.rest, 0, 0);
    }

    lemma {:induction false} Drained()
      requires Valid() && r == w && err.Some?
      ensures loaded == |data|
    {
      WindowAt(data, loaded - r, buf[..w], src.rest, 0, 0);
    }

    method Refill()
      requires Valid() && r == w < buf.Length && err == None
      modifies this`w, this`err, buf, src
      ensures r < w || (err.Some? && loaded == |data|)
      ensures Valid()
    {
      hide AccOk, TapOk, Window;
      ghost var was := buf[..w];
      var p, e := src.Read(buf.Length - w);
      WindowGrow(data, loaded - r, was, p, src.rest);
      forall i | 0 <= i < |p| { buf[w + i] := p[i]; }
      w := w + |p|;
      assert buf[..w] == was + p;
      if e.Some? { err := e; }
      WindowAt(data, loaded - r, buf[..w], src.rest, 0, 0);
      assert BufferOk();
    }

    /** Tops up the accumulator from the buffer as far as possible. */
    method Fill()
      requires Valid()
      modifies Repr()
      ensures Valid() && Same() && Pos() == old(Pos())
      ensures nbits == Room(old(nbits)) || (err.Some? && loaded == |data| && nbits <= Room(old(nbits)))
      ensures nbits >= old(nbits) && (old(err.Some?) || old(nbits) > 56 ==> err == old(err))
    {
      hide Valid;
      Bounds();
      if nbits == 0 && w - r >= 8 {
        LoadWord();
        return;
      }
      ghost var k := 0;
      var more := true;
      while more && nbits <= 56
        invariant Valid() && Same() && Pos() == old(Pos())
        invariant nbits == old(nbits) + 8 * k <= 64 && (old(err.Some?) || old(nbits) > 56 ==> err == old(err))
        invariant !more ==> err.Some? && loaded == |data|
        decreases more, 64 - nbits
      {
        more := FillByte();
        if more { k := k + 1; }
        Bounds();
      }
    }

    /** Moves one more byte to the accumulator unless the source is at its end. */
    method FillByte() returns (more: bool)
      requires Valid() && nbits <= 56
      modifies Repr()
      ensures Valid() && Same() && Pos() == old(Pos()) && (old(err.Some?) ==> err == old(err))
      ensures nbits == old(nbits) + if more then 8 else 0
      ensures !more ==> err.Some? && loaded == |data|
    {
      hide Valid;
      if r >= w {
        Bounds();
        ReadMore();
        if r >= w { return false; }
      }
      LoadByte();
      return true;
    }

    /** Moving k bytes from the buffer to the accumulator keeps everything else. */
    twostate lemma {:induction false} Advanced(k: nat)
      requires old(Valid()) && AccOk()
      requires unchanged(`buf, `src, `w, `tap, `rtap, `tapCur, `data, `err, `tapPre, `tapFrom) && unchanged(buf, src)
      requires rtap != null ==> unchanged(rtap)
      requires r == old(r) + k <= w && loaded == old(loaded) + k && nbits == old(nbits) + 8 * k
      ensures Valid()
    {
      hide Tapped, Holds, Loaded, Window;
      assert buf[..w] == old(buf[..w]);
    }

    method LoadWord()
      requires Valid() && nbits == 0 && w - r >= 8
      modifies this`acc, this`r, this`loaded, this`nbits, this`pending
      ensures Valid() && Pos() == old(Pos()) && nbits == 64
    {
      hide Valid, Holds, Loaded, Val, ByteBits;
      var word := NextBytes(8);
      assert pending + ByteBits(word) == ByteBits(word);
      HoldsWord(ByteBits(word));
      acc, pending := Val(ByteBits(word)), pending + ByteBits(word);
      r, loaded, nbits := r + 8, loaded + 8, 64;
      Advanced(8);
    }

    method LoadByte()
      requires Valid() && nbits <= 56 && r < w
      modifies this`acc, this`r, this`loaded, this`nbits, this`pending
      ensures Valid() && Pos() == old(Pos()) && loaded == old(loaded) + 1 && nbits == old(nbits) + 8
    {
      hide Valid, Holds, Loaded, ByteBits;
      var b := NextBytes(1);
      var word := WithByte(b);
      acc, pending := word, pending + ByteBits(b);
      r, loaded, nbits := r + 1, loaded + 1, nbits + 8;
      Advanced(1);
    }

    /** The accumulator with a byte below the pending bits. */
    method WithByte(b: seq<byte>) returns (word: nat)
      requires nbits <= 56 && |b| == 1 && Holds(acc, pending) && |pending| == nbits
      ensures Holds(word, pending + ByteBits(b))
    {
      hide Holds, Or, Shl64, ByteBits;
      word := Or(acc, Shl64(b[0], 56 - nbits));
      HoldsByte(acc, pending, b, 56 - nbits);
    }

    /** The next k bytes of the buffer. */
    method NextBytes(k: nat) returns (p: seq<byte>)
      requires Valid() && k <= w - r
      ensures r <= w <= buf.Length && p == buf[r..r + k] && |pending| == nbits && Holds(acc, pending)
      ensures Loaded(data, loaded + k, pending + ByteBits(p))
    {
      hide BufferOk, TapOk, Holds, Loaded, ByteBits;
      Place();
      Buffered(r, r + k);
      p := buf[r..r + k];
      LoadedMore(data, loaded, pending, k);
    }

    /** Consumes k bits of the accumulator and hands completed bytes to the tap. */
    method Drop(k: nat)
      requires Valid() && k <= nbits
      modifies this`acc, this`nbits, this`pending, this`tapCur, rtap
      ensures Valid() && Pos() == old(Pos()) + k && nbits == old(nbits) - k
      ensures pending == old(pending)[k..]
    {
      hide BufferOk, Tapped, Holds, Loaded;
      Place();
      Shift(k);
      if tap != null {
        EmitTaps();
      }
    }

    /** Shifts k bits out of the accumulator. */
    method Shift(k: nat)
      requires BufferOk() && AccOk() && k <= nbits
      modifies this`acc, this`nbits, this`pending
      ensures BufferOk() && AccOk() && nbits == old(nbits) - k && pending == old(pending)[k..]
    {
      hide BufferOk, Holds, Loaded, Shl64;
      HoldsDrop(acc, pending, k);
      LoadedDrop(data, loaded, pending, k);
      acc := Shl64(acc, k);
      nbits, pending := nbits - k, pending[k..];
      BufferKept();
    }

    twostate lemma {:induction false} BufferKept()
      requires old(BufferOk()) && unchanged(`buf, `src, `r, `w, `loaded, `data, `err) && unchanged(buf, src)
        && nbits <= old(nbits)
      ensures BufferOk()
    {
      hide Window;
      assert buf[..w] == old(buf[..w]);
    }

    /** Takes the n oldest bits of the accumulator. */
    method Take(n: nat) returns (v: nat)
      requires Valid() && n <= nbits
      modifies this`acc, this`nbits, this`pending, this`tapCur, rtap
      ensures Valid() && Same() && nbits == old(nbits) - n
      ensures GetBits(Stream(), old(Pos()), n) == Ok(v, Pos())
      ensures v == Val(old(pending)[..n])
    {
      TakeFacts(n);
      hide Valid, Holds, Val;
      v := Shr(acc, 64 - n);
      Drop(n);
    }

    lemma {:induction false} TakeFacts(n: nat)
      requires Valid() && n <= nbits
      ensures nbits <= 64 && |pending| == nbits && 0 <= Pos() && Pos() + n <= |Stream().bits|
      ensures Shr(acc, 64 - n) == Val(pending[..n])
      ensures pending[..n] == Stream().bits[Pos()..Pos() + n]
    {
      hide BufferOk, TapOk, ByteBits, Val, Bits, Shr;
      HoldsTop(acc, pending, n);
      LoadedDrop(data, loaded, pending, n);
    }

    /** Reads n bits, most significant first. Up to 57 bits, or from a source that never
        returns bytes and an error together, the outcome is that of the cursor. A wider
        read that does not fit beside the unaligned bits is refused once the source's
        error is known, even with every byte it needs already in the buffer. */
    method ReadBits(n: nat) returns (res: Result<nat>)
      requires Valid() && n <= 64
      modifies Repr()
      ensures Valid() && Same()
      ensures n <= 57 || src.separate ==> Agrees(GetBits(Stream(), old(Pos()), n), res)
      ensures !Agrees(GetBits(Stream(), old(Pos()), n), res) ==> n > Room(old(nbits)) && err.Some? && res.Error?
      ensures old(err.Some?) && n > Room(old(nbits)) ==> res == Result.Error(Cut(src.end))
      ensures old(err.Some?) ==>
        (Agrees(GetBits(Stream(), old(Pos()), n), res) <==> n <= Room(old(nbits)) || old(Pos()) + n > |Stream().bits|)
      ensures old(nbits) < n <= Room(old(nbits)) && res.Value? ==> nbits == Room(old(nbits)) - n || loaded == |data|
      ensures old(err) == None && old(nbits) > 56 ==> Agrees(GetBits(Stream(), old(Pos()), n), res)
      decreases n, 2
    {
      hide Valid;
      Bounds();
      RefusalIs(Stream(), Pos(), n, nbits);
      if n <= nbits {
        var v := Take(n);
        return Value(v);
      }
      res := ReadBitsSlow(n);
    }

    method ReadBitsSlow(n: nat) returns (res: Result<nat>)
      requires Valid() && nbits < n <= 64
      modifies Repr()
      ensures Valid() && Same()
      ensures n <= 57 || src.separate ==> Agrees(GetBits(Stream(), old(Pos()), n), res)
      ensures !Agrees(GetBits(Stream(), old(Pos()), n), res) ==> n > Room(old(nbits)) && err.Some? && res.Error?
      ensures old(err.Some?) && n > Room(old(nbits)) ==> res == Result.Error(Cut(src.end))
      ensures n <= Room(old(nbits)) && res.Value? ==> nbits == Room(old(nbits)) - n || loaded == |data|
      ensures old(err) == None && old(nbits) > 56 ==> Agrees(GetBits(Stream(), old(Pos()), n), res)
      decreases n, 1
    {
      hide Valid, Val;
      Fill();
      Bounds();
      if n <= nbits {
        var v := Take(n);
        return Value(v);
      }
      if err == None {
        assert nbits == Room(old(nbits)) > 0;
        res := ReadAcross(n);
        return;
      }
      return Result.Error(if nbits == 0 then err.value else Cut(err.value));
    }

    /** The whole accumulator is the high part; the rest comes from a refilled one. */
    method ReadAcross(n: nat) returns (res: Result<nat>)
      requires Valid() && 57 <= nbits < n <= 64 && err == None
      modifies Repr()
      ensures Valid() && Same()
      ensures Agrees(GetBits(Stream(), old(Pos()), n), res)
      decreases n, 0
    {
      hide Valid, GetBits;
      Bounds();
      var got := nbits;
      var hi := Take(got);
      Bounds();
      JoinReads(Stream(), old(Pos()), got, n - got);
      var lo := ReadBits(n - got);
      if lo.Error? { return Result.Error(Cut(lo.e)); }
      return Value(Or(Shl64(hi, n - got), lo.v));
    }

    method ReadSigned(n: nat) returns (res: Result<int>)
      requires Valid() && n <= 64
      modifies Repr()
      ensures Valid() && Same()
      ensures n <= 57 || src.separate ==> Agrees(GetSigned(Stream(), old(Pos()), n), res)
      ensures !Agrees(GetSigned(Stream(), old(Pos()), n), res) ==> n > Room(old(nbits)) && err.Some? && res.Error?
    {
      hide Valid;
      Bounds();
      if n == 0 { return Value(0); }
      var u := ReadBits(n);
      if u.Error? { return Result.Error(u.e); }
      ValBound(Stream().bits[old(Pos())..old(Pos()) + n]);
      SignExtend(u.v, n);
      return Value(Signed(Shl64(u.v, 64 - n), 64) / Pow2(64 - n));
    }

    method ReadUnary() returns (res: Result<nat>)
      requires Valid()
      modifies Repr()
      ensures Valid() && Same()
      ensures Agrees(GetUnary(Stream(), old(Pos())), res)
    {
      hide Valid, GetUnary, ByteBits;
      var zeros: nat := 0;
      Bounds();
      while true
        invariant Valid() && Same() && 0 <= Pos() == old(Pos()) + zeros <= 8 * |data| == |Stream().bits|
        invariant GetUnary(Stream(), old(Pos())) == Plus(zeros, GetUnary(Stream(), Pos()))
        decreases 8 * |data| - Pos()
      {
        if nbits == 0 {
          var ok := FillEmpty();
          if !ok {
            UnaryEnd(Stream(), Pos());
            return Result.Error(err.value);
          }
        }
        var z, one := ScanWord();
        Bounds();
        zeros := zeros + z;
        if one { return Value(zeros); }
      }
    }

    /** Fills the empty accumulator; it stays empty only at the end of the source. */
    method FillEmpty() returns (ok: bool)
      requires Valid() && nbits == 0
      modifies Repr()
      ensures Valid() && Same() && Pos() == old(Pos()) && ok == (nbits > 0)
      ensures !ok ==> Pos() == 8 * |data| == |Stream().bits| && err == Some(src.end)
    {
      hide Valid;
      Fill();
      Bounds();
      return nbits > 0;
    }

    /** Consumes the zeros at the front of the accumulator and the one after them. */
    method ScanWord() returns (z: nat, one: bool)
      requires Valid() && nbits > 0
      modifies this`acc, this`nbits, this`pending, this`tapCur, rtap
      ensures Valid() && 0 <= old(Pos()) <= |Stream().bits| && Pos() > old(Pos())
      ensures one ==> GetUnary(Stream(), old(Pos())) == Ok(z, Pos())
      ensures !one ==> Pos() == old(Pos()) + z <= |Stream().bits|
      ensures !one ==> GetUnary(Stream(), old(Pos())) == Plus(z, GetUnary(Stream(), Pos()))
    {
      hide Valid, GetUnary, ByteBits, Len;
      LeadingZeros();
      var lz := 64 - Len(acc);
      if lz >= nbits {
        UnarySkip(Stream(), Pos(), nbits);
        z, one := nbits, false;
        Drop(nbits);
      } else {
        UnarySkip(Stream(), Pos(), lz);
        UnaryOne(Stream(), Pos() + lz);
        z, one := lz, true;
        Drop(lz + 1);
      }
    }

    /** The leading zeros of the accumulator are the zeros at the front of the stream. */
    lemma {:induction false} LeadingZeros()
      requires Valid() && nbits > 0
      ensures Len(acc) <= 64 && nbits <= 64 && 0 <= Pos() <= Pos() + nbits <= |Stream().bits|
      ensures 64 - Len(acc) >= nbits ==> forall i :: Pos() <= i < Pos() + nbits ==> !Stream().bits[i]
      ensures 64 - Len(acc) < nbits ==> Stream().bits[Pos() + 64 - Len(acc)]
      ensures 64 - Len(acc) < nbits ==> forall i :: Pos() <= i < Pos() + 64 - Len(acc) ==> !Stream().bits[i]
    {
      hide BufferOk, TapOk, ByteBits, Len, Holds;
      HoldsLeading(acc, pending);
      AccNbits(acc, pending);
      forall i | 0 <= i < nbits ensures Stream().bits[Pos() + i] == pending[i] {
        assert ByteBits(data)[8 * loaded - nbits..8 * loaded][i] == pending[i];
      }
      forall i | Pos() <= i < Pos() + Min(64 - Len(acc), nbits) ensures !Stream().bits[i] {
        assert Stream().bits[Pos() + (i - Pos())] == pending[i - Pos()];
      }
    }

    lemma {:induction false} AccNbits(acc: nat, s: seq<bool>)
      requires Holds(acc, s)
      ensures |s| <= 64
    {
    }

    /** Whole bytes consumed from the source. */
    function BytesRead(): int
      reads this
    {
      (8 * loaded - nbits) / 8
    }

    predicate ByteAligned()
      reads this
    {
      nbits % 8 == 0
    }

    /** The rest of the current partial byte is discarded. */
    method SkipToByteBoundary()
      requires Valid()
      modifies Repr()
      ensures Valid() && Same() && ByteAligned()
      ensures Pos() == AlignPos(old(Pos()))
    {
      hide Valid, And;
      Bounds();
      var rem := And(nbits, 7);
      AndMask(nbits, 3);
      ShrLowAre(nbits, 3);
      assert Pow2(3) == 8;
      AlignRem(loaded, nbits);
      if rem == 0 { return; }
      Drop(rem);
    }

    /** Hands buf[tapCur..Consumed()] to the tap one byte at a time. */
    method EmitTaps()
      requires BufferOk() && tap != null && tap == rtap && rtap.Valid() && rtap.folded == |rtap.scratch|
      requires tapCur <= Consumed() && Tapped(rtap.scratch, tapPre, data, tapFrom, loaded - r + tapCur)
      modifies this`tapCur, tap
      ensures BufferOk() && rtap.Valid() && rtap.folded == |rtap.scratch|
      ensures tapCur == Consumed() && Tapped(rtap.scratch, tapPre, data, tapFrom, loaded - r + tapCur)
    {
      hide BufferOk, Tapped;
      Place();
      while tapCur < Consumed()
        invariant BufferOk() && rtap.Valid() && rtap.folded == |rtap.scratch|
        invariant tapCur <= Consumed() && Tapped(rtap.scratch, tapPre, data, tapFrom, loaded - r + tapCur)
      {
        var at := loaded - r + tapCur;
        Buffered(tapCur, tapCur + 1);
        TappedMore(rtap.scratch, tapPre, data, tapFrom, at, at + 1);
        assert data[at..at + 1] == [buf[tapCur]];
        tap.TapByte(buf[tapCur]);
        tapCur := tapCur + 1;
      }
    }
  }

  /** A reader over the bytes, which the source splits as it likes. */
  method NewReader(data: seq<byte>, end: Error, separate: bool, size: nat) returns (br: Reader)
    ensures fresh(br) && fresh(br.src) && fresh(br.buf)
    ensures br.Valid() && br.Pos() == 0 && br.nbits == 0 && br.rtap == null && br.data == data && br.src.end == end
      && br.src.separate == separate
  {
    hide Reader.Valid;
    var src := new Source(data, end, separate);
    br := new Reader(src, size);
  }

  /** How many bits the accumulator can hold once topped up beside nbits pending ones. */
  function Room(nbits: nat): nat
    requires nbits <= 64
  {
    nbits + 8 * ((64 - nbits) / 8)
  }

  /** Refusing a read that is too wide is right only when the stream ends inside it. */
  lemma {:induction false} RefusalIs(s: Cursor.Stream, p: nat, n: nat, nbits: nat)
    requires p + nbits <= |s.bits| && nbits <= 64 && n <= 64
    ensures n <= nbits ==> n <= Room(nbits)
    ensures n > Room(nbits) ==>
      (GetBits(s, p, n) == Bad(Cut(s.end)) <==> p + n > |s.bits|) && (GetBits(s, p, n).Ok? <==> p + n <= |s.bits|)
  {
    hide Val;
  }

  /** Such a read: of nine zero bytes four bits are read, and then 64 of the other 68. That
      is refused exactly when the source delivered the last of them together with its end. */
  method WideReadRefused() returns (br: Reader, early: bool, res: Result<nat>)
    ensures br.Valid() && br.Stream().bits == Zeros(72) && br.src.end == EOF
    ensures GetBits(br.Stream(), 4, 64) == Ok(0, 68)
    ensures res == if early then Result.Error(UnexpectedEOF) else Value(0)
  {
    hide Reader.Valid, Zeros, GetBits, ByteBits;
    br := NewReader(seq(9, _ => 0), EOF, false, 16);
    ZeroBytes(9);
    ZeroRead(br.Stream());
    br.Bounds();
    var four := br.ReadBits(4);
    br.Bounds();
    early := br.err.Some?;
    res := br.ReadBits(64);
  }

  lemma {:induction false} ZeroBytes(n: nat)
    ensures ByteBits(seq(n, _ => 0)) == Zeros(8 * n)
  {
    if n > 0 {
      var d: seq<byte> := seq(n, _ => 0);
      ZeroBytes(n - 1);
      assert d[..n - 1] == seq(n - 1, _ => 0);
      BitsZero(8);
    }
  }

  lemma {:induction false} ZeroRead(s: Cursor.Stream)
    requires s.bits == Zeros(72)
    ensures GetBits(s, 0, 4) == Ok(0, 4) && GetBits(s, 4, 64) == Ok(0, 68)
  {
    hide Val;
    assert Zeros(72)[0..4] == Zeros(4);
    BitsZero(4);
    ValBitsSmall(0, 4);
    assert Zeros(72)[4..68] == Zeros(64);
    BitsZero(64);
    ValBitsSmall(0, 64);
  }

  lemma {:induction false} AlignRem(l: nat, n: nat)
    requires n <= 8 * l
    ensures AlignPos(8 * l - n) == 8 * l - n + n % 8 && (n - n % 8) % 8 == 0
  {
  }

  /** A read in two parts. */
  lemma {:induction false} JoinReads(s: Cursor.Stream, p: nat, a: nat, b: nat)
    requires a > 0 && a + b <= 64 && p + a <= |s.bits|
    ensures GetBits(s, p, a).Ok? && GetBits(s, p, a + b) == match GetBits(s, p + a, b)
      case Ok(lo, q) => Ok(Or(Shl64(GetBits(s, p, a).v, b), lo), q)
      case Bad(e) => Bad(Cut(e))
  {
    hide Val, Or, Shl64;
    if p + a + b <= |s.bits| {
      var x, y := s.bits[p..p + a], s.bits[p + a..p + a + b];
      assert s.bits[p..p + a + b] == x + y;
      JoinHalves(x, y);
    }
  }

  lemma {:induction false} JoinHalves(x: seq<bool>, y: seq<bool>)
    requires |x| + |y| <= 64
    ensures Val(x + y) == Or(Shl64(Val(x), |y|), Val(y))
  {
    hide Val, Or, Shl64, Pow2;
    var hi, lo, b := Val(x), Val(y), |y|;
    var p := Pow2(b);
    ProductNat(hi, p);
    var high: nat := hi * p;
    ValCat(x, y);
    ValBound(x + y);
    ValBound(y);
    Pow2Mono(|x| + b, 64);
    ShlExact(hi, b, high);
    OrDisjoint(hi, lo, b);
  }

  /** One more byte below the pending bits. */
  lemma {:induction false} HoldsByte(acc: nat, s: seq<bool>, b: seq<byte>, k: nat)
    requires |b| == 1 && Holds(acc, s) && |s| + k == 56
    ensures Holds(Or(acc, Shl64(b[0], k)), s + ByteBits(b))
  {
    hide Holds, Or, Shl64;
    assert b == [b[0]];
    assert b[0] < Pow2(8) by { Pow2Values(); }
    ByteBitsOne(b[0]);
    HoldsAppend(acc, s, b[0], 8);
  }
}
