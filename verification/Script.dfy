/** Any sequence of writes, read back by the matching sequence of reads
    (internal/bitio). */
module BitScript {
  import opened Words
  import opened Cursor
  import opened BitWriter
  import opened BitReader

  /** One write, which is also the read that matches it. */
  datatype Item = Word(v: nat, n: nat) | Number(x: int, n: nat) | Unary(q: nat) | Pad
  {
    /** The value fits its field. Beyond 57 bits a read needs a source that never returns
        bytes and an error together. */
    predicate Fits(separate: bool)
    {
      match this
      case Word(v, n) => v < Pow2(n) && (n <= 57 || (n <= 64 && separate))
      case Number(x, n) => n <= 57 && (if n == 0 then x == 0 else Words.Fits(x, n))
      case Unary(q) => true
      case Pad => true
    }
  }

  /** What an item adds behind the bits s. */
  function Added(s: seq<bool>, item: Item): seq<bool>
  {
    match item
    case Word(v, n) => Bits(v, n)
    case Number(x, n) => SignedBits(x, n)
    case Unary(q) => UnaryBits(q)
    case Pad => Zeros(Padding(|s|))
  }

  function Printed(items: seq<Item>): seq<bool>
  {
    if items == [] then [] else
      var s := Printed(items[..|items| - 1]);
      s + Added(s, items[|items| - 1])
  }

  lemma {:induction false} PrintedSnoc(items: seq<Item>, i: nat)
    requires i < |items|
    ensures Printed(items[..i + 1]) == Printed(items[..i]) + Added(Printed(items[..i]), items[i])
  {
    assert items[..i + 1][..i] == items[..i];
  }

  lemma {:induction false} PrintedPrefix(items: seq<Item>, i: nat)
    requires i <= |items|
    ensures Printed(items[..i]) <= Printed(items)
    decreases |items|
  {
    if i < |items| {
      PrintedPrefix(items[..|items| - 1], i);
      assert items[..|items| - 1][..i] == items[..i];
    } else {
      assert items[..i] == items;
    }
  }

  method WriteScript(bw: Writer, items: seq<Item>)
    requires bw.Valid() && bw.Contents() == [] && forall i :: 0 <= i < |items| ==> items[i].Fits(true)
    modifies bw
    ensures bw.Valid() && bw.Contents() == Printed(items)
  {
    hide Writer.Valid, Writer.Contents, Bits, Pow2, Words.Fits, UnaryBits, SignedBits;
    assert items[..0] == [];
    for i := 0 to |items|
      invariant bw.Valid() && bw.Contents() == Printed(items[..i])
    {
      PrintedSnoc(items, i);
      match items[i] {
        case Word(v, n) => bw.WriteBits(v, n);
        case Number(x, n) => bw.WriteSignedBits(x, n);
        case Unary(q) => bw.WriteUnary(q);
        case Pad => bw.AlignByte();
      }
    }
    assert items[..|items|] == items;
  }

  /** The next item stands at the reader's position. */
  lemma {:induction false} ItemAt(s: Cursor.Stream, items: seq<Item>, i: nat)
    requires At(s, 0, Printed(items)) && i < |items|
    ensures At(s, |Printed(items[..i])|, Added(Printed(items[..i]), items[i]))
    ensures |Printed(items[..i])| <= |s.bits|
  {
    hide Printed, Added;
    var a, b := Printed(items[..i]), Added(Printed(items[..i]), items[i]);
    PrintedSnoc(items, i);
    PrintedPrefix(items, i + 1);
    var rest := Printed(items)[|a + b|..];
    assert Printed(items) == a + b + rest;
    AtCat(s, 0, a + b, rest);
    AtCat(s, 0, a, b);
  }

  /** Reads one item by its shape. */
  method ReadItem(br: Reader, item: Item, ghost before: seq<bool>) returns (got: Item)
    requires br.Valid() && item.Fits(br.src.separate) && br.Pos() == |before|
      && At(br.Stream(), |before|, Added(before, item))
    modifies br.Repr()
    ensures br.Valid() && br.Same()
    ensures got == item && br.Pos() == |before| + |Added(before, item)|
  {
    hide Reader.Valid, At, GetBits, GetSigned, GetUnary, Bits, SignedBits, UnaryBits, Pow2, Words.Fits, ByteBits;
    br.Bounds();
    match item {
      case Word(v, n) =>
        ReadBack(br.Stream(), br.Pos(), v, n);
        var r := br.ReadBits(n);
        return Word(r.v, n);
      case Number(x, n) =>
        ReadBackSigned(br.Stream(), br.Pos(), x, n);
        var r := br.ReadSigned(n);
        return Number(r.v, n);
      case Unary(q) =>
        ReadBackUnary(br.Stream(), br.Pos(), q);
        var r := br.ReadUnary();
        return Unary(r.v);
      case Pad =>
        br.SkipToByteBoundary();
        return Pad;
    }
  }

  /** Reads of the written shapes give back the written values. */
  method ReadScript(br: Reader, items: seq<Item>) returns (got: seq<Item>)
    requires br.Valid() && br.Pos() == 0 && At(br.Stream(), 0, Printed(items))
    requires forall i :: 0 <= i < |items| ==> items[i].Fits(br.src.separate)
    modifies br.Repr()
    ensures br.Valid() && got == items && br.Pos() == |Printed(items)|
  {
    hide Reader.Valid, At, Printed, Added, ByteBits;
    got := [];
    assert items[..0] == [];
    assert |Printed(items[..0])| == 0 by { NothingPrinted(); }
    for i := 0 to |items|
      invariant br.Valid() && br.Same() && got == items[..i] && br.Pos() == |Printed(items[..i])|
    {
      ItemAt(br.Stream(), items, i);
      PrintedSnoc(items, i);
      var item := ReadItem(br, items[i], Printed(items[..i]));
      got := got + [item];
    }
    assert items[..|items|] == items;
  }

  lemma {:induction false} NothingPrinted()
    ensures Printed([]) == []
  {
  }

  /** Writes the items, pads, and reads them back from a source that splits the bytes as it
      likes and may hold anything behind them. */
  method ScriptRoundTrip(items: seq<Item>, behind: seq<byte>, end: Error, separate: bool, size: nat)
    returns (got: seq<Item>)
    requires forall i :: 0 <= i < |items| ==> items[i].Fits(separate)
    ensures got == items
  {
    hide Writer.Valid, Writer.Contents, Reader.Valid, Printed, ByteBits, BytesOf, Pow2, Words.Fits;
    var bw := new Writer();
    WriteScript(bw, items);
    bw.AlignByte();
    var bytes := bw.Bytes();
    AlignedFront(Printed(items), bytes, behind, end);
    var br := NewReader(bytes + behind, end, separate, size);
    got := ReadScript(br, items);
  }

  lemma {:induction false} AlignedFront(s: seq<bool>, bytes: seq<byte>, behind: seq<byte>, end: Error)
    requires bytes == BytesOf(Aligned(s))
    ensures At(Cursor.Stream.Stream(ByteBits(bytes + behind), end), 0, s)
  {
    hide ByteBits, BytesOf;
    ByteBitsBytesOf(Aligned(s));
    ByteBitsCat(bytes, behind);
  }
}
