/** The codec as a whole: a frame encoded here and decoded there. */
module FrameLossless {
  import opened Words
  import opened Cursor
  import opened BitWriter
  import opened BitReader
  import opened Predict
  import opened LpcRoutes
  import SubframeSyntax
  import opened SubframeEncode
  import opened HeaderSyntax
  import opened FrameSyntax
  import opened FrameDecode
  import opened FrameEncode

  /** Encodes a block, puts its bytes at the front of a source with anything behind them,
      and decodes: the channels come back, however the source splits its bytes. */
  method EncodeThenDecode(p: Params, si: StreamInfo, ch: seq<seq<int>>, number: nat, behind: seq<byte>, end: Error,
      separate: bool, size: nat, arch: Arch)
    returns (dst: Frame, res: Result<()>)
    requires Encodable(si, ch, number) && arch.Valid()
    ensures res == Value(()) && |dst.channels| == |ch| && forall c :: 0 <= c < |ch| ==> dst.channels[c][..] == ch[c]
    ensures dst.number == number && dst.blockSize == |ch[0]| && dst.bps == si.bitDepth
      && dst.sampleRate == si.sampleRate && !dst.variable
  {
    hide Reader.Valid, FrameShaped, Pcm, EncodedAs, Encodable, BestFrame, FrameWritable, Arch.Valid;
    var bytes, f, cs, four := EncodeFresh(p, si, ch, number);
    var br := NewReader(bytes + behind, end, separate, size);
    dst, res := DecodeFront(br, si, bytes, behind, f, cs, ch, number, arch);
  }

  /** Encodes with a new writer and workspace. */
  method EncodeFresh(p: Params, si: StreamInfo, ch: seq<seq<int>>, number: nat)
    returns (bytes: seq<byte>, ghost f: FrameBits, ghost cs: seq<SubframeSyntax.Coding>,
      ghost four: Option<Four>)
    requires Encodable(si, ch, number)
    ensures EncodedAs(bytes, f, cs, si, ch, number) && BestFrame(p, si, ch, f, cs, four)
  {
    hide Writer.Valid, Writer.Contents, FrameShaped, InDepth, Pcm, AllFit, Block, BestFrame, EmitFrame, SubsWritable;
    var bw := new Writer();
    var ws := new Workspace();
    bytes, f, cs, four := EncodeFrame(bw, ws, p, si, ch, number);
  }

  /** Decoding the first frame of a source. */
  method DecodeFront(br: Reader, si: StreamInfo, ghost bytes: seq<byte>, ghost behind: seq<byte>, ghost f: FrameBits,
      ghost cs: seq<SubframeSyntax.Coding>,
    ghost ch: seq<seq<int>>, ghost number: nat, arch: Arch) returns (dst: Frame, res: Result<()>)
    requires br.Valid() && br.Pos() == 0 && br.rtap == null && br.data == bytes + behind && arch.Valid()
    requires Encodable(si, ch, number) && EncodedAs(bytes, f, cs, si, ch, number)
    modifies br.Repr()
    ensures res == Value(()) && |dst.channels| == |ch| && forall c :: 0 <= c < |ch| ==> dst.channels[c][..] == ch[c]
    ensures dst.number == number && dst.blockSize == |ch[0]| && dst.bps == si.bitDepth
      && dst.sampleRate == si.sampleRate && !dst.variable
  {
    hide Reader.Valid, FrameShaped, Pcm, ByteBits, Accept, EncodedAs, Encodable, Arch.Valid;
    dst := new Frame();
    br.Bounds();
    FrontDecodes(br.Stream(), bytes, behind, f, cs, si, ch, number);
    res := Decode(br, si, dst, arch);
  }

  lemma {:induction false} FrontDecodes(s: Cursor.Stream, bytes: seq<byte>, behind: seq<byte>, f: FrameBits,
      cs: seq<SubframeSyntax.Coding>, si: StreamInfo, ch: seq<seq<int>>, number: nat)
    requires s.bits == ByteBits(bytes + behind) && Encodable(si, ch, number) && EncodedAs(bytes, f, cs, si, ch, number)
    ensures |s.bits| % 8 == 0 && Accept(s, 0, si) == Ok(f, 8 * |bytes|)
    ensures FrameShaped(f) && Pcm(f) == ch && f.hdr.Channels() == |ch| && f.hdr.number == number
      && f.hdr.blockSize == |ch[0]| && !f.hdr.variable
    ensures f.hdr.bps == si.bitDepth <= 32 && si.bitDepth >= 1 && f.hdr.sampleRate == si.sampleRate
  {
    hide FrameShaped, InDepth, Pcm, GetFrame, ByteBits, Accept, EncodedAs, Block;
    assert s == Cursor.Stream.Stream(ByteBits(bytes + behind), s.end);
    FrontAt(bytes, behind, s.end);
    FrameLossless(s, 0, bytes, f, cs, si, ch, number);
    HeaderOf(bytes, f, cs, si, ch, number);
  }

  lemma {:induction false} HeaderOf(bytes: seq<byte>, f: FrameBits, cs: seq<SubframeSyntax.Coding>, si: StreamInfo,
      ch: seq<seq<int>>, number: nat)
    requires EncodedAs(bytes, f, cs, si, ch, number)
    ensures f.hdr.bps == si.bitDepth && f.hdr.sampleRate == si.sampleRate && FrameShaped(f)
      && |Pcm(f)| == f.hdr.Channels() == |ch|
  {
    hide EmitFrame, InDepth, SubsWritable, BytesOf;
  }
}
