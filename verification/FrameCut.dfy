/** A stream cut short: every parser either does what it does on the whole stream or reports
    the end of the stream. So a frame whose end is missing is always reported as truncated,
    never as damaged, and what a part of the stream already shows not to be a frame is not
    one in the whole. */
module FrameCut {
  import opened Words
  import opened Cursor
  import opened Crc
  import opened Rice
  import opened SubframeSyntax
  import opened HeaderSyntax
  import opened FrameSyntax

  /** The first m bits of the stream, ended by e. */
  function Short(s: Stream, m: nat, e: Error): Stream
    requires m <= |s.bits|
  {
    Stream(s.bits[..m], e)
  }

  /** What a parser that succeeded on the whole stream does on its first m bits; and a
      success or a failure there that is not the end is the outcome on the whole stream. */
  ghost predicate Follows<T(!new)>(full: Parsed<T>, cut: Parsed<T>, m: nat, e: Error)
  {
    && (full.Ok? ==> if full.pos <= m then cut == full else cut == Bad(e) || cut == Bad(Cut(e)))
    && (cut.Ok? ==> full == cut && cut.pos <= m)
    && (cut.Bad? ==> full == cut || cut.e == e || cut.e == Cut(e))
  }

  lemma {:induction false} CutBits(s: Stream, m: nat, e: Error, p: nat, n: nat)
    requires p <= m <= |s.bits|
    ensures Follows(GetBits(s, p, n), GetBits(Short(s, m, e), p, n), m, e)
  {
    if p + n <= m { SliceOfFront(s.bits, m, p, p + n); }
  }

  lemma {:induction false} SliceOfFront(s: seq<bool>, m: nat, i: nat, j: nat)
    requires i <= j <= m <= |s|
    ensures s[..m][i..j] == s[i..j]
  {
    assert forall k :: 0 <= k < j - i ==> s[..m][i..j][k] == s[..m][i + k] == s[i + k];
  }

  lemma {:induction false} CutSigned(s: Stream, m: nat, e: Error, p: nat, n: nat)
    requires p <= m <= |s.bits|
    ensures Follows(GetSigned(s, p, n), GetSigned(Short(s, m, e), p, n), m, e)
  {
    hide GetBits, Short;
    if n > 0 { CutBits(s, m, e, p, n); }
  }

  lemma {:induction false} CutUnary(s: Stream, m: nat, e: Error, p: nat)
    requires p <= m <= |s.bits|
    ensures Follows(GetUnary(s, p), GetUnary(Short(s, m, e), p), m, e)
    decreases m - p
  {
    if p < m && !s.bits[p] { CutUnary(s, m, e, p + 1); }
  }

  lemma {:induction false} CutRun(s: Stream, m: nat, e: Error, p: nat, k: nat, n: nat)
    requires p <= m <= |s.bits|
    ensures Follows(GetRun(s, p, k, n), GetRun(Short(s, m, e), p, k, n), m, e)
    decreases n
  {
    hide GetSymbol, GetRun, Short;
    if n == 0 {
      GetRunNone(s, p, k);
      ShortLength(s, m, e);
      GetRunNone(Short(s, m, e), p, k);
    } else {
      CutSymbol(s, m, e, p, k);
      ShortLength(s, m, e);
      GetRunStep(s, p, k, n);
      GetRunStep(Short(s, m, e), p, k, n);
      var v := GetSymbol(s, p, k);
      if v.Ok? && v.pos <= m { CutRun(s, m, e, v.pos, k, n - 1); }
    }
  }

  lemma {:induction false} CutSymbol(s: Stream, m: nat, e: Error, p: nat, k: nat)
    requires p <= m <= |s.bits|
    ensures Follows(GetSymbol(s, p, k), GetSymbol(Short(s, m, e), p, k), m, e)
  {
    hide GetBits, GetUnary, Short, Symbol, Unfold;
    CutUnary(s, m, e, p);
    var q := GetUnary(s, p);
    if q.Ok? && q.pos <= m { CutBits(s, m, e, q.pos, k); }
  }

  lemma {:induction false} CutRaw(s: Stream, m: nat, e: Error, p: nat, width: nat, n: nat)
    requires p <= m <= |s.bits|
    ensures Follows(GetRaw(s, p, width, n), GetRaw(Short(s, m, e), p, width, n), m, e)
    decreases n
  {
    hide GetSigned, GetRaw, Short;
    ShortLength(s, m, e);
    if n == 0 {
      GetRawNone(s, p, width);
      GetRawNone(Short(s, m, e), p, width);
    } else {
      CutSigned(s, m, e, p, width);
      GetRawStep(s, p, width, n);
      GetRawStep(Short(s, m, e), p, width, n);
      var v := GetSigned(s, p, width);
      if v.Ok? && v.pos <= m { CutRaw(s, m, e, v.pos, width, n - 1); }
    }
  }

  lemma {:induction false} CutPart(s: Stream, m: nat, e: Error, p: nat, paramBits: nat, n: nat)
    requires p <= m <= |s.bits|
    ensures Follows(GetPart(s, p, paramBits, n), GetPart(Short(s, m, e), p, paramBits, n), m, e)
  {
    hide GetBits, GetRun, GetRaw, Short, EscapeCode;
    CutBits(s, m, e, p, paramBits);
    var k := GetBits(s, p, paramBits);
    if k.Ok? && k.pos <= m {
      CutRun(s, m, e, k.pos, k.v, n);
      CutBits(s, m, e, k.pos, 5);
      var raw := GetBits(s, k.pos, 5);
      if raw.Ok? && raw.pos <= m { CutRaw(s, m, e, raw.pos, raw.v, n); }
    }
  }

  lemma {:induction false} CutParts(s: Stream, m: nat, e: Error, p: nat, paramBits: nat, n: nat, len: nat, parts: nat)
    requires p <= m <= |s.bits|
    ensures Follows(GetParts(s, p, paramBits, n, len, parts), GetParts(Short(s, m, e), p, paramBits, n, len, parts), m,
      e)
    decreases parts
  {
    hide GetPart, Short;
    if parts > 0 {
      CutPart(s, m, e, p, paramBits, n);
      var v := GetPart(s, p, paramBits, n);
      if v.Ok? && v.pos <= m { CutParts(s, m, e, v.pos, paramBits, len, len, parts - 1); }
    }
  }

  lemma {:induction false} CutResidual(s: Stream, m: nat, e: Error, p: nat, blockSize: nat, order: nat)
    requires p <= m <= |s.bits|
    ensures Follows(GetResidual(s, p, blockSize, order), GetResidual(Short(s, m, e), p, blockSize, order), m, e)
  {
    hide GetBits, GetParts, Short;
    CutBits(s, m, e, p, 2);
    var c := GetBits(s, p, 2);
    if c.Ok? && c.pos <= m {
      CutBits(s, m, e, c.pos, 4);
      var po := GetBits(s, c.pos, 4);
      if po.Ok? && po.pos <= m && Splits(blockSize, order, po.v) {
        var len := PartLen(blockSize, po.v);
        SplitsTile(blockSize, order, po.v);
        CutParts(s, m, e, po.pos, 4 + c.v, len - order, len, Pow2(po.v));
      }
    }
  }

  lemma {:induction false} CutWasted(s: Stream, m: nat, e: Error, p: nat)
    requires p <= m <= |s.bits|
    ensures Follows(GetWasted(s, p), GetWasted(Short(s, m, e), p), m, e)
  {
    hide GetBits, GetUnary, Short;
    CutBits(s, m, e, p, 1);
    var flag := GetBits(s, p, 1);
    if flag.Ok? && flag.pos <= m { CutUnary(s, m, e, flag.pos); }
  }

  lemma {:induction false} CutFixed(s: Stream, m: nat, e: Error, p: nat, n: nat, order: nat, eff: nat)
    requires p <= m <= |s.bits| && order <= 4
    ensures Follows(GetFixed(s, p, n, order, eff), GetFixed(Short(s, m, e), p, n, order, eff), m, e)
  {
    hide GetRaw, GetResidual, Short;
    CutRaw(s, m, e, p, eff, order);
    var warm := GetRaw(s, p, eff, order);
    if warm.Ok? && warm.pos <= m { CutResidual(s, m, e, warm.pos, n, order); }
  }

  lemma {:induction false} CutQuantization(s: Stream, m: nat, e: Error, p: nat)
    requires p <= m <= |s.bits|
    ensures Follows(GetQuantization(s, p), GetQuantization(Short(s, m, e), p), m, e)
  {
    hide GetBits, GetSigned, Short;
    CutBits(s, m, e, p, 4);
    var prec := GetBits(s, p, 4);
    if prec.Ok? && prec.pos <= m { CutSigned(s, m, e, prec.pos, 5); }
  }

  lemma {:induction false} CutLpcTail(s: Stream, m: nat, e: Error, p: nat, n: nat, order: nat, prec: nat, shift: nat,
      warm: seq<int>)
    requires p <= m <= |s.bits| && 1 <= order <= 32 && order <= n && |warm| == order && 1 <= prec <= 15 && shift < 16
    ensures Follows(GetLpcTail(s, p, n, order, prec, shift, warm),
      GetLpcTail(Short(s, m, e), p, n, order, prec, shift, warm), m, e)
  {
    hide GetRaw, GetResidual, Short;
    CutRaw(s, m, e, p, prec, order);
    var coeffs := GetRaw(s, p, prec, order);
    if coeffs.Ok? && coeffs.pos <= m { CutResidual(s, m, e, coeffs.pos, n, order); }
  }

  lemma {:induction false} CutLpc(s: Stream, m: nat, e: Error, p: nat, n: nat, order: nat, eff: nat)
    requires p <= m <= |s.bits| && 1 <= order <= 32
    ensures Follows(GetLpc(s, p, n, order, eff), GetLpc(Short(s, m, e), p, n, order, eff), m, e)
  {
    hide GetRaw, GetQuantization, GetLpcTail, Short;
    CutRaw(s, m, e, p, eff, order);
    var warm := GetRaw(s, p, eff, order);
    if warm.Ok? && warm.pos <= m {
      CutQuantization(s, m, e, warm.pos);
      var q := GetQuantization(s, warm.pos);
      if order <= n && q.Ok? && q.pos <= m { CutLpcTail(s, m, e, q.pos, n, order, q.v.0, q.v.1, warm.v); }
    }
  }

  lemma {:induction false} CutBody(s: Stream, m: nat, e: Error, p: nat, n: nat, kind: nat, eff: nat)
    requires p <= m <= |s.bits| && kind < 64
    ensures Follows(GetBody(s, p, n, kind, eff), GetBody(Short(s, m, e), p, n, kind, eff), m, e)
  {
    hide GetSigned, GetRaw, GetFixed, GetLpc, Short;
    CutSigned(s, m, e, p, eff);
    CutRaw(s, m, e, p, eff, n);
    if 8 <= kind <= 12 { CutFixed(s, m, e, p, n, kind - 8, eff); }
    if kind >= 32 { CutLpc(s, m, e, p, n, kind - 31, eff); }
  }

  lemma {:induction false} CutSubHeader(s: Stream, m: nat, e: Error, p: nat, bps: nat)
    requires p <= m <= |s.bits|
    ensures Follows(GetSubHeader(s, p, bps), GetSubHeader(Short(s, m, e), p, bps), m, e)
  {
    hide GetBits, GetWasted, Short;
    CutBits(s, m, e, p, 1);
    var pad := GetBits(s, p, 1);
    if pad.Ok? && pad.pos <= m {
      CutBits(s, m, e, pad.pos, 6);
      var kind := GetBits(s, pad.pos, 6);
      if kind.Ok? && kind.pos <= m { CutWasted(s, m, e, kind.pos); }
    }
  }

  lemma {:induction false} CutSubframe(s: Stream, m: nat, e: Error, p: nat, n: nat, bps: nat)
    requires p <= m <= |s.bits|
    ensures Follows(GetSubframe(s, p, n, bps), GetSubframe(Short(s, m, e), p, n, bps), m, e)
  {
    hide GetSubHeader, GetBody, Short;
    CutSubHeader(s, m, e, p, bps);
    var h := GetSubHeader(s, p, bps);
    if h.Ok? && h.pos <= m { CutBody(s, m, e, h.pos, n, h.v.0, bps - h.v.1); }
  }

  lemma {:induction false} CutSubs(s: Stream, m: nat, e: Error, p: nat, hdr: Header, i: nat)
    requires p <= m <= |s.bits| && i <= hdr.Channels()
    ensures Follows(GetSubs(s, p, hdr, i), GetSubs(Short(s, m, e), p, hdr, i), m, e)
    decreases hdr.Channels() - i
  {
    hide GetSubframe, Short, SubDepth;
    if i < hdr.Channels() {
      CutSubframe(s, m, e, p, hdr.blockSize, SubDepth(hdr, i));
      var sub := GetSubframe(s, p, hdr.blockSize, SubDepth(hdr, i));
      if sub.Ok? && sub.pos <= m { CutSubs(s, m, e, sub.pos, hdr, i + 1); }
    }
  }

  // ---- the header ----

  lemma {:induction false} CutContinuation(s: Stream, m: nat, e: Error, p: nat, n: nat, val: nat)
    requires p <= m <= |s.bits|
    ensures Follows(GetContinuation(s, p, n, val), GetContinuation(Short(s, m, e), p, n, val), m, e)
    decreases n
  {
    hide GetBits, Short;
    if n > 0 {
      CutBits(s, m, e, p, 8);
      var c := GetBits(s, p, 8);
      if c.Ok? && c.pos <= m && 0x80 <= c.v < 0xC0 { CutContinuation(s, m, e, c.pos, n - 1, val * 64 + (c.v - 0x80)); }
    }
  }

  lemma {:induction false} CutCoded(s: Stream, m: nat, e: Error, p: nat)
    requires p <= m <= |s.bits|
    ensures Follows(GetCoded(s, p), GetCoded(Short(s, m, e), p), m, e)
  {
    hide GetBits, GetContinuation, Short, Low;
    CutBits(s, m, e, p, 8);
    var b := GetBits(s, p, 8);
    if b.Ok? && b.pos <= m && CodedLen(b.v) > 0 {
      CutContinuation(s, m, e, b.pos, CodedLen(b.v) - 1, Low(b.v, 7 - CodedLen(b.v)));
    }
  }

  lemma {:induction false} CutBlockSize(s: Stream, m: nat, e: Error, p: nat, code: nat)
    requires p <= m <= |s.bits| && code < 16
    ensures Follows(GetBlockSize(s, p, code), GetBlockSize(Short(s, m, e), p, code), m, e)
  {
    hide GetBits, Short, Pow2, TabledSize;
    CutBits(s, m, e, p, 8);
    CutBits(s, m, e, p, 16);
  }

  lemma {:induction false} CutSampleRate(s: Stream, m: nat, e: Error, p: nat, code: nat, si: StreamInfo)
    requires p <= m <= |s.bits|
    ensures Follows(GetSampleRate(s, p, code, si), GetSampleRate(Short(s, m, e), p, code, si), m, e)
  {
    hide GetBits, Short;
    if code == 12 {
      CutBits(s, m, e, p, 8);
    } else if code == 13 || code == 14 {
      CutBits(s, m, e, p, 16);
    }
  }

  lemma {:induction false} CutCodes(s: Stream, m: nat, e: Error, p: nat)
    requires p <= m <= |s.bits|
    ensures Follows(GetCodes(s, p), GetCodes(Short(s, m, e), p), m, e)
  {
    hide GetSizes, GetLayout, Short;
    CutSizes(s, m, e, p);
    var a := GetSizes(s, p);
    if a.Ok? && a.pos <= m { CutLayout(s, m, e, a.pos); }
  }

  lemma {:induction false} CutSizes(s: Stream, m: nat, e: Error, p: nat)
    requires p <= m <= |s.bits|
    ensures Follows(GetSizes(s, p), GetSizes(Short(s, m, e), p), m, e)
  {
    hide GetBits, Short;
    CutBits(s, m, e, p, 1);
    if p + 1 <= m { CutBits(s, m, e, p + 1, 1); }
    if p + 2 <= m { CutBits(s, m, e, p + 2, 4); }
    if p + 6 <= m { CutBits(s, m, e, p + 6, 4); }
  }

  lemma {:induction false} CutLayout(s: Stream, m: nat, e: Error, p: nat)
    requires p <= m <= |s.bits|
    ensures Follows(GetLayout(s, p), GetLayout(Short(s, m, e), p), m, e)
  {
    hide GetBits, Short;
    CutBits(s, m, e, p, 4);
    if p + 4 <= m { CutBits(s, m, e, p + 4, 3); }
    if p + 7 <= m { CutBits(s, m, e, p + 7, 1); }
  }

  lemma {:induction false} CutFields(s: Stream, m: nat, e: Error, p: nat, si: StreamInfo)
    requires p <= m <= |s.bits|
    ensures Follows(GetFields(s, p, si), GetFields(Short(s, m, e), p, si), m, e)
  {
    hide GetCodes, GetCoded, GetExplicit, Short;
    CutCodes(s, m, e, p);
    var c := GetCodes(s, p);
    if c.Ok? && c.pos <= m {
      CutCoded(s, m, e, c.pos);
      var number := GetCoded(s, c.pos);
      if number.Ok? && number.pos <= m { CutExplicit(s, m, e, number.pos, c.v, number.v, si); }
    }
  }

  lemma {:induction false} CutExplicit(s: Stream, m: nat, e: Error, p: nat, c: Codes, number: nat, si: StreamInfo)
    requires p <= m <= |s.bits| && c.blockSize < 16
    ensures Follows(GetExplicit(s, p, c, number, si), GetExplicit(Short(s, m, e), p, c, number, si), m, e)
  {
    hide GetBlockSize, GetSampleRate, Short, DepthOf;
    CutBlockSize(s, m, e, p, c.blockSize);
    var bs := GetBlockSize(s, p, c.blockSize);
    if bs.Ok? && bs.pos <= m { CutSampleRate(s, m, e, bs.pos, c.sampleRate, si); }
  }

  lemma {:induction false} CutSum8(s: Stream, m: nat, e: Error, p: nat, q: nat, hdr: Header)
    requires p <= q <= m <= |s.bits|
    ensures Follows(MatchSum8(s, p, q, hdr), MatchSum8(Short(s, m, e), p, q, hdr), m, e)
  {
    hide GetBits, BytesOf, Checksum8;
    CutBits(s, m, e, q, 8);
    assert s.bits[..m][p..q] == s.bits[p..q];
  }

  lemma {:induction false} CutChecked(s: Stream, m: nat, e: Error, p: nat, si: StreamInfo)
    requires p + 14 <= m <= |s.bits|
    ensures Follows(GetChecked(s, p, si), GetChecked(Short(s, m, e), p, si), m, e)
  {
    hide GetFields, MatchSum8, Short;
    CutFields(s, m, e, p + 14, si);
    var f := GetFields(s, p + 14, si);
    if f.Ok? && f.pos <= m { CutSum8(s, m, e, p, f.pos, f.v); }
  }

  // ---- the frame ----

  lemma {:induction false} CutSum16(s: Stream, m: nat, e: Error, p: nat, q: nat)
    requires p <= q <= m <= |s.bits|
    ensures Follows(MatchSum16(s, p, q), MatchSum16(Short(s, m, e), p, q), m, e)
  {
    hide GetBits, BytesOf, Checksum16;
    CutBits(s, m, e, q, 16);
    assert s.bits[..m][p..q] == s.bits[p..q];
  }

  lemma {:induction false} CutSealed(s: Stream, m: nat, e: Error, p: nat, q: nat, hdr: Header)
    requires p <= q <= m <= |s.bits| && |s.bits| % 8 == 0 && m % 8 == 0
    ensures Follows(GetSealed(s, p, q, hdr), GetSealed(Short(s, m, e), p, q, hdr), m, e)
  {
    hide GetSubs, MatchSum16, AlignPos;
    CutSubs(s, m, e, q, hdr, 0);
    var subs := GetSubs(s, q, hdr, 0);
    if subs.Ok? {
      AlignIn(subs.pos, |s.bits|);
      if subs.pos <= m {
        AlignIn(subs.pos, m);
        CutSum16(s, m, e, p, AlignPos(subs.pos));
      }
    }
  }

  /** A whole frame in a stream cut at a byte boundary at least two bytes behind its start:
      parsed as before when the cut lies behind it, and truncated otherwise. */
  lemma {:induction false} CutFrame(s: Stream, m: nat, e: Error, p: nat, si: StreamInfo)
    requires p + 16 <= m <= |s.bits| && |s.bits| % 8 == 0 && m % 8 == 0 && GetFrame(s, p, si).Ok?
    ensures GetFrame(Short(s, m, e), p, si) == if GetFrame(s, p, si).pos <= m then GetFrame(s, p, si) else Bad(Cut(e))
    ensures GetFrame(s, p, si).pos > m && e == EOF ==> GetFrame(Short(s, m, e), p, si) == Bad(UnexpectedEOF)
  {
    hide GetBits, GetChecked, GetSealed, Short;
    CutBits(s, m, e, p, 14);
    CutChecked(s, m, e, p, si);
    var h := GetHeader(s, p, si);
    if h.Ok? && h.pos <= m {
      CutSealed(s, m, e, p, h.pos, h.v);
    }
    ShortLength(s, m, e);
  }

  /** Any frame candidate, in a window of the stream that holds its first two bytes: what is
      decided there is the outcome on the whole stream, and otherwise it is truncated. */
  lemma {:induction false} WindowFrame(s: Stream, m: nat, e: Error, p: nat, si: StreamInfo)
    requires p + 16 <= m <= |s.bits| && |s.bits| % 8 == 0 && m % 8 == 0
    ensures GetFrame(Short(s, m, e), p, si) == GetFrame(s, p, si) || GetFrame(Short(s, m, e), p, si) == Bad(Cut(e))
  {
    hide GetBits, GetChecked, GetSealed, Short;
    ShortLength(s, m, e);
    CutBits(s, m, e, p, 14);
    SyncRead(s, p);
    CutChecked(s, m, e, p, si);
    var h := GetHeader(s, p, si);
    if h.Ok? && h.pos <= m { CutSealed(s, m, e, p, h.pos, h.v); }
  }

  lemma {:induction false} SyncRead(s: Stream, p: nat)
    requires p + 14 <= |s.bits|
    ensures GetBits(s, p, 14).Ok? && GetBits(s, p, 14).pos == p + 14
  {
  }

  /** The same with the range verdict. */
  lemma {:induction false} WindowAccept(s: Stream, m: nat, e: Error, p: nat, si: StreamInfo)
    requires p + 16 <= m <= |s.bits| && |s.bits| % 8 == 0 && m % 8 == 0
    ensures |Short(s, m, e).bits| == m
    ensures Accept(Short(s, m, e), p, si) == Accept(s, p, si) || Accept(Short(s, m, e), p, si) == Bad(Cut(e))
  {
    hide GetFrame, InDepth, FrameShaped, Short;
    ShortLength(s, m, e);
    WindowFrame(s, m, e, p, si);
  }

  /** A frame that decodes from a window of the stream decodes alike from all of it. */
  lemma {:induction false} ExtendFrame(s: Stream, m: nat, e: Error, p: nat, si: StreamInfo)
    requires p <= m <= |s.bits| && |s.bits| % 8 == 0 && m % 8 == 0 && GetFrame(Short(s, m, e), p, si).Ok?
    ensures GetFrame(s, p, si) == GetFrame(Short(s, m, e), p, si)
  {
    hide GetBits, GetChecked, GetSealed, Short;
    ShortLength(s, m, e);
    CutBits(s, m, e, p, 14);
    CutChecked(s, m, e, p, si);
    var h := GetHeader(s, p, si);
    CutSealed(s, m, e, p, h.pos, h.v);
  }

  lemma {:induction false} ShortLength(s: Stream, m: nat, e: Error)
    requires m <= |s.bits|
    ensures |Short(s, m, e).bits| == m
  {
  }
}
