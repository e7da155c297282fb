// Frames end to end: what the compressor writes, the decoder reads back,
// however the content was handed over and however the frame is cut.
module FrameRoundTrip {
  import opened BlockFormat
  import opened Dictionaries
  import opened FrameFormat
  import opened FrameText
  import opened FrameCompressor
  import FrameStreaming
  import FrameGrammar
  import XxHash32

  // A call of the compressor into a buffer of its own.
  lemma WroteAll(t0: seq<byte>, t1: seq<byte>, was: seq<byte>, now: seq<byte>, n: nat)
    requires Grew(t0, t1, was, now, 0, n)
    ensures n <= |now| && t1 == t0 + now[..n]
  {
  }

  // An update with a destination of the bound, and a flush if asked for.
  method WritePiece(ctx: FrameCompressor.Context, c: Coder, x: seq<byte>, xAt: Place, flush: bool, stable: bool)
    returns (part: seq<byte>)
    requires xAt.Place? && xAt.space != TMP
    requires ctx.cStage == 1 && ctx.Valid(c)
    modifies ctx.Objects()
    ensures ctx.cStage == 1 && ctx.Valid(c) && ctx.Objects() == old(ctx.Objects())
    ensures ctx.text == old(ctx.text) + part && ctx.input == old(ctx.input) + x && ctx.prefs == old(ctx.prefs)
  {
    hide FrameCompressor.Context.Valid, Grew, CompressBoundInternal;
    ghost var t0 := ctx.text;
    var dst := new byte[CompressBoundInternal(|x|, ctx.prefs, ctx.tmpInSize)];
    ghost var was := dst[..];
    var r := ctx.CompressUpdate(c, x, xAt, dst, 0, dst.Length, stable);
    ghost var t1 := ctx.text;
    StillOpen(ctx, c);
    WroteAll(t0, t1, was, dst[..], r.size);
    part := dst[..r.size];
    if flush {
      var more := new byte[ctx.tmpInSize + 8];
      was := more[..];
      var f := ctx.Flush(c, more, 0, more.Length);
      WroteAll(t1, ctx.text, was, more[..], f.size);
      part := part + more[..f.size];
    }
  }

  lemma StillOpen(ctx: FrameCompressor.Context, c: Coder)
    requires ctx.Valid(c)
    ensures ctx.cStage == 1 && ctx.Shape()
  {
    hide CoderOk, ReadsAfter, FrameCompressor.Context.DictOk;
  }

  // Where the pieces of the content lie in the caller's memory.
  function PieceAt(places: nat -> (nat, nat), i: nat): Place {
    Place(TMP + 1 + places(i).0, places(i).1)
  }

  // A whole frame from the pieces of its content: begin, an update for each
  // piece (followed by a flush where asked), end.
  method WriteFrame(c: Coder, p: Prefs, pieces: seq<seq<byte>>, places: nat -> (nat, nat), flushes: nat -> bool,
                    stable: nat -> bool)
    returns (ok: bool, frame: seq<byte>)
    requires CoderOk(c) && p.dictID < 0x1_0000_0000 && (p.blockSizeID == 0 || 4 <= p.blockSizeID <= 7)
    requires |Joined(pieces)| < 0x1_0000_0000_0000_0000
    ensures ok <==> p.contentSize == 0 || p.contentSize == |Joined(pieces)|
    ensures ok ==> FrameStreaming.IsFrame(c.env, frame) && !FrameStreaming.Unsettled(c.env, frame)
    ensures ok ==> FeedAll(c.env, START, frame).out == Joined(pieces)
    ensures ok ==> FrameGrammar.ReadFrame(c.env, false, frame) == FrameGrammar.Whole(Joined(pieces), |frame|)
  {
    hide CoderOk, FeedAll, FrameCompressor.Context.Valid, FrameCompressor.Context.Shape, Grew, BlockSize, Joined,
         FrameGrammar.ReadFrame;
    var ctx := new FrameCompressor.Context();
    var dst := new byte[19];
    ghost var was := dst[..];
    var r := ctx.CompressBegin(c, p, dst, 0, 19);
    WroteAll([], ctx.text, was, dst[..], r.size);
    frame := dst[..r.size];
    assert [] + frame == frame && pieces[..0] == [];
    StillOpen(ctx, c);
    NothingJoined();
    for i := 0 to |pieces|
      invariant ctx.cStage == 1 && ctx.Valid(c) && fresh(ctx.Objects())
      invariant frame == ctx.text && ctx.input == Joined(pieces[..i])
      invariant ctx.prefs.contentSize == p.contentSize
    {
      var part := WritePiece(ctx, c, pieces[i], PieceAt(places, i), flushes(i), stable(i));
      frame := frame + part;
      OneMoreJoined(pieces, i);
    }
    assert pieces[..|pieces|] == pieces;
    dst := new byte[ctx.tmpInSize + 16];
    was := dst[..];
    r := ctx.CompressEnd(c, dst, 0, dst.Length);
    ok := r.Written?;
    assert r.Failure? ==> r == Failure(r.error) && r.error == WrongFrameSize;
    if ok {
      WroteAll(frame, ctx.text, was, dst[..], r.size);
      frame := frame + dst[..r.size];
      assert frame[..|frame|] == frame;
      FrameStreaming.EndsHere(c.env, frame, |frame|);
      FrameStreaming.NeverTorn(c.env, frame);
      ByGrammar(c.env, frame, Joined(pieces));
    }
  }

  lemma ByGrammar(env: Env, frame: seq<byte>, content: seq<byte>)
    requires FrameStreaming.IsFrame(env, frame) && FeedAll(env, START, frame).out == content
    ensures FrameGrammar.ReadFrame(env, false, frame) == FrameGrammar.Whole(content, |frame|)
  {
    hide FeedAll, FrameGrammar.ReadFrame;
    FrameStreaming.ByGrammar(env, frame);
    var r := FrameGrammar.ReadFrame(env, false, frame);
    assert frame[..|frame|] == frame;
    FrameStreaming.OneEnd(env, frame, r.end, |frame|);
  }

  // Compress in pieces, decompress in other pieces: the content comes back.
  method CompressDecompressFrame(c: Coder, p: Prefs, pieces: seq<seq<byte>>, places: nat -> (nat, nat),
                                 flushes: nat -> bool, stable: nat -> bool,
                                 cuts: nat -> nat, rooms: nat -> nat, size: nat, junk: byte)
    returns (ok: bool, out: seq<byte>)
    requires CoderOk(c) && p.dictID < 0x1_0000_0000 && (p.blockSizeID == 0 || 4 <= p.blockSizeID <= 7) && size > 0
    requires |Joined(pieces)| < 0x1_0000_0000_0000_0000
    ensures ok <==> p.contentSize == 0 || p.contentSize == |Joined(pieces)|
    ensures ok ==> out == Joined(pieces)
  {
    hide FeedAll, FrameStreaming.IsFrame, FrameStreaming.Unsettled, FrameStreaming.ByTheGrammar,
         FrameGrammar.ReadFrame, Joined, EnvOk;
    var frame;
    ok, frame := WriteFrame(c, p, pieces, places, flushes, stable);
    out := [];
    if ok {
      var read, consumed;
      ghost var apart;
      read, consumed, out, apart := FrameStreaming.DecodeInPieces(c.env, frame, cuts, rooms, size, junk);
      FrameStreaming.FrameIsDecoded(c.env, frame, read, consumed, out);
    }
  }

  // The environment of this repository: XXH32 with seed 0.
  function Lz4Env(): Env {
    Env((s: seq<byte>) => XxHash32.Hash(0, s) as nat)
  }

  lemma Lz4EnvOk()
    ensures EnvOk(Lz4Env())
  {
    hide XxHash32.Hash;
  }
}
