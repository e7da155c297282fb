// A caller of the frame decoder that cuts its input as it likes, offers what
// room it likes, and reuses one destination buffer: the outcome depends on the
// input only, unless a block of it is torn.
module FrameStreaming {
  import opened BlockAcceptance
  import opened BlockFormat
  import opened FrameFormat
  import opened FrameDecoder
  import opened FrameText
  import FrameGrammar
  import Emit

  // The first frame of the text ends with its byte n - 1.
  ghost predicate FirstFrame(env: Env, text: seq<byte>, n: nat) {
    && 0 < n <= |text| && FeedAll(env, START, text[..n]).frames == 1
    && FeedAll(env, START, text[..n - 1]).frames == 0
  }

  // The text is exactly one frame.
  ghost predicate IsFrame(env: Env, text: seq<byte>) {
    FirstFrame(env, text, |text|)
  }

  // Before the first frame of the text ends, a block depends on where the
  // decoder finds its history.
  ghost predicate Unsettled(env: Env, text: seq<byte>) {
    exists p: nat {:trigger text[..p]} ::
      p <= |text| && FeedAll(env, START, text[..p]).torn > 0 && FeedAll(env, START, text[..p]).frames == 0
  }

  // The text is malformed before a frame is complete.
  ghost predicate Corrupt(env: Env, text: seq<byte>) {
    FeedAll(env, START, text).stage.Failed? && FeedAll(env, START, text).frames == 0
  }

  ghost predicate Counts(m: Machine, n: Machine) {
    n.frames == m.frames + if n.stage == Reading(Magic, 4, []) then 1 else 0
  }

  lemma FieldCounts(env: Env, m: Machine, what: What, got: seq<byte>)
    ensures Counts(m, Complete(env, m, what, got))
  {
    hide HeadDone, BlockHeadDone, BlockDone, LE32, Skippable;
    match what
    case Head => if |got| >= 7 { HeadCounts(env, m, got); }
    case BlockHead(f) => if |got| >= 4 { BlockHeadCounts(m, f, LE32(got)); }
    case Block(f) => if |got| >= f.SumSize() { BlockCounts(env, m, f, got); }
    case _ =>
  }

  lemma HeadCounts(env: Env, m: Machine, s: seq<byte>)
    requires |s| >= 7
    ensures Counts(m, HeadDone(env, m, s))
  {
    hide FlagError, DescriptorError, HeaderFrame, HeaderSize;
  }

  lemma BlockHeadCounts(m: Machine, f: Frame, h: nat)
    ensures Counts(m, BlockHeadDone(m, f, h))
  {
  }

  lemma BlockCounts(env: Env, m: Machine, f: Frame, s: seq<byte>)
    requires |s| >= f.SumSize()
    ensures Counts(m, BlockDone(env, m, f, s))
  {
    hide DecodeBlock, Torn, LE32, Frame.Take, Frame.History;
  }

  // A byte completes a frame exactly when it leaves the machine ready for
  // another.
  lemma OneByteCounts(env: Env, m: Machine, b: byte)
    ensures Counts(m, Feed(env, m, b))
  {
    hide Complete, Frame.Take;
    if m.stage.Reading? { FieldCounts(env, m, m.stage.what, m.stage.got + [b]); }
  }

  // The byte that ends a frame gives nothing.
  lemma EndGivesNothing(env: Env, m: Machine, b: byte)
    ensures Feed(env, m, b).frames > m.frames ==>
              Feed(env, m, b).out == m.out && Feed(env, m, b).stage == Reading(Magic, 4, [])
    ensures Feed(env, m, b).frames <= m.frames + 1
  {
    hide Complete, Frame.Take;
    OneByteCounts(env, m, b);
    if m.stage.Reading? { EndOfField(env, m, m.stage.what, m.stage.got + [b]); }
  }

  lemma EndOfField(env: Env, m: Machine, what: What, got: seq<byte>)
    ensures Complete(env, m, what, got).frames > m.frames ==> Complete(env, m, what, got).out == m.out
  {
    hide HeadDone, BlockDone, LE32, Skippable, Frame.Take;
    match what
    case Head => if |got| >= 7 { HeadCounts(env, m, got); HeadGivesNothing(env, m, got); }
    case Block(f) => if |got| >= f.SumSize() { BlockEndsNothing(env, m, f, got); }
    case _ =>
  }

  lemma HeadGivesNothing(env: Env, m: Machine, s: seq<byte>)
    requires |s| >= 7
    ensures HeadDone(env, m, s).out == m.out
  {
    hide FlagError, DescriptorError, HeaderFrame, HeaderSize;
  }

  lemma BlockEndsNothing(env: Env, m: Machine, f: Frame, s: seq<byte>)
    requires |s| >= f.SumSize()
    ensures BlockDone(env, m, f, s).frames == m.frames
  {
    hide DecodeBlock, Tears, LE32, Frame.Take, Frame.History;
  }

  lemma {:induction false} FramesGrow(env: Env, m: Machine, s: seq<byte>)
    ensures FeedAll(env, m, s).frames >= m.frames
    decreases |s|
  {
    hide Feed;
    if s != [] {
      FramesGrow(env, m, s[..|s| - 1]);
      OneByteCounts(env, FeedAll(env, m, s[..|s| - 1]), s[|s| - 1]);
    }
  }

  lemma FramesGrowAlong(env: Env, text: seq<byte>, p: nat, q: nat)
    requires p <= q <= |text|
    ensures FeedAll(env, START, text[..p]).frames <= FeedAll(env, START, text[..q]).frames
  {
    FedSoFar(env, START, text, p, q);
    FramesGrow(env, FeedAll(env, START, text[..p]), text[p..q]);
  }

  lemma EndsHere(env: Env, text: seq<byte>, n: nat)
    requires 0 < n <= |text|
    requires FeedAll(env, START, text[..n]).frames == 1 && FeedAll(env, START, text[..n]).stage == Reading(Magic, 4, [])
    ensures FirstFrame(env, text, n)
  {
    hide Feed;
    assert text[..n][..n - 1] == text[..n - 1];
    OneByteCounts(env, FeedAll(env, START, text[..n - 1]), text[n - 1]);
  }

  // There is only one place where the first frame can end.
  lemma OneEnd(env: Env, text: seq<byte>, m: nat, n: nat)
    requires FirstFrame(env, text, m) && FirstFrame(env, text, n)
    ensures m == n
  {
    hide FeedAll;
    if m < n { FramesGrowAlong(env, text, m, n - 1); } else if n < m { FramesGrowAlong(env, text, n, m - 1); }
  }

  // ---------------------------------------------------------------------
  // By the grammar
  // ---------------------------------------------------------------------

  // Malformed is what the grammar calls wrong; the first frame ends where the
  // grammar says, and has that content.
  lemma ByGrammar(env: Env, text: seq<byte>)
    ensures var r := FrameGrammar.ReadFrame(env, false, text);
            && (Corrupt(env, text) <==> r.Wrong?)
            && (r.Wrong? ==> FeedAll(env, START, text).stage == Failed(r.error))
            && (r.Whole? ==> FirstFrame(env, text, r.end) && FeedAll(env, START, text[..r.end]).out == r.content)
            && (FeedAll(env, START, text).frames > 0 <==> r.Whole?)
  {
    hide FeedAll, FrameGrammar.ReadFrame;
    FrameGrammar.MachineReads(env, false, text);
    var r := FrameGrammar.ReadFrame(env, false, text);
    if r.Whole? {
      assert [] + r.content == r.content && text[..|text|] == text;
      NothingFed(env, START, text, 0);
      EndsHere(env, text, r.end);
      FramesGrowAlong(env, text, r.end, |text|);
    }
  }

  lemma OutIsDelivered(ctx: Context, env: Env)
    requires ctx.Valid(env) && ctx.AtRest()
    ensures |ctx.delivered| <= |ctx.spec.out| && ctx.spec.skip == ctx.skipChecksum
    ensures ctx.spec.stage == Reading(Magic, 4, []) ==> ctx.delivered == ctx.spec.out
    ensures ctx.delivered <= ctx.spec.out && ctx.spec.frames == ctx.frames && !ctx.spec.stage.Failed?
    ensures ctx.dStage == GetFrameHeader ==> ctx.spec.stage == Reading(Magic, 4, []) && ctx.delivered == ctx.spec.out
  {
    hide EnvOk, FeedAll, Context.FrameOk, Context.BuffersOk, Context.BlocksOk, Context.NoHistory, EndMark, IsBlockSize;
    ctx.SameSkip(env);
    if ctx.dStage == StoreFrameHeader {
      HeaderGivesNothing(env, ctx.At(Reading(Magic, 4, [])), ctx.header[..ctx.tmpInSize], ctx.tmpInTarget);
    }
  }

  lemma HeaderGivesNothing(env: Env, m: Machine, t: seq<byte>, target: nat)
    requires m.stage == Reading(Magic, 4, []) && HeaderPart(t, target) && |t| < target
    ensures FeedAll(env, m, t).out == m.out && FeedAll(env, m, t).frames == m.frames
    ensures !FeedAll(env, m, t).stage.Failed?
  {
    hide FeedAll, Skippable, FlagError, HeadDone;
    if |t| < 4 { FeedField(env, m, t); }
    else if |t| < 7 { HeaderFed(env, m, t); }
    else { HeaderFedLong(env, m, t); }
  }

  lemma WhyFailed(env: Env, text: seq<byte>, pos: nat, n: nat, e: Error)
    requires pos + n <= |text| && Fails(env, FeedAll(env, START, text[..pos]), text[pos..pos + n], 0, e)
    ensures Corrupt(env, text)
  {
    hide FeedAll;
    var x := text[pos..pos + n];
    var m0 := FeedAll(env, START, text[..pos]);
    var p: nat :| p <= |x| && FeedAll(env, m0, x[..p]).frames == 0 && FeedAll(env, m0, x[..p]).stage == Failed(e);
    assert x[..p] == text[pos..pos + p];
    FedSoFar(env, START, text, pos, pos + p);
    FedRest(env, START, text, pos + p);
    FailedStays(env, FeedAll(env, START, text[..pos + p]), text[pos + p..]);
  }

  // A torn block in a part of the text is one of the text.
  lemma ToreWithin(env: Env, text: seq<byte>, pos: nat, n: nat, room: Option<nat>)
    requires pos + n <= |text| && Tore(env, FeedAll(env, START, text[..pos]), text[pos..pos + n], 0, room)
    ensures Tore(env, START, text, 0, room)
  {
    hide FeedAll, TearsAt, Cramped;
    var x, m0 := text[pos..pos + n], FeedAll(env, START, text[..pos]);
    var q: nat :| 0 < q <= |x| && TearsAt(env, m0, x, q) && FeedAll(env, m0, x[..q]).frames == 0
                  && (room.Some? ==> Cramped(FeedAll(env, m0, x[..q - 1]), room.value));
    TearsWithin(env, START, text, pos, pos + n, q);
    TearsBefore(env, START, text, pos + n, |text|, pos + q);
    assert text[..|text|] == text && text[..pos + n][..pos + q] == text[..pos + q];
  }

  lemma WhyTore(env: Env, text: seq<byte>, room: Option<nat>)
    requires Tore(env, START, text, 0, room)
    ensures Unsettled(env, text)
  {
    hide FeedAll, Cramped;
    var q: nat :| 0 < q <= |text| && TearsAt(env, START, text, q) && FeedAll(env, START, text[..q]).frames == 0
                  && (room.Some? ==> Cramped(FeedAll(env, START, text[..q - 1]), room.value));
  }

  // One call on the next bytes of the text.  A hint of zero means that the
  // frame is complete.
  method OneCall(ctx: Context, env: Env, ghost text: seq<byte>, ghost pos: nat, src: seq<byte>, dst: array<byte>,
                 room: nat)
    returns (ok: bool, hint: nat, c: nat, part: seq<byte>)
    requires ctx.Valid(env) && ctx.AtRest() && dst !in ctx.Repr() && 0 < room <= dst.Length
    requires src != [] && pos + |src| <= |text| && text[pos..pos + |src|] == src
    requires ctx.spec == FeedAll(env, START, text[..pos]) && ctx.frames == 0
    modifies ctx.Repr(), dst
    ensures !ok ==> if ctx.apart then Tore(env, START, text, 0, old(ctx.Room(dst, 0, room))) else Corrupt(env, text)
    ensures ok ==>
              && ctx.Valid(env) && ctx.AtRest() && c <= |src| && |part| <= room && !ctx.apart
              && ctx.spec == FeedAll(env, START, text[..pos + c]) && ctx.delivered == old(ctx.delivered) + part
              && (c > 0 || |part| > 0) && (hint == 0 ==> ctx.dStage == GetFrameHeader && c > 0)
              && ctx.frames == (if hint == 0 then 1 else 0) && (c == 0 ==> ctx.spec == old(ctx.spec))
              && ctx.Repr() == {ctx, ctx.header, ctx.tmpIn, ctx.tmpOutBuffer}
              && Roomy(env, FeedAll(env, START, text[..pos]), text[pos..pos + c], old(ctx.Room(dst, 0, room)))
              && (hint == 0 || c == |src| || |part| == room)
    ensures ctx.Allocated()
    ensures (ctx.tmpIn == old(ctx.tmpIn) || fresh(ctx.tmpIn))
            && (ctx.tmpOutBuffer == old(ctx.tmpOutBuffer) || fresh(ctx.tmpOutBuffer))
  {
    hide FeedAll, Context.Valid, EnvOk, Context.Allocated, Context.InPlace, Tore, Fails, Roomy, Corrupt;
    OutIsDelivered(ctx, env);
    ghost var before, r := ctx.spec, ctx.Room(dst, 0, room);
    ok, hint, part := true, 0, [];
    var flow, p;
    flow, c, p := ctx.Decompress(env, src, dst, 0, room, false, false);
    if flow.Err? {
      if ctx.apart { ToreWithin(env, text, pos, |src|, r); } else { WhyFailed(env, text, pos, |src|, flow.error); }
      ok := false;
    } else {
      hint := flow.hint;
      part := dst[0..0 + p];
      ctx.SpecTorn(env);
      assert src[..c] == text[pos..pos + c];
      FedSoFar(env, START, text, pos, pos + c);
      if c == 0 { NothingFed(env, before, text, pos); }
    }
  }

  // What decoding a text comes to, whatever the calls: the verdict, how much is
  // consumed, and what has been handed over.
  ghost predicate Decoded(env: Env, text: seq<byte>, ok: bool, consumed: nat, out: seq<byte>) {
    && (ok ==> !Corrupt(env, text)) && (!ok ==> Corrupt(env, text) || Unsettled(env, text)) && consumed <= |text|
    && (ok && FeedAll(env, START, text).frames > 0 ==>
          FirstFrame(env, text, consumed) && out == FeedAll(env, START, text[..consumed]).out)
    && (ok && FeedAll(env, START, text).frames == 0 ==> consumed == |text| && out <= FeedAll(env, START, text).out)
  }

  // Between two calls on a text whose first `consumed` bytes have been taken.
  ghost predicate Midway(ctx: Context, env: Env, text: seq<byte>, consumed: nat, out: seq<byte>, done: bool)
    reads ctx, ctx.Repr()
  {
    && ctx.Valid(env) && ctx.AtRest() && consumed <= |text| && out == ctx.delivered
    && ctx.spec == FeedAll(env, START, text[..consumed])
    && ctx.frames == (if done then 1 else 0) && (done ==> ctx.dStage == GetFrameHeader && consumed > 0)
  }

  // One round: the destination, which may hold anything, is offered with some
  // of the text.
  method Round(ctx: Context, env: Env, text: seq<byte>, consumed0: nat, ghost out0: seq<byte>, cut: nat, room0: nat,
               dst: array<byte>, junk: byte)
    returns (ok: bool, done: bool, consumed: nat, part: seq<byte>)
    requires Midway(ctx, env, text, consumed0, out0, false) && consumed0 < |text| && dst !in ctx.Repr()
    requires dst.Length > 0
    modifies ctx.Repr(), dst
    ensures !ok ==> if ctx.apart then Unsettled(env, text) else Corrupt(env, text)
    ensures ok ==>
              && Midway(ctx, env, text, consumed, out0 + part, done) && dst !in ctx.Repr()
              && ctx.Repr() == {ctx, ctx.header, ctx.tmpIn, ctx.tmpOutBuffer}
              && (consumed > consumed0 || (consumed == consumed0 && ctx.spec == old(ctx.spec) && part != [] && !done))
    ensures (ctx.tmpIn == old(ctx.tmpIn) || fresh(ctx.tmpIn))
            && (ctx.tmpOutBuffer == old(ctx.tmpOutBuffer) || fresh(ctx.tmpOutBuffer))
  {
    hide FeedAll, Context.Valid, Context.Allocated, Context.AtRest, EnvOk, Corrupt, Unsettled, Tore, Roomy,
         Context.Room;
    var n := Clip(cut, |text| - consumed0);
    ghost var r := ctx.Room(dst, 0, Clip(room0, dst.Length));
    var room := Clip(room0, dst.Length);
    forall i | 0 <= i < dst.Length { dst[i] := junk; }
    var hint, c;
    ok, hint, c, part := OneCall(ctx, env, text, consumed0, text[consumed0..consumed0 + n], dst, room);
    if !ok && ctx.apart { WhyTore(env, text, r); }
    done, consumed := hint == 0, consumed0 + c;
  }

  // Decode a text in pieces.  `cuts` and `rooms` say how much is offered in
  // each call; between calls the destination is overwritten with `junk`.
  method DecodeInPieces(env: Env, text: seq<byte>, cuts: nat -> nat, rooms: nat -> nat, size: nat, junk: byte)
    returns (ok: bool, consumed: nat, out: seq<byte>, ghost apart: bool)
    requires EnvOk(env) && size > 0
    ensures Decoded(env, text, ok, consumed, out)
    // refused is what is malformed, and a torn block met apart from its history
    ensures ok <==> !apart && !Corrupt(env, text)
    ensures apart ==> Unsettled(env, text)
    ensures ByTheGrammar(env, text, ok, apart, consumed, out)
  {
    hide FeedAll, Context.Valid, Context.Allocated, Context.AtRest, EnvOk, Decoded, Corrupt, Unsettled, ByTheGrammar;
    var ctx := new Context(env);
    var dst := new byte[size];
    ok, consumed, out, apart := true, 0, [], false;
    var round, done := 0, false;
    FedSoFar(env, START, text, 0, 0);
    while consumed < |text| && !done
      invariant Midway(ctx, env, text, consumed, out, done) && fresh(ctx.Repr()) && dst !in ctx.Repr()
      decreases |text| - consumed, !done, |ctx.spec.out| - |ctx.delivered|
    {
      OutIsDelivered(ctx, env);
      var part;
      ok, done, consumed, part := Round(ctx, env, text, consumed, out, cuts(round), rooms(round), dst, junk);
      if !ok {
        NothingDecoded(env, text);
        apart := ctx.apart;
        GrammarDecides(env, text, false, apart, 0, []);
        return false, 0, [], apart;
      }
      out := out + part;
      round := round + 1;
      OutIsDelivered(ctx, env);
    }
    OutIsDelivered(ctx, env);
    HowItEnded(env, text, consumed, out);
    NotCorrupt(env, text, consumed, out);
    GrammarDecides(env, text, true, false, consumed, out);
  }

  // The outcome of decoding by the grammar of the format: the verdict, and for a
  // whole frame its end and its content.
  ghost predicate ByTheGrammar(env: Env, text: seq<byte>, ok: bool, apart: bool, consumed: nat, out: seq<byte>) {
    var r := FrameGrammar.ReadFrame(env, false, text);
    && (ok <==> !apart && !r.Wrong?) && (ok && r.Partial? ==> consumed == |text|)
    && (ok && r.Whole? ==> consumed == r.end && out == r.content)
  }

  lemma GrammarDecides(env: Env, text: seq<byte>, ok: bool, apart: bool, consumed: nat, out: seq<byte>)
    requires Decoded(env, text, ok, consumed, out) && (ok <==> !apart && !Corrupt(env, text))
    ensures ByTheGrammar(env, text, ok, apart, consumed, out)
  {
    hide FeedAll, Corrupt, FrameGrammar.ReadFrame, Unsettled;
    ByGrammar(env, text);
    var r := FrameGrammar.ReadFrame(env, false, text);
    if ok && r.Whole? { OneEnd(env, text, consumed, r.end); }
  }

  lemma NotCorrupt(env: Env, text: seq<byte>, consumed: nat, out: seq<byte>)
    requires Decoded(env, text, true, consumed, out)
    ensures !Corrupt(env, text)
  {
    hide FeedAll;
  }

  lemma NothingDecoded(env: Env, text: seq<byte>)
    requires Corrupt(env, text) || Unsettled(env, text)
    ensures Decoded(env, text, false, 0, [])
  {
    hide FeedAll, Unsettled;
  }

  lemma HowItEnded(env: Env, text: seq<byte>, consumed: nat, out: seq<byte>)
    requires consumed <= |text| && out <= FeedAll(env, START, text[..consumed]).out
    requires var m := FeedAll(env, START, text[..consumed]);
             if m.frames == 0 then consumed == |text| && !m.stage.Failed?
             else m.frames == 1 && consumed > 0 && m.stage == Reading(Magic, 4, []) && out == m.out
    ensures Decoded(env, text, true, consumed, out)
  {
    hide FeedAll;
    assert text[..|text|] == text;
    FramesGrowAlong(env, text, consumed, |text|);
    if FeedAll(env, START, text[..consumed]).frames == 1 { EndsHere(env, text, consumed); }
  }

  // ---------------------------------------------------------------------
  // Callers that differ
  // ---------------------------------------------------------------------

  // Everything in one call.  The dictionary is then always in place, and a torn
  // block is refused exactly if it need not fit into what is left of the room.
  method DecodeAtOnce(env: Env, text: seq<byte>, room: nat)
    returns (ok: bool, done: bool, consumed: nat, out: seq<byte>)
    requires EnvOk(env) && text != [] && room > 0
    ensures !ok ==> Corrupt(env, text) || Tore(env, START, text, 0, Some(room))
    ensures ok ==>
              && consumed <= |text| && Roomy(env, START, text[..consumed], Some(room))
              && (done || consumed == |text| || |out| == room) && out <= FeedAll(env, START, text[..consumed]).out
              && FeedAll(env, START, text[..consumed]).frames == (if done then 1 else 0)
    ensures !ok || done || consumed == |text| ==> Decoded(env, text, ok, consumed, out)
  {
    hide FeedAll, Context.Valid, Context.Allocated, Context.AtRest, EnvOk, Corrupt, Unsettled, Decoded, Tore, Roomy;
    var ctx := new Context(env);
    var dst := new byte[room];
    FedSoFar(env, START, text, 0, 0);
    assert text[0..0 + |text|] == text;
    ghost var r := ctx.Room(dst, 0, room);
    FreshRoom(ctx, env, dst, room);
    var hint;
    ok, hint, consumed, out := OneCall(ctx, env, text, 0, text, dst, room);
    done := hint == 0;
    if ok {
      OutIsDelivered(ctx, env);
      assert text[0..consumed] == text[..consumed] && [] + out == out;
      if done || consumed == |text| { HowItEnded(env, text, consumed, out); }
    } else {
      if ctx.apart { WhyTore(env, text, r); }
      consumed, out := 0, [];
      NothingDecoded(env, text);
    }
  }

  // A new context has no dictionary, which counts as in place.
  lemma FreshRoom(ctx: Context, env: Env, dst: array<byte>, room: nat)
    requires ctx.Valid(env) && ctx.dStage == GetFrameHeader && ctx.delivered == []
    ensures ctx.Room(dst, 0, room) == Some(room)
  {
    hide EnvOk, Context.Shape, Context.FrameOk, Context.BuffersOk, Context.BlocksOk;
  }

  const LARGEST_BLOCK := 0x40_0000

  // The capacity of a block lies between 64 KB and 4 MB.
  ghost predicate Sized(f: Frame) {
    KB64 <= f.maxBlock <= LARGEST_BLOCK
  }

  ghost predicate Bounded(m: Machine) {
    match m.stage
    case Reading(what, _, _) =>
      (match what
       case BlockHead(f) => Sized(f)
       case RawSum(f, _) => Sized(f)
       case Block(f) => Sized(f)
       case Suffix(f) => Sized(f)
       case _ => true)
    case Raw(f, _, _) => Sized(f)
    case _ => true
  }

  lemma StaysBounded(env: Env, m: Machine, b: byte)
    requires Bounded(m)
    ensures Bounded(Feed(env, m, b)) && m.out <= Feed(env, m, b).out
  {
    hide Complete;
    if m.stage.Reading? {
      FieldBounded(env, m, m.stage.what, m.stage.got + [b]);
    } else if m.stage.Raw? {
      TakeBounded(m.stage.f, [b]);
    }
  }

  lemma TakeBounded(f: Frame, x: seq<byte>)
    ensures Sized(f.Take(x)) == Sized(f)
  {
  }

  lemma FieldBounded(env: Env, m: Machine, what: What, got: seq<byte>)
    requires Bounded(m) && m.stage.Reading? && m.stage.what == what
    ensures Bounded(Complete(env, m, what, got)) && m.out <= Complete(env, m, what, got).out
  {
    hide HeadDone, BlockHeadDone, BlockDone, LE32, Skippable, Sized;
    match what
    case Head => if |got| >= 7 { HeadBounded(env, m, got); }
    case BlockHead(f) => if |got| >= 4 { BlockHeadBounded(m, f, LE32(got)); }
    case Block(f) => if |got| >= f.SumSize() { BlockBounded(env, m, f, got); }
    case _ =>
  }

  lemma HeadBounded(env: Env, m: Machine, s: seq<byte>)
    requires |s| >= 7
    ensures Bounded(HeadDone(env, m, s)) && HeadDone(env, m, s).out == m.out
  {
    hide FlagError, DescriptorError, LE64, HeaderSize;
  }

  lemma BlockHeadBounded(m: Machine, f: Frame, h: nat)
    requires Sized(f)
    ensures Bounded(BlockHeadDone(m, f, h)) && BlockHeadDone(m, f, h).out == m.out
  {
    hide Sized;
  }

  lemma BlockBounded(env: Env, m: Machine, f: Frame, s: seq<byte>)
    requires Sized(f) && |s| >= f.SumSize()
    ensures Bounded(BlockDone(env, m, f, s)) && m.out <= BlockDone(env, m, f, s).out
  {
    hide DecodeBlock, Tears, LE32, Frame.Take, Frame.History, Sized;
    var x := DecodeBlock(Behind, s[..|s| - f.SumSize()], f.History(), f.maxBlock);
    if x.Some? { TakeBounded(f, x.value); }
  }

  // Output is never taken back.
  lemma {:induction false} OutGrows(env: Env, m: Machine, s: seq<byte>)
    requires Bounded(m)
    ensures Bounded(FeedAll(env, m, s)) && m.out <= FeedAll(env, m, s).out
    decreases |s|
  {
    hide Feed, Bounded;
    if s != [] {
      OutGrows(env, m, s[..|s| - 1]);
      StaysBounded(env, FeedAll(env, m, s[..|s| - 1]), s[|s| - 1]);
    }
  }

  lemma OutGrowsAlong(env: Env, text: seq<byte>, p: nat, q: nat)
    requires p <= q <= |text|
    ensures Bounded(FeedAll(env, START, text[..p]))
    ensures FeedAll(env, START, text[..p]).out <= FeedAll(env, START, text[..q]).out
  {
    hide FeedAll;
    OutGrows(env, START, text[..p]);
    FedSoFar(env, START, text, p, q);
    OutGrows(env, FeedAll(env, START, text[..p]), text[p..q]);
  }

  // Where there is room for all that comes out and for another block, no torn
  // block is met apart from its history.
  lemma NeverCramped(env: Env, text: seq<byte>, room: nat)
    requires |FeedAll(env, START, text).out| + LARGEST_BLOCK <= room
    ensures !Tore(env, START, text, 0, Some(room))
  {
    hide FeedAll, TearsAt;
    if Tore(env, START, text, 0, Some(room)) {
      var q: nat :| 0 < q <= |text| && TearsAt(env, START, text, q) && FeedAll(env, START, text[..q]).frames == 0
                    && Cramped(FeedAll(env, START, text[..q - 1]), room);
      assert text[..|text|] == text;
      OutGrowsAlong(env, text, q - 1, |text|);
    }
  }

  // The most lenient caller: it accepts whatever is not malformed.
  method LenientCaller(env: Env, text: seq<byte>) returns (ok: bool, ghost consumed: nat, ghost out: seq<byte>)
    requires EnvOk(env)
    ensures ok <==> !Corrupt(env, text)
    ensures Decoded(env, text, ok, consumed, out)
  {
    hide FeedAll, EnvOk, Corrupt, Unsettled, Tore, Roomy, Decoded;
    if text == [] {
      EmptyText(env);
      return true, 0, [];
    }
    var room := |FeedAll(env, START, text).out| + LARGEST_BLOCK;
    var done, c, o;
    ok, done, c, o := DecodeAtOnce(env, text, room);
    consumed, out := c, o;
    NeverCramped(env, text, room);
    if ok {
      OutGrowsAlong(env, text, c, |text|);
      assert text[..|text|] == text;
      NotCorrupt(env, text, c, o);
    }
  }

  lemma EmptyText(env: Env)
    ensures !Corrupt(env, []) && !Unsettled(env, []) && Decoded(env, [], true, 0, [])
  {
  }

  // The first torn block of the first frame, if there is any.
  ghost predicate FirstTear(env: Env, text: seq<byte>, p: nat) {
    && 0 < p <= |text| && FeedAll(env, START, text[..p]).frames == 0
    && FeedAll(env, START, text[..p]).torn > 0 && FeedAll(env, START, text[..p - 1]).torn == 0
  }

  method FindTear(env: Env, text: seq<byte>) returns (p: nat)
    ensures if p > 0 then FirstTear(env, text, p) else !Unsettled(env, text)
  {
    hide FeedAll;
    FedSoFar(env, START, text, 0, 0);
    for i := 0 to |text|
      invariant FeedAll(env, START, text[..i]).torn == 0
    {
      if FeedAll(env, START, text[..i + 1]).torn > 0 {
        if FeedAll(env, START, text[..i + 1]).frames == 0 { return i + 1; }
        SettledFrom(env, text, i + 1);
        return 0;
      }
    }
    assert text[..|text|] == text;
    NeverTorn(env, text);
    return 0;
  }

  // Torn blocks behind the first frame do not count.
  lemma SettledFrom(env: Env, text: seq<byte>, q: nat)
    requires 0 < q <= |text| && FeedAll(env, START, text[..q - 1]).torn == 0
    requires FeedAll(env, START, text[..q]).frames > 0
    ensures !Unsettled(env, text)
  {
    hide FeedAll;
    forall p: nat | p <= |text| && FeedAll(env, START, text[..p]).frames == 0
      ensures FeedAll(env, START, text[..p]).torn == 0
    {
      if p >= q {
        FramesGrowAlong(env, text, q, p);
      } else {
        FedSoFar(env, START, text, p, q - 1);
        TornGrows(env, FeedAll(env, START, text[..p]), text[p..q - 1]);
      }
    }
  }

  // In front of a torn block is a block that is not complete yet.
  lemma BeforeTear(env: Env, text: seq<byte>, p: nat)
    requires FirstTear(env, text, p)
    ensures var m := FeedAll(env, START, text[..p - 1]);
            m.stage.Reading? && m.stage.what.Block? && KB64 <= m.stage.what.b.maxBlock
    ensures FeedAll(env, START, text).torn > 0
  {
    hide Feed;
    assert text[..p][..p - 1] == text[..p - 1];
    OneByteTears(env, FeedAll(env, START, text[..p - 1]), text[p - 1]);
    OutGrowsAlong(env, text, p - 1, p);
    FedRest(env, START, text, p);
    TornGrows(env, FeedAll(env, START, text[..p]), text[p..]);
  }

  // With a room that is a byte short of the first torn block's capacity, that
  // block is met, and refused.
  lemma TearIsMet(env: Env, text: seq<byte>, p: nat, room: nat, done: bool, consumed: nat, out: seq<byte>)
    requires FirstTear(env, text, p) && consumed <= |text|
    requires var m := FeedAll(env, START, text[..p - 1]);
             m.stage.Reading? && m.stage.what.Block? && room + 1 == |m.out| + m.stage.what.b.maxBlock
    requires KB64 <= FeedAll(env, START, text[..p - 1]).stage.what.b.maxBlock
    requires done || consumed == |text| || |out| == room
    requires out <= FeedAll(env, START, text[..consumed]).out
    requires FeedAll(env, START, text[..consumed]).frames == (if done then 1 else 0)
    ensures !Roomy(env, START, text[..consumed], Some(room))
  {
    hide FeedAll;
    if consumed >= p {
      assert text[..consumed][..p] == text[..p] && text[..consumed][..p - 1] == text[..p - 1];
      assert TearsAt(env, START, text[..consumed], p);
    } else {
      FramesGrowAlong(env, text, consumed, p);
      OutGrowsAlong(env, text, consumed, p - 1);
      assert false;
    }
  }

  // The strictest caller: it refuses besides whatever holds a torn block.
  method StrictCaller(env: Env, text: seq<byte>) returns (ok: bool, ghost consumed: nat, ghost out: seq<byte>)
    requires EnvOk(env)
    ensures ok <==> !Corrupt(env, text) && !Unsettled(env, text)
    ensures Decoded(env, text, ok, consumed, out)
  {
    hide FeedAll, EnvOk, Corrupt, Unsettled, Tore, Roomy, Decoded, FirstTear;
    var p := FindTear(env, text);
    if p == 0 {
      ok, consumed, out := LenientCaller(env, text);
      return;
    }
    BeforeTear(env, text, p);
    TearIsInside(env, text, p);
    var m := FeedAll(env, START, text[..p - 1]);
    var room := |m.out| + m.stage.what.b.maxBlock - 1;
    var done, c, o;
    ok, done, c, o := DecodeAtOnce(env, text, room);
    consumed, out := c, o;
    if ok { TearIsMet(env, text, p, room, done, c, o); }
  }

  lemma TearIsInside(env: Env, text: seq<byte>, p: nat)
    requires FirstTear(env, text, p)
    ensures 0 < p <= |text| && text != [] && Unsettled(env, text)
  {
    hide FeedAll;
  }

  // Two callers, whatever their cuts, their rooms and what they leave in their
  // buffers: those that accept the text agree on all of it.  They agree on the
  // verdict if the text is malformed or no block of its first frame is torn ...
  lemma CallersAgree(env: Env, text: seq<byte>, ok1: bool, consumed1: nat, out1: seq<byte>,
                     ok2: bool, consumed2: nat, out2: seq<byte>)
    requires Decoded(env, text, ok1, consumed1, out1) && Decoded(env, text, ok2, consumed2, out2)
    ensures Corrupt(env, text) || !Unsettled(env, text) ==> ok1 == ok2
    ensures ok1 && ok2 ==> consumed1 == consumed2 && (out1 <= out2 || out2 <= out1)
    ensures ok1 && ok2 && FeedAll(env, START, text).frames > 0 ==> out1 == out2
  {
    hide FeedAll, FirstFrame, Unsettled;
    if ok1 && ok2 {
      if FeedAll(env, START, text).frames > 0 {
        OneEnd(env, text, consumed1, consumed2);
      } else if |out1| <= |out2| {
        assert out1 == out2[..|out1|];
      } else {
        assert out2 == out1[..|out2|];
      }
    }
  }


  // ... and not otherwise: these two agree exactly then.  The verdict of any
  // caller is one of theirs.
  method ExtremeCallers(env: Env, text: seq<byte>) returns (lenient: bool, strict: bool)
    requires EnvOk(env)
    ensures (lenient <==> !Corrupt(env, text)) && (strict <==> !Corrupt(env, text) && !Unsettled(env, text))
    ensures lenient == strict <==> Corrupt(env, text) || !Unsettled(env, text)
    ensures forall ok, consumed, out :: Decoded(env, text, ok, consumed, out) ==> (strict ==> ok) && (ok ==> lenient)
    ensures exists consumed, out :: Decoded(env, text, lenient, consumed, out)
    ensures exists consumed, out :: Decoded(env, text, strict, consumed, out)
  {
    hide FeedAll, EnvOk, Corrupt, Unsettled, FirstFrame;
    ghost var c1, o1, c2, o2;
    lenient, c1, o1 := LenientCaller(env, text);
    strict, c2, o2 := StrictCaller(env, text);
    assert Decoded(env, text, lenient, c1, o1) && Decoded(env, text, strict, c2, o2);
  }

  // A text that is exactly one frame is consumed exactly.
  lemma FrameIsDecoded(env: Env, text: seq<byte>, ok: bool, consumed: nat, out: seq<byte>)
    requires Decoded(env, text, ok, consumed, out) && IsFrame(env, text)
    ensures !Unsettled(env, text) ==> ok
    ensures ok ==> consumed == |text| && out == FeedAll(env, START, text).out
  {
    hide FeedAll, Unsettled;
    assert text[..|text|] == text;
    if ok { OneEnd(env, text, consumed, |text|); }
  }

  // ---------------------------------------------------------------------
  // When the verdict is the format's alone
  // ---------------------------------------------------------------------

  // A text that met no torn block by its end is settled.
  lemma NeverTorn(env: Env, text: seq<byte>)
    requires FeedAll(env, START, text).torn == 0
    ensures !Unsettled(env, text)
  {
    hide FeedAll;
    forall p: nat | p <= |text| ensures FeedAll(env, START, text[..p]).torn == 0 {
      FedRest(env, START, text, p);
      TornGrows(env, FeedAll(env, START, text[..p]), text[p..]);
    }
  }

  // Only the last byte of a compressed block of a linked frame can tear.
  lemma OnlyLinkedTear(env: Env, m: Machine, b: byte)
    ensures Feed(env, m, b).torn >= m.torn
    ensures Feed(env, m, b).torn > m.torn ==>
              (m.stage.Reading? && m.stage.what.Block? && m.stage.what.b.linked)
  {
    hide LE32, FlagError, DescriptorError, HeaderFrame, Frame.Take, DecodeBlock, Torn;
    forall data, cap ensures !Torn(data, [], cap) { NoHistoryNotTorn(data, cap); }
  }

  // The stage belongs to no linked frame; up to the end of the header, what is
  // collected is the text so far.
  ghost predicate Unlinked(stage: Stage, text: seq<byte>, p: nat)
    requires p <= |text|
  {
    match stage
    case Reading(what, need, got) =>
      (match what
       case Magic => got == text[..p] && need == 4
       case Head => got == text[..p] && p >= 4 && !Skippable(text[..4])
       case SkipSize => true
       case BlockHead(f) => !f.linked
       case RawSum(f, _) => !f.linked
       case Block(f) => !f.linked
       case Suffix(f) => !f.linked)
    case Raw(f, _, _) => !f.linked
    case Skip(_) => true
    case Failed(_) => true
  }

  // The text starts a skippable frame, or one with independent blocks.
  predicate Independent(text: seq<byte>) {
    |text| >= 5 ==> Skippable(text[..4]) || Flag(text[4], 32)
  }

  lemma StaysUnlinked(env: Env, m: Machine, text: seq<byte>, p: nat)
    requires p < |text| && Independent(text) && m.frames == 0 && m.torn == 0 && Unlinked(m.stage, text, p)
    ensures var n := Feed(env, m, text[p]); n.frames == 0 ==> n.torn == 0 && Unlinked(n.stage, text, p + 1)
  {
    hide LE32, FlagError, DescriptorError, DecodeBlock, Torn, BlockSize, LE64;
    OnlyLinkedTear(env, m, text[p]);
    assert text[..p + 1] == text[..p] + [text[p]];
    if p + 1 >= 4 { assert text[..p + 1][..4] == text[..4]; SkippableStart(text[..p + 1]); }
  }

  lemma SkippableStart(s: seq<byte>)
    requires |s| >= 4
    ensures Skippable(s) == Skippable(s[..4])
  {
  }

  lemma {:induction false} UnlinkedSoFar(env: Env, text: seq<byte>, p: nat)
    requires p <= |text| && Independent(text)
    ensures var m := FeedAll(env, START, text[..p]); m.frames == 0 ==> m.torn == 0 && Unlinked(m.stage, text, p)
    decreases p
  {
    hide Feed, Unlinked, Independent;
    if p == 0 {
      assert Unlinked(Reading(Magic, 4, []), text, 0) by { StartUnlinked(text); }
    } else {
      UnlinkedSoFar(env, text, p - 1);
      assert text[..p][..p - 1] == text[..p - 1];
      var m := FeedAll(env, START, text[..p - 1]);
      OneByteCounts(env, m, text[p - 1]);
      if m.frames == 0 { StaysUnlinked(env, m, text, p - 1); }
    }
  }

  lemma StartUnlinked(text: seq<byte>)
    ensures Unlinked(Reading(Magic, 4, []), text, 0)
  {
  }

  // With independent blocks the verdict is the format's alone: the outcome of
  // decoding is the same for all callers on every text.
  lemma IndependentSettled(env: Env, text: seq<byte>)
    requires Independent(text)
    ensures !Unsettled(env, text)
  {
    hide FeedAll, Independent, Unlinked;
    forall p: nat | p <= |text| && FeedAll(env, START, text[..p]).frames == 0
      ensures FeedAll(env, START, text[..p]).torn == 0
    {
      UnlinkedSoFar(env, text, p);
    }
  }

  // ---------------------------------------------------------------------
  // A text on which the verdict depends on the calls
  // ---------------------------------------------------------------------

  const LINKED_PREFS := Prefs(true, false, false, 0, 0, 4, 0, false, false)

  // A frame of linked 64 KB blocks: the history as it is, then another block.
  function TwoBlocks(env: Env, history: seq<byte>, block: seq<byte>): seq<byte>
    requires |history| == KB64 && |block| <= KB64
  {
    HeaderText(env, LINKED_PREFS) + LE32Bytes(0x8000_0000 + KB64) + history + LE32Bytes(|block|) + block
  }

  // The frame once the history has been read.
  function Behind64KB(history: seq<byte>): Frame {
    PrefsFrame(LINKED_PREFS).Take(history)
  }

  lemma HistoryRead(env: Env, history: seq<byte>)
    requires EnvOk(env) && |history| == KB64
    ensures var m := FeedAll(env, START, HeaderText(env, LINKED_PREFS) + LE32Bytes(0x8000_0000 + KB64) + history);
            AtBlocks(m, Behind64KB(history)) && m.frames == 0
  {
    hide FeedAll, HeaderText, LE32Bytes, BlockSize;
    var s1, s2 := HeaderText(env, LINKED_PREFS), LE32Bytes(0x8000_0000 + KB64);
    var f := PrefsFrame(LINKED_PREFS);
    HeaderRead(env, START, LINKED_PREFS);
    SixtyFour();
    RawRead(env, FeedAll(env, START, s1), f, history);
    assert history + Sum(env, f, history) == history;
    FeedAppend(env, START, s1, s2 + history);
    assert s1 + s2 + history == s1 + (s2 + history);
  }

  lemma SixtyFour()
    ensures BlockSize(4) == KB64
  {
  }

  lemma TwoBlocksRead(env: Env, history: seq<byte>, block: seq<byte>)
    requires EnvOk(env) && |history| == KB64 && 0 < |block| <= KB64
    requires DecodeBlock(Behind, block, history, KB64).Some?
    ensures var m := FeedAll(env, START, TwoBlocks(env, history, block));
            m.frames == 0 && !m.stage.Failed? && (Torn(block, history, KB64) ==> m.torn > 0)
  {
    hide FeedAll, HeaderText, LE32Bytes, DecodeBlock, Torn;
    var s, f := HeaderText(env, LINKED_PREFS) + LE32Bytes(0x8000_0000 + KB64) + history, Behind64KB(history);
    HistoryRead(env, history);
    assert f.content == history by { assert [] + history == history; }
    BlockRead(env, FeedAll(env, START, s), f, block, DecodeBlock(Behind, block, history, KB64).value);
    assert block + Sum(env, f, block) == block;
    FeedAppend(env, START, s, LE32Bytes(|block|) + block);
    assert TwoBlocks(env, history, block) == s + (LE32Bytes(|block|) + block);
  }

  lemma TornBlockFits(x: seq<byte>, y: seq<byte>)
    requires |x| <= 65000 && |y| == 14
    ensures 0 < |TornBlock(x, y)| <= KB64
  {
    Emit.EncodeSequenceSize(Sequence(x, 1, 65504 - |x|));
    Emit.ExtensionSize(|x|);
    Emit.ExtensionSize(65504 - |x| - MINMATCH);
    TornParts(x, y);
  }

  // A family of texts that the format accepts so far, and that depend on where
  // the decoder finds its history.
  lemma TornFrameUnsettled(env: Env, history: seq<byte>, x: seq<byte>, y: seq<byte>)
    requires EnvOk(env) && |history| == KB64 && |x| <= 65000 && |y| == 14
    ensures |TornBlock(x, y)| <= KB64
    ensures var text := TwoBlocks(env, history, TornBlock(x, y)); Unsettled(env, text) && !Corrupt(env, text)
  {
    hide FeedAll, TwoBlocks, TornBlock, DecodeBlock, Torn;
    TornBlockFits(x, y);
    TornInput(x, y, history);
    LayoutsDiffer(TornBlock(x, y), history, KB64);
    TwoBlocksRead(env, history, TornBlock(x, y));
    var text := TwoBlocks(env, history, TornBlock(x, y));
    assert text[..|text|] == text;
  }

  // On each of them two callers get two verdicts.
  method TornFrameTwoVerdicts(env: Env, history: seq<byte>, x: seq<byte>, y: seq<byte>)
    returns (lenient: bool, strict: bool)
    requires EnvOk(env) && |history| == KB64 && |x| <= 65000 && |y| == 14
    ensures lenient && !strict
  {
    hide FeedAll, TwoBlocks, TornBlock, Corrupt, Unsettled, Decoded, EnvOk;
    TornFrameUnsettled(env, history, x, y);
    lenient, strict := ExtremeCallers(env, TwoBlocks(env, history, TornBlock(x, y)));
  }

  // An offer of a bytes, at least one and within the limit.
  function Clip(a: nat, limit: nat): (n: nat)
    requires limit > 0
    ensures 0 < n <= limit
  {
    if a == 0 then 1 else if a > limit then limit else a
  }
}
