// The frame decoder in the place of the decoder the pump talks to: what the
// package code presumes of its decoder is what LZ4F_decompress does.
module PackageDecoding {
  import opened BlockFormat
  import opened FirmwarePackage
  import opened Flashing
  import opened FrameFormat
  import opened FrameStreaming
  import opened FrameText
  import FrameDecoder

  // A decoding context with the destination it is given, and a record of the
  // calls it has had since its last reset.
  class FrameSession {
    const env: Env
    const ctx: FrameDecoder.Context
    const outBuf: array<byte>
    ghost var calls: seq<Exchange>

    // Objects that exist on their own.
    ghost predicate Built()
      reads ctx
    {
      && ctx.Allocated() && outBuf != ctx.header && outBuf != ctx.tmpIn && outBuf != ctx.tmpOutBuffer
    }

    // Ready for a call: all calls so far went well, and no frame is complete.
    ghost predicate Valid()
      reads this, ctx, ctx.Repr()
    {
      && EnvOk(env) && Built() && ctx.Repr() == {ctx, ctx.header, ctx.tmpIn, ctx.tmpOutBuffer}
      && ctx.Valid(env) && ctx.AtRest() && ctx.frames == 0 && Clean(env, calls)
      && ctx.spec == FeedAll(env, START, Taken(calls)) && ctx.delivered == Given(calls)
    }

    // How much it holds back.
    ghost function Pending(): int
      reads ctx
    {
      |ctx.spec.out| - |ctx.delivered|
    }

    constructor (env0: Env, outSize: nat)
      requires EnvOk(env0)
      ensures Valid() && env == env0 && calls == [] && outBuf.Length == outSize && fresh(ctx.Repr()) && fresh(outBuf)
    {
      env := env0;
      ctx := new FrameDecoder.Context(env0);
      outBuf := new byte[outSize];
      calls := [];
      new;
      hide FeedAll, EnvOk, FrameDecoder.Context.Valid, FrameDecoder.Context.Allocated;
      ctx.ValidAllocated(env0);
      NothingCalled();
    }

    lemma Opened()
      requires Valid()
      ensures Built() && Pending() >= 0 && ctx.Repr() == {ctx, ctx.header, ctx.tmpIn, ctx.tmpOutBuffer}
    {
      hide FeedAll, EnvOk, FrameDecoder.Context.Valid, FrameDecoder.Context.Allocated, FrameDecoder.Context.AtRest;
      OutIsDelivered(ctx, env);
    }

    lemma NothingCalled()
      ensures Clean(env, []) && FeedAll(env, START, Taken([])) == START && Given([]) == []
    {
    }

    // LZ4F_resetDecompressionContext, whatever happened before.
    method Restart()
      requires EnvOk(env) && Built()
      modifies this, ctx
      ensures Valid() && calls == []
    {
      hide FeedAll, EnvOk, FrameDecoder.Context.Valid, FrameDecoder.Context.Allocated;
      ctx.Reset(env);
      calls := [];
      NothingCalled();
    }

    // One call of LZ4F_decompress: a faithful answer in the sense the pump
    // needs.
    method Ask(c: Call) returns (r: Reply)
      requires Valid() && c.src != [] && 0 < c.room <= outBuf.Length
      modifies this, ctx.Repr(), outBuf
      ensures calls == old(calls) + [Exchange(c, r)] && Faithful(env, old(calls), c, r)
      ensures r.Accepted? && r.hint != 0 ==>
                Valid() && Pending() >= 0 && (r.consumed == 0 && r.data != [] ==> Pending() < old(Pending()))
      ensures Built() && (ctx.tmpIn == old(ctx.tmpIn) || fresh(ctx.tmpIn))
              && (ctx.tmpOutBuffer == old(ctx.tmpOutBuffer) || fresh(ctx.tmpOutBuffer))
    {
      hide FeedAll, EnvOk, FrameDecoder.Context.Valid, FrameDecoder.Context.Allocated, FrameDecoder.Context.AtRest,
           Corrupt, Unsettled, Taken, Given, FrameDecoder.Tore, FrameDecoder.Roomy, FrameDecoder.Context.Room;
      ghost var tr, text := calls, Taken(calls) + c.src;
      assert text[..|Taken(tr)|] == Taken(tr) && text[|Taken(tr)|..|Taken(tr)| + |c.src|] == c.src;
      OutIsDelivered(ctx, env);
      ghost var room := ctx.Room(outBuf, 0, c.room);
      var ok, hint, used, part := OneCall(ctx, env, text, |Taken(tr)|, c.src, outBuf, c.room);
      if !ok && ctx.apart { WhyTore(env, text, room); }
      r := if ok then Accepted(used, part, hint) else Rejected;
      calls := calls + [Exchange(c, r)];
      if ok {
        OneMoreExchange(tr, c, r);
        assert text[..|Taken(tr)| + used] == Taken(tr) + c.src[..used];
        OutIsDelivered(ctx, env);
      }
    }
  }

  // ---------------------------------------------------------------------
  // The loop over a compressed entry, on a real context
  // ---------------------------------------------------------------------

  // The loop of process_lz4_streaming without the device: the entry is read
  // into a buffer of inSize bytes and handed to the decoder; what comes out is
  // what the entry decodes to.
  method DecodeEntry(s: FrameSession, data: seq<byte>, inSize: nat) returns (p: Pumped, ghost n: nat)
    requires s.Valid() && s.calls == [] && 0 < inSize && 0 < s.outBuf.Length
    modifies s, s.ctx, s.ctx.Repr(), s.outBuf
    ensures Delivers(s.env, p, [], data, n) && s.Built()
  {
    hide FeedAll, FrameSession.Valid, Faithful, SoFar, Delivers, Taken, Given, IfAny, Joined, Clean;
    var buf, rest := [], data;
    var chunks: seq<seq<byte>> := [];
    StartSoFar(s.env, data);
    NothingJoined();
    s.Opened();
    while buf != [] || rest != []
      invariant s.Valid() && SoFar(s.env, s.calls, buf, rest, data) && Given(s.calls) == Joined(chunks)
      invariant |buf| <= inSize
      invariant s.ctx.tmpIn == old(s.ctx.tmpIn) || fresh(s.ctx.tmpIn)
      invariant s.ctx.tmpOutBuffer == old(s.ctx.tmpOutBuffer) || fresh(s.ctx.tmpOutBuffer)
      invariant s.Built() && s.Pending() >= 0 && s.ctx.Repr() == {s.ctx, s.ctx.header, s.ctx.tmpIn, s.ctx.tmpOutBuffer}
      decreases |buf| + |rest|, |rest|, s.Pending()
    {
      if buf == [] {
        var k := Smaller(inSize, |rest|);
        MovedOn(s.env, s.calls, buf, rest, data, k);
        assert buf + rest[..k] == rest[..k];
        buf, rest := rest[..k], rest[k..];
      } else {
        ghost var tr := s.calls;
        var c := Call(buf, s.outBuf.Length);
        var r := s.Ask(c);
        if r.Rejected? {
          CallRejected(s.env, tr, c, r, rest, data);
          p, n := Pumped(chunks, Failing), 0;
          DeliversAfter(s.env, chunks, Pumped([], Failing), data, n);
          return;
        }
        if r.hint == 0 {
          n := FrameDone(s.env, tr, c, r, rest, data);
          p := Pumped(chunks + IfAny(r.data), AtFrameEnd);
          DeliversAfter(s.env, chunks, Pumped(IfAny(r.data), AtFrameEnd), data, n);
          return;
        }
        CallWent(s.env, tr, c, r, rest, data);
        s.Opened();
        JoinedOfMore(chunks, IfAny(r.data));
        JoinedIfAny(r.data, []);
        assert IfAny(r.data) + [] == IfAny(r.data) && r.data + [] == r.data;
        chunks := chunks + IfAny(r.data);
        buf := buf[r.consumed..];
      }
    }
    n := |data|;
    EntryDone(s.env, s.calls, data);
    p := Pumped(chunks, AtEntryEnd);
    DeliversAfter(s.env, chunks, Pumped([], AtEntryEnd), data, n);
  }

  lemma DeliversAfter(env: Env, chunks: seq<seq<byte>>, p: Pumped, data: seq<byte>, n: nat)
    requires Delivers(env, p, Joined(chunks), data, n)
    ensures Delivers(env, Pumped(chunks + p.chunks, p.ending), [], data, n)
    ensures chunks + [] == chunks
  {
    hide FeedAll, Decoded, Joined;
    JoinedOfMore(chunks, p.chunks);
    assert [] + Joined(chunks + p.chunks) == Joined(chunks) + Joined(p.chunks);
  }

  // ---------------------------------------------------------------------
  // A decoder that is a function of its calls
  // ---------------------------------------------------------------------

  // What a decoder has taken, and how much it has given.
  datatype Progress = Progress(taken: seq<byte>, given: nat)

  // It hands over what it holds back, or else reads one byte.
  function Answer(env: Env, p: Progress, c: Call): (r: Reply)
    ensures r.Accepted? ==> r.consumed <= |c.src| && |r.data| <= c.room
  {
    var m := FeedAll(env, START, p.taken);
    if p.given < |m.out| then
      Accepted(0, m.out[p.given..p.given + Smaller(c.room, |m.out| - p.given)], 1)
    else if c.src == [] then Accepted(0, [], 1)
    else
      var m' := FeedAll(env, START, p.taken + c.src[..1]);
      if m'.stage.Failed? then Rejected
      else
        var data := if p.given < |m'.out| then m'.out[p.given..p.given + Smaller(c.room, |m'.out| - p.given)] else [];
        Accepted(1, data, if m'.frames > 0 then 0 else 1)
  }

  function ProgressAfter(env: Env, h: seq<Call>): Progress {
    if h == [] then Progress([], 0)
    else
      var c, p := h[|h| - 1], ProgressAfter(env, h[..|h| - 1]);
      var r := Answer(env, p, c);
      if r.Accepted? then Progress(p.taken + c.src[..r.consumed], p.given + |r.data|) else p
  }

  function HeldBack(env: Env, p: Progress): nat {
    var m := FeedAll(env, START, p.taken);
    if p.given < |m.out| then |m.out| - p.given else 0
  }

  function SlowDecoder(env: Env): Decoder {
    Decoder((h, c) => Answer(env, ProgressAfter(env, h), c), h => HeldBack(env, ProgressAfter(env, h)))
  }

  lemma SlowDecoderOk(env: Env)
    ensures DecoderOk(SlowDecoder(env))
  {
    hide FeedAll, Answer, HeldBack;
    var d := SlowDecoder(env);
    forall h, c {:trigger d.reply(h, c)} ensures ReplyOk(d, h, c, d.reply(h, c)) {
      assert (h + [c])[..|h|] == h;
      LessHeldBack(env, ProgressAfter(env, h), c);
    }
  }

  // A call that takes nothing and gives something leaves less behind.
  lemma LessHeldBack(env: Env, p: Progress, c: Call)
    ensures var r := Answer(env, p, c);
            r.Accepted? && r.consumed == 0 && r.data != [] ==>
              HeldBack(env, Progress(p.taken + c.src[..r.consumed], p.given + |r.data|)) < HeldBack(env, p)
  {
    hide FeedAll;
    assert p.taken + c.src[..0] == p.taken;
  }

  // Its progress is what its transcript says.
  lemma {:induction false} ProgressIs(env: Env, h: seq<Call>)
    ensures var p, tr := ProgressAfter(env, h), Transcript(SlowDecoder(env), h);
            Taken(tr) == p.taken && |Given(tr)| == p.given
    decreases |h|
  {
    hide FeedAll, Answer;
    if h != [] {
      var front, c := h[..|h| - 1], h[|h| - 1];
      ProgressIs(env, front);
      var tr, r := Transcript(SlowDecoder(env), front), Answer(env, ProgressAfter(env, front), c);
      assert Transcript(SlowDecoder(env), h) == tr + [Exchange(c, r)];
      assert (tr + [Exchange(c, r)])[..|tr|] == tr;
    }
  }

  // Reading one more byte of the entry.
  lemma OneByteMore(env: Env, t: seq<byte>, x: seq<byte>)
    requires x != []
    ensures var m, m' := FeedAll(env, START, t), FeedAll(env, START, t + x[..1]);
            && m.out <= m'.out && m'.frames <= m.frames + 1 && (m'.stage.Failed? ==> m'.frames == m.frames)
            && (m'.frames > m.frames ==> m'.out == m.out && m'.stage == Reading(Magic, 4, []))
            && (m'.frames >= m.frames)
    ensures var m' := FeedAll(env, START, t + x[..1]);
            m'.stage.Failed? && m'.frames == 0 ==> Corrupt(env, t + x)
  {
    hide Feed;
    var u := t + x[..1];
    assert u[..|u| - 1] == t && u[|u| - 1] == x[0];
    var m := FeedAll(env, START, t);
    EndGivesNothing(env, m, x[0]);
    OneByteCounts(env, m, x[0]);
    assert (t + x)[..|t|] == t && (t + x)[..|u|] == u;
    OutGrowsAlong(env, t + x, |t|, |u|);
    if FeedAll(env, START, u).stage.Failed? {
      FrameDecoder.FedRest(env, START, t + x, |u|);
      FailedStays(env, FeedAll(env, START, u), (t + x)[|u|..]);
    }
  }

  // Such a decoder does what is asked of the one the pump talks to.
  lemma SlowDecoderDecodes(env: Env)
    ensures Decodes(SlowDecoder(env), env)
  {
    hide FeedAll, DecoderOk, FaithfulAfter;
    var d := SlowDecoder(env);
    SlowDecoderOk(env);
    forall h, c ensures FaithfulAfter(d, env, h, c) { AnswerIsFaithful(env, h, c); }
  }

  lemma AnswerIsFaithful(env: Env, h: seq<Call>, c: Call)
    ensures FaithfulAfter(SlowDecoder(env), env, h, c)
  {
    hide FeedAll, Faithful, Answer;
    var d, p := SlowDecoder(env), ProgressAfter(env, h);
    var tr := Transcript(d, h);
    assert d.reply(h, c) == Answer(env, p, c);
    ProgressIs(env, h);
    if Clean(env, tr) && c.src != [] && c.room > 0 {
      FaithfulStep(env, tr, p, c);
      assert Faithful(env, tr, c, d.reply(h, c));
    }
  }

  lemma FaithfulStep(env: Env, tr: seq<Exchange>, p: Progress, c: Call)
    requires Clean(env, tr) && c.src != [] && c.room > 0 && Taken(tr) == p.taken && |Given(tr)| == p.given
    ensures Faithful(env, tr, c, Answer(env, p, c))
  {
    hide FeedAll, Unsettled, Taken, Given, Corrupt;
    var r := Answer(env, p, c);
    var t, m := p.taken, FeedAll(env, START, p.taken);
    OneByteMore(env, t, c.src);
    if r.Accepted? {
      OneMoreExchange(tr, c, r);
      if r.consumed == 0 { assert t + c.src[..0] == t; }
    }
  }
}
