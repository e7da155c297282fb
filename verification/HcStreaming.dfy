// LZ4 HC as a stream: LZ4_compress_HC_continue behind the text compressed so
// far, of which the last part is the prefix and one earlier part may be the
// external dictionary.
module HcStreaming {
  import opened BlockFormat
  import opened Dictionaries
  import opened Emit
  import opened HcMatchFinder
  import opened HcMid
  import opened HighCompression

  const KB64 := 0x1_0000
  const GB2 := 0x8000_0000

  // ---------------------------------------------------------------------
  // The two segments
  // ---------------------------------------------------------------------

  // A fresh prefix of at most 64 KB is filed as the level needs it.
  method FileDict(ctx: Context, h: Hashes, d: seq<byte>)
    requires HashesOk(h) && ctx.Ready(h.chain) && ctx.prefixPlace.Place? && |d| <= KB64
    modifies ctx`nextToUpdate, ctx`prefix, ctx.hashTable, ctx.chainTable
    ensures Sound(ctx, h) && ctx.prefix == d
  {
    hide ChainOk, CLevelParams, HashesOk;
    ctx.prefix := d;
    assert [] + d == d && ctx.dict + d == d;
    ValidMore(ctx, h.chain, [], d);
    if CLevelParams(ctx.compressionLevel) == Mid {
      FillHTable(ctx, h, d);
    } else if |d| >= 4 {
      ctx.Insert(h.chain, d, |d| - 3);
    }
  }

  // LZ4_loadDictHC: a stream that begins with the last 64 KB of a dictionary.
  method LoadDict(ctx: Context, h: Hashes, dictionary: seq<byte>, at: Place)
    requires HashesOk(h) && ctx.Usable() && at.Place?
    modifies ctx, ctx.hashTable, ctx.chainTable
    ensures Sound(ctx, h) && ctx.Text() == ctx.prefix == Last(dictionary, KB64) && ctx.dict == []
    ensures ctx.prefixPlace == at.Plus(|dictionary| - |ctx.prefix|)
    ensures ctx.prefixIdx <= GB + MAXD
    ensures !ctx.dirty && ClampLevel(ctx.compressionLevel) == ClampLevel(old(ctx.compressionLevel))
  {
    hide CLevelParams, Context.Usable, Context.Ready, Sound, HashesOk, HashesInto;
    var d := Last(dictionary, KB64);
    ChainHash(h);
    var cLevel := ctx.compressionLevel;
    ctx.InitAgain();
    ctx.SetCompressionLevel(cLevel);
    SameStrategy(cLevel);
    ctx.InitInternal(h.chain, at.Plus(|dictionary| - |d|));
    ReadyBelow(ctx, h);
    FileDict(ctx, h, d);
    assert [] + d == d;
  }

  lemma ChainHash(h: Hashes)
    requires HashesOk(h)
    ensures HashesInto(h.chain)
  {
  }

  lemma ReadyBelow(ctx: Context, h: Hashes)
    requires ctx.Ready(h.chain)
    ensures ctx.dict == [] && ctx.prefix == [] && ctx.prefixIdx <= GB + MAXD
  {
  }

  lemma SameStrategy(level: int)
    ensures CLevelParams(ClampLevel(level)) == CLevelParams(level)
  {
  }

  // What is left of the prefix is filed, where there are chains.
  method FileRest(ctx: Context, h: Hashes)
    requires Sound(ctx, h) && ctx.prefixPlace.Place?
    modifies ctx`nextToUpdate, ctx.hashTable, ctx.chainTable
    ensures Sound(ctx, h)
  {
    hide ChainOk, CLevelParams;
    var text := ctx.Text();
    if |ctx.prefix| >= 4 && CLevelParams(ctx.compressionLevel) != Mid { ctx.Insert(h.chain, text, |text| - 3); }
  }

  // LZ4HC_setExternalDict: the prefix becomes the external dictionary, and
  // whatever that was before is lost.
  method SetExternalDict(ctx: Context, h: Hashes, newBlock: Place)
    requires Sound(ctx, h) && ctx.prefixPlace.Place? && newBlock.Place?
    modifies ctx`nextToUpdate, ctx`prefixIdx, ctx`lowLimit, ctx`prefix, ctx`prefixPlace, ctx`dict, ctx`dictPlace,
             ctx`exact, ctx.hashTable, ctx.chainTable
    ensures Sound(ctx, h) && ctx.dict == old(ctx.prefix) && ctx.dictPlace == old(ctx.prefixPlace)
    ensures ctx.prefix == [] && ctx.prefixPlace == newBlock && ctx.Text() == ctx.dict
    ensures ctx.prefixIdx == old(ctx.prefixIdx + |ctx.prefix|)
  {
    hide ChainOk, CLevelParams, HashesOk;
    FileRest(ctx, h);
    ctx.lowLimit, ctx.dict, ctx.dictPlace := ctx.prefixIdx, ctx.prefix, ctx.prefixPlace;
    ctx.prefixIdx := ctx.prefixIdx + |ctx.prefix|;
    ctx.prefix, ctx.prefixPlace := [], newBlock;
    ctx.nextToUpdate := ctx.prefixIdx;
    ctx.exact := false;
    assert ctx.dict + [] == ctx.dict;
  }

  // A source that overlaps the external dictionary cuts it to what lies behind
  // the source; nothing shorter than four bytes is kept.
  method CutOverlap(ctx: Context, h: Hashes, size: nat, at: Place)
    requires Sound(ctx, h) && ctx.prefixPlace.Place? && at.Place?
    modifies ctx`lowLimit, ctx`dict, ctx`dictPlace
    ensures Sound(ctx, h) && EndsWith(old(ctx.dict), ctx.dict)
    ensures ctx.dict != [] ==> ctx.dictPlace.Plus(|ctx.dict|) == old(ctx.dictPlace.Plus(|ctx.dict|))
    ensures ctx.dictPlace.Place? && ctx.dictPlace.space == at.space && ctx.dict != [] && size > 0 ==>
              at.at + size <= ctx.dictPlace.at || ctx.dictPlace.at + |ctx.dict| <= at.at
  {
    hide ChainOk, CLevelParams;
    EndsWithSelf(ctx.dict);
    if ctx.dictPlace.Place? && ctx.dictPlace.space == at.space {
      var sourceEnd, dictBegin, dictEnd := at.at + size, ctx.dictPlace.at, ctx.dictPlace.at + |ctx.dict|;
      if sourceEnd > dictBegin && at.at < dictEnd {
        if sourceEnd > dictEnd { sourceEnd := dictEnd; }
        var cut := sourceEnd - dictBegin;
        ctx.lowLimit := ctx.lowLimit + cut;
        ctx.dictPlace := ctx.dictPlace.Plus(cut);
        ctx.dict := ctx.dict[cut..];
        if |ctx.dict| < 4 {
          ctx.lowLimit, ctx.dict, ctx.dictPlace := ctx.prefixIdx, [], ctx.prefixPlace;
        }
      }
    }
  }

  // ---------------------------------------------------------------------
  // The stream
  // ---------------------------------------------------------------------

  lemma SoundFacts(ctx: Context, h: Hashes)
    requires Sound(ctx, h)
    ensures HashesOk(h) && HashesInto(h.chain) && ctx.Usable() && (ctx.prefixPlace.Null? ==> ctx.prefix == [])
  {
  }

  lemma TextIs(ctx: Context)
    requires ctx.prefixPlace.Place?
    ensures ctx.Text() == ctx.dict + ctx.prefix
  {
  }

  lemma TextEnds(ctx: Context)
    requires ctx.prefixPlace.Place?
    ensures EndsWith(ctx.Text(), ctx.prefix)
  {
    EndsWithLast(ctx.dict, ctx.prefix);
  }

  // A stream that was reset begins with the source; one whose indices pass 2 GB
  // begins again with the last 64 KB of its prefix.
  method Renew(ctx: Context, h: Hashes, at: Place)
    requires Sound(ctx, h) && at.Place?
    modifies ctx, ctx.hashTable, ctx.chainTable
    ensures Sound(ctx, h) && ctx.prefixPlace.Place? && ctx.prefixIdx + |ctx.prefix| <= GB2
    ensures EndsWith(old(ctx.Text()), ctx.Text()) && EndsWith(old(ctx.prefix), ctx.prefix)
    ensures if old(ctx.prefixPlace.Null?) then ctx.prefixPlace == at
            else ctx.prefixPlace.Plus(|ctx.prefix|) == old(ctx.prefixPlace.Plus(|ctx.prefix|))
    ensures ctx.dict == [] || (ctx.dict == old(ctx.dict) && ctx.dictPlace == old(ctx.dictPlace))
    ensures old(ctx.prefixPlace.Null?) ==> ctx.prefix == [] && ctx.dict == [] && StillNew(ctx, old(ctx.favorDecSpeed))
    ensures ClampLevel(ctx.compressionLevel) == ClampLevel(old(ctx.compressionLevel))
  {
    hide CLevelParams, Sound, Context.Ready, Context.Usable, Context.Text, HashesOk, HashesInto, EndsWith;
    SoundFacts(ctx, h);
    ghost var text, prefix := ctx.Text(), ctx.prefix;
    EndsWithSelf(text);
    EndsWithSelf(prefix);
    if ctx.prefixPlace.Null? {
      ctx.InitInternal(h.chain, at);
      ReadyBelow(ctx, h);
      NothingInReach(ctx, h);
    }
    if ctx.prefixIdx + |ctx.prefix| > GB2 {
      TextEnds(ctx);
      EndsWithTwice(text, prefix, Last(prefix, KB64));
      LoadDict(ctx, h, ctx.prefix, ctx.prefixPlace);
    }
  }

  // A stream that was reset has nothing filed, and keeps its preferences.
  ghost predicate StillNew(ctx: Context, favorDecSpeed: bool)
    reads ctx`exact, ctx`favorDecSpeed
  {
    ctx.exact && (ctx.favorDecSpeed ==> favorDecSpeed)
  }

  // The source follows the prefix, or the prefix becomes the external
  // dictionary.
  method Join(ctx: Context, h: Hashes, size: nat, at: Place)
    requires Sound(ctx, h) && ctx.prefixPlace.Place? && at.Place?
    modifies ctx`nextToUpdate, ctx`prefixIdx, ctx`lowLimit, ctx`prefix, ctx`prefixPlace, ctx`dict, ctx`dictPlace,
             ctx`exact, ctx.hashTable, ctx.chainTable
    ensures Sound(ctx, h) && ctx.prefixIdx + |ctx.prefix| == old(ctx.prefixIdx + |ctx.prefix|)
    ensures ctx.prefixPlace.Plus(|ctx.prefix|) == at && EndsWith(old(ctx.Text()), ctx.Text())
    ensures Joined(old(ctx.dict), old(ctx.dictPlace), old(ctx.prefix), old(ctx.prefixPlace), at,
                   ctx.dict, ctx.dictPlace, ctx.prefix)
    ensures old(ctx.prefixPlace.Plus(|ctx.prefix|)) == at ==> ctx.exact == old(ctx.exact)
  {
    hide CLevelParams, Sound, EndsWith, Context.Text;
    ghost var text := ctx.Text();
    EndsWithSelf(text);
    if ctx.prefixPlace.Plus(|ctx.prefix|) != at {
      TextEnds(ctx);
      SetExternalDict(ctx, h, at);
    }
    ghost var text1, dict1 := ctx.Text(), ctx.dict;
    TextIs(ctx);
    CutOverlap(ctx, h, size, at);
    TextIs(ctx);
    EndsWithMore(dict1, ctx.dict, ctx.prefix);
    EndsWithTwice(text, text1, ctx.Text());
  }

  // The segments when a block at `at` is about to be compressed, if they were
  // (d0, q0) and (s0, p0) before: the external dictionary is what is left of the
  // segment that does not continue.
  ghost predicate Joined(d0: seq<byte>, q0: Place, s0: seq<byte>, p0: Place, at: Place,
                         d1: seq<byte>, q1: Place, s1: seq<byte>)
  {
    if p0.Plus(|s0|) == at then s1 == s0 && Remains(d0, q0, d1, q1) else s1 == [] && Remains(s0, p0, d1, q1)
  }

  // Both together: the stream is ready for a block at `at`.
  method Prepare(ctx: Context, h: Hashes, size: nat, at: Place)
    requires Sound(ctx, h) && at.Place?
    modifies ctx, ctx.hashTable, ctx.chainTable
    ensures Sound(ctx, h) && ctx.prefixPlace.Place? && ctx.prefixIdx + |ctx.prefix| <= GB2
    ensures ctx.prefixPlace.Plus(|ctx.prefix|) == at && EndsWith(old(ctx.Text()), ctx.Text())
    ensures EndsWith(old(ctx.prefix), ctx.prefix) || ctx.prefix == []
    ensures ctx.prefix != [] ==> old(ctx.prefixPlace.Plus(|ctx.prefix|)) == at
    ensures Leaves(old(ctx.dict), old(ctx.dictPlace), old(ctx.prefix), old(ctx.prefixPlace), at,
                   ctx.dict, ctx.dictPlace)
    ensures old(ctx.prefixPlace.Null?) ==> StillNew(ctx, old(ctx.favorDecSpeed)) && ctx.Text() == []
    ensures ClampLevel(ctx.compressionLevel) == ClampLevel(old(ctx.compressionLevel))
  {
    hide CLevelParams, ClampLevel, Sound, EndsWith, Joined, Leaves, Context.Text, Context.Usable, HashesOk, HashesInto,
         StillNew;
    ghost var text0, d0, q0, s0, p0 := ctx.Text(), ctx.dict, ctx.dictPlace, ctx.prefix, ctx.prefixPlace;
    SoundFacts(ctx, h);
    NullText(ctx);
    Renew(ctx, h, at);
    ghost var text1, d1, q1, s1, p1 := ctx.Text(), ctx.dict, ctx.dictPlace, ctx.prefix, ctx.prefixPlace;
    PlusNothing(s1, p1);
    Join(ctx, h, size, at);
    EndsWithTwice(text0, text1, ctx.Text());
    LeavesAs(d0, q0, s0, p0, d1, q1, s1, p1, at, ctx.dict, ctx.dictPlace, ctx.prefix);
    NoText(ctx, text0);
  }

  lemma NullText(ctx: Context)
    ensures ctx.prefixPlace.Null? ==> ctx.Text() == []
  {
  }

  lemma PlusNothing(s: seq<byte>, p: Place)
    ensures s == [] ==> p.Plus(|s|) == p
  {
  }

  lemma NoText(ctx: Context, text: seq<byte>)
    requires EndsWith(text, ctx.Text())
    ensures text == [] ==> ctx.Text() == []
  {
  }

  // LZ4_compressHC_continue_generic: a block that may refer to the text of the
  // stream, which ends with the source afterwards, also with a part of it that
  // was not taken in.
  method ContinueGeneric(ctx: Context, h: Hashes, src: seq<byte>, at: Place, dst: array<byte>, d: OutputDirective)
    returns (result: nat, consumed: nat)
    requires Sound(ctx, h) && at.Place? && |src| <= MAX_INPUT_SIZE && dst.Length > 0
    requires ctx.hashTable as object != dst && ctx.chainTable as object != dst
    requires d == NotLimited ==> dst.Length >= Bound(|src|)
    modifies ctx, ctx.hashTable, ctx.chainTable, dst
    ensures Sound(ctx, h) && result <= dst.Length && consumed <= |src|
    ensures result > 0 ==> BlockOf(dst[..result], old(ctx.Text()), src[..consumed])
    ensures result > 0 && d != FillOutput ==> consumed == |src|
    ensures result > 0 && consumed < |src| ==> result >= dst.Length - 1
    ensures result > 0 ==> result <= CompressBound(consumed)
    ensures d == NotLimited ==> 0 < result <= Bound(|src|)
    ensures d == FillOutput ==> result > 0
    ensures EndsWith(old(ctx.Text()) + src, ctx.Text())
    ensures Continues(old(ctx.prefix), old(ctx.prefixPlace), src, at, ctx.prefix, ctx.prefixPlace)
    ensures Leaves(old(ctx.dict), old(ctx.dictPlace), old(ctx.prefix), old(ctx.prefixPlace), at,
                   ctx.dict, ctx.dictPlace)
    // the first block after a reset, if it is a run
    ensures old(ctx.prefixPlace.Null?) && d != FillOutput
            && PlainFor(old(CLevelParams(ctx.compressionLevel)), |src|, old(ctx.favorDecSpeed)) ==>
              RunsShrink(src, dst.Length, result)
  {
    hide CLevelParams, Sound, BlockOf, EndsWith, Leaves, Continues, Context.Text, Bound, RunsShrink;
    ghost var text0, s0, p0 := ctx.Text(), ctx.prefix, ctx.prefixPlace;
    SameStrategy(ctx.compressionLevel);
    Prepare(ctx, h, |src|, at);
    SameStrategy(ctx.compressionLevel);
    ghost var text, s2, p2 := ctx.Text(), ctx.prefix, ctx.prefixPlace;
    result, consumed := CompressGeneric(ctx, h, src, dst, d, ctx.compressionLevel);
    if result > 0 { BlockWiden(dst[..result], text0, text, src[..consumed]); }
    EndsWithMore(text0, text, src);
    ContinuesAs(s0, p0, src, at, s2, p2);
  }

  // LZ4_compress_HC_continue
  method CompressHCContinue(ctx: Context, h: Hashes, src: seq<byte>, at: Place, dst: array<byte>) returns (result: nat)
    requires Sound(ctx, h) && at.Place? && |src| <= MAX_INPUT_SIZE && dst.Length > 0
    requires ctx.hashTable as object != dst && ctx.chainTable as object != dst
    modifies ctx, ctx.hashTable, ctx.chainTable, dst
    ensures Sound(ctx, h) && result <= dst.Length
    ensures dst.Length >= Bound(|src|) ==> 0 < result <= Bound(|src|)
    ensures result > 0 ==> BlockOf(dst[..result], old(ctx.Text()), src)
    ensures EndsWith(old(ctx.Text()) + src, ctx.Text())
    ensures Continues(old(ctx.prefix), old(ctx.prefixPlace), src, at, ctx.prefix, ctx.prefixPlace)
    ensures Leaves(old(ctx.dict), old(ctx.dictPlace), old(ctx.prefix), old(ctx.prefixPlace), at,
                   ctx.dict, ctx.dictPlace)
    ensures old(ctx.prefixPlace.Null?)
            && PlainFor(old(CLevelParams(ctx.compressionLevel)), |src|, old(ctx.favorDecSpeed)) ==>
              RunsShrink(src, dst.Length, result)
  {
    hide Sound, BlockOf, EndsWith, Leaves, Continues, RunsShrink, CLevelParams;
    var d := if dst.Length < Bound(|src|) then LimitedOutput else NotLimited;
    var consumed;
    result, consumed := ContinueGeneric(ctx, h, src, at, dst, d);
    assert src[..|src|] == src;
  }

  // LZ4_compress_HC_continue_destSize: as much of the source as fits.
  method CompressHCContinueDestSize(ctx: Context, h: Hashes, src: seq<byte>, at: Place, dst: array<byte>)
    returns (result: nat, consumed: nat)
    requires Sound(ctx, h) && at.Place? && |src| <= MAX_INPUT_SIZE && dst.Length > 0
    requires ctx.hashTable as object != dst && ctx.chainTable as object != dst
    modifies ctx, ctx.hashTable, ctx.chainTable, dst
    ensures Sound(ctx, h) && 0 < result <= dst.Length && consumed <= |src|
    ensures BlockOf(dst[..result], old(ctx.Text()), src[..consumed])
    ensures consumed < |src| ==> dst.Length - 1 <= result
    ensures result <= CompressBound(consumed)
    ensures EndsWith(old(ctx.Text()) + src, ctx.Text())
  {
    hide Sound, BlockOf, EndsWith, Leaves, Continues;
    result, consumed := ContinueGeneric(ctx, h, src, at, dst, FillOutput);
  }

  // What Renew and Join do to the segments together.
  lemma LeavesAs(d0: seq<byte>, q0: Place, s0: seq<byte>, p0: Place, d1: seq<byte>, q1: Place, s1: seq<byte>, p1: Place,
                 at: Place, d2: seq<byte>, q2: Place, s2: seq<byte>)
    requires EndsWith(s0, s1) && (d1 == [] || (d1 == d0 && q1 == q0)) && at.Place?
    requires if p0.Null? then p1 == at && s0 == [] && s1 == [] && d1 == [] else p1.Plus(|s1|) == p0.Plus(|s0|)
    requires Joined(d1, q1, s1, p1, at, d2, q2, s2)
    ensures Leaves(d0, q0, s0, p0, at, d2, q2)
    ensures (EndsWith(s0, s2) || s2 == []) && (s2 != [] ==> p0.Plus(|s0|) == at)
  {
    hide EndsWith;
    if d2 != [] && p1.Plus(|s1|) != at { EndsWithTwice(s0, s1, d2); }
    if d1 == [] { Nothing(d2); }
  }

  lemma Nothing(d: seq<byte>)
    ensures EndsWith([], d) ==> d == []
  {
  }

  // LZ4_saveDictHC: only the last 64 KB of the prefix stay, and move; the
  // external dictionary is given up.
  method SaveDict(ctx: Context, h: Hashes, safeBuffer: Place)
    requires Sound(ctx, h) && ctx.prefixPlace.Place? && safeBuffer.Place?
    modifies ctx`nextToUpdate, ctx`prefixIdx, ctx`lowLimit, ctx`prefix, ctx`prefixPlace, ctx`dict, ctx`dictPlace,
             ctx`exact
    ensures Sound(ctx, h) && ctx.Text() == ctx.prefix == Last(old(ctx.prefix), KB64) && ctx.dict == []
    ensures ctx.prefixPlace == safeBuffer && EndsWith(old(ctx.Text()), ctx.Text())
  {
    hide ChainOk, CLevelParams, HashesOk, EndsWith;
    EndsWithLast(ctx.dict, ctx.prefix);
    EndsWithTwice(ctx.dict + ctx.prefix, ctx.prefix, Last(ctx.prefix, KB64));
    var endIndex := ctx.prefixIdx + |ctx.prefix|;
    ctx.prefix := Last(ctx.prefix, KB64);
    ctx.prefixPlace := safeBuffer;
    ctx.prefixIdx := endIndex - |ctx.prefix|;
    ctx.lowLimit, ctx.dict, ctx.dictPlace := ctx.prefixIdx, [], safeBuffer;
    if ctx.nextToUpdate < ctx.prefixIdx { ctx.nextToUpdate := ctx.prefixIdx; }
    ctx.exact := false;
    assert [] + ctx.prefix == ctx.prefix;
  }
}
