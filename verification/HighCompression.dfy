// LZ4 HC by compression level: what a context owes between calls, and the entry
// points for a source on its own.
module HighCompression {
  import opened BlockFormat
  import opened Dictionaries
  import opened Emit
  import opened HcMatchFinder
  import opened HcCompressor
  import opened HcMid
  import opened HcOptimal

  datatype Strategy = Mid | ByHashChain(nbSearches: nat) | ByOptimalParse(nbSearches: nat, targetLength: nat)

  // LZ4HC_getCLevelParams
  function CLevelParams(cLevel: int): (s: Strategy)
    ensures s == Mid <==> cLevel == 1 || cLevel == 2
  {
    var level := ClampLevel(cLevel);
    if level <= 2 then Mid
    else if level == 3 then ByHashChain(4)
    else if level == 4 then ByHashChain(8)
    else if level == 5 then ByHashChain(16)
    else if level == 6 then ByHashChain(32)
    else if level == 7 then ByHashChain(64)
    else if level == 8 then ByHashChain(128)
    else if level == 9 then ByHashChain(256)
    else if level == 10 then ByOptimalParse(96, 64)
    else if level == 11 then ByOptimalParse(512, 128)
    else ByOptimalParse(16384, LZ4_OPT_NUM)
  }

  // A context between calls.  Once it has a prefix its tables serve the text of
  // the external dictionary and the prefix: for the strategies with chains as
  // the match finder needs them, for the other one in that every entry was
  // filed before the end.
  ghost predicate Sound(ctx: Context, h: Hashes)
    reads ctx`nextToUpdate, ctx`prefixIdx, ctx`lowLimit, ctx`exact, ctx`prefix, ctx`prefixPlace, ctx`dict,
          ctx`compressionLevel, ctx.hashTable, ctx.chainTable
  {
    && HashesOk(h) && ctx.Usable() && (ctx.prefixPlace.Null? ==> ctx.prefix == [])
    && (ctx.prefixPlace.Place? ==> InText(ctx, h))
  }

  ghost predicate InText(ctx: Context, h: Hashes)
    reads ctx`nextToUpdate, ctx`prefixIdx, ctx`lowLimit, ctx`exact, ctx`prefix, ctx`prefixPlace, ctx`dict,
          ctx`compressionLevel, ctx.hashTable, ctx.chainTable
  {
    && MAXD <= ctx.lowLimit <= ctx.prefixIdx && |ctx.dict| == ctx.DictSize()
    && FiledBefore(ctx.hashTable, ctx.prefixIdx + |ctx.prefix|)
    && (CLevelParams(ctx.compressionLevel) != Mid ==> ctx.Valid(h.chain, ctx.dict + ctx.prefix))
  }

  // At the beginning of a prefix every entry is more than a window away.
  lemma NothingInReach(ctx: Context, h: Hashes)
    requires HashesOk(h) && ctx.Ready(h.chain) && ctx.prefixPlace.Place?
    ensures Sound(ctx, h)
    ensures forall k {:trigger ctx.hashTable[k]} ::
              0 <= k < ctx.hashTable.Length ==> ctx.prefixIdx - ctx.hashTable[k] > DISTANCE_MAX
  {
    hide ChainOk;
    assert ctx.dict + ctx.prefix == [];
  }

  // Sources of which it is known what a compressor of this level that begins with
  // them does if they are runs.
  predicate Plain(cLevel: int, n: nat, favorDecSpeed: bool) {
    PlainFor(CLevelParams(cLevel), n, favorDecSpeed)
  }

  predicate PlainFor(strategy: Strategy, n: nat, favorDecSpeed: bool) {
    match strategy
    case Mid => true
    case ByHashChain(_) => true
    case ByOptimalParse(_, _) => n > 4101 && !favorDecSpeed
  }

  lemma SearchesSome(cLevel: int)
    ensures match CLevelParams(cLevel)
            case Mid => true
            case ByHashChain(nbSearches) => nbSearches > 0
            case ByOptimalParse(nbSearches, _) => nbSearches > 0
  {
  }

  // The compressor of the level, on a source behind the text of the context.
  method CompressText(ctx: Context, h: Hashes, text: seq<byte>, src: seq<byte>, dst: array<byte>, d: OutputDirective,
                      cLevel: int)
    returns (result: nat, consumed: nat)
    requires HashesOk(h) && ctx.Sized() && InText(ctx, h) && text == ctx.dict + ctx.prefix
    requires CLevelParams(cLevel) == CLevelParams(ctx.compressionLevel)
    requires ctx.hashTable as object != dst && ctx.chainTable as object != dst
    requires src != [] && dst.Length >= 1 && ctx.lowLimit + |text + src| < 0x1_0000_0000
    requires d == NotLimited ==> dst.Length >= CompressBound(|src|)
    modifies dst, ctx`nextToUpdate, ctx.hashTable, ctx.chainTable
    ensures ctx.Sized() && FiledBefore(ctx.hashTable, ctx.lowLimit + |text + src|)
    ensures CLevelParams(ctx.compressionLevel) != Mid ==> ctx.Valid(h.chain, text + src)
    ensures result <= dst.Length && consumed <= |src|
    ensures result > 0 ==> BlockOf(dst[..result], text, src[..consumed])
    ensures result > 0 && d != FillOutput ==> consumed == |src|
    ensures result > 0 && consumed < |src| ==> result >= dst.Length - 1
    ensures result > 0 ==> result <= CompressBound(consumed)
    ensures result == 0 ==> d == LimitedOutput
    ensures text == [] && ctx.exact && d != FillOutput && Plain(cLevel, |src|, ctx.favorDecSpeed) ==>
              RunsShrink(src, dst.Length, result)
  {
    hide BlockOf, ChainOk, CLevelParams, RunsShrink;
    SearchesSome(cLevel);
    var all, start := text + src, |text|;
    assert text == [] ==> all == src;
    if CLevelParams(ctx.compressionLevel) != Mid { ValidMore(ctx, h.chain, text, src); }
    match CLevelParams(cLevel) {
      case Mid =>
        result, consumed := CompressMid(ctx, h, all, start, dst, d);
      case ByHashChain(nbSearches) =>
        result, consumed := CompressHashChain(ctx, h.chain, all, start, dst, d, nbSearches);
        FiledWithin(ctx, h.chain, all);
      case ByOptimalParse(nbSearches, targetLength) =>
        result, consumed := CompressOptimal(ctx, h.chain, all, start, dst, d, nbSearches, targetLength,
                                            cLevel >= CLEVEL_MAX, ctx.favorDecSpeed);
        FiledWithin(ctx, h.chain, all);
    }
    assert all[..start] == text && all[start..start + consumed] == src[..consumed];
  }

  // LZ4HC_compress_generic_internal: the source becomes part of the prefix.
  method CompressGeneric(ctx: Context, h: Hashes, src: seq<byte>, dst: array<byte>, d: OutputDirective, cLevel: int)
    returns (result: nat, consumed: nat)
    requires Sound(ctx, h) && ctx.prefixPlace.Place? && CLevelParams(cLevel) == CLevelParams(ctx.compressionLevel)
    requires ctx.prefixIdx + |ctx.prefix| <= 0x8000_0000
    requires ctx.hashTable as object != dst && ctx.chainTable as object != dst
    requires d == NotLimited ==> dst.Length >= Bound(|src|)
    modifies dst, ctx`nextToUpdate, ctx`prefix, ctx`dirty, ctx.hashTable, ctx.chainTable
    ensures Sound(ctx, h)
    ensures ctx.prefix == if |src| > MAX_INPUT_SIZE || dst.Length < 1 then old(ctx.prefix) else old(ctx.prefix) + src
    ensures |src| <= MAX_INPUT_SIZE && dst.Length >= 1 ==> ctx.Text() == old(ctx.Text()) + src
    ensures result <= dst.Length && consumed <= |src|
    ensures result > 0 ==> BlockOf(dst[..result], old(ctx.Text()), src[..consumed])
    ensures result > 0 && d != FillOutput ==> consumed == |src|
    ensures result > 0 && consumed < |src| ==> result >= dst.Length - 1
    ensures result > 0 ==> result <= CompressBound(consumed)
    ensures d == NotLimited && |src| <= MAX_INPUT_SIZE ==> 0 < result <= Bound(|src|)
    ensures d == FillOutput && |src| <= MAX_INPUT_SIZE && dst.Length > 0 ==> result > 0
    ensures old(ctx.Text()) == [] && ctx.exact && d != FillOutput && |src| <= MAX_INPUT_SIZE ==>
              Plain(cLevel, |src|, ctx.favorDecSpeed) ==> RunsShrink(src, dst.Length, result)
    ensures |src| > MAX_INPUT_SIZE ==> result == 0
  {
    hide BlockOf, ChainOk, CLevelParams, Context.Valid, IsRun, Plain;
    RunIsLong(src, 0);
    if |src| > MAX_INPUT_SIZE { return 0, 0; }
    if dst.Length < 1 { return 0, 0; }
    if |src| == 0 {
      dst[0] := 0;
      EmptyBlock(ctx.Text());
      assert dst[..1] == [0] && src[..0] == [] && ctx.prefix + src == ctx.prefix && ctx.Text() + src == ctx.Text();
      return 1, 0;
    }
    var text := ctx.Text();
    result, consumed := CompressText(ctx, h, text, src, dst, d, cLevel);
    assert text + src == ctx.dict + (ctx.prefix + src);
    ctx.prefix := ctx.prefix + src;
    if result <= 0 { ctx.dirty := true; }
  }

  // LZ4_compress_HC_extStateHC_fastReset: any state that has been used before
  // will do.
  method CompressHCFastReset(ctx: Context, src: seq<byte>, at: Place, dst: array<byte>, cLevel: int, h: Hashes)
    returns (result: nat)
    requires HashesOk(h) && ctx.Usable() && at.Place?
    requires ctx.hashTable as object != dst && ctx.chainTable as object != dst
    modifies dst, ctx, ctx.hashTable, ctx.chainTable
    ensures Sound(ctx, h) && ctx.prefixPlace == at && ctx.dict == []
    ensures |src| <= MAX_INPUT_SIZE && dst.Length > 0 ==> ctx.Text() == src
    ensures result <= dst.Length
    ensures result > 0 ==> StrictBlock(dst[..result], src)
    ensures |src| <= MAX_INPUT_SIZE && dst.Length >= Bound(|src|) ==> 0 < result <= Bound(|src|)
    ensures |src| > 0x7E000000 ==> result == 0
    ensures |src| <= 0x7E000000 && dst.Length >= |src| + |src| / 255 + 16 ==> result > 0
    ensures src == [] && result > 0 ==> dst[..result] == [0]
    ensures |src| <= MAX_INPUT_SIZE && Plain(cLevel, |src|, old(ctx.favorDecSpeed)) ==>
              RunsShrink(src, dst.Length, result)
  {
    hide StrictBlock, BlockOf, ChainOk, Context.Valid, RunsShrink;
    ctx.ResetFast(cLevel);
    assert CLevelParams(ClampLevel(cLevel)) == CLevelParams(cLevel);
    ctx.InitInternal(h.chain, at);
    NothingInReach(ctx, h);
    assert ctx.Text() == [];
    var d := if dst.Length < Bound(|src|) then LimitedOutput else NotLimited;
    var consumed;
    result, consumed := CompressGeneric(ctx, h, src, dst, d, cLevel);
    assert src[..|src|] == src && [] + src == src && [] + ctx.prefix == ctx.prefix;
    if result > 0 { PlainBlock(dst[..result], src); }
  }

  // Where the source of a call with a context of its own lies makes no
  // difference.
  const ANYWHERE := Place(0, 0)

  // LZ4_compress_HC
  method CompressHC(src: seq<byte>, dst: array<byte>, cLevel: int, h: Hashes) returns (result: nat)
    requires HashesOk(h)
    modifies dst
    ensures result <= dst.Length
    ensures result > 0 ==> StrictBlock(dst[..result], src)
    ensures |src| <= MAX_INPUT_SIZE && dst.Length >= Bound(|src|) ==> 0 < result <= Bound(|src|)
    ensures |src| > 0x7E000000 ==> result == 0
    ensures |src| <= 0x7E000000 && dst.Length >= |src| + |src| / 255 + 16 ==> result > 0
    ensures src == [] && result > 0 ==> dst[..result] == [0]
    ensures |src| <= MAX_INPUT_SIZE && Plain(cLevel, |src|, false) ==> RunsShrink(src, dst.Length, result)
  {
    hide StrictBlock, HashesOk, RunsShrink, Plain;
    var ctx := new Context();
    result := CompressHCFastReset(ctx, src, ANYWHERE, dst, cLevel, h);
  }

  // LZ4_compress_HC_destSize
  method CompressHCDestSize(src: seq<byte>, dst: array<byte>, cLevel: int, h: Hashes)
    returns (result: nat, consumed: nat)
    requires HashesOk(h)
    modifies dst
    ensures result <= dst.Length && consumed <= |src|
    ensures result > 0 ==> StrictBlock(dst[..result], src[..consumed])
    ensures result > 0 && consumed == 0 ==> dst[..result] == [0]
    ensures result > 0 <==> |src| <= 0x7E000000 && dst.Length > 0
    // the target is filled, but for one byte, and no larger than it has to be
    ensures result > 0 && consumed < |src| ==> dst.Length - 1 <= result
    ensures result > 0 ==> result <= CompressBound(consumed)
  {
    hide StrictBlock, BlockOf, ChainOk, Context.Valid;
    var ctx := new Context();
    ctx.InitInternal(h.chain, ANYWHERE);
    ctx.SetCompressionLevel(cLevel);
    assert CLevelParams(ClampLevel(cLevel)) == CLevelParams(cLevel);
    NothingInReach(ctx, h);
    result, consumed := CompressGeneric(ctx, h, src, dst, FillOutput, cLevel);
    if result > 0 { PlainBlock(dst[..result], src[..consumed]); }
  }
}
