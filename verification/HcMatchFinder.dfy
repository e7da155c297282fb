// The LZ4 HC match finder: hash heads, the chain of 16-bit deltas, and the
// search along it, through a prefix that the source continues and a segment of
// external dictionary in front of it.
module HcMatchFinder {
  import opened BlockFormat
  import opened Counting
  import opened Dictionaries

  type Hash4 = seq<byte> -> nat

  const HASHTABLESIZE := 32768
  const MAXD := 65536

  ghost predicate HashesInto(hash: Hash4) {
    forall w {:trigger hash(w)} :: hash(w) < HASHTABLESIZE
  }

  function HashPtr(hash: Hash4, src: seq<byte>, p: nat): nat
    requires p + 4 <= |src|
  {
    hash(src[p..p + 4])
  }

  // ---------------------------------------------------------------------
  // The plain index
  // ---------------------------------------------------------------------

  predicate HasHash(hash: Hash4, src: seq<byte>, p: nat, h: nat) {
    p + 4 <= |src| && HashPtr(hash, src, p) == h
  }

  // The last position before t with hash h, or -1.
  function LastBefore(hash: Hash4, src: seq<byte>, h: nat, t: nat): (r: int)
    ensures -1 <= r < t
    ensures r >= 0 ==> HasHash(hash, src, r, h)
    ensures forall q: nat {:trigger HasHash(hash, src, q, h)} :: r < q < t ==> !HasHash(hash, src, q, h)
  {
    if t == 0 then -1
    else if HasHash(hash, src, t - 1, h) then t - 1
    else LastBefore(hash, src, h, t - 1)
  }

  // The positions in [lowest, t) with hash h, last first.
  function SameHash(hash: Hash4, src: seq<byte>, h: nat, t: nat, lowest: nat): seq<nat> {
    if t <= lowest then []
    else if HasHash(hash, src, t - 1, h) then [t - 1] + SameHash(hash, src, h, t - 1, lowest)
    else SameHash(hash, src, h, t - 1, lowest)
  }

  // ---------------------------------------------------------------------
  // The delta chain
  // ---------------------------------------------------------------------

  // The 16-bit link stored for p: the distance to the previous position with
  // the same hash, or the clipped maximum.
  function Delta(hash: Hash4, src: seq<byte>, p: nat): (r: nat)
    requires p + 4 <= |src|
    ensures 0 < r <= DISTANCE_MAX
  {
    var last := LastBefore(hash, src, HashPtr(hash, src, p), p);
    if last >= 0 && p - last <= DISTANCE_MAX then p - last else DISTANCE_MAX
  }

  // A head is the last position filed, or older than any window.
  ghost predicate HeadAt(head: nat, last: int, prefixIdx: nat) {
    if last >= 0 then head == prefixIdx + last else head + MAXD <= prefixIdx
  }

  // The tables stand for the positions [0, t) of src, counted from prefixIdx.
  ghost predicate ChainOk(heads: seq<nat>, chain: seq<nat>, hash: Hash4, src: seq<byte>, prefixIdx: nat, t: nat) {
    && |heads| == HASHTABLESIZE && |chain| == MAXD && prefixIdx >= MAXD && (t > 0 ==> t + 3 <= |src|)
    && (forall k {:trigger chain[k]} :: 0 <= k < MAXD ==> chain[k] <= DISTANCE_MAX)
    && (forall h {:trigger heads[h]} :: 0 <= h < HASHTABLESIZE ==>
          HeadAt(heads[h], LastBefore(hash, src, h, t), prefixIdx))
    && (forall p {:trigger Delta(hash, src, p)} :: 0 <= p < t <= p + MAXD ==>
          chain[(prefixIdx + p) % MAXD] == Delta(hash, src, p))
  }

  lemma SlotsDiffer(a: nat, b: nat)
    requires a < b < a + MAXD
    ensures a % MAXD != b % MAXD
  {
  }

  // Filing one more position keeps the tables in order.
  lemma ChainExtend(heads: seq<nat>, chain: seq<nat>, hash: Hash4, src: seq<byte>, prefixIdx: nat, t: nat)
    requires ChainOk(heads, chain, hash, src, prefixIdx, t) && HashesInto(hash) && t + 4 <= |src|
    ensures var h := HashPtr(hash, src, t);
            && h < HASHTABLESIZE && heads[h] < prefixIdx + t
            && var delta := prefixIdx + t - heads[h];
            var link := if delta > DISTANCE_MAX then DISTANCE_MAX else delta;
            link == Delta(hash, src, t) &&
            ChainOk(heads[h := prefixIdx + t], chain[(prefixIdx + t) % MAXD := link], hash, src, prefixIdx, t + 1)
  {
    var h := HashPtr(hash, src, t);
    assert HeadAt(heads[h], LastBefore(hash, src, h, t), prefixIdx);
    var link := Delta(hash, src, t);
    var heads' := heads[h := prefixIdx + t];
    var chain' := chain[(prefixIdx + t) % MAXD := link];
    forall g | 0 <= g < HASHTABLESIZE ensures HeadAt(heads'[g], LastBefore(hash, src, g, t + 1), prefixIdx) {
      assert HeadAt(heads[g], LastBefore(hash, src, g, t), prefixIdx);
    }
    forall p | 0 <= p < t + 1 <= p + MAXD
      ensures chain'[(prefixIdx + p) % MAXD] == Delta(hash, src, p)
    {
      if p < t { SlotsDiffer(prefixIdx + p, prefixIdx + t); }
    }
  }

  // More text behind what has been filed makes no difference.
  lemma {:induction false} LastBeforeMore(hash: Hash4, src: seq<byte>, more: seq<byte>, h: nat, t: nat)
    requires t > 0 ==> t + 3 <= |src|
    ensures LastBefore(hash, src + more, h, t) == LastBefore(hash, src, h, t)
  {
    if t > 0 {
      assert (src + more)[t - 1..t + 3] == src[t - 1..t + 3];
      LastBeforeMore(hash, src, more, h, t - 1);
    }
  }

  lemma ChainMore(heads: seq<nat>, chain: seq<nat>, hash: Hash4, src: seq<byte>, more: seq<byte>, prefixIdx: nat,
                  t: nat)
    requires ChainOk(heads, chain, hash, src, prefixIdx, t)
    ensures ChainOk(heads, chain, hash, src + more, prefixIdx, t)
  {
    hide LastBefore;
    forall h | 0 <= h < HASHTABLESIZE ensures HeadAt(heads[h], LastBefore(hash, src + more, h, t), prefixIdx) {
      LastBeforeMore(hash, src, more, h, t);
    }
    forall p | 0 <= p < t <= p + MAXD ensures chain[(prefixIdx + p) % MAXD] == Delta(hash, src + more, p) {
      assert (src + more)[p..p + 4] == src[p..p + 4];
      LastBeforeMore(hash, src, more, HashPtr(hash, src, p), p);
      assert Delta(hash, src, p) == chain[(prefixIdx + p) % MAXD];
    }
  }

  // Following the links of the chain from index position m down to lowest.
  function Visit(chain: seq<nat>, prefixIdx: nat, m: int, lowest: nat): seq<nat>
    requires |chain| == MAXD
    decreases if m < lowest then 0 else m - lowest + 1
  {
    if m < lowest then []
    else
      var d := chain[(prefixIdx + m) % MAXD];
      if d == 0 then [m] else [m] + Visit(chain, prefixIdx, m - d, lowest)
  }

  // One link leads to the previous position with the same hash, or out of the
  // window when there is none in it.
  lemma ChainStep(heads: seq<nat>, chain: seq<nat>, hash: Hash4, src: seq<byte>, prefixIdx: nat, t: nat,
                  m: nat, lowest: nat)
    requires ChainOk(heads, chain, hash, src, prefixIdx, t)
    requires lowest <= m < t <= lowest + DISTANCE_MAX
    ensures var d := chain[(prefixIdx + m) % MAXD];
            && 0 < d <= DISTANCE_MAX && prefixIdx + m >= d
            && (m - d >= lowest ==> HasHash(hash, src, m - d, HashPtr(hash, src, m)))
            && (forall q: nat {:trigger HasHash(hash, src, q, HashPtr(hash, src, m))} ::
                  lowest <= q < m && q > m - d ==> !HasHash(hash, src, q, HashPtr(hash, src, m)))
  {
    assert chain[(prefixIdx + m) % MAXD] == Delta(hash, src, m);
  }

  lemma {:induction false} SameHashSkip(hash: Hash4, src: seq<byte>, h: nat, t: nat, t': nat, lowest: nat)
    requires t' <= t
    requires forall q: nat {:trigger HasHash(hash, src, q, h)} ::
             lowest <= q < t && t' <= q ==> !HasHash(hash, src, q, h)
    ensures SameHash(hash, src, h, t, lowest) == SameHash(hash, src, h, t', lowest)
    decreases t - t'
  {
    if t' < t { SameHashSkip(hash, src, h, t - 1, t', lowest); }
  }

  // The delta chain agrees with the plain index: from the head of a hash it
  // visits exactly the positions of the window with that hash, last first.
  lemma {:induction false} VisitIsSameHash(heads: seq<nat>, chain: seq<nat>, hash: Hash4, src: seq<byte>,
                                           prefixIdx: nat, t: nat, m: nat, lowest: nat)
    requires ChainOk(heads, chain, hash, src, prefixIdx, t)
    requires lowest <= m < t <= lowest + DISTANCE_MAX
    ensures Visit(chain, prefixIdx, m, lowest) == SameHash(hash, src, HashPtr(hash, src, m), m + 1, lowest)
    decreases m
  {
    var h := HashPtr(hash, src, m);
    var d := chain[(prefixIdx + m) % MAXD];
    ChainStep(heads, chain, hash, src, prefixIdx, t, m, lowest);
    assert HasHash(hash, src, m, h);
    if m - d >= lowest {
      VisitIsSameHash(heads, chain, hash, src, prefixIdx, t, m - d, lowest);
      SameHashSkip(hash, src, h, m, m - d + 1, lowest);
    } else {
      SameHashSkip(hash, src, h, m, lowest, lowest);
    }
  }

  lemma ChainAgreesWithIndex(heads: seq<nat>, chain: seq<nat>, hash: Hash4, src: seq<byte>, prefixIdx: nat,
                             t: nat, h: nat, lowest: nat)
    requires ChainOk(heads, chain, hash, src, prefixIdx, t) && h < HASHTABLESIZE
    requires lowest <= t <= lowest + DISTANCE_MAX
    ensures Visit(chain, prefixIdx, heads[h] - prefixIdx, lowest) == SameHash(hash, src, h, t, lowest)
  {
    var last := LastBefore(hash, src, h, t);
    assert HeadAt(heads[h], last, prefixIdx);
    if last >= lowest {
      VisitIsSameHash(heads, chain, hash, src, prefixIdx, t, last, lowest);
      SameHashSkip(hash, src, h, t, last + 1, lowest);
    } else {
      SameHashSkip(hash, src, h, t, lowest, lowest);
    }
  }

  // ---------------------------------------------------------------------
  // The context
  // ---------------------------------------------------------------------

  const GB := 0x4000_0000
  const CLEVEL_DEFAULT := 9
  const CLEVEL_MAX := 12

  function ClampLevel(level: int): int {
    if level < 1 then CLEVEL_DEFAULT else if level > CLEVEL_MAX then CLEVEL_MAX else level
  }

  // LZ4HC_CCtx_internal without an attached dictionary context.  The prefix is
  // the text from prefixStart to end; its first byte has the index prefixIdx
  // (dictLimit).  The external dictionary stands at dictPlace; its first byte
  // has the index lowLimit, its last one is followed by the first of the prefix.
  class Context {
    const hashTable: array<nat>
    const chainTable: array<nat>
    var nextToUpdate: nat
    var prefixIdx: nat
    var lowLimit: nat
    var prefix: seq<byte>
    var prefixPlace: Place
    var dict: seq<byte>
    var dictPlace: Place
    var compressionLevel: int
    var favorDecSpeed: bool
    var dirty: bool
    // Every position of the text up to nextToUpdate has been filed.
    ghost var exact: bool

    ghost predicate Sized()
      reads chainTable
    {
      && hashTable != chainTable && hashTable.Length == HASHTABLESIZE && chainTable.Length == MAXD
      && forall k {:trigger chainTable[k]} :: 0 <= k < MAXD ==> chainTable[k] <= DISTANCE_MAX
    }

    // Every head was filed before this index.
    ghost predicate HeadsBelow(limit: int)
      reads hashTable
    {
      forall k {:trigger hashTable[k]} :: 0 <= k < hashTable.Length ==> hashTable[k] < limit
    }

    // Fit for being used again, whatever has been filed: no index is beyond the
    // end of the last prefix, and that end fits into 32 bits.
    ghost predicate Usable()
      reads `prefixIdx, `prefix, hashTable, chainTable
    {
      Sized() && HeadsBelow(prefixIdx + |prefix| + 1) && prefixIdx + |prefix| < 0x1_0000_0000
    }

    // The tables are in order for a text that begins with the external
    // dictionary: every entry was filed, and no index is close to zero.
    ghost predicate Valid(hash: Hash4, src: seq<byte>)
      reads `nextToUpdate, `prefixIdx, `lowLimit, `exact, hashTable, chainTable
    {
      && Sized() && HashesInto(hash) && HeadsBelow(nextToUpdate)
      && MAXD <= lowLimit <= prefixIdx <= nextToUpdate && prefixIdx <= lowLimit + |src| < 0x1_0000_0000
      && (nextToUpdate == prefixIdx || Filed() + 3 <= |src|)
      && (exact ==> lowLimit == prefixIdx && ChainOk(hashTable[..], chainTable[..], hash, src, lowLimit, Filed()))
    }

    // How far the positions of the text have been filed.
    ghost function Filed(): int
      reads `nextToUpdate, `lowLimit
    {
      nextToUpdate - lowLimit
    }

    // The number of bytes of the external dictionary.
    function DictSize(): int
      reads `prefixIdx, `lowLimit
    {
      prefixIdx - lowLimit
    }

    // The text a block may refer to.
    function Text(): seq<byte>
      reads `prefix, `prefixPlace, `dict
    {
      if prefixPlace.Null? then [] else dict + prefix
    }

    // LZ4_initStreamHC
    constructor ()
      ensures Usable() && !dirty && Text() == [] && prefixPlace == Null && fresh(hashTable) && fresh(chainTable)
      ensures !favorDecSpeed
    {
      hashTable := new nat[HASHTABLESIZE](_ => 0);
      chainTable := new nat[MAXD](_ => 0);
      nextToUpdate, prefixIdx, lowLimit, dirty, favorDecSpeed := 0, 0, 0, false, false;
      prefix, prefixPlace, dict, dictPlace := [], Null, [], Null;
      compressionLevel := CLEVEL_DEFAULT;
    }

    // Fill both tables.
    method ClearTables(link: nat)
      requires hashTable != chainTable && hashTable.Length == HASHTABLESIZE && chainTable.Length == MAXD
      modifies hashTable, chainTable
      ensures forall k {:trigger hashTable[k]} :: 0 <= k < HASHTABLESIZE ==> hashTable[k] == 0
      ensures forall k {:trigger chainTable[k]} :: 0 <= k < MAXD ==> chainTable[k] == link
    {
      forall k | 0 <= k < hashTable.Length { hashTable[k] := 0; }
      forall k | 0 <= k < chainTable.Length { chainTable[k] := link; }
    }

    // LZ4_initStreamHC on a state that exists.
    method InitAgain()
      requires Usable()
      modifies this, hashTable, chainTable
      ensures Usable() && !dirty && !favorDecSpeed && Text() == [] && prefixPlace == Null && prefix == []
      ensures prefixIdx == 0
    {
      ClearTables(0);
      nextToUpdate, prefixIdx, lowLimit, dirty, favorDecSpeed := 0, 0, 0, false, false;
      prefix, prefixPlace, dict, dictPlace := [], Null, [], Null;
      compressionLevel := CLEVEL_DEFAULT;
    }

    // LZ4_setCompressionLevel
    method SetCompressionLevel(level: int)
      modifies `compressionLevel
      ensures compressionLevel == ClampLevel(level)
    {
      compressionLevel := ClampLevel(level);
    }

    // LZ4_resetStreamHC_fast: the indices go on where they were, unless the
    // last compression failed.
    method ResetFast(level: int)
      requires Usable()
      modifies this, hashTable, chainTable
      ensures Usable() && !dirty && Text() == [] && prefixPlace == Null && prefix == []
      ensures prefixIdx == if old(dirty) then 0 else old(prefixIdx + |prefix|)
      ensures compressionLevel == ClampLevel(level) && (favorDecSpeed ==> old(favorDecSpeed))
    {
      if dirty {
        InitAgain();
      } else {
        prefixIdx := prefixIdx + |prefix|;
        prefix, prefixPlace := [], Null;
      }
      SetCompressionLevel(level);
    }

    // LZ4HC_init_internal: a new prefix, 64 KB beyond everything filed, so that
    // no old entry is within reach.
    method InitInternal(hash: Hash4, start: Place)
      requires Usable() && HashesInto(hash)
      modifies this`nextToUpdate, this`prefixIdx, this`lowLimit, this`prefix, this`prefixPlace, this`dict,
               this`dictPlace, this`exact, hashTable, chainTable
      ensures Ready(hash) && prefixPlace == start && Text() == []
    {
      var newStartingOffset := |prefix| + prefixIdx;
      if newStartingOffset > GB {
        ClearTables(0xFFFF);
        newStartingOffset := 0;
      }
      newStartingOffset := newStartingOffset + MAXD;
      nextToUpdate, prefixIdx, lowLimit := newStartingOffset, newStartingOffset, newStartingOffset;
      prefix, prefixPlace, dict, dictPlace := [], start, [], start;
      exact := true;
    }

    // At the beginning of a prefix: nothing filed, and nothing of old in reach.
    ghost predicate Ready(hash: Hash4)
      reads this, hashTable, chainTable
    {
      && Valid(hash, []) && exact && Usable() && Filed() == 0 && prefix == [] && dict == []
      && prefixIdx <= GB + MAXD && HeadsBelow(lowLimit - DISTANCE_MAX)
    }

    // LZ4HC_Insert: file every position before ip.
    method Insert(hash: Hash4, src: seq<byte>, ip: nat)
      requires Valid(hash, src) && Filed() <= ip && ip + 3 <= |src|
      modifies this`nextToUpdate, hashTable, chainTable
      ensures Valid(hash, src) && Filed() == ip
    {
      hide ChainOk, HashPtr, Delta;
      var target := ip + lowLimit;
      var idx: nat := nextToUpdate;
      while idx < target
        invariant prefixIdx <= idx <= target && Sized() && HeadsBelow(idx)
        invariant exact ==> ChainOk(hashTable[..], chainTable[..], hash, src, lowLimit, idx - lowLimit)
      {
        var h := HashPtr(hash, src, idx - lowLimit);
        HashBound(hash, src, idx - lowLimit);
        if exact { ChainExtend(hashTable[..], chainTable[..], hash, src, lowLimit, idx - lowLimit); }
        var delta: nat := idx - hashTable[h];
        if delta > DISTANCE_MAX { delta := DISTANCE_MAX; }
        ghost var heads, chain := hashTable[..], chainTable[..];
        chainTable[idx % MAXD] := delta;
        hashTable[h] := idx;
        assert hashTable[..] == heads[h := idx] && chainTable[..] == chain[idx % MAXD := delta];
        idx := idx + 1;
      }
      nextToUpdate := target;
    }
  }

  lemma HashBound(hash: Hash4, src: seq<byte>, p: nat)
    requires HashesInto(hash) && p + 4 <= |src|
    ensures HashPtr(hash, src, p) < HASHTABLESIZE
  {
  }

  // The tables serve the text with a source behind it.
  lemma ValidMore(ctx: Context, hash: Hash4, src: seq<byte>, more: seq<byte>)
    requires ctx.Valid(hash, src) && ctx.lowLimit + |src + more| < 0x1_0000_0000
    ensures ctx.Valid(hash, src + more) && ctx.Filed() <= |src|
  {
    hide ChainOk;
    if ctx.exact { ChainMore(ctx.hashTable[..], ctx.chainTable[..], hash, src, more, ctx.lowLimit, ctx.Filed()); }
  }

  // What was filed in the course of a compression lies within its source.
  lemma FiledWithin(ctx: Context, hash: Hash4, src: seq<byte>)
    requires ctx.Valid(hash, src)
    ensures ctx.Sized() && ctx.HeadsBelow(ctx.lowLimit + |src|)
  {
  }

  // ---------------------------------------------------------------------
  // One candidate
  // ---------------------------------------------------------------------

  // A match around ip: equal bytes from start to end, within the limits.
  ghost predicate WideMatch(src: seq<byte>, ip: nat, iLow: nat, iHigh: nat, offset: nat, start: int, end: int) {
    iLow <= start <= ip && ip + MINMATCH <= end <= iHigh && MatchRange(src, start, end, offset)
  }

  // No match around ip at this offset is longer.
  ghost predicate NoWiderAt(src: seq<byte>, ip: nat, iLow: nat, iHigh: nat, offset: nat, longest: nat) {
    forall start, end {:trigger MatchRange(src, start, end, offset)} ::
      WideMatch(src, ip, iLow, iHigh, offset, start, end) ==> end - start <= longest
  }

  // Where a match may begin if it is to lie behind position mLow.
  function Lowest(iLow: nat, mLow: nat, offset: nat): nat {
    if iLow < mLow + offset then mLow + offset else iLow
  }

  // The part of the search that looks at one candidate within the prefix, which
  // begins at mLow: a two-byte filter at the end of the longest match known,
  // four bytes at ip, then the exact extent on both sides.
  method Examine(src: seq<byte>, mLow: nat, ip: nat, iLow: nat, iHigh: nat, m: nat, longest: nat)
    returns (matchLength: nat, back: int)
    requires mLow <= m < ip && iLow <= ip && ip - iLow < longest && iLow + longest <= iHigh < |src|
    requires ip + MINMATCH <= iHigh
    ensures back <= 0 && (iLow == ip ==> back == 0)
    ensures matchLength > 0 ==> WideMatch(src, ip, iLow, iHigh, ip - m, ip + back, ip + back + matchLength)
    ensures matchLength == 0 ==> back == 0
    ensures NoWiderAt(src, ip, Lowest(iLow, mLow, ip - m), iHigh, ip - m,
                      if matchLength > longest then matchLength else longest)
  {
    hide Read16, Read32;
    var offset := ip - m;
    var tail := iLow + longest - 1;
    Equal16(src, tail, offset);
    if Read16(src, tail) != Read16(src, m - (ip - iLow) + longest - 1) {
      NoWiderWithout(src, ip, iLow, iHigh, offset, longest, tail, tail + 2);
      NoWiderAbove(src, ip, iLow, Lowest(iLow, mLow, offset), iHigh, offset, longest);
      return 0, 0;
    }
    Equal32(src, ip, offset);
    if Read32(src, m) != Read32(src, ip) {
      NoWiderWithout(src, ip, iLow, iHigh, offset, longest, ip, ip + MINMATCH);
      NoWiderAbove(src, ip, iLow, Lowest(iLow, mLow, offset), iHigh, offset, longest);
      return 0, 0;
    }
    back := 0;
    if ip != iLow { back := CountBack(src, ip, m, iLow, mLow); }
    var more := Count(src, ip + MINMATCH, m + MINMATCH, iHigh);
    matchLength := MINMATCH + more - back;
    forall start, end | WideMatch(src, ip, Lowest(iLow, mLow, offset), iHigh, offset, start, end)
      ensures end - start <= matchLength
    {
      ExtentBounds(src, mLow, ip, iLow, iHigh, m, back, more, start, end);
    }
  }

  // The same for a candidate in the external dictionary, the first dictSize
  // bytes of the text: the comparison goes on at the beginning of the prefix.
  method ExamineDict(src: seq<byte>, dictSize: nat, ip: nat, iLow: nat, iHigh: nat, m: nat)
    returns (matchLength: nat, back: int)
    requires m < dictSize <= ip && iLow <= ip && ip + MINMATCH <= iHigh < |src|
    ensures back <= 0 && (iLow == ip ==> back == 0)
    ensures matchLength > 0 ==> WideMatch(src, ip, iLow, iHigh, ip - m, ip + back, ip + back + matchLength)
    ensures matchLength == 0 ==> back == 0
    ensures m + MINMATCH <= dictSize ==> NoWiderAt(src, ip, iLow, iHigh, ip - m, matchLength)
  {
    hide Read32;
    var offset := ip - m;
    Equal32(src, ip, offset);
    if m + MINMATCH > dictSize { return 0, 0; }
    if Read32(src, m) != Read32(src, ip) {
      NoMatchWithout(src, ip, iLow, iHigh, offset);
      return 0, 0;
    }
    var more := CountTwo(src, dictSize, ip, iHigh, m);
    back := 0;
    if ip != iLow { back := CountBack(src, ip, m, iLow, 0); }
    matchLength := MINMATCH + more - back;
    forall start, end | WideMatch(src, ip, iLow, iHigh, offset, start, end)
      ensures end - start <= matchLength
    {
      ExtentBounds(src, 0, ip, iLow, iHigh, m, back, more, start, end);
    }
  }

  // Counting over the end of the dictionary, behind the first four bytes.
  method CountTwo(src: seq<byte>, dictSize: nat, ip: nat, iHigh: nat, m: nat) returns (more: nat)
    requires m + MINMATCH <= dictSize <= ip && ip + MINMATCH <= iHigh < |src|
    ensures IsCommonPrefix(src, ip + MINMATCH, iHigh, ip - m, more)
  {
    var vLimit := if ip + (dictSize - m) > iHigh then iHigh else ip + (dictSize - m);
    more := Count(src, ip + MINMATCH, m + MINMATCH, vLimit);
    if ip + MINMATCH + more == vLimit && vLimit < iHigh {
      var rest := Count(src, ip + MINMATCH + more, dictSize, iHigh);
      MatchRangeJoin(src, ip + MINMATCH, vLimit, vLimit + rest, ip - m);
      more := more + rest;
    }
  }

  lemma MatchRangeJoin(src: seq<byte>, lo: nat, mid: nat, hi: nat, offset: nat)
    requires MatchRange(src, lo, mid, offset) && MatchRange(src, mid, hi, offset) && lo <= mid <= hi
    ensures MatchRange(src, lo, hi, offset)
  {
  }

  lemma NoMatchWithout(src: seq<byte>, ip: nat, iLow: nat, iHigh: nat, offset: nat)
    requires !MatchRange(src, ip, ip + MINMATCH, offset)
    ensures NoWiderAt(src, ip, iLow, iHigh, offset, 0)
  {
    hide MatchRange;
    forall start, end | WideMatch(src, ip, iLow, iHigh, offset, start, end) ensures end - start <= 0 {
      MatchRangeWithin(src, start, end, offset, ip, ip + MINMATCH);
    }
  }

  lemma NoWiderAbove(src: seq<byte>, ip: nat, iLow: nat, iLow': nat, iHigh: nat, offset: nat, longest: nat)
    requires NoWiderAt(src, ip, iLow, iHigh, offset, longest) && iLow <= iLow'
    ensures NoWiderAt(src, ip, iLow', iHigh, offset, longest)
  {
    forall start, end | WideMatch(src, ip, iLow', iHigh, offset, start, end) ensures end - start <= longest {
      assert WideMatch(src, ip, iLow, iHigh, offset, start, end);
    }
  }

  // A prefix that begins the text is no restriction.
  lemma NoWiderBelow(src: seq<byte>, ip: nat, iLow: nat, iHigh: nat, offset: nat, longest: nat)
    requires NoWiderAt(src, ip, Lowest(iLow, 0, offset), iHigh, offset, longest)
    ensures NoWiderAt(src, ip, iLow, iHigh, offset, longest)
  {
    forall start, end | WideMatch(src, ip, iLow, iHigh, offset, start, end) ensures end - start <= longest {
      assert offset <= start;
      assert WideMatch(src, ip, Lowest(iLow, 0, offset), iHigh, offset, start, end);
    }
  }

  // A longer match would contain the given bytes, and they do not match.
  lemma NoWiderWithout(src: seq<byte>, ip: nat, iLow: nat, iHigh: nat, offset: nat, longest: nat, lo: nat, hi: nat)
    requires !MatchRange(src, lo, hi, offset)
    requires (lo == ip && hi == ip + MINMATCH) || (ip <= lo == iLow + longest - 1 && hi == iLow + longest + 1)
    ensures NoWiderAt(src, ip, iLow, iHigh, offset, longest)
  {
    hide MatchRange;
    forall start, end | WideMatch(src, ip, iLow, iHigh, offset, start, end) ensures end - start <= longest {
      if end - start > longest { MatchRangeWithin(src, start, end, offset, lo, hi); }
    }
  }

  lemma ExtentBounds(src: seq<byte>, mLow: nat, ip: nat, iLow: nat, iHigh: nat, m: nat, back: int, more: nat,
                     start: nat, end: nat)
    requires mLow <= m < ip && iLow <= ip + back && mLow <= m + back && back <= 0
    requires WideMatch(src, ip, iLow, iHigh, ip - m, start, end) && mLow + (ip - m) <= start
    requires ip + back > iLow && m + back > mLow ==> src[ip + back - 1] != src[m + back - 1]
    requires IsCommonPrefix(src, ip + MINMATCH, iHigh, ip - m, more)
    ensures ip + back <= start && end <= ip + MINMATCH + more
  {
    hide MatchRange;
    if start < ip + back { MatchRangeAt(src, start, end, ip - m, ip + back - 1); }
    if ip + MINMATCH + more < end { MatchRangeAt(src, start, end, ip - m, ip + MINMATCH + more); }
  }

  // ---------------------------------------------------------------------
  // Repeated patterns
  // ---------------------------------------------------------------------

  datatype Repeat = Untested | NotRepeated | Confirmed

  // The source text at ip is a run of one byte, this long.
  ghost predicate SourceRun(src: seq<byte>, ip: nat, iHigh: nat, repeat: Repeat, length: nat) {
    repeat == Confirmed ==>
      && MINMATCH <= length && ip + length <= iHigh <= |src| && Run(src, ip, ip + length, src[ip])
      && Read32(src, ip) == Pattern32(src[ip])
  }

  function ProtectDictEnd(dictLimit: nat, matchIndex: nat): bool {
    (dictLimit - 1 - matchIndex) % 0x1_0000_0000 >= 3
  }

  // Two runs of the same byte match each other as far as both go.
  lemma RunsMatch(src: seq<byte>, ip: nat, m: nat, n: nat, len1: nat, len2: nat, c: byte)
    requires m < ip && Run(src, ip, ip + len1, c) && Run(src, m, m + len2, c) && n <= len1 && n <= len2
    ensures MatchRange(src, ip, ip + n, ip - m)
  {
    var offset := ip - m;
    forall i | ip <= i < ip + n ensures RepeatsAt(src, offset, i) {
      assert src[i] == c && src[i - offset] == c;
    }
  }

  // ---------------------------------------------------------------------
  // The search
  // ---------------------------------------------------------------------

  // What the search returns: a length, and when it improves on the one it was
  // given, where the match starts relative to ip (never after it) and its
  // offset.
  datatype HcMatch = HcMatch(off: nat, len: nat, back: int)

  ghost predicate SoundMatch(src: seq<byte>, ip: nat, iLow: nat, iHigh: nat, md: HcMatch) {
    && 0 < md.off <= DISTANCE_MAX && md.back <= 0
    && WideMatch(src, ip, iLow, iHigh, md.off, ip + md.back, ip + md.back + md.len)
  }

  // Moving to the chain whose next link is the longest within the match found.
  method SelectChain(chain: array<nat>, matchIndex: nat, longest: nat, matchChainPos0: nat)
    returns (distance: nat, matchChainPos: nat)
    requires chain.Length == MAXD
    requires forall k :: 0 <= k < MAXD ==> chain[k] <= DISTANCE_MAX
    ensures 1 <= distance <= DISTANCE_MAX
  {
    distance, matchChainPos := 1, matchChainPos0;
    var end, step, accel, pos := longest - MINMATCH + 1, 1, 16, 0;
    while pos < end
      invariant 0 <= pos && step >= 1 && accel >= 16 && 1 <= distance <= DISTANCE_MAX
      decreases end - pos
    {
      var candidateDist := chain[(matchIndex + pos) % MAXD];
      step := accel / 16;
      accel := accel + 1;
      if candidateDist > distance {
        distance := candidateDist;
        matchChainPos := pos;
        accel := 16;
      }
      pos := pos + step;
    }
  }

  // All matches starting at positions after m are accounted for.
  ghost predicate SearchedTo(hash: Hash4, src: seq<byte>, ip: nat, iLow: nat, iHigh: nat, m: int, lowest: nat,
                             longest: nat)
    requires ip + 4 <= |src|
  {
    forall q: nat {:trigger HasHash(hash, src, q, HashPtr(hash, src, ip))} ::
      lowest <= q < ip && m < q && HasHash(hash, src, q, HashPtr(hash, src, ip))
      ==> NoWiderAt(src, ip, iLow, iHigh, ip - q, longest)
  }

  // No match within reach is longer.
  ghost predicate Longest(src: seq<byte>, ip: nat, iLow: nat, iHigh: nat, longest: nat) {
    forall offset: nat ::
      0 < offset <= ip && offset <= DISTANCE_MAX ==> NoWiderAt(src, ip, iLow, iHigh, offset, longest)
  }

  lemma SearchedAll(hash: Hash4, src: seq<byte>, ip: nat, iLow: nat, iHigh: nat, m: int, lowest: nat, longest: nat)
    requires ip + 4 <= |src| && m < lowest
    requires lowest == 0 || lowest + DISTANCE_MAX <= ip
    requires SearchedTo(hash, src, ip, iLow, iHigh, m, lowest, longest)
    ensures Longest(src, ip, iLow, iHigh, longest)
  {
    forall offset: nat | 0 < offset <= ip && offset <= DISTANCE_MAX
      ensures NoWiderAt(src, ip, iLow, iHigh, offset, longest)
    {
      var q := ip - offset;
      if MatchRange(src, ip, ip + MINMATCH, offset) {
        MatchRangeAt(src, ip, ip + MINMATCH, offset, ip);
        MatchRangeAt(src, ip, ip + MINMATCH, offset, ip + 1);
        MatchRangeAt(src, ip, ip + MINMATCH, offset, ip + 2);
        MatchRangeAt(src, ip, ip + MINMATCH, offset, ip + 3);
        assert src[q..q + 4] == src[ip..ip + 4];
        assert HasHash(hash, src, q, HashPtr(hash, src, ip));
      } else {
        NoWiderWithout(src, ip, iLow, iHigh, offset, longest, ip, ip + MINMATCH);
      }
    }
  }

  // The nearest position before ip with its hash is at m; there is none if m is
  // negative.
  ghost predicate NearestIs(hash: Hash4, src: seq<byte>, ip: nat, m: int)
    requires ip + 4 <= |src|
  {
    var last := LastBefore(hash, src, HashPtr(hash, src, ip), ip);
    if last >= 0 then m == last else m < 0
  }

  // The nearest position with the hash of ip, if it is within reach, gives no
  // longer match.
  ghost predicate NearestTried(hash: Hash4, src: seq<byte>, ip: nat, iLow: nat, iHigh: nat, longest: nat)
    requires ip + 4 <= |src|
  {
    var last := LastBefore(hash, src, HashPtr(hash, src, ip), ip);
    last >= 0 && ip - last <= DISTANCE_MAX ==> NoWiderAt(src, ip, iLow, iHigh, ip - last, longest)
  }

  lemma NearestTriedLonger(hash: Hash4, src: seq<byte>, ip: nat, iLow: nat, iHigh: nat, longest: nat, longest': nat)
    requires ip + 4 <= |src| && NearestTried(hash, src, ip, iLow, iHigh, longest) && longest <= longest'
    ensures NearestTried(hash, src, ip, iLow, iHigh, longest')
  {
    hide NoWiderAt, LastBefore;
    var last := LastBefore(hash, src, HashPtr(hash, src, ip), ip);
    if last >= 0 && ip - last <= DISTANCE_MAX { NoWiderLonger(src, ip, iLow, iHigh, ip - last, longest, longest'); }
  }

  lemma FirstTried(hash: Hash4, src: seq<byte>, ip: nat, iLow: nat, iHigh: nat, m: int, longest: nat)
    requires ip + 4 <= |src| && m < ip && NearestIs(hash, src, ip, m)
    requires 0 <= m && ip - m <= DISTANCE_MAX ==> NoWiderAt(src, ip, iLow, iHigh, ip - m, longest)
    ensures NearestTried(hash, src, ip, iLow, iHigh, longest)
  {
    hide NoWiderAt, LastBefore;
  }

  // The head of the search: the last position with the hash of ip.
  lemma HeadCandidate(ctx: Context, hash: Hash4, src: seq<byte>, ip: nat, iLow: nat, iHigh: nat, lowest: nat,
                      longest: nat)
    requires ctx.Valid(hash, src) && ctx.Filed() == ip && ip + 4 <= |src|
    ensures HashPtr(hash, src, ip) < ctx.hashTable.Length
    ensures var head := ctx.hashTable[HashPtr(hash, src, ip)];
            && head < ctx.lowLimit + ip
            && (ctx.exact ==>
                  && NearestIs(hash, src, ip, head - ctx.lowLimit)
                  && (head >= ctx.lowLimit ==> HasHash(hash, src, head - ctx.lowLimit, HashPtr(hash, src, ip)))
                  && SearchedTo(hash, src, ip, iLow, iHigh, head - ctx.lowLimit, lowest, longest))
  {
    var h := HashPtr(hash, src, ip);
    if ctx.exact { assert HeadAt(ctx.hashTable[..][h], LastBefore(hash, src, h, ip), ctx.lowLimit); }
  }

  // Following the link of a candidate that has been looked at.
  lemma NextCandidate(ctx: Context, hash: Hash4, src: seq<byte>, ip: nat, iLow: nat, iHigh: nat, m: nat,
                      lowest: nat, longest: nat)
    requires ctx.Valid(hash, src) && ctx.exact && ctx.Filed() == ip && ip + 4 <= |src|
    requires lowest <= m < ip <= lowest + DISTANCE_MAX && HasHash(hash, src, m, HashPtr(hash, src, ip))
    requires SearchedTo(hash, src, ip, iLow, iHigh, m, lowest, longest)
    requires NoWiderAt(src, ip, iLow, iHigh, ip - m, longest)
    ensures var d := ctx.chainTable[(ctx.lowLimit + m) % MAXD];
            && d <= ctx.lowLimit + m
            && (m - d >= lowest ==> HasHash(hash, src, m - d, HashPtr(hash, src, ip)))
            && SearchedTo(hash, src, ip, iLow, iHigh, m - d, lowest, longest)
  {
    hide NoWiderAt;
    ChainStep(ctx.hashTable[..], ctx.chainTable[..], hash, src, ctx.lowLimit, ip, m, lowest);
  }

  lemma SearchedLonger(hash: Hash4, src: seq<byte>, ip: nat, iLow: nat, iHigh: nat, m: int, lowest: nat,
                       longest: nat, longest': nat)
    requires ip + 4 <= |src| && SearchedTo(hash, src, ip, iLow, iHigh, m, lowest, longest) && longest <= longest'
    ensures SearchedTo(hash, src, ip, iLow, iHigh, m, lowest, longest')
  {
    forall q: nat | lowest <= q < ip && m < q && HasHash(hash, src, q, HashPtr(hash, src, ip))
      ensures NoWiderAt(src, ip, iLow, iHigh, ip - q, longest')
    {
      NoWiderLonger(src, ip, iLow, iHigh, ip - q, longest, longest');
    }
  }

  lemma NoWiderLonger(src: seq<byte>, ip: nat, iLow: nat, iHigh: nat, offset: nat, longest: nat, longest': nat)
    requires NoWiderAt(src, ip, iLow, iHigh, offset, longest) && longest <= longest'
    ensures NoWiderAt(src, ip, iLow, iHigh, offset, longest')
  {
    forall start, end | WideMatch(src, ip, iLow, iHigh, offset, start, end) ensures end - start <= longest' {
      assert MatchRange(src, start, end, offset);
    }
  }

  lemma ChainValues(ctx: Context, hash: Hash4, src: seq<byte>)
    requires ctx.Valid(hash, src)
    ensures ctx.chainTable.Length == MAXD && MAXD <= ctx.lowLimit <= ctx.prefixIdx <= ctx.nextToUpdate
    ensures ctx.lowLimit + |src| < 0x1_0000_0000 && (ctx.exact ==> ctx.DictSize() == 0)
    ensures forall k :: 0 <= k < MAXD ==> ctx.chainTable[k] <= DISTANCE_MAX
  {
  }

  // The best match so far: no shorter than asked for, and sound if longer.
  ghost predicate BestOk(src: seq<byte>, ip: nat, iLow: nat, iHigh: nat, longest0: nat, best: HcMatch) {
    && best.len >= longest0 && iLow + best.len <= iHigh
    && (best.len > longest0 ==> SoundMatch(src, ip, iLow, iHigh, best))
    && (best.len == longest0 || iLow == ip ==> best.back == 0)
  }

  // How far the run of c goes on from a candidate that begins with four of it:
  // in the external dictionary over its end into the prefix.
  method RunForward(src: seq<byte>, dictSize: nat, candidate: nat, iHigh: nat, c: byte, pattern: bv32)
    returns (forward: nat)
    requires dictSize <= iHigh <= |src| && candidate + 4 <= (if candidate < dictSize then dictSize else iHigh)
    requires pattern == Pattern32(c) && Run(src, candidate, candidate + 4, c)
    ensures 4 <= forward && candidate + forward <= iHigh && Run(src, candidate, candidate + forward, c)
    ensures candidate + forward < iHigh ==> src[candidate + forward] != c
  {
    hide Pattern32, RotatePattern;
    var extDict := candidate < dictSize;
    var iLimit := if extDict then dictSize else iHigh;
    forward := CountPattern(src, candidate + 4, iLimit, c, pattern);
    forward := forward + 4;
    if extDict && candidate + forward == iLimit {
      RotatedRepeat(forward, c);
      var more := CountPattern(src, dictSize, iHigh, c, RotatePattern(forward, pattern));
      forward := forward + more;
    }
  }

  // How far it reaches back: from the beginning of the prefix into the
  // external dictionary.
  method RunBackward(src: seq<byte>, dictSize: nat, candidate: nat, c: byte, pattern: bv32) returns (backward: nat)
    requires dictSize <= |src| && candidate <= |src| && pattern == Pattern32(c)
    ensures backward <= candidate && Run(src, candidate - backward, candidate, c)
    ensures backward < candidate ==> src[candidate - backward - 1] != c
  {
    hide Pattern32, RotatePattern;
    var extDict := candidate < dictSize;
    backward := ReverseCountPattern(src, candidate, if extDict then 0 else dictSize, c, pattern);
    if !extDict && candidate - backward == dictSize && dictSize > 0 {
      RotatedRepeat(0 - backward as int, c);
      var more := ReverseCountPattern(src, dictSize, 0, c, RotatePattern(0 - backward as int, pattern));
      backward := backward + more;
    }
  }

  // The repeated-pattern step: the candidate just before the current one is
  // inside a run of the source's byte; jump within that run, and when nothing
  // can be gained backwards take the run itself as the match, unseen.
  method PatternJump(chain: array<nat>, src: seq<byte>, base: nat, dictSize: nat, ip: nat, iLow: nat, iHigh: nat,
                     matchIndex0: nat, lowest: nat, srcLength: nat, ghost longest0: nat, best0: HcMatch)
    returns (done: bool, stop: bool, matchIndex: nat, best: HcMatch)
    requires chain.Length == MAXD && base >= MAXD && iLow <= ip && ip + MINMATCH <= iHigh < |src| && dictSize <= ip
    requires forall k :: 0 <= k < MAXD ==> chain[k] <= DISTANCE_MAX
    requires base + lowest < matchIndex0 < base + ip && ip <= lowest + DISTANCE_MAX
    requires ProtectDictEnd(base + dictSize, matchIndex0 - 1) && base + |src| < 0x1_0000_0000
    requires SourceRun(src, ip, iHigh, Confirmed, srcLength)
    requires BestOk(src, ip, iLow, iHigh, longest0, best0)
    ensures matchIndex < base + ip && (!done ==> matchIndex == matchIndex0 && !stop)
    ensures BestOk(src, ip, iLow, iHigh, longest0, best) && best.len >= best0.len
    ensures best == best0 || done
  {
    hide Read32, Pattern32, MatchRange, Run, ProtectDictEnd;
    done, stop, matchIndex, best := false, false, matchIndex0, best0;
    var prefixIdx := base + dictSize;
    var pattern := Read32(src, ip);
    var candidate := matchIndex0 - 1 - base;
    var c := src[ip];
    ReadsPattern(src, candidate, c);
    if Read32(src, candidate) != pattern { return; }
    done := true;
    Protected(base, dictSize, candidate);
    var forward := RunForward(src, dictSize, candidate, iHigh, c, pattern);
    var backLength := RunBackward(src, dictSize, candidate, c, pattern);
    RunWithin(src, candidate - backLength, lowest, candidate, c);
    backLength := candidate - (if candidate - backLength > lowest then candidate - backLength else lowest);
    var segment := backLength + forward;
    if segment >= srcLength && forward <= srcLength {
      var newMatch := candidate + forward - srcLength;
      NotProtected(base, dictSize, candidate, newMatch);
      matchIndex := if ProtectDictEnd(prefixIdx, base + newMatch) then base + newMatch else prefixIdx;
    } else {
      var newMatch := candidate - backLength;
      NotProtected(base, dictSize, candidate, newMatch);
      if !ProtectDictEnd(prefixIdx, base + newMatch) {
        matchIndex := prefixIdx;
      } else {
        matchIndex := base + newMatch;
        if ip == iLow { // no back possible
          var maxML := if segment < srcLength then segment else srcLength;
          if best.len < maxML {
            if ip - newMatch > DISTANCE_MAX { return true, true, matchIndex, best; }
            RunJoin(src, newMatch, candidate, candidate + forward, c);
            RunsMatch(src, ip, newMatch, maxML, srcLength, segment, c);
            best := HcMatch(ip - newMatch, maxML, 0);
          }
          var distToNextPattern := chain[matchIndex % MAXD];
          if distToNextPattern > matchIndex { return true, true, matchIndex, best; }
          matchIndex := matchIndex - distToNextPattern;
        }
      }
    }
  }

  // A candidate that is not in the last three bytes of the dictionary.
  lemma Protected(base: nat, dictSize: nat, candidate: nat)
    requires ProtectDictEnd(base + dictSize, base + candidate)
    ensures candidate < dictSize ==> candidate + 4 <= dictSize
  {
  }

  // Only a run that began in the prefix can lead there.
  lemma NotProtected(base: nat, dictSize: nat, candidate: nat, newMatch: nat)
    requires ProtectDictEnd(base + dictSize, base + candidate) && newMatch <= candidate
    requires candidate < 0xFFFF_FFFD && dictSize < 0x1_0000_0000
    ensures !ProtectDictEnd(base + dictSize, base + newMatch) ==> newMatch < dictSize <= candidate
  {
  }

  lemma RunWithin(src: seq<byte>, lo: nat, lo': nat, hi: nat, c: byte)
    requires Run(src, lo, hi, c)
    ensures Run(src, if lo > lo' then lo else lo', hi, c)
  {
  }

  lemma RunJoin(src: seq<byte>, lo: nat, mid: nat, hi: nat, c: byte)
    requires Run(src, lo, mid, c) && Run(src, mid, hi, c)
    ensures Run(src, lo, hi, c)
  {
  }

  // One candidate against the best match so far.
  method TryCandidate(src: seq<byte>, dictSize: nat, ip: nat, iLow: nat, iHigh: nat, m: nat, ghost longest0: nat,
                      best0: HcMatch)
    returns (matchLength: nat, best: HcMatch)
    requires BestOk(src, ip, iLow, iHigh, longest0, best0) && ip - iLow < longest0 && dictSize <= ip
    requires m < ip && ip <= m + DISTANCE_MAX && iLow <= ip && ip + MINMATCH <= iHigh < |src|
    ensures BestOk(src, ip, iLow, iHigh, longest0, best) && best.len >= best0.len
    ensures dictSize == 0 ==> NoWiderAt(src, ip, iLow, iHigh, ip - m, best.len)
  {
    hide NoWiderAt, MatchRange;
    var back;
    if m >= dictSize {
      matchLength, back := Examine(src, dictSize, ip, iLow, iHigh, m, best0.len);
      if dictSize == 0 {
        NoWiderBelow(src, ip, iLow, iHigh, ip - m, if matchLength > best0.len then matchLength else best0.len);
      }
    } else {
      matchLength, back := ExamineDict(src, dictSize, ip, iLow, iHigh, m);
    }
    best := best0;
    if matchLength > best0.len { best := HcMatch(ip - m, matchLength, back); }
  }

  // Is the text at ip a run of one byte, and how long?
  method DetectRepeat(src: seq<byte>, ip: nat, iHigh: nat, repeat0: Repeat, srcLength0: nat)
    returns (repeat: Repeat, srcLength: nat)
    requires ip + MINMATCH <= iHigh < |src| && SourceRun(src, ip, iHigh, repeat0, srcLength0)
    ensures repeat != Untested && SourceRun(src, ip, iHigh, repeat, srcLength)
  {
    hide Read32, Pattern32, IsRepeat;
    repeat, srcLength := repeat0, srcLength0;
    if repeat != Untested { return; }
    repeat := NotRepeated;
    if IsRepeat(Read32(src, ip)) {
      RepeatedByte(src, ip);
      repeat := Confirmed;
      srcLength := CountPattern(src, ip + 4, iHigh, src[ip], Read32(src, ip));
      srcLength := srcLength + 4;
    }
  }

  datatype Next = Stop | Again | Follow

  // The two ways of leaving the chain: a better chain through a longer match,
  // and the repeated-pattern jump.
  method Jump(chain: array<nat>, src: seq<byte>, base: nat, dictSize: nat, ip: nat, iLow: nat, iHigh: nat,
              ghost longest0: nat, lowestMatchIndex: nat, patternAnalysis: bool, chainSwap: bool, matchLength: nat,
              matchIndex0: nat, matchChainPos0: nat, repeat0: Repeat, srcLength0: nat, best0: HcMatch)
    returns (next: Next, matchIndex: nat, matchChainPos: nat, repeat: Repeat, srcLength: nat, best: HcMatch)
    requires chain.Length == MAXD && base >= MAXD && iLow <= ip && ip + MINMATCH <= iHigh < |src| && dictSize <= ip
    requires forall k :: 0 <= k < MAXD ==> chain[k] <= DISTANCE_MAX
    requires base <= lowestMatchIndex <= matchIndex0 < base + ip <= lowestMatchIndex + DISTANCE_MAX
    requires base + |src| < 0x1_0000_0000
    requires SourceRun(src, ip, iHigh, repeat0, srcLength0) && BestOk(src, ip, iLow, iHigh, longest0, best0)
    ensures matchIndex < base + ip && (next == Follow ==> matchIndex == matchIndex0)
    ensures SourceRun(src, ip, iHigh, repeat, srcLength) && BestOk(src, ip, iLow, iHigh, longest0, best)
    ensures best.len >= best0.len
    ensures !patternAnalysis && !chainSwap ==> next == Follow && matchChainPos == matchChainPos0 && best == best0
  {
    hide SourceRun, BestOk, ProtectDictEnd;
    next, matchIndex, matchChainPos, best := Follow, matchIndex0, matchChainPos0, best0;
    repeat, srcLength := repeat0, srcLength0;
    if chainSwap && matchLength == best.len && matchIndex + best.len <= base + ip {
      var distance;
      distance, matchChainPos := SelectChain(chain, matchIndex, best.len, matchChainPos);
      if distance > 1 {
        if distance > matchIndex { next := Stop; return; }
        matchIndex := matchIndex - distance;
        next := Again;
        return;
      }
    }
    if patternAnalysis && chain[matchIndex % MAXD] == 1 && matchChainPos == 0 {
      repeat, srcLength := DetectRepeat(src, ip, iHigh, repeat, srcLength);
      if repeat == Confirmed && matchIndex - 1 >= lowestMatchIndex
         && ProtectDictEnd(base + dictSize, matchIndex - 1) {
        var done, stop;
        done, stop, matchIndex, best :=
          PatternJump(chain, src, base, dictSize, ip, iLow, iHigh, matchIndex, lowestMatchIndex - base,
                      srcLength, longest0, best);
        next := if stop then Stop else if done then Again else Follow;
      }
    }
  }

  // LZ4HC_InsertAndGetWiderMatch, in the text of the external dictionary, the
  // prefix and the source.  `left` is what remains of the attempts.
  method InsertAndGetWiderMatch(ctx: Context, hash: Hash4, src: seq<byte>, ip: nat, iLow: nat, iHigh: nat,
                                longest0: nat, maxNbAttempts: nat, patternAnalysis: bool, chainSwap: bool,
                                favorDecSpeed: bool)
    returns (best: HcMatch, ghost left: nat)
    requires ctx.Valid(hash, src) && ctx.Filed() <= ip
    requires iLow <= ip && ip + MINMATCH <= iHigh < |src|
    requires ip - iLow < longest0 && iLow + longest0 <= iHigh && (chainSwap ==> iLow == ip)
    modifies ctx`nextToUpdate, ctx.hashTable, ctx.chainTable
    ensures ctx.Valid(hash, src) && ctx.Filed() == ip
    ensures BestOk(src, ip, iLow, iHigh, longest0, best)
    ensures ctx.exact && left > 0 && !patternAnalysis && !chainSwap && !favorDecSpeed ==>
              Longest(src, ip, iLow, iHigh, best.len)
    ensures ctx.exact && maxNbAttempts > 0 && !favorDecSpeed ==> NearestTried(hash, src, ip, iLow, iHigh, best.len)
  {
    hide HasHash, HashPtr, LastBefore, SearchedTo, Longest, NoWiderAt, MatchRange, Read32, Context.Valid, BestOk,
         SourceRun, ProtectDictEnd, NearestTried, NearestIs;
    ctx.Insert(hash, src, ip);
    ChainValues(ctx, hash, src);
    var base, dictSize := ctx.lowLimit, ctx.DictSize();
    var ipIndex := ip + base;
    var withinStartDistance := base + (DISTANCE_MAX + 1) > ipIndex;
    var lowestMatchIndex := if withinStartDistance then base else ipIndex - DISTANCE_MAX;
    var nbAttempts := maxNbAttempts;
    best := HcMatch(0, longest0, 0);
    var repeat, srcLength, matchChainPos := Untested, 0, 0;
    ghost var plain := ctx.exact && !patternAnalysis && !chainSwap && !favorDecSpeed;
    ghost var lowest := lowestMatchIndex - base;
    HeadCandidate(ctx, hash, src, ip, iLow, iHigh, lowest, longest0);
    NothingFound(src, ip, iLow, iHigh, longest0);
    var matchIndex: nat := ctx.hashTable[HashPtr(hash, src, ip)];
    ghost var near := ctx.exact && !favorDecSpeed;
    if near && matchIndex < lowestMatchIndex {
      FirstTried(hash, src, ip, iLow, iHigh, matchIndex - base, longest0);
    }
    while matchIndex >= lowestMatchIndex && nbAttempts > 0
      invariant ctx.Valid(hash, src) && ctx.Filed() == ip && matchIndex < ipIndex
      invariant BestOk(src, ip, iLow, iHigh, longest0, best)
      invariant SourceRun(src, ip, iHigh, repeat, srcLength)
      invariant plain ==> matchChainPos == 0
      invariant 0 <= nbAttempts <= maxNbAttempts
      invariant near && (nbAttempts < maxNbAttempts || matchIndex < lowestMatchIndex) ==>
                  NearestTried(hash, src, ip, iLow, iHigh, best.len)
      invariant near && nbAttempts == maxNbAttempts ==> NearestIs(hash, src, ip, matchIndex - base)
      invariant plain && matchIndex >= lowestMatchIndex ==>
                  HasHash(hash, src, matchIndex - base, HashPtr(hash, src, ip))
      invariant plain ==> SearchedTo(hash, src, ip, iLow, iHigh, matchIndex - base, lowest, best.len)
      decreases nbAttempts
    {
      var matchLength := 0;
      nbAttempts := nbAttempts - 1;
      var m := matchIndex - base;
      ChainValues(ctx, hash, src);
      ghost var longestBefore := best.len;
      if !(favorDecSpeed && ipIndex - matchIndex < 8) {
        matchLength, best := TryCandidate(src, dictSize, ip, iLow, iHigh, m, longest0, best);
      }
      if near {
        if nbAttempts + 1 == maxNbAttempts {
          FirstTried(hash, src, ip, iLow, iHigh, m, best.len);
        } else {
          NearestTriedLonger(hash, src, ip, iLow, iHigh, longestBefore, best.len);
        }
      }
      ghost var longestHere := best.len;
      var next;
      next, matchIndex, matchChainPos, repeat, srcLength, best :=
        Jump(ctx.chainTable, src, base, dictSize, ip, iLow, iHigh, longest0, lowestMatchIndex, patternAnalysis,
             chainSwap, matchLength, matchIndex, matchChainPos, repeat, srcLength, best);
      if near { NearestTriedLonger(hash, src, ip, iLow, iHigh, longestHere, best.len); }
      if next == Stop { break; }
      if next == Again { continue; }
      if plain {
        SearchedLonger(hash, src, ip, iLow, iHigh, m, lowest, longestBefore, best.len);
        NextCandidate(ctx, hash, src, ip, iLow, iHigh, m, lowest, best.len);
      }
      matchIndex := matchIndex - ctx.chainTable[(matchIndex + matchChainPos) % MAXD];
    }
    left := nbAttempts;
    if left > 0 && plain {
      SearchedAll(hash, src, ip, iLow, iHigh, matchIndex - base, lowest, best.len);
    }
  }

  lemma NothingFound(src: seq<byte>, ip: nat, iLow: nat, iHigh: nat, longest0: nat)
    requires iLow + longest0 <= iHigh
    ensures SourceRun(src, ip, iHigh, Untested, 0) && BestOk(src, ip, iLow, iHigh, longest0, HcMatch(0, longest0, 0))
  {
  }
}
