// LZ4MID_compress: two hash tables, one for matches that begin with eight
// equal bytes as a rule, one for shorter ones, and no chains.
module HcMid {
  import opened BlockFormat
  import opened Counting
  import opened Emit
  import opened HcMatchFinder
  import opened HcCompressor

  const MID_HASHSIZE := 8
  const MID_HASHTABLESIZE := 16384

  // The hash functions of LZ4 HC: of four bytes for the chains, and of four
  // and of eight bytes for the two tables here.
  datatype Hashes = Hashes(chain: Hash4, short: Hash4, long: Hash4)

  ghost predicate HashesOk(h: Hashes) {
    && HashesInto(h.chain)
    && (forall w {:trigger h.short(w)} :: h.short(w) < MID_HASHTABLESIZE)
    && (forall w {:trigger h.long(w)} :: h.long(w) < MID_HASHTABLESIZE)
  }

  // The tables are the two halves of the one that holds the heads of chains.
  function ShortSlot(h: Hashes, src: seq<byte>, p: nat): nat
    requires p + 4 <= |src|
  {
    h.short(src[p..p + 4])
  }

  function LongSlot(h: Hashes, src: seq<byte>, p: nat): nat
    requires p + MID_HASHSIZE <= |src|
  {
    MID_HASHTABLESIZE + h.long(src[p..p + MID_HASHSIZE])
  }

  // All that is known of an entry: it was filed before.  It need not be the
  // index of the position whose hash chose the slot, as positions are filed
  // after a match has been extended backwards.
  ghost predicate FiledBefore(table: array<nat>, limit: nat)
    reads table
  {
    && table.Length == HASHTABLESIZE
    && forall k {:trigger table[k]} :: 0 <= k < HASHTABLESIZE ==> table[k] < limit
  }

  method AddShort(h: Hashes, src: seq<byte>, table: array<nat>, p: nat, index: nat, ghost limit: nat)
    requires HashesOk(h) && FiledBefore(table, limit) && index < limit && p + 4 <= |src|
    modifies table
    ensures FiledBefore(table, limit)
  {
    table[ShortSlot(h, src, p)] := index;
  }

  method AddLong(h: Hashes, src: seq<byte>, table: array<nat>, p: nat, index: nat, ghost limit: nat)
    requires HashesOk(h) && FiledBefore(table, limit) && index < limit && p + MID_HASHSIZE <= |src|
    modifies table
    ensures FiledBefore(table, limit)
  {
    table[LongSlot(h, src, p)] := index;
  }

  // ---------------------------------------------------------------------
  // The search
  // ---------------------------------------------------------------------

  // Where the comparison with the text `off` bytes back ends: before the last
  // literals, and for a place in the external dictionary (the first dictSize
  // bytes of the text) at the end of the dictionary.
  function Limit(src: seq<byte>, dictSize: nat, p: nat, off: nat): int {
    var matchlimit := |src| - LASTLITERALS;
    if p < dictSize + off && dictSize + off < matchlimit then dictSize + off else matchlimit
  }

  // A match at p as long as the bytes agree, up to the limit.
  ghost predicate Whole(src: seq<byte>, dictSize: nat, m: Placed) {
    && m.Ok(src) && 0 <= Limit(src, dictSize, m.pos, m.off)
    && IsCommonPrefix(src, m.pos, Limit(src, dictSize, m.pos, m.off), m.off, m.len)
  }

  // An entry of a table as a match for p: a length below four if it is out of
  // reach, older than the dictionary, or not a match.
  method TryEntry(src: seq<byte>, base: nat, dictSize: nat, p: nat, index: nat) returns (m: Placed)
    requires index < base + p && dictSize <= p && p + MFLIMIT <= |src|
    ensures m.pos == p && m.off == base + p - index && (m.len >= MINMATCH ==> Whole(src, dictSize, m))
    // a place in the prefix within reach is compared to the end
    ensures m.off <= DISTANCE_MAX && index >= base + dictSize ==>
              IsCommonPrefix(src, p, |src| - LASTLITERALS, m.off, m.len)
    ensures index < base ==> m.len == 0
  {
    hide MatchRange;
    var off := base + p - index;
    m := Placed(p, 0, off);
    var prefixIdx := base + dictSize;
    if off <= DISTANCE_MAX {
      if index >= prefixIdx {
        var len := Count(src, p, index - base, |src| - LASTLITERALS);
        m := Placed(p, len, off);
      } else if index >= base {
        var safeLen := if prefixIdx - index < |src| - LASTLITERALS - p then prefixIdx - index
                       else |src| - LASTLITERALS - p;
        var len := Count(src, p, index - base, p + safeLen);
        m := Placed(p, len, off);
      }
    }
  }

  // The match found at ip, or the longer one found just behind it, for which
  // only the prefix is searched.
  method FindMatch(h: Hashes, src: seq<byte>, table: array<nat>, base: nat, dictSize: nat, ip: nat)
    returns (m: Placed)
    requires HashesOk(h) && FiledBefore(table, base + ip) && dictSize <= ip && ip + MFLIMIT <= |src|
    modifies table
    ensures FiledBefore(table, base + ip + 2)
    ensures m.len < MINMATCH ==> FiledBefore(table, base + ip + 1)
    ensures m.len >= MINMATCH ==> Whole(src, dictSize, m) && ip <= m.pos <= ip + 1
    ensures LongSlot(h, src, ip) < HASHTABLESIZE == table.Length
    // the entry for eight bytes is taken if four of them agree, and is replaced
    ensures var e := old(table[LongSlot(h, src, ip)]);
            e >= base + dictSize && base + ip - e <= DISTANCE_MAX && MatchRange(src, ip, ip + MINMATCH, base + ip - e)
            ==> m.pos == ip && m.off == base + ip - e && m.len >= MINMATCH
    ensures m.len < MINMATCH ==> table[LongSlot(h, src, ip)] == base + ip
    ensures old(FiledBefore(table, base)) ==> m.len < MINMATCH
  {
    hide HashesOk, Whole, IsCommonPrefix;
    SlotsOk(h, src, ip);
    var index := base + ip;
    var prefixIdx := base + dictSize;
    var pos8 := table[LongSlot(h, src, ip)];
    table[LongSlot(h, src, ip)] := index;
    m := TryEntry(src, base, dictSize, ip, pos8);
    if index - pos8 <= DISTANCE_MAX && pos8 >= prefixIdx { LongEnough(src, ip, |src| - LASTLITERALS, m.off, m.len); }
    if m.len >= MINMATCH { return; }
    var pos4 := table[ShortSlot(h, src, ip)];
    table[ShortSlot(h, src, ip)] := index;
    m := TryEntry(src, base, dictSize, ip, pos4);
    if m.len >= MINMATCH && pos4 >= prefixIdx && ip + MFLIMIT < |src| {
      SlotsOk(h, src, ip + 1);
      pos8 := table[LongSlot(h, src, ip + 1)];
      if pos8 >= prefixIdx {
        var m2 := TryEntry(src, base, dictSize, ip + 1, pos8);
        if m2.len > m.len {
          table[LongSlot(h, src, ip + 1)] := index + 1;
          m := m2;
        }
      }
    }
  }

  lemma LongEnough(src: seq<byte>, p: nat, limit: nat, off: nat, len: nat)
    requires IsCommonPrefix(src, p, limit, off, len) && p + MINMATCH <= limit
    ensures MatchRange(src, p, p + MINMATCH, off) ==> len >= MINMATCH
  {
    if len < MINMATCH { assert MatchRange(src, p, p + MINMATCH, off) ==> RepeatsAt(src, off, p + len); }
  }

  lemma SlotsOk(h: Hashes, src: seq<byte>, p: nat)
    requires HashesOk(h) && p + MID_HASHSIZE <= |src|
    ensures ShortSlot(h, src, p) < MID_HASHTABLESIZE <= LongSlot(h, src, p) < HASHTABLESIZE
  {
  }

  // The match grows backwards over equal bytes within the prefix, its end where
  // it was.
  method CatchBack(src: seq<byte>, dictSize: nat, anchor: nat, m0: Placed) returns (m: Placed)
    requires m0.Ok(src) && anchor <= m0.pos
    ensures m.Ok(src) && anchor <= m.pos <= m0.pos && m.off == m0.off && m.End() == m0.End()
    ensures m0.pos <= dictSize + m0.off ==> m == m0
    ensures m.pos > anchor && m.pos > dictSize + m.off ==> src[m.pos - 1] != src[m.pos - 1 - m.off]
  {
    m := m0;
    while m.pos > anchor && m.pos > dictSize + m.off && src[m.pos - 1] == src[m.pos - 1 - m.off]
      invariant m.Ok(src) && anchor <= m.pos <= m0.pos && m.off == m0.off && m.End() == m0.End()
      invariant m0.pos <= dictSize + m0.off ==> m == m0
    {
      assert RepeatsAt(src, m.off, m.pos - 1);
      m := Placed(m.pos - 1, m.len + 1, m.off);
    }
  }

  // ---------------------------------------------------------------------
  // The tables around a match
  // ---------------------------------------------------------------------

  // Positions behind the beginning of a match, under the indices of those
  // behind the place where it was found.
  method AddBeginning(h: Hashes, src: seq<byte>, table: array<nat>, p: nat, index: nat, ghost limit: nat)
    requires HashesOk(h) && FiledBefore(table, limit) && index + 2 < limit && p + 2 + MID_HASHSIZE <= |src|
    modifies table
    ensures FiledBefore(table, limit)
  {
    hide HashesOk, FiledBefore;
    AddLong(h, src, table, p + 1, index + 1, limit);
    AddLong(h, src, table, p + 2, index + 2, limit);
    AddShort(h, src, table, p + 1, index + 1, limit);
  }

  // Positions before the end of a match.
  method AddEnd(h: Hashes, src: seq<byte>, table: array<nat>, base: nat, dictSize: nat, end: nat)
    requires HashesOk(h) && FiledBefore(table, base + end) && dictSize + MINMATCH <= end <= |src|
    modifies table
    ensures FiledBefore(table, base + end)
  {
    hide HashesOk, FiledBefore;
    ghost var limit := base + end;
    if end - 2 + MID_HASHSIZE < |src| {
      if end - dictSize > 5 { AddLong(h, src, table, end - 5, base + end - 5, limit); }
      AddLong(h, src, table, end - 3, base + end - 3, limit);
      AddLong(h, src, table, end - 2, base + end - 2, limit);
      AddShort(h, src, table, end - 2, base + end - 2, limit);
      AddShort(h, src, table, end - 1, base + end - 1, limit);
    }
  }

  // LZ4MID_fillHTable: the positions of a dictionary, which is the whole text;
  // every third one in both tables, and those of its last 32 KB in the long one.
  method FillHTable(ctx: Context, h: Hashes, dict: seq<byte>)
    requires HashesOk(h) && FiledBefore(ctx.hashTable, ctx.prefixIdx) && ctx.nextToUpdate == ctx.prefixIdx
    modifies ctx`nextToUpdate, ctx.hashTable
    ensures FiledBefore(ctx.hashTable, ctx.prefixIdx + |dict|)
    ensures ctx.nextToUpdate == ctx.prefixIdx + if |dict| <= MID_HASHSIZE then 0 else |dict| - MID_HASHSIZE
  {
    hide HashesOk, FiledBefore;
    var table, prefixIdx := ctx.hashTable, ctx.prefixIdx;
    FiledLater(table, prefixIdx, prefixIdx + |dict|);
    if |dict| <= MID_HASHSIZE { return; }
    var target := |dict| - MID_HASHSIZE;
    ghost var limit := prefixIdx + |dict|;
    var p := 0;
    while p < target
      invariant 0 <= p && FiledBefore(table, limit)
    {
      AddShort(h, dict, table, p, prefixIdx + p, limit);
      AddLong(h, dict, table, p + 1, prefixIdx + p + 1, limit);
      p := p + 3;
    }
    p := if |dict| > 32768 + MID_HASHSIZE then target - 32768 else 0;
    while p < target
      invariant 0 <= p && FiledBefore(table, limit)
    {
      AddLong(h, dict, table, p, prefixIdx + p, limit);
      p := p + 1;
    }
    ctx.nextToUpdate := prefixIdx + target;
  }

  lemma FiledLater(table: array<nat>, limit: nat, limit': nat)
    requires FiledBefore(table, limit) && limit <= limit'
    ensures FiledBefore(table, limit')
  {
  }

  // ---------------------------------------------------------------------
  // The compressor
  // ---------------------------------------------------------------------

  // One match from its discovery to the tables behind it.
  method WriteFound(h: Hashes, d: OutputDirective, src: seq<byte>, ghost start: nat, dst: array<byte>,
                    table: array<nat>, base: nat, dictSize: nat, ghost ss0: seq<Sequence>, anchor: nat, op0: nat,
                    ip: nat, found: Placed)
    returns (err: bool, m: Placed, op: nat, ghost ss: seq<Sequence>)
    requires HashesOk(h) && FiledBefore(table, base + ip + 2) && table as object != dst
    requires SequencesDone(d, src, start, dst, ss0, anchor, op0) && found.Ok(src)
    requires dictSize <= start && anchor <= ip <= found.pos <= ip + 1
    modifies dst, table
    ensures m.Ok(src) && anchor <= m.pos && m.End() == found.End() > ip
    ensures FiledBefore(table, base + m.End())
    ensures err ==> d != NotLimited && op == op0 && ss == ss0 && SequencesDone(d, src, start, dst, ss, anchor, op)
    ensures !err ==> SequencesDone(d, src, start, dst, ss, m.End(), op)
    ensures Wrote(d, src, dst.Length, err, anchor, op0, m, op) && (found.pos <= dictSize + found.off ==> m == found)
  {
    hide HashesOk, SequencesDone, MatchRange, Wrote;
    StartBound(d, src, start, dst, ss0, anchor, op0);
    m := CatchBack(src, dictSize, anchor, found);
    AddBeginning(h, src, table, m.pos, base + ip, base + m.End());
    err, op, ss := WriteMatch(d, src, start, dst, ss0, anchor, op0, m);
    if !err { AddEnd(h, src, table, base, dictSize, m.End()); }
  }

  lemma StartBound(d: OutputDirective, src: seq<byte>, start: nat, dst: array<byte>, ss: seq<Sequence>, anchor: nat,
                   op: nat)
    requires SequencesDone(d, src, start, dst, ss, anchor, op)
    ensures start <= anchor
  {
  }

  // The compressor on a source that is one byte over and over.
  ghost predicate OnRun(h: Hashes, src: seq<byte>, cap: nat, table: array<nat>, base: nat, err: bool, anchor: nat,
                        ip: nat, op: nat)
    reads table
  {
    if err then cap < RunBound(|src|)
    else
      || (ip == 0 && anchor == 0 && op == 0)
      || (ip == 1 && anchor == 0 && op == 0 && |src| >= 13 && LongSlot(h, src, 0) < table.Length
          && table[LongSlot(h, src, 0)] == base)
      || (ip == anchor && anchor + LASTLITERALS == |src| && op + 6 <= RunBound(|src|))
  }

  lemma RunStarts(h: Hashes, src: seq<byte>, cap: nat, table: array<nat>, base: nat)
    ensures OnRun(h, src, cap, table, base, false, 0, 0, 0)
  {
  }

  lemma RunAt(h: Hashes, src: seq<byte>, cap: nat, table: array<nat>, base: nat, anchor: nat, ip: nat, op: nat)
    requires OnRun(h, src, cap, table, base, false, anchor, ip, op) && ip + MFLIMIT <= |src|
    ensures ip <= 1 && anchor == 0 && op == 0
    ensures ip == 1 ==> |src| >= 13 && LongSlot(h, src, 0) < table.Length && table[LongSlot(h, src, 0)] == base
  {
  }

  lemma RunDone(h: Hashes, src: seq<byte>, cap: nat, table: array<nat>, base: nat, err: bool, anchor: nat, ip: nat,
                op: nat)
    requires if err then cap < RunBound(|src|)
             else ip == anchor && anchor + LASTLITERALS == |src| && op + 6 <= RunBound(|src|)
    ensures OnRun(h, src, cap, table, base, err, anchor, ip, op)
  {
  }

  // Nothing is found at its first byte, and the whole run at the second.
  lemma RunFound(h: Hashes, src: seq<byte>, cap: nat, before: seq<nat>, table: array<nat>, base: nat, anchor: nat,
                 ip: nat, op: nat, m: Placed)
    requires IsRun(src, 0) && table.Length == |before| && ip + MFLIMIT <= |src| && anchor == 0 && op == 0 && ip <= 1
    requires LongSlot(h, src, ip) < |before|
    requires ip == 1 ==> LongSlot(h, src, 0) < |before| && before[LongSlot(h, src, 0)] == base
    requires ip == 0 ==> m.len < MINMATCH
    requires m.len < MINMATCH ==> table[LongSlot(h, src, ip)] == base + ip
    requires var e := before[LongSlot(h, src, ip)];
             base <= e < base + ip <= e + DISTANCE_MAX && MatchRange(src, ip, ip + MINMATCH, base + ip - e)
             ==> m.pos == ip && m.off == base + ip - e && m.len >= MINMATCH
    requires m.len >= MINMATCH ==> Whole(src, 0, m)
    ensures if ip == 0 then OnRun(h, src, cap, table, base, false, 0, 1, 0)
            else m == RunMatch(src) && m.pos == m.off && m.len >= MINMATCH
  {
    assert src[1..9] == src[0..8];
    if ip == 1 {
      assert MatchRange(src, 1, 5, 1);
      assert m.pos + m.len == |src| - LASTLITERALS;
    }
  }

  lemma RunEnds(h: Hashes, src: seq<byte>, cap: nat, table: array<nat>, base: nat, err: bool, anchor: nat, ip: nat,
                op: nat)
    requires IsRun(src, 0) && OnRun(h, src, cap, table, base, err, anchor, ip, op) && (err || ip > |src| - MFLIMIT)
    ensures !err ==> anchor + LASTLITERALS == |src| && op + 6 <= RunBound(|src|) && |Extension(5)| == 0
    ensures err ==> cap < RunBound(|src|)
  {
  }

  // One round of the loop: a step forward, or a match written, which fails only
  // for want of room.
  method Round(h: Hashes, d: OutputDirective, src: seq<byte>, ghost start: nat, dst: array<byte>, table: array<nat>,
               base: nat, dictSize: nat, ghost ss0: seq<Sequence>, anchor0: nat, op0: nat, ip0: nat, ghost run: bool)
    returns (err: bool, m: Placed, anchor: nat, ip: nat, op: nat, ghost ss: seq<Sequence>)
    requires HashesOk(h) && table as object != dst && dictSize <= start
    requires SequencesDone(d, src, start, dst, ss0, anchor0, op0) && ip0 + MFLIMIT <= |src|
    requires start <= anchor0 <= ip0 && FiledBefore(table, base + ip0)
    requires run ==> start == 0 && dictSize == 0 && d != FillOutput && IsRun(src, 0) && |src| >= MFLIMIT + 1
    requires run ==> OnRun(h, src, dst.Length, table, base, false, anchor0, ip0, op0)
    modifies dst, table
    ensures SequencesDone(d, src, start, dst, ss, anchor, op) && start <= anchor <= |src|
    ensures err ==> d != NotLimited && m.Ok(src) && anchor <= m.pos && FiledBefore(table, base + |src|)
    ensures !err ==> anchor <= ip && ip > ip0 && FiledBefore(table, base + (if ip < |src| then ip else |src|))
    ensures run ==> OnRun(h, src, dst.Length, table, base, err, anchor, ip, op)
  {
    hide SequencesDone, HashesOk, Whole, IsRun, Wrote, RunMatch, Extension, LongSlot, OnRun, MatchRange, IsCommonPrefix;
    err, anchor, ip, op, ss := false, anchor0, ip0, op0, ss0;
    ghost var entries := table[..];
    if run { RunAt(h, src, dst.Length, table, base, anchor, ip, op); }
    m := FindMatch(h, src, table, base, dictSize, ip);
    if run { RunFound(h, src, dst.Length, entries, table, base, anchor, ip, op, m); }
    if m.len < MINMATCH {
      ip := ip + 1 + (ip - anchor) / 512;
      return;
    }
    WholeBounds(src, dictSize, m);
    err, m, op, ss := WriteFound(h, d, src, start, dst, table, base, dictSize, ss, anchor, op, ip, m);
    OkBounds(src, m);
    if !err { anchor, ip := m.End(), m.End(); }
    if run {
      RunWritten(d, src, dst.Length, err, op);
      RunDone(h, src, dst.Length, table, base, err, anchor, ip, op);
    }
  }

  // LZ4MID_compress on a source that begins at `start`, behind the external
  // dictionary and the prefix.
  method CompressMid(ctx: Context, h: Hashes, src: seq<byte>, start: nat, dst: array<byte>, d: OutputDirective)
    returns (result: nat, consumed: nat)
    requires HashesOk(h) && FiledBefore(ctx.hashTable, ctx.lowLimit + start) && ctx.hashTable as object != dst
    requires 0 <= ctx.DictSize() <= start < |src| && dst.Length >= 1
    requires d == NotLimited ==> dst.Length >= CompressBound(|src| - start)
    modifies dst, ctx.hashTable
    ensures FiledBefore(ctx.hashTable, ctx.lowLimit + |src|)
    ensures result <= dst.Length && start + consumed <= |src|
    ensures result > 0 ==> BlockOf(dst[..result], src[..start], src[start..start + consumed])
    ensures result > 0 && d != FillOutput ==> start + consumed == |src|
    ensures result > 0 && start + consumed < |src| ==> result >= dst.Length - 1
    ensures result == 0 ==> d == LimitedOutput
    ensures result > 0 ==> result <= CompressBound(consumed)
    ensures start == 0 && d != FillOutput ==> RunsShrink(src, dst.Length, result)
  {
    hide BlockOf, SequencesDone, Fits, HashesOk, Whole, IsRun, Wrote, RunMatch, Extension, LongSlot, OnRun;
    var table, base, dictSize := ctx.hashTable, ctx.lowLimit, ctx.DictSize();
    var anchor: nat, op: nat, ip: nat := start, 0, start;
    ghost var ss: seq<Sequence> := [];
    NothingDone(d, src, start, dst);
    var err, m := false, Placed(0, 0, 0);
    ghost var run := start == 0 && d != FillOutput && IsRun(src, 0);
    RunIsLong(src, 0);
    if run { RunStarts(h, src, dst.Length, table, base); }
    while !err && |src| - start >= MFLIMIT + 1 && ip <= |src| - MFLIMIT
      invariant SequencesDone(d, src, start, dst, ss, anchor, op) && start <= anchor <= |src|
      invariant err ==> d != NotLimited && m.Ok(src) && anchor <= m.pos && FiledBefore(table, base + |src|)
      invariant !err ==> anchor <= ip && FiledBefore(table, base + (if ip < |src| then ip else |src|))
      invariant run ==> OnRun(h, src, dst.Length, table, base, err, anchor, ip, op)
      decreases !err, |src| - ip
    {
      err, m, anchor, ip, op, ss := Round(h, d, src, start, dst, table, base, dictSize, ss, anchor, op, ip, run);
    }
    if run { RunEnds(h, src, dst.Length, table, base, err, anchor, ip, op); }
    if err {
      if d != FillOutput { return 0, 0; }
      op, anchor, ss := WriteLastSequence(src, start, dst, ss, anchor, op, m);
    }
    var ok, end, taken := LastLiteralsSegment(d, src, start, dst, ss, anchor, op);
    if !ok { return 0, 0; }
    return end, taken;
  }

  lemma WholeBounds(src: seq<byte>, dictSize: nat, m: Placed)
    requires Whole(src, dictSize, m)
    ensures m.Ok(src)
  {
  }
}
