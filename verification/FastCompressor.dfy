// LZ4_compress_generic for the three output policies and both table types,
// alone or with the dictionary of a stream, whose table may hold entries of
// earlier blocks.  The hash function is arbitrary: it never enters the argument.
module FastCompressor {
  import opened BlockFormat
  import opened Counting
  import opened Dictionaries
  import opened Emit

  datatype TableType = ClearedTable | ByU32 | ByU16
  datatype DictMode = WithoutDict | WithPrefix64k | UsingExtDict
  datatype DictIssue = NoDictIssue | DictSmall

  const MINLENGTH := MFLIMIT + 1
  const LIMIT_64K := 65536 + (MFLIMIT - 1)
  const SKIP_TRIGGER := 64 // 1 << LZ4_skipTrigger

  type HashFn = seq<byte> -> nat

  ghost predicate HashInto(hash: HashFn, size: nat) {
    forall w {:trigger hash(w)} :: hash(w) < size
  }

  function HashPosition(hash: HashFn, src: seq<byte>, p: nat): nat
    requires p + 8 <= |src|
  {
    hash(src[p..p + 8])
  }

  // The compile-time parameters, where the table counts positions of the source
  // from, and the size of the dictionary.  The text a block is compressed from
  // is the dictionary followed by the source, wherever the dictionary lies.
  datatype Config = Config(directive: OutputDirective, tableType: TableType, dict: DictMode, dictIssue: DictIssue,
                           startIndex: nat, dictSize: nat, acceleration: nat)
  {
    // prefixIdxLimit: the index of the first byte of the dictionary.
    function Base(): int { startIndex - dictSize }

    // How far back a match at m may be extended (lowLimit).
    function LowLimit(m: nat): nat { if dict == UsingExtDict && m >= dictSize then dictSize else 0 }
  }

  // What the entry points guarantee about a configuration, for a text of n bytes.
  ghost predicate ConfigOk(c: Config, n: nat) {
    && c.acceleration >= 1 && c.tableType != ClearedTable && c.dictSize <= c.startIndex && c.dictSize <= n
    && (c.tableType == ByU16 ==> c.dict == WithoutDict && c.startIndex + n < LIMIT_64K)
    && (c.tableType == ByU16 && c.dictIssue == NoDictIssue ==> c.startIndex == 0)
    && (c.dictIssue == NoDictIssue ==> c.startIndex == c.dictSize || c.startIndex > DISTANCE_MAX)
    && (c.dict == WithoutDict ==> c.dictSize == 0)
    && (c.dict == UsingExtDict ==> c.dictSize == 0 || c.dictSize >= MINMATCH)
  }

  // ---------------------------------------------------------------------
  // The hash table
  // ---------------------------------------------------------------------

  // An entry was filed by an earlier block, or never: then it is a position of
  // the dictionary or recognisably stale.  Or it is the never-written zero
  // standing for the start of the text, or a position of the source below the
  // limit filed under its own hash.
  ghost predicate Entry(c: Config, hash: HashFn, src: seq<byte>, h: nat, idx: nat, limit: nat) {
    || (idx < c.startIndex && (idx == 0 || idx + MFLIMIT <= c.startIndex)
        && (idx >= c.Base() || c.dictIssue == DictSmall || idx + DISTANCE_MAX < c.startIndex))
    || (idx == 0 && c.startIndex == 0)
    || (c.startIndex <= idx < c.Base() + limit && idx - c.Base() + MFLIMIT <= |src|
        && HashPosition(hash, src, idx - c.Base()) == h)
  }

  ghost predicate TableOk(table: seq<nat>, c: Config, hash: HashFn, src: seq<byte>, limit: nat) {
    forall h {:trigger table[h]} :: 0 <= h < |table| ==> Entry(c, hash, src, h, table[h], limit)
  }

  method PutIndex(table: array<nat>, c: Config, hash: HashFn, src: seq<byte>, p: nat, h: nat, ghost limit: nat)
    requires TableOk(table[..], c, hash, src, limit) && h < table.Length
    requires c.dictSize <= p < limit && p + 8 <= |src| && HashPosition(hash, src, p) == h
    requires ConfigOk(c, |src|) && p + MFLIMIT <= |src|
    modifies table
    ensures TableOk(table[..], c, hash, src, limit) && table[..] == old(table[..])[h := c.Base() + p]
  {
    var idx := c.Base() + p;
    assert c.tableType == ByU16 ==> idx < 65536;
    table[h] := idx;
  }

  lemma TableGrow(table: seq<nat>, c: Config, hash: HashFn, src: seq<byte>, limit: nat, limit': nat)
    requires TableOk(table, c, hash, src, limit) && limit <= limit'
    ensures TableOk(table, c, hash, src, limit')
  {
  }

  // The checks a candidate has to pass: not in front of a small dictionary,
  // and not too far back.
  predicate Usable(c: Config, matchIndex: nat, p: nat) {
    && !(c.dictIssue == DictSmall && matchIndex < c.Base())
    && !(c.tableType != ByU16 && matchIndex + DISTANCE_MAX < c.Base() + p)
  }

  // A candidate that passes them is a position of the text, before the current
  // one and within reach; in an external dictionary, four bytes before its end.
  lemma CandidateOk(table: seq<nat>, c: Config, hash: HashFn, src: seq<byte>, p: nat, h: nat)
    requires TableOk(table, c, hash, src, p) && h < |table| && c.dictSize <= p && 0 < p && p + MFLIMIT <= |src|
    requires ConfigOk(c, |src|) && Usable(c, table[h], p)
    ensures c.Base() <= table[h] < c.Base() + p
    ensures c.Base() + p - table[h] <= DISTANCE_MAX
    ensures InOneSegment(c, table[h] - c.Base())
  {
    assert Entry(c, hash, src, h, table[h], p);
  }

  // The four bytes at m do not cross the end of an external dictionary.
  ghost predicate InOneSegment(c: Config, m: nat) {
    c.dict == UsingExtDict && m < c.dictSize ==> m + MINMATCH <= c.dictSize
  }

  // ---------------------------------------------------------------------
  // Finding a match
  // ---------------------------------------------------------------------

  // Four equal bytes within reach, starting early enough in the source.
  ghost predicate Candidate(c: Config, src: seq<byte>, ip: nat, m: nat) {
    && InOneSegment(c, m) && m < ip && ip + MFLIMIT <= |src| && ip - m <= DISTANCE_MAX
    && MatchRange(src, ip, ip + MINMATCH, ip - m)
  }

  // The entry for position p is a candidate, and its four bytes match.
  predicate Hits(table: seq<nat>, c: Config, hash: HashFn, src: seq<byte>, p: nat)
    requires p + 8 <= |src|
  {
    var h := HashPosition(hash, src, p);
    && h < |table| && Usable(c, table[h], p) && 0 <= table[h] - c.Base() < p
    && Read32(src, table[h] - c.Base()) == Read32(src, p)
  }

  // The search loop: probe ever larger steps until four bytes match.
  method FindMatch(table: array<nat>, c: Config, hash: HashFn, src: seq<byte>, ip0: nat)
    returns (found: bool, ip: nat, m: nat)
    requires ConfigOk(c, |src|) && HashInto(hash, table.Length)
    requires c.dictSize < ip0 && ip0 + MFLIMIT <= |src| + 1 && TableOk(table[..], c, hash, src, ip0) && 13 <= |src|
    modifies table
    ensures found ==> ip0 <= ip && Candidate(c, src, ip, m) && TableOk(table[..], c, hash, src, ip + 1)
    ensures TableOk(table[..], c, hash, src, |src|)
    // a hit at the first position is taken
    ensures ip0 + MFLIMIT <= |src| && Hits(old(table[..]), c, hash, src, ip0) ==>
              found && ip == ip0 && m == old(table[HashPosition(hash, src, ip0)]) - c.Base()
  {
    hide Entry, HashPosition, MatchRange, Read32;
    var mflimitPlusOne := |src| - MFLIMIT + 1;
    var forwardIp, step, searchMatchNb := ip0, 1, c.acceleration * SKIP_TRIGGER;
    var forwardH := HashPosition(hash, src, ip0);
    HashBound(hash, src, ip0, table.Length);
    ip, m := ip0, 0;
    while true
      invariant ip0 <= forwardIp <= mflimitPlusOne && step >= 1 && searchMatchNb >= SKIP_TRIGGER
      invariant forwardH == HashPosition(hash, src, forwardIp) && forwardH < table.Length
      invariant TableOk(table[..], c, hash, src, forwardIp)
      invariant ip0 < forwardIp && ip0 + MFLIMIT <= |src| ==> !Hits(old(table[..]), c, hash, src, ip0)
      invariant ip0 == forwardIp ==> table[..] == old(table[..]) && step == 1
      decreases |src| - forwardIp
    {
      var h := forwardH;
      var matchIndex := table[h];
      ip := forwardIp;
      forwardIp := forwardIp + step;
      step := searchMatchNb / SKIP_TRIGGER;
      searchMatchNb := searchMatchNb + 1;
      if forwardIp > mflimitPlusOne {
        TableGrow(table[..], c, hash, src, ip, |src|);
        return false, ip, m;
      }
      forwardH := HashPosition(hash, src, forwardIp);
      HashBound(hash, src, forwardIp, table.Length);
      ghost var before := table[..];
      TableGrow(table[..], c, hash, src, ip, ip + 1);
      PutIndex(table, c, hash, src, ip, h, ip + 1);
      if Usable(c, matchIndex, ip) {
        CandidateOk(before, c, hash, src, ip, h);
        m := matchIndex - c.Base();
        Equal32(src, ip, ip - m);
        if Read32(src, m) == Read32(src, ip) {
          TableGrow(table[..], c, hash, src, ip + 1, |src|);
          return true, ip, m;
        }
      }
      TableGrow(table[..], c, hash, src, ip + 1, forwardIp);
    }
  }

  lemma HashBound(hash: HashFn, src: seq<byte>, p: nat, size: nat)
    requires p + 8 <= |src| && HashInto(hash, size)
    ensures HashPosition(hash, src, p) < size
  {
  }

  // Extend a match backwards over equal bytes, not past the anchor nor out of
  // the segment the match lies in.
  method CatchUp(ghost c: Config, src: seq<byte>, anchor: nat, lowLimit: nat, ip0: nat, m0: nat)
    returns (ip: nat, m: nat)
    requires anchor < ip0 && Candidate(c, src, ip0, m0) && lowLimit == c.LowLimit(m0)
    ensures anchor <= ip <= ip0 && m < ip && ip - m == ip0 - m0 && InOneSegment(c, m)
    ensures MatchRange(src, ip, ip0 + MINMATCH, ip - m)
  {
    ip, m := ip0, m0;
    ghost var offset := ip0 - m0;
    while ip > anchor && m > lowLimit && src[ip - 1] == src[m - 1]
      invariant anchor <= ip <= ip0 && m < ip && ip - m == offset && InOneSegment(c, m)
      invariant c.LowLimit(m) == lowLimit && lowLimit <= m
      invariant MatchRange(src, ip, ip0 + MINMATCH, offset)
    {
      assert RepeatsAt(src, offset, ip - 1);
      ip, m := ip - 1, m - 1;
    }
  }

  // ---------------------------------------------------------------------
  // Literals before a match
  // ---------------------------------------------------------------------

  // Can the literals be written?  The tests differ by policy; passing them
  // leaves room for the wild copy and for the offset.
  lemma LiteralsFit(c: Config, n: nat, cap: nat, ss: seq<Sequence>, anchor: nat, token: nat, lits: seq<byte>)
    requires Room(c.directive, n, cap, ss, c.dictSize, anchor, token) && anchor + |lits| + MFLIMIT <= n
    requires c.directive == LimitedOutput ==>
               token + 1 + |lits| + (2 + 1 + LASTLITERALS) + |lits| / 255 <= cap
    requires c.directive == FillOutput ==>
               token + 1 + (|lits| + 240) / 255 + |lits| + 2 + 1 + MFLIMIT - MINMATCH <= cap
    ensures token + LiteralReach(|lits|) <= cap
    ensures token + |LiteralPart(lits, 0)| + 2 <= cap
  {
    hide Extension;
    ExtensionSize(|lits|);
  }

  datatype Label = Search | NextMatch | LastLiterals | Failed

  // The match at ip is known to reach past the last filed position.
  ghost predicate MatchReady(table: seq<nat>, c: Config, hash: HashFn, src: seq<byte>, ip: nat, m: nat, filledIp: nat) {
    var top := if ip < filledIp then filledIp else ip;
    && m < ip && MatchRange(src, ip, top + MINMATCH, ip - m) && InOneSegment(c, m)
    && TableOk(table, c, hash, src, top + 1)
  }

  // Too little room is left for a match under the fill policy.
  predicate OutOfRoom(c: Config, cap: nat, op: nat) {
    c.directive == FillOutput && op + 2 + 1 + MFLIMIT - MINMATCH > cap
  }

  // At _next_match.
  ghost predicate MatchPending(table: seq<nat>, c: Config, hash: HashFn, src: seq<byte>, dst: array<byte>,
                               ss: seq<Sequence>, anchor: nat, token: nat, ip: nat, m: nat, op: nat, filledIp: nat)
    reads dst
  {
    && c.dictSize <= anchor <= ip && ip + MFLIMIT <= |src| && filledIp + MFLIMIT <= |src|
    && token <= op && op + 2 <= dst.Length
    && LiteralsWritten(src, c.dictSize, dst[..op], ss, anchor, token, ip)
    && Room(c.directive, |src|, dst.Length, ss, c.dictSize, anchor, token)
    && m < ip && ip - m <= DISTANCE_MAX
    && (OutOfRoom(c, dst.Length, op) || MatchReady(table, c, hash, src, ip, m, filledIp))
  }

  // Only the limited policy fails, and not with a buffer of the bound.
  predicate MayFail(c: Config, n: nat, cap: nat) {
    c.dictSize <= n && c.directive == LimitedOutput && !Ample(c.directive, n - c.dictSize, cap)
  }

  lemma NoRoomForLiterals(c: Config, src: seq<byte>, cap: nat, ss: seq<Sequence>, anchor: nat, op: nat, ip: nat)
    requires Room(c.directive, |src|, cap, ss, c.dictSize, anchor, op) && anchor <= ip && ip + MFLIMIT <= |src|
    requires c.directive == LimitedOutput
    requires op + 1 + (ip - anchor) + (2 + 1 + LASTLITERALS) + (ip - anchor) / 255 > cap
    ensures MayFail(c, |src|, cap)
  {
    if Ample(c.directive, |src| - c.dictSize, cap) {
      BudgetRoom(src, cap, c.dictSize, anchor, op, ip, 1, MINMATCH);
    }
  }

  lemma NoRoomForMatch(c: Config, src: seq<byte>, cap: nat, ss: seq<Sequence>, anchor: nat, token: nat, ip: nat,
                       op: nat, offset: nat, mc: nat)
    requires Room(c.directive, |src|, cap, ss, c.dictSize, anchor, token) && anchor <= ip && ip + MFLIMIT <= |src|
    requires ip + MINMATCH + mc + LASTLITERALS <= |src| && 0 < offset <= DISTANCE_MAX
    requires op == token + |LiteralPart(src[anchor..ip], 0)| + 2 && c.directive == LimitedOutput
    requires op + (1 + LASTLITERALS) + (mc + 240) / 255 > cap
    ensures MayFail(c, |src|, cap)
  {
    hide LiteralPart, Extension;
    if Ample(c.directive, |src| - c.dictSize, cap) {
      var lits := src[anchor..ip];
      BudgetRoom(src, cap, c.dictSize, anchor, token, ip, offset, mc + MINMATCH);
      EncodeSequenceSize(Sequence(lits, offset, mc + MINMATCH));
      LiteralPartSplit([], lits);
      ExtensionSize(mc);
    }
  }

  // From the search loop to a match whose literals are written.
  method SearchSegment(table: array<nat>, c: Config, hash: HashFn, src: seq<byte>, dst: array<byte>,
                       ghost ss: seq<Sequence>, anchor: nat, ip0: nat, op0: nat)
    returns (label_: Label, ip: nat, m: nat, op: nat, filledIp: nat)
    requires ConfigOk(c, |src|) && HashInto(hash, table.Length)
    requires anchor < ip0 && ip0 + MFLIMIT <= |src| + 1 && 13 <= |src| && table as object != dst
    requires SequencesDone(c.directive, src, c.dictSize, dst, ss, anchor, op0) && TableOk(table[..], c, hash, src, ip0)
    modifies table, dst
    ensures label_ == NextMatch || label_ == LastLiterals || label_ == Failed
    ensures label_ == Failed ==> MayFail(c, |src|, dst.Length)
    ensures TableOk(table[..], c, hash, src, |src|)
    ensures label_ == LastLiterals ==> SequencesDone(c.directive, src, c.dictSize, dst, ss, anchor, op)
    ensures label_ == NextMatch ==> MatchPending(table[..], c, hash, src, dst, ss, anchor, op0, ip, m, op, filledIp)
    // a hit at the first position leads to its match, unless there is no room
    ensures c.directive != FillOutput && ip0 + MFLIMIT <= |src| && Hits(old(table[..]), c, hash, src, ip0) ==>
              && label_ != LastLiterals
              && (label_ == NextMatch ==>
                    && ip <= ip0 && ip - m == ip0 - (old(table[HashPosition(hash, src, ip0)]) - c.Base())
                    && op == op0 + |LiteralPart(src[anchor..ip], 0)|)
              && (label_ == Failed ==> op0 + (ip0 - anchor) + 9 + (ip0 - anchor) / 255 > dst.Length)
  {
    hide Entry, HashPosition, MatchRange, LiteralPart, Extension, TableOk, Parsed, EncodeAll, Room, Hits;
    op := op0;
    var found;
    found, ip, m := FindMatch(table, c, hash, src, ip0);
    filledIp := ip;
    if !found { return LastLiterals, ip, m, op, filledIp; }
    ip, m := CatchUp(c, src, anchor, c.LowLimit(m), ip, m);
    var litLength := ip - anchor;
    if c.directive == LimitedOutput
       && op + 1 + litLength + (2 + 1 + LASTLITERALS) + litLength / 255 > dst.Length {
      NoRoomForLiterals(c, src, dst.Length, ss, anchor, op, ip);
      return Failed, ip, m, op, filledIp;
    }
    if c.directive == FillOutput
       && op + 1 + (litLength + 240) / 255 + litLength + 2 + 1 + MFLIMIT - MINMATCH > dst.Length {
      return LastLiterals, ip, m, op, filledIp;
    }
    LiteralsFit(c, |src|, dst.Length, ss, anchor, op, src[anchor..ip]);
    op := PutLiterals(dst, op, src, anchor, ip);
    return NextMatch, ip, m, op, filledIp;
  }

  // ---------------------------------------------------------------------
  // Encoding a match
  // ---------------------------------------------------------------------

  lemma {:induction false} LongLengthBytes(n: nat, i: nat)
    requires i <= n / 255
    ensures LongLength(n)[i] == if i < n / 255 then 255 else n % 255
    decreases n
  {
    if n >= 255 && i > 0 { LongLengthBytes(n - 255, i - 1); }
  }

  // Stores four bytes of 255 at a time, so up to three too many.
  method PutLongLengthBy4(dst: array<byte>, op0: nat, len: nat) returns (op: nat)
    requires op0 + len / 255 + 1 + 3 <= dst.Length
    modifies dst
    ensures op == op0 + len / 255 + 1
    ensures dst[..op] == old(dst[..op0]) + LongLength(len)
  {
    op := op0;
    var rest := len;
    dst[op], dst[op + 1], dst[op + 2], dst[op + 3] := 255, 255, 255, 255;
    while rest >= 4 * 255
      invariant op + rest / 255 == op0 + len / 255 && op >= op0 && rest >= 0
      invariant rest % 255 == len % 255
      invariant forall k :: op0 <= k < op + 4 ==> dst[k] == 255
      invariant dst[..op0] == old(dst[..op0])
    {
      op := op + 4;
      dst[op], dst[op + 1], dst[op + 2], dst[op + 3] := 255, 255, 255, 255;
      rest := rest - 4 * 255;
    }
    op := op + rest / 255;
    dst[op] := rest % 255;
    op := op + 1;
    forall k | op0 <= k < op ensures dst[k] == LongLength(len)[k - op0] {
      LongLengthBytes(len, k - op0);
    }
    assert dst[op0..op] == LongLength(len);
    assert dst[..op] == dst[..op0] + dst[op0..op];
  }

  // The match length: the token's low nibble and the bytes after it.
  method PutMatchLength(dst: array<byte>, token: nat, op0: nat, matchCode: nat) returns (op: nat)
    requires token < op0 && op0 + |Extension(matchCode)| + 3 <= dst.Length
    requires dst[token] + Nibble(matchCode) < 256
    modifies dst
    ensures op == op0 + |Extension(matchCode)|
    ensures dst[..op] == old(dst[..op0])[token := old(dst[token]) + Nibble(matchCode)] + Extension(matchCode)
  {
    hide LongLength;
    if matchCode >= ML_MASK {
      dst[token] := dst[token] + ML_MASK;
      op := PutLongLengthBy4(dst, op0, matchCode - ML_MASK);
    } else {
      dst[token] := dst[token] + matchCode;
      op := op0;
    }
  }

  // Forget the positions from lo to hi, which lie beyond a shortened match.
  method ClearPositions(table: array<nat>, c: Config, hash: HashFn, src: seq<byte>, lo: nat, hi: nat)
    requires ConfigOk(c, |src|) && HashInto(hash, table.Length)
    requires c.dictSize <= lo <= hi && hi + MFLIMIT <= |src| && TableOk(table[..], c, hash, src, hi + 1)
    modifies table
    ensures TableOk(table[..], c, hash, src, lo)
  {
    hide HashPosition;
    var ptr := lo;
    while ptr <= hi
      invariant lo <= ptr <= hi + 1
      invariant TableOk(table[..], c, hash, src, hi + 1)
      invariant forall h :: 0 <= h < table.Length ==> table[h] == 0 || !(lo <= table[h] - c.Base() < ptr)
    {
      var h := HashPosition(hash, src, ptr);
      HashBound(hash, src, ptr, table.Length);
      table[h] := 0;
      ptr := ptr + 1;
    }
    forall h | 0 <= h < table.Length ensures Entry(c, hash, src, h, table[..][h], lo) {
      assert Entry(c, hash, src, h, table[..][h], hi + 1);
    }
  }

  // The length of a match beyond its first four bytes; one that starts in an
  // external dictionary goes on at the start of the source.
  method CountMatch(c: Config, src: seq<byte>, ip: nat, m: nat) returns (mc: nat)
    requires c.dictSize <= ip && m < ip && ip + MFLIMIT <= |src| && InOneSegment(c, m)
    ensures IsCommonPrefix(src, ip + MINMATCH, |src| - LASTLITERALS, ip - m, mc)
  {
    var matchlimit := |src| - LASTLITERALS;
    if c.dict == UsingExtDict && m < c.dictSize {
      var limit := ip + (c.dictSize - m);
      if limit > matchlimit { limit := matchlimit; }
      mc := Count(src, ip + MINMATCH, m + MINMATCH, limit);
      if ip + MINMATCH + mc == limit {
        var more := Count(src, limit, c.dictSize, matchlimit);
        PrefixGoesOn(src, ip + MINMATCH, limit, matchlimit, ip - m, mc, limit - c.dictSize, more);
        mc := mc + more;
      }
    } else {
      mc := Count(src, ip + MINMATCH, m + MINMATCH, matchlimit);
    }
  }

  lemma PrefixGoesOn(src: seq<byte>, p: nat, mid: nat, limit: nat, offset: nat, a: nat, offset': nat, b: nat)
    requires IsCommonPrefix(src, p, mid, offset, a) && p + a == mid <= limit
    requires IsCommonPrefix(src, mid, limit, offset', b)
    requires offset' == offset || mid == limit
    ensures IsCommonPrefix(src, p, limit, offset, a + b)
  {
  }

  lemma MatchReachesFilled(src: seq<byte>, ip: nat, filledIp: nat, offset: nat, mc: nat)
    requires ip <= filledIp && filledIp + MFLIMIT <= |src|
    requires MatchRange(src, ip, filledIp + MINMATCH, offset)
    requires IsCommonPrefix(src, ip + MINMATCH, |src| - LASTLITERALS, offset, mc)
    ensures filledIp + MINMATCH <= ip + MINMATCH + mc
    ensures MatchRange(src, ip, ip + MINMATCH + mc, offset)
  {
    var e := ip + MINMATCH + mc;
    assert e < filledIp + MINMATCH ==> RepeatsAt(src, offset, e);
  }

  // The match length that can be stored, or none for the limited policy.
  method FitMatchLength(c: Config, cap: nat, op: nat, mc0: nat) returns (ok: bool, mc: nat)
    requires c.directive == FillOutput ==> op + 9 <= cap
    ensures mc <= mc0
    ensures !ok ==> c.directive == LimitedOutput && op + (1 + LASTLITERALS) + (mc0 + 240) / 255 > cap
    ensures ok && c.directive != FillOutput ==> mc == mc0
    ensures ok && mc != mc0 ==> op + |Extension(mc)| + 9 > cap
    ensures ok && c.directive != NotLimited ==> op + |Extension(mc)| + 1 + LASTLITERALS <= cap
    ensures ok && c.directive == FillOutput ==> op + |Extension(mc)| + 9 <= cap || mc >= 3
  {
    ExtensionSize(mc0);
    mc := mc0;
    if c.directive != NotLimited && op + (1 + LASTLITERALS) + (mc0 + 240) / 255 > cap {
      if c.directive == FillOutput {
        var newMatchCode := 15 - 1 + (cap - op - 1 - LASTLITERALS) * 255;
        ExtensionSize(newMatchCode);
        assert newMatchCode < mc0;
        return true, newMatchCode;
      }
      return false, mc;
    }
    return true, mc;
  }

  lemma RoomAfterMatch(c: Config, src: seq<byte>, cap: nat, ss: seq<Sequence>, anchor: nat, token: nat,
                       ip: nat, offset: nat, mc: nat, op: nat)
    requires Room(c.directive, |src|, cap, ss, c.dictSize, anchor, token) && anchor <= ip && ip + MFLIMIT <= |src|
    requires ip + MINMATCH + mc + LASTLITERALS <= |src| && 0 < offset <= DISTANCE_MAX
    requires op == token + |EncodeSequence(Sequence(src[anchor..ip], offset, mc + MINMATCH))|
    requires c.directive != NotLimited ==> op + 1 + LASTLITERALS <= cap
    requires c.directive == FillOutput ==> op + 9 <= cap || mc >= 3
    ensures Room(c.directive, |src|, cap, ss + [Sequence(src[anchor..ip], offset, mc + MINMATCH)], c.dictSize,
                 ip + MINMATCH + mc, op)
    ensures op + 3 <= cap
  {
    hide EncodeSequence;
    if Ample(c.directive, |src| - c.dictSize, cap) {
      BudgetRoom(src, cap, c.dictSize, anchor, token, ip, offset, mc + MINMATCH);
    }
    RoomExtend(c.directive, src, cap, ss, c.dictSize, anchor, token, ip, offset, mc + MINMATCH, op);
  }

  // _next_match: the offset and the match length; may shorten the match or
  // give it up when the output is nearly full.
  method MatchSegment(table: array<nat>, c: Config, hash: HashFn, src: seq<byte>, dst: array<byte>,
                      ghost ss0: seq<Sequence>, anchor0: nat, token: nat, ip0: nat, m: nat, op0: nat, filledIp: nat)
    returns (label_: Label, ghost ss: seq<Sequence>, anchor: nat, op: nat, ghost full: nat)
    requires ConfigOk(c, |src|) && HashInto(hash, table.Length) && table as object != dst
    requires TableOk(table[..], c, hash, src, |src|)
    requires MatchPending(table[..], c, hash, src, dst, ss0, anchor0, token, ip0, m, op0, filledIp)
    modifies table, dst
    ensures label_ == Search || label_ == LastLiterals || label_ == Failed
    ensures c.directive != FillOutput ==> WholeMatch(src, dst.Length, label_, ip0, ip0 - m, op0, full, anchor, op)
    ensures label_ == Failed ==> MayFail(c, |src|, dst.Length)
    ensures TableOk(table[..], c, hash, src, |src|)
    ensures label_ != Failed ==> SequencesDone(c.directive, src, c.dictSize, dst, ss, anchor, op)
    ensures label_ == Failed ==> anchor == anchor0
    ensures anchor0 <= anchor
    ensures label_ == Search ==>
              && ip0 + MINMATCH <= anchor && anchor + MFLIMIT <= |src| && TableOk(table[..], c, hash, src, anchor)
              && op + 3 <= dst.Length && (filledIp < anchor || OutOfRoom(c, dst.Length, op + 1))
  {
    hide Entry, HashPosition, MatchRange, Extension, Nibble, LiteralPart, EncodeSequence, Room, Parsed, EncodeAll;
    ss, anchor, op := ss0, anchor0, op0;
    var offset := ip0 - m;
    full := 0;
    if OutOfRoom(c, dst.Length, op) {
      op := token;
      assert dst[..token] == dst[..op0][..token];
      return LastLiterals, ss, anchor, op, full;
    }
    dst[op], dst[op + 1] := offset % 256, offset / 256;
    op := op + 2;
    var top := if ip0 < filledIp then filledIp else ip0;
    var mc := CountMatch(c, src, ip0, m);
    MatchReachesFilled(src, ip0, top, offset, mc);
    full := mc;
    var ok;
    ok, mc := FitMatchLength(c, dst.Length, op, mc);
    if !ok {
      NoRoomForMatch(c, src, dst.Length, ss0, anchor0, token, ip0, op, offset, full);
      return Failed, ss, anchor, op, full;
    }
    var ip := ip0 + MINMATCH + mc;
    if ip <= filledIp {
      ClearPositions(table, c, hash, src, ip, filledIp);
    } else {
      TableGrow(table[..], c, hash, src, top + 1, ip);
    }
    TableGrow(table[..], c, hash, src, ip, |src|);
    MatchRangeWithin(src, ip0, ip0 + MINMATCH + full, offset, ip0, ip);
    AssembleSequence(src, c.dictSize, dst[..op0], dst[..op], ss0, anchor0, token, ip0, offset, mc);
    ghost var s := Sequence(src[anchor0..ip0], offset, mc + MINMATCH);
    RoomAfterMatch(c, src, dst.Length, ss0, anchor0, token, ip0, offset, mc, op + |Extension(mc)|);
    op := PutMatchLength(dst, token, op, mc);
    ss, anchor := ss0 + [s], ip;
    if ip >= |src| - MFLIMIT + 1 { return LastLiterals, ss, anchor, op, full; }
    return Search, ss, anchor, op, full;
  }

  // Unless there is no room for it, the match is written as far as the bytes
  // agree.
  ghost predicate WholeMatch(src: seq<byte>, cap: nat, label_: Label, ip: nat, offset: nat, op0: nat, full: nat,
                             anchor: nat, op: nat)
  {
    && |src| >= LASTLITERALS && IsCommonPrefix(src, ip + MINMATCH, |src| - LASTLITERALS, offset, full)
    && (if label_ == Failed then op0 + 8 + (full + 240) / 255 > cap
        else
          && anchor == ip + MINMATCH + full && op >= op0 + 2 + |Extension(full)|
          && (anchor + MFLIMIT > |src| ==> label_ == LastLiterals && op == op0 + 2 + |Extension(full)|))
  }

  // After a match: file two positions, and try to match again on the spot.
  method TestNextPosition(table: array<nat>, c: Config, hash: HashFn, src: seq<byte>, ip: nat)
    returns (found: bool, m: nat)
    requires ConfigOk(c, |src|) && HashInto(hash, table.Length)
    requires c.dictSize + 2 <= ip && ip + MFLIMIT <= |src| && TableOk(table[..], c, hash, src, ip)
    modifies table
    ensures TableOk(table[..], c, hash, src, ip + 1)
    ensures found ==> Candidate(c, src, ip, m)
    ensures found <==>
              Hits(old(table[..])[HashPosition(hash, src, ip - 2) := c.Base() + ip - 2], c, hash, src, ip)
  {
    hide Entry, HashPosition, MatchRange, Read32;
    m := 0;
    HashBound(hash, src, ip - 2, table.Length);
    PutIndex(table, c, hash, src, ip - 2, HashPosition(hash, src, ip - 2), ip);
    var h := HashPosition(hash, src, ip);
    HashBound(hash, src, ip, table.Length);
    var matchIndex := table[h];
    ghost var before := table[..];
    TableGrow(table[..], c, hash, src, ip, ip + 1);
    PutIndex(table, c, hash, src, ip, h, ip + 1);
    found := false;
    if Usable(c, matchIndex, ip) {
      CandidateOk(before, c, hash, src, ip, h);
      m := matchIndex - c.Base();
      Equal32(src, ip, ip - m);
      found := Read32(src, m) == Read32(src, ip);
    }
  }

  // ---------------------------------------------------------------------
  // The compressor
  // ---------------------------------------------------------------------

  lemma PendingImmediately(src: seq<byte>, start: nat, text0: seq<byte>, text: seq<byte>, ss: seq<Sequence>,
                           anchor: nat)
    requires Emitted(src, start, text0, ss, anchor) && text == text0 + [0]
    ensures LiteralsWritten(src, start, text, ss, anchor, |text0|, anchor)
  {
    hide EncodeAll, WellFormed, Output;
    assert src[anchor..anchor] == [];
  }

  // _next_match and what follows it, up to the next match or the next search.
  method MatchStep(table: array<nat>, c: Config, hash: HashFn, src: seq<byte>, dst: array<byte>,
                   ghost ss0: seq<Sequence>, anchor0: nat, token0: nat, ip0: nat, m0: nat, op0: nat, filledIp: nat)
    returns (label_: Label, ghost ss: seq<Sequence>, anchor: nat, token: nat, ip: nat, m: nat, op: nat,
             ghost full: nat)
    requires ConfigOk(c, |src|) && HashInto(hash, table.Length) && table as object != dst
    requires TableOk(table[..], c, hash, src, |src|)
    requires MatchPending(table[..], c, hash, src, dst, ss0, anchor0, token0, ip0, m0, op0, filledIp)
    modifies table, dst
    ensures TableOk(table[..], c, hash, src, |src|)
    ensures label_ == Failed ==> anchor == anchor0 && MayFail(c, |src|, dst.Length)
    ensures anchor0 <= anchor
    ensures label_ == Search || label_ == LastLiterals ==>
              SequencesDone(c.directive, src, c.dictSize, dst, ss, anchor, op)
    ensures label_ == Search ==>
              anchor0 < anchor < ip && ip + MFLIMIT <= |src| + 1 && TableOk(table[..], c, hash, src, ip)
    ensures label_ == NextMatch ==>
              anchor0 < anchor && MatchPending(table[..], c, hash, src, dst, ss, anchor, token, ip, m, op, filledIp)
    ensures c.directive != FillOutput ==> WholeMatch(src, dst.Length, label_, ip0, ip0 - m0, op0, full, anchor, op)
  {
    hide Entry, HashPosition, MatchRange, LiteralPart, Extension, TableOk, Parsed, EncodeAll, Room, Hits;
    label_, ss, anchor, op, full :=
      MatchSegment(table, c, hash, src, dst, ss0, anchor0, token0, ip0, m0, op0, filledIp);
    ip, m, token := anchor, 0, op;
    if label_ != Search { return; }
    var found;
    found, m := TestNextPosition(table, c, hash, src, ip);
    TableGrow(table[..], c, hash, src, ip + 1, |src|);
    if found {
      ghost var text0 := dst[..op];
      dst[token] := 0;
      op := op + 1;
      label_ := NextMatch;
      assert dst[..op] == text0 + [0];
      PendingImmediately(src, c.dictSize, text0, dst[..op], ss, anchor);
    } else {
      ip := ip + 1;
    }
  }

  // The compressor on such a source: one match from the first or second byte to
  // the last literals.
  ghost predicate OnRun(table: seq<nat>, c: Config, hash: HashFn, src: seq<byte>, cap: nat, label_: Label, anchor: nat,
                        ip: nat, m: nat, op: nat)
    requires c.dictSize + MINLENGTH <= |src|
  {
    var start := c.dictSize;
    match label_
    case Search =>
      && anchor == start && ip == start + 1 && op == 0 && Hits(table, c, hash, src, ip)
      && table[HashPosition(hash, src, ip)] - c.Base() == start
    case NextMatch => anchor == start && start <= ip <= start + 1 && ip - m == 1 && op <= 2
    case LastLiterals => anchor == |src| - LASTLITERALS && op + 6 <= RunBound(|src| - start)
    case Failed => cap < RunBound(|src| - start)
  }

  lemma RunStarts(table: seq<nat>, c: Config, hash: HashFn, src: seq<byte>, cap: nat)
    requires ConfigOk(c, |src|) && IsRun(src, c.dictSize) && HashInto(hash, |table|)
    requires HashPosition(hash, src, c.dictSize) < |table|
    requires table[HashPosition(hash, src, c.dictSize)] == c.startIndex
    ensures OnRun(table, c, hash, src, cap, Search, c.dictSize, c.dictSize + 1, 0, 0)
  {
    var start := c.dictSize;
    assert src[start + 1..start + 9] == src[start..start + 8];
    assert Read32(src, start + 1) == Read32(src, start);
  }

  lemma RunSearched(before: seq<nat>, table: seq<nat>, c: Config, hash: HashFn, src: seq<byte>, cap: nat,
                    label_: Label, anchor: nat, ip0: nat, m0: nat, ip: nat, m: nat, op: nat)
    requires IsRun(src, c.dictSize) && OnRun(before, c, hash, src, cap, Search, anchor, ip0, m0, 0)
    requires label_ == NextMatch || label_ == Failed
    requires label_ == NextMatch ==>
               && anchor <= ip <= ip0 && ip - m == ip0 - (before[HashPosition(hash, src, ip0)] - c.Base())
               && op == |LiteralPart(src[anchor..ip], 0)|
    requires label_ == Failed ==> (ip0 - anchor) + 9 + (ip0 - anchor) / 255 > cap
    ensures OnRun(table, c, hash, src, cap, label_, anchor, ip, m, op)
  {
  }

  lemma RunAt(table: seq<nat>, c: Config, hash: HashFn, src: seq<byte>, cap: nat, label_: Label, anchor: nat,
              ip: nat, m: nat, op: nat)
    requires IsRun(src, c.dictSize) && OnRun(table, c, hash, src, cap, label_, anchor, ip, m, op)
    ensures label_ == Search ==> op == 0 && ip + MFLIMIT <= |src| && Hits(table, c, hash, src, ip)
    ensures label_ == Search || label_ == NextMatch ==> anchor == c.dictSize
  {
  }

  lemma RunMatched(before: seq<nat>, table: seq<nat>, c: Config, hash: HashFn, src: seq<byte>, cap: nat, ip0: nat,
                   m0: nat, op0: nat, full: nat, label_: Label, anchor: nat, ip: nat, m: nat, op: nat)
    requires IsRun(src, c.dictSize) && OnRun(before, c, hash, src, cap, NextMatch, c.dictSize, ip0, m0, op0)
    requires WholeMatch(src, cap, label_, ip0, ip0 - m0, op0, full, anchor, op)
    ensures label_ == LastLiterals || label_ == Failed
    ensures OnRun(table, c, hash, src, cap, label_, anchor, ip, m, op)
  {
    ExtensionSize(full);
    var e := ip0 + MINMATCH + full;
    assert e == |src| - LASTLITERALS;
  }

  lemma RunEnds(table: seq<nat>, c: Config, hash: HashFn, src: seq<byte>, cap: nat, label_: Label, anchor: nat,
                ip: nat, m: nat, op: nat)
    requires IsRun(src, c.dictSize) && OnRun(table, c, hash, src, cap, label_, anchor, ip, m, op)
    requires label_ == LastLiterals || label_ == Failed
    ensures label_ == LastLiterals ==>
              |src| - anchor == LASTLITERALS && op + 6 <= RunBound(|src| - c.dictSize) && |Extension(5)| == 0
    ensures label_ == Failed ==> cap < RunBound(|src| - c.dictSize)
  {
  }

  lemma RunBehind(dict: seq<byte>, src: seq<byte>)
    requires src != []
    ensures IsRun(dict + src, |dict|) <==> IsRun(src, 0)
  {
    var text, n := dict + src, |dict|;
    if IsRun(src, 0) { assert forall i :: n <= i < |text| ==> text[i] == src[i - n]; }
    if IsRun(text, n) { assert forall i :: 0 <= i < |src| ==> src[i] == text[n + i]; }
  }

  // LZ4_compress_generic_validated: 0 for failure, which only the limited
  // policy knows (and the fill policy for an empty buffer).
  method CompressValidated(table: array<nat>, c: Config, hash: HashFn, src: seq<byte>, dst: array<byte>)
    returns (result: nat, consumed: nat)
    requires ConfigOk(c, |src|) && HashInto(hash, table.Length) && table as object != dst
    requires c.dictSize < |src| && TableOk(table[..], c, hash, src, c.dictSize + 1)
    requires c.directive == NotLimited ==> dst.Length >= CompressBound(|src| - c.dictSize)
    modifies table, dst
    ensures result <= dst.Length && c.dictSize + consumed <= |src|
    ensures result > 0 ==> BlockOf(dst[..result], src[..c.dictSize], src[c.dictSize..c.dictSize + consumed])
    ensures result > 0 && c.directive != FillOutput ==> c.dictSize + consumed == |src|
    ensures result == 0 ==> MayFail(c, |src|, dst.Length) || (c.directive == FillOutput && dst.Length == 0)
    ensures result > 0 ==> result <= CompressBound(consumed)
    ensures result > 0 && c.dictSize + consumed < |src| ==> result >= dst.Length - 1
    // one byte over and over is compressed to a single match
    ensures c.directive != FillOutput && IsRun(src, c.dictSize) ==>
              && result <= RunBound(|src| - c.dictSize)
              && (dst.Length >= RunBound(|src| - c.dictSize) ==> result > 0)
    ensures TableOk(table[..], c, hash, src, |src|)
  {
    hide BlockOf, LiteralPart, Extension, Entry, MatchRange, HashPosition, TableOk, Emitted, LiteralsWritten,
         MatchReady, Room, OnRun, IsRun, WholeMatch, Hits;
    result, consumed := 0, 0;
    var start := c.dictSize;
    ghost var run := c.directive != FillOutput && IsRun(src, start);
    if c.directive == FillOutput && dst.Length < 1 { TableGrow(table[..], c, hash, src, start + 1, |src|); return; }
    var ip: nat, m: nat, op: nat, filledIp: nat, anchor: nat, token: nat := start, 0, 0, 0, start, 0;
    ghost var ss: seq<Sequence> := [];
    var label_ := LastLiterals;
    TableGrow(table[..], c, hash, src, start + 1, |src|);
    NothingDone(c.directive, src, start, dst);
    if |src| - start >= MINLENGTH {
      HashBound(hash, src, start, table.Length);
      PutIndex(table, c, hash, src, start, HashPosition(hash, src, start), start + 1);
      TableGrow(table[..], c, hash, src, start + 1, |src|);
      ip := start + 1;
      label_ := Search;
      if run { RunStarts(table[..], c, hash, src, dst.Length); }
    }
    RunIsLong(src, start);
    while label_ == Search || label_ == NextMatch
      invariant TableOk(table[..], c, hash, src, |src|)
      invariant label_ == Search || label_ == LastLiterals ==>
                  SequencesDone(c.directive, src, start, dst, ss, anchor, op)
      invariant label_ == Search ==>
                  anchor < ip && 13 <= |src| && ip + MFLIMIT <= |src| + 1 && TableOk(table[..], c, hash, src, ip)
      invariant label_ == NextMatch ==>
                  13 <= |src| && MatchPending(table[..], c, hash, src, dst, ss, anchor, token, ip, m, op, filledIp)
      invariant label_ == Failed ==> MayFail(c, |src|, dst.Length)
      invariant run ==> OnRun(table[..], c, hash, src, dst.Length, label_, anchor, ip, m, op)
      decreases |src| - anchor, if label_ == Search then 2 else if label_ == NextMatch then 1 else 0
    {
      if run { RunAt(table[..], c, hash, src, dst.Length, label_, anchor, ip, m, op); }
      ghost var before, ip0, m0, op0 := table[..], ip, m, op;
      if label_ == Search {
        token := op;
        label_, ip, m, op, filledIp := SearchSegment(table, c, hash, src, dst, ss, anchor, ip, op);
        if run { RunSearched(before, table[..], c, hash, src, dst.Length, label_, anchor, ip0, m0, ip, m, op); }
      } else {
        ghost var full;
        label_, ss, anchor, token, ip, m, op, full :=
          MatchStep(table, c, hash, src, dst, ss, anchor, token, ip, m, op, filledIp);
        if run {
          RunMatched(before, table[..], c, hash, src, dst.Length, ip0, m0, op0, full, label_, anchor, ip, m, op);
        }
      }
    }
    if run { RunEnds(table[..], c, hash, src, dst.Length, label_, anchor, ip, m, op); }
    if label_ == Failed { return 0, 0; }
    var ok, end, taken := LastLiteralsSegment(c.directive, src, start, dst, ss, anchor, op);
    if !ok { return 0, 0; }
    return end, taken;
  }

  // ---------------------------------------------------------------------
  // Entry points
  // ---------------------------------------------------------------------

  const TABLE_SIZE := 8192
  const ACCELERATION_MAX := 65537

  function ClampAcceleration(a: int): nat {
    if a < 1 then 1 else if a > ACCELERATION_MAX then ACCELERATION_MAX else a
  }

  // LZ4_stream_t_internal without an attached dictionary context.  `dictionary`
  // is the text of dictSize bytes that stands at dictPlace.
  class Stream {
    const hashTable: array<nat>
    var currentOffset: nat
    var tableType: TableType
    var dictionary: seq<byte>
    var dictPlace: Place

    // Every entry is zero or was filed well before currentOffset; a table that
    // was never used is all zero.
    ghost predicate Valid()
      reads this, hashTable
    {
      && hashTable.Length == TABLE_SIZE
      && (forall h :: 0 <= h < hashTable.Length ==> hashTable[h] == 0 || hashTable[h] + MFLIMIT <= currentOffset)
      && (tableType == ClearedTable ==> currentOffset == 0)
      && (tableType == ByU16 ==> currentOffset < LIMIT_64K)
      && |dictionary| <= currentOffset
    }

    // LZ4_initStream
    constructor ()
      ensures Valid() && fresh(this) && fresh(hashTable)
      ensures tableType == ClearedTable && currentOffset == 0 && dictionary == []
    {
      hashTable := new nat[TABLE_SIZE](_ => 0);
      currentOffset := 0;
      tableType := ClearedTable;
      dictionary, dictPlace := [], Null;
    }

    // A stream that was never used can be used in any way.
    lemma Unused(directive: OutputDirective, tableType': TableType, acceleration: nat, hash: HashFn, src: seq<byte>)
      requires Valid() && currentOffset == 0 && acceleration >= 1
      requires tableType' == ByU32 || (tableType' == ByU16 && |src| < LIMIT_64K)
      ensures dictionary == [] && Ready(directive, tableType', WithoutDict, NoDictIssue, acceleration, hash, src)
    {
      assert [] + src == src;
    }

    // LZ4_prepareTable: afterwards every leftover entry is recognisably stale
    // under the parameters the caller goes on to use.
    method PrepareTable(inputSize: nat, tableType': TableType)
      requires Valid() && tableType' != ClearedTable
      requires tableType' == ByU16 ==> inputSize < LIMIT_64K
      modifies this, hashTable
      ensures Valid() && dictionary == [] && dictPlace == Null
      ensures tableType' == ByU16 && currentOffset != 0 ==> currentOffset + inputSize < 0xFFFF
      ensures tableType' == ByU32 && currentOffset != 0 ==>
                currentOffset > DISTANCE_MAX
                && forall h :: 0 <= h < hashTable.Length ==> hashTable[h] + DISTANCE_MAX < currentOffset
      ensures currentOffset == 0 ==> forall h :: 0 <= h < hashTable.Length ==> hashTable[h] == 0
      ensures currentOffset != 0 ==> tableType == tableType'
      ensures tableType == ClearedTable || tableType == tableType'
    {
      if tableType != ClearedTable {
        if tableType != tableType'
           || (tableType' == ByU16 && currentOffset + inputSize >= 0xFFFF)
           || (tableType' == ByU32 && currentOffset > 0x4000_0000)
           || inputSize >= 4096 {
          forall h | 0 <= h < hashTable.Length { hashTable[h] := 0; }
          currentOffset := 0;
          tableType := ClearedTable;
        }
      }
      if currentOffset != 0 && tableType' == ByU32 {
        currentOffset := currentOffset + 65536;
      }
      dictionary, dictPlace := [], Null;
    }

    // The stream can be used this way for a source.
    ghost predicate Ready(directive: OutputDirective, tableType': TableType, dict: DictMode, dictIssue: DictIssue,
                          acceleration: nat, hash: HashFn, src: seq<byte>)
      reads this, hashTable
    {
      var c := Config(directive, tableType', dict, dictIssue, currentOffset, |dictionary|, acceleration);
      ConfigOk(c, |dictionary + src|) && TableOk(hashTable[..], c, hash, dictionary + src, |dictionary| + 1)
    }

    // LZ4_compress_generic, with the dictionary of the stream: the empty input,
    // then the validated compressor, then the bookkeeping of the stream.
    method CompressGeneric(src: seq<byte>, dst: array<byte>, directive: OutputDirective, tableType': TableType,
                           dict: DictMode, dictIssue: DictIssue, acceleration: nat, hash: HashFn)
      returns (result: nat, consumed: nat)
      requires Valid() && hashTable as object != dst && HashInto(hash, TABLE_SIZE)
      requires src != [] ==> Ready(directive, tableType', dict, dictIssue, acceleration, hash, src)
      requires directive == NotLimited ==> dst.Length >= Bound(|src|)
      modifies `currentOffset, `tableType, hashTable, dst
      ensures Valid() && (src == [] ==> currentOffset == old(currentOffset))
      ensures src != [] && |src| <= MAX_INPUT_SIZE ==> currentOffset == old(currentOffset) + |src|
      ensures result <= dst.Length && consumed <= |src|
      ensures result > 0 ==> BlockOf(dst[..result], dictionary, src[..consumed])
      ensures result > 0 && directive != FillOutput ==> consumed == |src|
      ensures directive != FillOutput && |src| <= MAX_INPUT_SIZE && dst.Length >= Bound(|src|) ==>
                0 < result <= Bound(|src|)
      ensures result > 0 ==> result <= CompressBound(consumed)
      ensures result > 0 && consumed < |src| ==> result >= dst.Length - 1
      ensures directive != FillOutput && |src| <= MAX_INPUT_SIZE ==> RunsShrink(src, dst.Length, result)
      ensures tableType == old(tableType) || tableType == tableType'
      ensures directive == FillOutput && |src| <= MAX_INPUT_SIZE && dst.Length > 0 ==> result > 0
      ensures |src| > MAX_INPUT_SIZE ==> result == 0 && consumed == 0
    {
      hide BlockOf, TableOk, IsRun;
      if |src| > MAX_INPUT_SIZE { return 0, 0; }
      RunIsLong(src, 0);
      if |src| == 0 {
        if directive != NotLimited && dst.Length == 0 { return 0, 0; }
        dst[0] := 0;
        EmptyBlock(dictionary);
        assert dst[..1] == [0];
        return 1, 0;
      }
      var c := Config(directive, tableType', dict, dictIssue, currentOffset, |dictionary|, acceleration);
      ghost var text := dictionary + src;
      result, consumed := CompressValidated(hashTable, c, hash, dictionary + src, dst);
      RunBehind(dictionary, src);
      assert text[..|dictionary|] == dictionary && text[|dictionary|..|dictionary| + consumed] == src[..consumed];
      currentOffset := currentOffset + |src|;
      tableType := tableType';
      TableBelow(hashTable[..], c, hash, text);
      assert forall h :: 0 <= h < hashTable.Length ==> hashTable[h] == hashTable[..][h];
    }

    // LZ4_compress_fast_extState_fastReset
    method CompressFastReset(src: seq<byte>, dst: array<byte>, acceleration: int, hash16: HashFn, hash32: HashFn)
      returns (result: nat)
      requires Valid() && hashTable as object != dst && HashInto(hash16, TABLE_SIZE) && HashInto(hash32, TABLE_SIZE)
      modifies this, hashTable, dst
      ensures Valid() && dictionary == []
      ensures result <= dst.Length
      ensures result > 0 ==> BlockOf(dst[..result], [], src)
      ensures |src| <= MAX_INPUT_SIZE && dst.Length >= Bound(|src|) ==> 0 < result <= Bound(|src|)
      ensures |src| <= MAX_INPUT_SIZE ==> RunsShrink(src, dst.Length, result)
    {
      hide BlockOf, HashInto, IsRun, RunBound;
      var directive := if dst.Length >= Bound(|src|) then NotLimited else LimitedOutput;
      var accel := ClampAcceleration(acceleration);
      var consumed;
      assert [] + src == src;
      if |src| < LIMIT_64K {
        PrepareTable(|src|, ByU16);
        var issue := if currentOffset != 0 then DictSmall else NoDictIssue;
        result, consumed := CompressGeneric(src, dst, directive, ByU16, WithoutDict, issue, accel, hash16);
      } else {
        PrepareTable(|src|, ByU32);
        result, consumed := CompressGeneric(src, dst, directive, ByU32, WithoutDict, NoDictIssue, accel, hash32);
      }
      assert src[..|src|] == src;
    }

    // LZ4_resetStream_fast
    method ResetFast()
      requires Valid()
      modifies this, hashTable
      ensures Valid() && dictionary == [] && dictPlace == Null && tableType != ByU16
    {
      PrepareTable(0, ByU32);
    }

    // LZ4_renormDictT: before the indexes overflow, they are rescaled so that
    // the dictionary, cut to 64 KB, ends at 64 KB.
    method RenormDict(nextSize: nat)
      requires Valid() && nextSize <= MAX_INPUT_SIZE
      modifies `currentOffset, `dictionary, `dictPlace, hashTable
      ensures Valid() && EndsWith(old(dictionary), dictionary)
      ensures dictPlace.Plus(|dictionary|) == old(dictPlace).Plus(|old(dictionary)|)
      ensures old(dictionary) == [] ==> dictionary == []
    {
      if currentOffset + nextSize > 0x8000_0000 {
        var delta := currentOffset - 65536;
        forall i | 0 <= i < hashTable.Length {
          hashTable[i] := if hashTable[i] < delta then 0 else hashTable[i] - delta;
        }
        currentOffset := 65536;
        CutDict(65536);
      }
    }

    // After the dictionary only indexes of the stream are left in the table.
    lemma ReadyToContinue(dict: DictMode, acceleration: nat, hash: HashFn, src: seq<byte>)
      requires Valid() && acceleration >= 1 && dict != WithoutDict
      requires dict == UsingExtDict ==> |dictionary| == 0 || |dictionary| >= 4
      ensures Ready(LimitedOutput, ByU32, dict, Issue(), acceleration, hash, src)
    {
    }

    // The dictionary is small if an index within reach may lie in front of it.
    function Issue(): DictIssue
      reads this
    {
      if |dictionary| < 65536 && |dictionary| < currentOffset then DictSmall else NoDictIssue
    }

    // What is left of the dictionary for a source: a tiny one is given up
    // unless the source follows it, and one the source overlaps is cut to what
    // lies behind the source.  Yields where the dictionary ends.
    method ChooseDict(src: seq<byte>, at: Place) returns (dictEnd: Place)
      requires Valid() && at.Place?
      modifies `dictionary, `dictPlace
      ensures Valid() && EndsWith(old(dictionary), dictionary)
      ensures dictEnd == at ==> dictPlace.Plus(|dictionary|) == at
      ensures dictEnd == at && dictionary != [] ==> old(dictPlace).Plus(|old(dictionary)|) == at
      ensures dictEnd != at && src != [] ==> |dictionary| == 0 || |dictionary| >= 4
    {
      dictEnd := if dictionary != [] then dictPlace.Plus(|dictionary|) else Null;
      if |dictionary| < 4 && dictEnd != at && src != [] {
        dictionary, dictPlace := [], at;
        dictEnd := at;
      }
      if dictEnd.Place? && dictPlace.Place? && dictEnd.space == at.space {
        var sourceEnd := at.at + |src|;
        if dictPlace.at < sourceEnd < dictEnd.at {
          var dictSize := dictEnd.at - sourceEnd;
          if dictSize > 65536 { dictSize := 65536; }
          if dictSize < 4 { dictSize := 0; }
          CutDict(dictSize);
        }
      }
    }

    // Prefix mode: the source becomes part of the dictionary.
    method Extend(src: seq<byte>)
      requires Valid() && |dictionary| + |src| <= currentOffset
      modifies `dictionary
      ensures Valid() && dictionary == old(dictionary) + src
    {
      dictionary := dictionary + src;
    }

    // External dictionary mode: the source is the next dictionary.
    method Replace(src: seq<byte>, at: Place)
      requires Valid() && |src| <= currentOffset
      modifies `dictionary, `dictPlace
      ensures Valid() && dictionary == src && dictPlace == at
    {
      dictionary, dictPlace := src, at;
    }

    lemma DictFits()
      requires Valid()
      ensures |dictionary| <= currentOffset
    {
    }

    // LZ4_compress_fast_continue: a block that may refer to the dictionary,
    // which in turn ends with the source afterwards.
    method CompressFastContinue(src: seq<byte>, at: Place, dst: array<byte>, acceleration: int, hash32: HashFn)
      returns (result: nat)
      requires Valid() && hashTable as object != dst && HashInto(hash32, TABLE_SIZE)
      requires tableType != ByU16 && at.Place? && |src| <= MAX_INPUT_SIZE
      modifies this, hashTable, dst
      ensures Valid() && tableType != ByU16 && result <= dst.Length
      ensures dst.Length >= Bound(|src|) ==> 0 < result <= Bound(|src|)
      ensures result > 0 ==> BlockOf(dst[..result], old(dictionary), src)
      ensures src != [] ==> Continues(old(dictionary), old(dictPlace), src, at, dictionary, dictPlace)
      ensures RunsShrink(src, dst.Length, result)
    {
      hide BlockOf, HashInto, Ready, Valid, EndsWith, Continues, IsRun, RunBound;
      ghost var d0, p0 := dictionary, dictPlace;
      RenormDict(|src|);
      ghost var d1 := dictionary;
      var accel := ClampAcceleration(acceleration);
      var dictEnd := ChooseDict(src, at);
      ghost var d := dictionary;
      EndsWithTwice(d0, d1, d);
      DictFits();
      var consumed;
      if dictEnd == at {
        ReadyToContinue(WithPrefix64k, accel, hash32, src);
        result, consumed := CompressGeneric(src, dst, LimitedOutput, ByU32, WithPrefix64k, Issue(), accel, hash32);
        Extend(src);
        ContinuesAs(d0, p0, src, at, d, dictPlace);
      } else {
        if src != [] { ReadyToContinue(UsingExtDict, accel, hash32, src); }
        result, consumed := CompressGeneric(src, dst, LimitedOutput, ByU32, UsingExtDict, Issue(), accel, hash32);
        Replace(src, at);
        ContinuesAs(d0, p0, src, at, [], at);
        assert [] + src == src;
      }
      assert src[..|src|] == src;
      if result > 0 { BlockWiden(dst[..result], d0, d, src); }
    }

    // Only the last n bytes of the dictionary stay.
    method CutDict(n: nat)
      modifies `dictionary, `dictPlace
      ensures |dictionary| == if |old(dictionary)| <= n then |old(dictionary)| else n
      ensures EndsWith(old(dictionary), dictionary)
      ensures dictPlace.Plus(|dictionary|) == old(dictPlace).Plus(|old(dictionary)|)
    {
      if |dictionary| > n {
        dictPlace := dictPlace.Plus(|dictionary| - n);
        dictionary := dictionary[|dictionary| - n..];
      }
    }
  }

  lemma TableBelow(table: seq<nat>, c: Config, hash: HashFn, src: seq<byte>)
    requires TableOk(table, c, hash, src, |src|) && ConfigOk(c, |src|)
    ensures forall h :: 0 <= h < |table| ==> table[h] == 0 || table[h] + MFLIMIT <= c.Base() + |src|
  {
    forall h | 0 <= h < |table| ensures table[h] == 0 || table[h] + MFLIMIT <= c.Base() + |src| {
      assert Entry(c, hash, src, h, table[h], |src|);
    }
  }

  // LZ4_compress_fast
  method CompressFast(src: seq<byte>, dst: array<byte>, acceleration: int, hash16: HashFn, hash32: HashFn)
    returns (result: nat)
    requires HashInto(hash16, TABLE_SIZE) && HashInto(hash32, TABLE_SIZE)
    modifies dst
    ensures result <= dst.Length
    ensures result > 0 ==> StrictBlock(dst[..result], src)
    ensures result > 0 ==> result <= CompressBound(|src|)
    ensures |src| <= MAX_INPUT_SIZE && dst.Length >= Bound(|src|) ==> 0 < result <= Bound(|src|)
    ensures |src| > 0x7E000000 ==> result == 0
    ensures |src| <= 0x7E000000 && dst.Length >= |src| + |src| / 255 + 16 ==> result > 0
    ensures src == [] && result > 0 ==> dst[..result] == [0]
    ensures |src| <= MAX_INPUT_SIZE ==> RunsShrink(src, dst.Length, result)
  {
    hide StrictBlock, BlockOf, HashInto, Stream.Ready, Stream.Valid, IsRun, RunBound;
    var s := new Stream();
    var directive := if dst.Length >= Bound(|src|) then NotLimited else LimitedOutput;
    var accel := ClampAcceleration(acceleration);
    var consumed;
    if |src| < LIMIT_64K {
      s.Unused(directive, ByU16, accel, hash16, src);
      result, consumed := s.CompressGeneric(src, dst, directive, ByU16, WithoutDict, NoDictIssue, accel, hash16);
    } else {
      s.Unused(directive, ByU32, accel, hash32, src);
      result, consumed := s.CompressGeneric(src, dst, directive, ByU32, WithoutDict, NoDictIssue, accel, hash32);
    }
    assert src[..|src|] == src;
    if result > 0 { PlainBlock(dst[..result], src); }
  }

  // LZ4_compress_destSize: as much of the source as fits the target.
  method CompressDestSize(src: seq<byte>, dst: array<byte>, hash16: HashFn, hash32: HashFn)
    returns (result: nat, consumed: nat)
    requires HashInto(hash16, TABLE_SIZE) && HashInto(hash32, TABLE_SIZE)
    modifies dst
    ensures result <= dst.Length && consumed <= |src|
    ensures result > 0 ==> StrictBlock(dst[..result], src[..consumed])
    ensures result > 0 && consumed == 0 ==> dst[..result] == [0]
    ensures result > 0 <==> |src| <= 0x7E000000 && dst.Length > 0
    ensures |src| <= MAX_INPUT_SIZE && dst.Length >= Bound(|src|) ==> consumed == |src|
    // the target is filled, but for one byte, and no larger than it has to be
    ensures result > 0 && consumed < |src| ==> dst.Length - 1 <= result
    ensures result > 0 ==> result <= CompressBound(consumed)
  {
    hide StrictBlock, BlockOf, HashInto, Stream.Ready, Stream.Valid;
    if dst.Length >= Bound(|src|) {
      result := CompressFast(src, dst, 1, hash16, hash32);
      consumed := |src|;
      assert src[..|src|] == src;
      return;
    }
    var s := new Stream();
    if |src| < LIMIT_64K {
      s.Unused(FillOutput, ByU16, 1, hash16, src);
      result, consumed := s.CompressGeneric(src, dst, FillOutput, ByU16, WithoutDict, NoDictIssue, 1, hash16);
    } else {
      s.Unused(FillOutput, ByU32, 1, hash32, src);
      result, consumed := s.CompressGeneric(src, dst, FillOutput, ByU32, WithoutDict, NoDictIssue, 1, hash32);
    }
    if result > 0 { PlainBlock(dst[..result], src[..consumed]); }
  }
}
