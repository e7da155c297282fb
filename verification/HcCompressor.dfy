// LZ4HC_compress_hashChain: the machine that weighs up to three overlapping
// matches before it writes a sequence.
module HcCompressor {
  import opened BlockFormat
  import opened Emit
  import opened HcMatchFinder

  const OPTIMAL_ML := 18

  // ---------------------------------------------------------------------
  // Writing one sequence
  // ---------------------------------------------------------------------

  // A match at p that may be written as a sequence.
  ghost predicate Fits(src: seq<byte>, p: nat, len: nat, off: nat) {
    && len >= MINMATCH && 0 < off <= DISTANCE_MAX && MatchRange(src, p, p + len, off)
    && p + MFLIMIT <= |src| && p + len + LASTLITERALS <= |src|
  }

  lemma LongLengthTwice(n: nat)
    requires n >= 510
    ensures LongLength(n) == [255, 255] + LongLength(n - 510)
  {
    assert LongLength(n) == [255] + LongLength(n - 255);
    assert LongLength(n - 255) == [255] + LongLength(n - 510);
  }

  // Two bytes of 255 at a time.
  method PutLongLengthBy2(dst: array<byte>, op0: nat, len: nat) returns (op: nat)
    requires op0 + len / 255 + 1 <= dst.Length
    modifies dst
    ensures op == op0 + len / 255 + 1
    ensures dst[..op] == old(dst[..op0]) + LongLength(len)
  {
    hide LongLength;
    op := op0;
    var rest := len;
    ghost var text := dst[..op0];
    while rest >= 510
      invariant 0 <= rest && op + rest / 255 == op0 + len / 255 && op0 <= op
      invariant dst[..op] + LongLength(rest) == text + LongLength(len)
    {
      LongLengthTwice(rest);
      ghost var before := dst[..op];
      dst[op], dst[op + 1] := 255, 255;
      assert dst[..op + 2] == before + [255, 255];
      assert before + [255, 255] + LongLength(rest - 510) == before + ([255, 255] + LongLength(rest - 510));
      op, rest := op + 2, rest - 510;
    }
    op := PutLongLength(dst, op, rest);
  }

  method PutMatchLengthBy2(dst: array<byte>, token: nat, op0: nat, mlCode: nat) returns (op: nat)
    requires token < op0 && op0 + |Extension(mlCode)| <= dst.Length
    requires dst[token] + Nibble(mlCode) < 256
    modifies dst
    ensures op == op0 + |Extension(mlCode)|
    ensures dst[..op] == old(dst[..op0])[token := old(dst[token]) + Nibble(mlCode)] + Extension(mlCode)
  {
    hide LongLength;
    if mlCode >= ML_MASK {
      dst[token] := dst[token] + ML_MASK;
      op := PutLongLengthBy2(dst, op0, mlCode - ML_MASK);
    } else {
      dst[token] := dst[token] + mlCode;
      op := op0;
    }
  }

  // What the limits ask for at most.
  function Reach(litLen: nat, matchLength: nat): nat {
    10 + litLen + litLen / 255 + matchLength / 255
  }

  lemma ReachIs(litLen: nat, matchLength: nat)
    ensures Reach(litLen, matchLength) >= 9 + litLen + litLen / 255
    ensures matchLength >= MINMATCH ==>
              Reach(litLen, matchLength) >= 10 + litLen + litLen / 255 + (matchLength - MINMATCH) / 255
  {
  }

  // LZ4HC_encodeSequence: refuses when the output limit would be passed.
  method EncodeOne(limited: bool, src: seq<byte>, ghost start: nat, dst: array<byte>, ghost ss0: seq<Sequence>,
                   anchor: nat, ip: nat, op0: nat, matchLength: nat, offset: nat, oend: int)
    returns (err: bool, op: nat, ghost ss: seq<Sequence>)
    requires op0 <= dst.Length && Emitted(src, start, dst[..op0], ss0, anchor) && anchor <= ip
    requires Fits(src, ip, matchLength, offset)
    requires limited ==> oend <= dst.Length
    requires !limited ==> op0 + LiteralReach(ip - anchor) <= dst.Length
    requires !limited ==> op0 + |EncodeSequence(Sequence(src[anchor..ip], offset, matchLength))| <= dst.Length
    modifies dst
    ensures err ==> limited && dst[..op0] == old(dst[..op0]) && op0 + Reach(ip - anchor, matchLength) > oend
    ensures !err ==>
              && op == op0 + |EncodeSequence(Sequence(src[anchor..ip], offset, matchLength))| <= dst.Length
              && ss == ss0 + [Sequence(src[anchor..ip], offset, matchLength)]
              && Emitted(src, start, dst[..op], ss, ip + matchLength)
              && (limited ==> op + LASTLITERALS <= oend)
  {
    hide MatchRange, LiteralPart, EncodeAll, Parsed, EncodeSequence, Extension, Nibble, Reach;
    ss, op, err := ss0, op0, false;
    var token := op0;
    var litLen := ip - anchor;
    ReachIs(litLen, matchLength);
    ghost var s := Sequence(src[anchor..ip], offset, matchLength);
    EncodeSequenceSize(s);
    ExtensionSize(litLen);
    ExtensionSize(matchLength - MINMATCH);
    LiteralPartSplit([], src[anchor..ip]);
    if limited && op + 1 + litLen / 255 + litLen + (2 + 1 + LASTLITERALS) > oend { err := true; return; }
    op := PutLiterals(dst, token, src, anchor, ip);
    ghost var text0 := dst[..op];
    dst[op], dst[op + 1] := offset % 256, offset / 256;
    op := op + 2;
    var mlCode := matchLength - MINMATCH;
    if limited && op + mlCode / 255 + (1 + LASTLITERALS) > oend {
      assert dst[..op0] == text0[..op0];
      err := true;
      return;
    }
    AssembleSequence(src, start, text0, dst[..op], ss0, anchor, token, ip, offset, mlCode);
    op := PutMatchLengthBy2(dst, token, op, mlCode);
    ss := ss0 + [s];
  }

  // ---------------------------------------------------------------------
  // The registers of the machine
  // ---------------------------------------------------------------------

  // A match at a position.
  datatype Placed = Placed(pos: nat, len: nat, off: nat) {
    function End(): nat { pos + len }

    ghost predicate Ok(src: seq<byte>) { Fits(src, pos, len, off) }

    // The same match without its first `correction` bytes.
    function Shift(correction: nat): (r: Placed)
      ensures correction <= len ==> r.End() == End()
    {
      if correction <= len then Placed(pos + correction, len - correction, off) else Placed(pos, 0, off)
    }

    // The match found at a search position.
    static function Found(at: nat, md: HcMatch): Placed
      requires 0 <= at + md.back
    {
      Placed(at + md.back, md.len, md.off)
    }
  }

  lemma ShiftOk(src: seq<byte>, m: Placed, correction: nat)
    requires m.Ok(src) && correction + MINMATCH <= m.len && m.pos + correction + MFLIMIT <= |src|
    ensures m.Shift(correction).Ok(src)
  {
  }

  lemma TruncateOk(src: seq<byte>, m: Placed, len: nat)
    requires m.Ok(src) && MINMATCH <= len <= m.len
    ensures Placed(m.pos, len, m.off).Ok(src)
  {
  }

  // Every match kept starts and ends early enough to search past it.
  predicate EndsEarly(src: seq<byte>, m: Placed) {
    m.End() + MFLIMIT <= |src|
  }

  // At _Search2: m1 is the match to beat; m0 is the one it replaced, which
  // starts at most two bytes earlier.
  ghost predicate AtSearch2(src: seq<byte>, anchor: nat, filed: int, m0: Placed, m1: Placed) {
    && m1.Ok(src) && m0.Ok(src) && anchor <= m0.pos <= m1.pos <= m0.pos + 2
    && (m0 == m1 || EndsEarly(src, m0)) && (m0.pos < m1.pos ==> m1.len >= 5)
    && filed + 2 <= m1.End()
  }

  // At _Search3: two matches, close enough to each other that m1 can be cut
  // at m2 and m2 can give way to m1, each keeping at least four bytes.
  ghost predicate AtSearch3(src: seq<byte>, anchor: nat, filed: int, m1: Placed, m2: Placed) {
    && m1.Ok(src) && m2.Ok(src) && anchor <= m1.pos <= m2.pos && EndsEarly(src, m1)
    && (m2.pos >= m1.pos + 4 || (m2.pos - m1.pos) + m2.len >= 8)
    && m2.pos <= m1.End() + 1 && (m2.pos == m1.End() + 1 ==> m2.len >= 6)
    && filed + 3 <= m2.End()
  }

  lemma FoundOk(src: seq<byte>, at: nat, iLow: nat, longest: nat, best: HcMatch)
    requires at + MFLIMIT <= |src|
    requires BestOk(src, at, iLow, |src| - LASTLITERALS, longest, best) && best.len > longest
    ensures iLow <= at + best.back <= at && Placed.Found(at, best).Ok(src)
    ensures at + MINMATCH <= Placed.Found(at, best).End()
  {
  }

  // ---------------------------------------------------------------------
  // The decisions between searches
  // ---------------------------------------------------------------------

  datatype Decision =
    | Write1                             // m1 alone, then on
    | Write2(w1: Placed, w2: Placed)     // both, then on
    | Again2(a0: Placed, a1: Placed)
    | Again3(b1: Placed, b2: Placed)
    | Write1Then2(c1: Placed, c0: Placed, c2: Placed)   // write c1, go to _Search2 with c0 and c2
    | Write1Then3(d1: Placed, d2: Placed, d3: Placed)   // write d1, go to _Search3 with d2 and d3

  // After the search of _Search2.
  function Decide2(m0: Placed, m1: Placed, m2: Placed): Decision {
    if m2.len <= m1.len then Write1
    else
      var restored := if m0.pos < m1.pos && m2.pos < m1.pos + m0.len then m0 else m1;
      if m2.pos - restored.pos < 3 then Again2(m0, m2) else Again3(restored, m2)
  }

  function Min(a: int, b: int): int { if a < b then a else b }

  // The overlap of m1 and m2 is settled in favour of m1 up to 18 bytes, as
  // long as m2 keeps four.
  function NewLength(m1: Placed, m2: Placed): int {
    Min(Min(m1.len, OPTIMAL_ML), m2.pos - m1.pos + m2.len - MINMATCH)
  }

  // At the top of _Search3.
  function Correct(m1: Placed, m2: Placed): Placed {
    if m2.pos - m1.pos < OPTIMAL_ML then
      var correction := NewLength(m1, m2) - (m2.pos - m1.pos);
      if correction > 0 then m2.Shift(correction) else m2
    else m2
  }

  function Cut(m1: Placed, end: int): Placed {
    if end < m1.pos + m1.len && end >= m1.pos then Placed(m1.pos, end - m1.pos, m1.off) else m1
  }

  // After the search of _Search3; m2 is already corrected.
  function Decide3(m1: Placed, m2: Placed, m3: Placed): Decision {
    if m3.len <= m2.len then Write2(Cut(m1, m2.pos), m2)
    else if m3.pos < m1.End() + 3 then
      if m3.pos >= m1.End() then
        var kept := if m2.pos < m1.End() then m2.Shift(m1.End() - m2.pos) else m2;
        Write1Then2(m1, if kept.len < MINMATCH then m3 else kept, m3)
      else Again3(m1, m3)
    else if m2.pos < m1.End() then
      if m2.pos - m1.pos < OPTIMAL_ML then
        var len := NewLength(m1, m2);
        var correction := len - (m2.pos - m1.pos);
        var first := if len >= 0 then Placed(m1.pos, len, m1.off) else m1;
        Write1Then3(first, if correction > 0 then m2.Shift(correction) else m2, m3)
      else Write1Then3(Cut(m1, m2.pos), m2, m3)
    else Write1Then3(m1, m2, m3)
  }

  // Whatever is decided keeps the invariants: every match written starts at
  // or after the previous end and has at least four bytes.
  lemma Decide2Ok(src: seq<byte>, anchor: nat, filed: int, m0: Placed, m1: Placed, m2: Placed)
    requires AtSearch2(src, anchor, filed, m0, m1)
    requires m2.len > m1.len ==>
               && EndsEarly(src, m1) && m2.Ok(src) && m1.pos <= m2.pos <= m1.End() - 2
               && m1.End() + 2 <= m2.End()
    ensures Decide2(m0, m1, m2).Again2? ==>
              && AtSearch2(src, anchor, m1.End() - 2, Decide2(m0, m1, m2).a0, Decide2(m0, m1, m2).a1)
              && Decide2(m0, m1, m2).a1.len > m1.len
    ensures Decide2(m0, m1, m2).Again3? ==>
              AtSearch3(src, anchor, m1.End() - 2, Decide2(m0, m1, m2).b1, Decide2(m0, m1, m2).b2)
    ensures Decide2(m0, m1, m2).Write1? || Decide2(m0, m1, m2).Again2? || Decide2(m0, m1, m2).Again3?
  {
    hide MatchRange;
  }

  lemma CorrectOk(src: seq<byte>, anchor: nat, filed: int, m1: Placed, m2: Placed)
    requires AtSearch3(src, anchor, filed, m1, m2)
    ensures var c := Correct(m1, m2);
            && AtSearch3(src, anchor, filed, m1, c) && c.End() == m2.End() && c.pos >= m1.pos + 4
  {
    var correction := NewLength(m1, m2) - (m2.pos - m1.pos);
    if m2.pos - m1.pos < OPTIMAL_ML && correction > 0 { ShiftOk(src, m2, correction); }
  }

  lemma Decide3Ok(src: seq<byte>, anchor: nat, filed: int, m1: Placed, m2: Placed, m3: Placed)
    requires AtSearch3(src, anchor, filed, m1, m2) && m2.pos >= m1.pos + 4
    requires m3.len > m2.len ==>
               && EndsEarly(src, m2) && m3.Ok(src) && m2.pos <= m3.pos <= m2.End() - 3
               && m2.End() + 1 <= m3.End()
    ensures !Decide3(m1, m2, m3).Write2? ==> m3.len > m2.len
    ensures match Decide3(m1, m2, m3)
            case Write2(w1, w2) => w1.Ok(src) && w1.pos == m1.pos && w2 == m2 && w1.End() <= w2.pos
            case Write1Then2(c1, c0, c2) => c1 == m1 && AtSearch2(src, c1.End(), m2.End() - 3, c0, c2)
            case Write1Then3(d1, d2, d3) =>
              d1.Ok(src) && d1.pos == m1.pos && AtSearch3(src, d1.End(), m2.End() - 3, d2, d3)
            case Again3(b1, b2) =>
              b1 == m1 && b2 == m3 && AtSearch3(src, anchor, m2.End() - 3, b1, b2) && b2.End() > m2.End()
            case _ => false
  {
    hide Fits;
    OkBounds(src, m1);
    OkBounds(src, m2);
    var gap := m2.pos - m1.pos;
    if m3.len <= m2.len {
      if gap < m1.len { TruncateOk(src, m1, gap); }
    } else {
      OkBounds(src, m3);
      var len := NewLength(m1, m2);
      if m3.pos >= m1.End() && m2.pos < m1.End() && m1.End() + MINMATCH <= m2.End() {
        ShiftOk(src, m2, m1.End() - m2.pos);
      }
      if m3.pos >= m1.End() + 3 && m2.pos < m1.End() {
        TruncateOk(src, m1, if gap < OPTIMAL_ML then len else gap);
        if gap < OPTIMAL_ML && len > gap { ShiftOk(src, m2, len - gap); }
      }
    }
  }

  // ---------------------------------------------------------------------
  // The machine
  // ---------------------------------------------------------------------

  // Search near the end of m, from `shift` bytes before it, for a longer match
  // starting no earlier than m.
  method SearchPast(ctx: Context, hash: Hash4, src: seq<byte>, m: Placed, shift: nat, maxNbAttempts: nat)
    returns (found: Placed)
    requires ctx.Valid(hash, src) && m.Ok(src) && 2 <= shift <= 3 && ctx.Filed() + shift <= m.End()
    modifies ctx`nextToUpdate, ctx.hashTable, ctx.chainTable
    ensures ctx.Valid(hash, src) && ctx.Filed() + shift <= m.End()
    ensures found.len > m.len ==>
              && EndsEarly(src, m) && found.Ok(src) && m.pos <= found.pos <= m.End() - shift
              && m.End() + 4 - shift <= found.End() && ctx.Filed() == m.End() - shift
    ensures m.End() + MFLIMIT > |src| ==> found.len <= m.len
  {
    hide BestOk, MatchRange;
    found := Placed(0, 0, 0);
    if m.End() <= |src| - MFLIMIT {
      var at := m.End() - shift;
      var best, left := InsertAndGetWiderMatch(ctx, hash, src, at, m.pos, |src| - LASTLITERALS, m.len, maxNbAttempts,
                                               maxNbAttempts > 128, false, false);
      if best.len > m.len {
        FoundOk(src, at, m.pos, m.len, best);
        found := Placed.Found(at, best);
      }
    }
  }

  // A match that is written takes what its encoding takes; one that is not does
  // not fit, under the policy that says so.
  ghost predicate Wrote(d: OutputDirective, src: seq<byte>, cap: nat, err: bool, anchor: nat, op0: nat, m: Placed,
                        op: nat)
  {
    && anchor <= m.pos <= |src|
    && (if err then d == FillOutput || op0 + Reach(m.pos - anchor, m.len) > cap
        else
          m.len >= MINMATCH
          && op == op0 + 3 + (m.pos - anchor) + |Extension(m.pos - anchor)| + |Extension(m.len - MINMATCH)|)
  }

  // Write one match, or report that the output limit is hit.
  method WriteMatch(d: OutputDirective, src: seq<byte>, ghost start: nat, dst: array<byte>, ghost ss0: seq<Sequence>,
                    anchor: nat, op0: nat, m: Placed)
    returns (err: bool, op: nat, ghost ss: seq<Sequence>)
    requires SequencesDone(d, src, start, dst, ss0, anchor, op0) && m.Ok(src) && anchor <= m.pos
    modifies dst
    ensures err ==> d != NotLimited && op == op0 && ss == ss0 && SequencesDone(d, src, start, dst, ss0, anchor, op0)
    ensures !err ==> SequencesDone(d, src, start, dst, ss, m.End(), op)
    ensures Wrote(d, src, dst.Length, err, anchor, op0, m, op)
  {
    hide MatchRange, EncodeSequence, Emitted, Room, Extension, Reach, LiteralReach;
    var oend := if d == FillOutput then dst.Length - LASTLITERALS else dst.Length;
    RoomForMatch(d, src, start, dst.Length, ss0, anchor, op0, m);
    err, op, ss := EncodeOne(d != NotLimited, src, start, dst, ss0, anchor, m.pos, op0, m.len, m.off, oend);
    if err { op, ss := op0, ss0; return; }
    EncodeSequenceSize(Sequence(src[anchor..m.pos], m.off, m.len));
    RoomExtend(d, src, dst.Length, ss0, start, anchor, op0, m.pos, m.off, m.len, op);
  }

  lemma RoomForMatch(d: OutputDirective, src: seq<byte>, start: nat, cap: nat, ss: seq<Sequence>, anchor: nat, op: nat,
                     m: Placed)
    requires Room(d, |src|, cap, ss, start, anchor, op) && m.Ok(src) && anchor <= m.pos
    ensures m.End() <= |src| && 0 < m.off <= DISTANCE_MAX && m.len >= MINMATCH
    ensures d == NotLimited ==>
              && op + LiteralReach(m.pos - anchor) <= cap
              && op + |EncodeSequence(Sequence(src[anchor..m.pos], m.off, m.len))| <= cap
  {
    hide EncodeSequence, Extension, MatchRange;
    if d == NotLimited { BudgetRoom(src, cap, start, anchor, op, m.pos, m.off, m.len); }
  }

  // The fill policy's answer to a full buffer: a last, possibly shortened,
  // sequence if the end-of-block conditions can still be met after it.
  method WriteLastSequence(src: seq<byte>, ghost start: nat, dst: array<byte>, ghost ss0: seq<Sequence>, anchor0: nat,
                           op0: nat, m: Placed)
    returns (op: nat, anchor: nat, ghost ss: seq<Sequence>)
    requires SequencesDone(FillOutput, src, start, dst, ss0, anchor0, op0) && m.Ok(src) && anchor0 <= m.pos
    modifies dst
    ensures SequencesDone(FillOutput, src, start, dst, ss, anchor, op)
  {
    hide MatchRange, EncodeSequence, Emitted, Extension;
    op, anchor, ss := op0, anchor0, ss0;
    var oend := dst.Length - LASTLITERALS;
    var ll := m.pos - anchor;
    var llTotalCost := 1 + (ll + 240) / 255 + ll;
    var maxLitPos := oend - 3;
    if op + llTotalCost <= maxLitPos {
      var bytesLeftForMl := maxLitPos - (op + llTotalCost);
      var maxMlSize := MINMATCH + (ML_MASK - 1) + bytesLeftForMl * 255;
      var len := if m.len > maxMlSize then maxMlSize else m.len;
      if oend + LASTLITERALS - (op + llTotalCost + 2) - 1 + len >= MFLIMIT {
        TruncateOk(src, m, len);
        EncodeSequenceSize(Sequence(src[anchor..m.pos], m.off, len));
        ExtensionSize(ll);
        ExtensionSize(len - MINMATCH);
        var err;
        err, op, ss := EncodeOne(false, src, start, dst, ss0, anchor, m.pos, op, len, m.off, oend);
        anchor := m.pos + len;
        RoomExtend(FillOutput, src, dst.Length, ss0, start, anchor0, op0, m.pos, m.off, len, op);
      }
    }
  }

  // The match in a source that is one byte over and over.
  function RunMatch(src: seq<byte>): Placed {
    Placed(1, if |src| >= 6 then |src| - 6 else 0, 1)
  }

  // Nothing precedes the first byte; from the second one the whole run is found.
  lemma RunBest(hash: Hash4, src: seq<byte>, ip: nat, longest0: nat, best: HcMatch)
    requires IsRun(src, 0) && ip <= 1 && BestOk(src, ip, ip, |src| - LASTLITERALS, longest0, best)
    requires NearestTried(hash, src, ip, ip, |src| - LASTLITERALS, best.len)
    ensures ip == 0 ==> best.len == longest0
    ensures ip == 1 && longest0 < |src| - 6 ==> best == HcMatch(1, |src| - 6, 0)
  {
    if ip == 1 {
      assert src[1..5] == src[0..4];
      var h := HashPtr(hash, src, 1);
      assert HasHash(hash, src, 0, h);
      assert LastBefore(hash, src, h, 1) == 0;
      assert MatchRange(src, 1, |src| - LASTLITERALS, 1);
      assert WideMatch(src, 1, 1, |src| - LASTLITERALS, 1, 1, |src| - LASTLITERALS);
    }
  }

  // Where the machine stands, with the matches it holds there.
  datatype State =
    | Main(ip: nat)
    | Search2(m0: Placed, m1: Placed)
    | Search3(n1: Placed, n2: Placed)
    | Overflow(m: Placed)
    | LastLiterals

  ghost predicate StateOk(src: seq<byte>, anchor: nat, filed: int, s: State) {
    match s
    case Main(ip) => anchor <= ip && filed <= ip && |src| >= MFLIMIT + 1
    case Search2(m0, m1) => AtSearch2(src, anchor, filed, m0, m1)
    case Search3(n1, n2) => AtSearch3(src, anchor, filed, n1, n2)
    case Overflow(m) => m.Ok(src) && anchor <= m.pos
    case LastLiterals => true
  }

  // Between two writes the machine goes from the main loop through _Search2
  // to _Search3, and in each of these the end of the last match grows.
  function Rank(s: State): nat {
    match s case Main(_) => 3 case Search2(_, _) => 2 case Search3(_, _) => 1 case _ => 0
  }

  function Reached(s: State): nat {
    match s
    case Main(ip) => ip
    case Search2(_, m1) => m1.len
    case Search3(_, n2) => n2.End()
    case _ => 0
  }

  function Ahead(n: nat, s: State): nat {
    if Reached(s) < n then n - Reached(s) else 0
  }

  ghost predicate Advances(n: nat, anchor: nat, s: State, anchor': nat, s': State) {
    || anchor' > anchor
    || (anchor' == anchor && (Rank(s') < Rank(s) || (Rank(s') == Rank(s) && Ahead(n, s') < Ahead(n, s))))
  }

  lemma OkBounds(src: seq<byte>, m: Placed)
    requires m.Ok(src)
    ensures m.len >= MINMATCH && m.End() + LASTLITERALS <= |src| && |src| >= MFLIMIT + 1
  {
  }

  // Write a match and go on in state `next`, or to the overflow.
  method WriteThen(d: OutputDirective, src: seq<byte>, ghost start: nat, dst: array<byte>, ghost ss0: seq<Sequence>,
                   anchor0: nat, op0: nat, m: Placed, next: State, ghost filed: int)
    returns (s: State, anchor: nat, op: nat, ghost ss: seq<Sequence>)
    requires SequencesDone(d, src, start, dst, ss0, anchor0, op0) && m.Ok(src) && anchor0 <= m.pos
    requires StateOk(src, m.End(), filed, next)
    modifies dst
    ensures SequencesDone(d, src, start, dst, ss, anchor, op) && StateOk(src, anchor, filed, s)
    ensures (s == Overflow(m) && d != NotLimited && anchor == anchor0) || (s == next && anchor == m.End() > anchor0)
    ensures Wrote(d, src, dst.Length, anchor == anchor0, anchor0, op0, m, op)
  {
    hide SequencesDone, AtSearch2, AtSearch3, Fits, Wrote;
    OkBounds(src, m);
    anchor := anchor0;
    var err;
    err, op, ss := WriteMatch(d, src, start, dst, ss0, anchor0, op0, m);
    if err { s := Overflow(m); } else { s, anchor := next, m.End(); }
  }

  method Search2Step(ctx: Context, hash: Hash4, d: OutputDirective, src: seq<byte>, ghost start: nat,
                     dst: array<byte>, ghost ss0: seq<Sequence>, anchor0: nat, op0: nat, m0: Placed,
                     m1: Placed, maxNbAttempts: nat)
    returns (s: State, anchor: nat, op: nat, ghost ss: seq<Sequence>)
    requires ctx.Valid(hash, src) && ctx.hashTable as object != dst && ctx.chainTable as object != dst
    requires SequencesDone(d, src, start, dst, ss0, anchor0, op0) && StateOk(src, anchor0, ctx.Filed(), Search2(m0, m1))
    modifies dst, ctx`nextToUpdate, ctx.hashTable, ctx.chainTable
    ensures ctx.Valid(hash, src) && SequencesDone(d, src, start, dst, ss, anchor, op)
    ensures StateOk(src, anchor, ctx.Filed(), s) && (s.Overflow? ==> d != NotLimited)
    ensures Advances(|src|, anchor0, Search2(m0, m1), anchor, s)
    // a match that reaches the last literals is written
    ensures m1.End() + MFLIMIT > |src| ==>
              && Wrote(d, src, dst.Length, anchor == anchor0, anchor0, op0, m1, op)
              && (if anchor == anchor0 then s == Overflow(m1) else anchor == m1.End() && s == Main(anchor))
  {
    hide Fits, ChainOk, SequencesDone, AtSearch3, Wrote;
    OkBounds(src, m1);
    anchor, op, ss := anchor0, op0, ss0;
    ghost var filed := ctx.Filed();
    var m2 := SearchPast(ctx, hash, src, m1, 2, maxNbAttempts);
    Decide2Ok(src, anchor, filed, m0, m1, m2);
    var decision := Decide2(m0, m1, m2);
    if decision.Again2? {
      s := Search2(decision.a0, decision.a1);
    } else if decision.Again3? {
      s := Search3(decision.b1, decision.b2);
    } else {
      s, anchor, op, ss := WriteThen(d, src, start, dst, ss, anchor, op, m1, Main(m1.End()), ctx.Filed());
    }
  }

  method Search3Step(ctx: Context, hash: Hash4, d: OutputDirective, src: seq<byte>, ghost start: nat,
                     dst: array<byte>, ghost ss0: seq<Sequence>, anchor0: nat, op0: nat, m1: Placed,
                     m2: Placed, maxNbAttempts: nat)
    returns (s: State, anchor: nat, op: nat, ghost ss: seq<Sequence>)
    requires ctx.Valid(hash, src) && ctx.hashTable as object != dst && ctx.chainTable as object != dst
    requires SequencesDone(d, src, start, dst, ss0, anchor0, op0) && StateOk(src, anchor0, ctx.Filed(), Search3(m1, m2))
    modifies dst, ctx`nextToUpdate, ctx.hashTable, ctx.chainTable
    ensures ctx.Valid(hash, src) && SequencesDone(d, src, start, dst, ss, anchor, op)
    ensures StateOk(src, anchor, ctx.Filed(), s) && (s.Overflow? ==> d != NotLimited)
    ensures Advances(|src|, anchor0, Search3(m1, m2), anchor, s)
  {
    hide Fits, ChainOk, SequencesDone, AtSearch2, Decide3, Correct;
    anchor, op, ss := anchor0, op0, ss0;
    ghost var filed := ctx.Filed();
    CorrectOk(src, anchor, filed, m1, m2);
    var c := Correct(m1, m2);
    OkBounds(src, c);
    var m3 := SearchPast(ctx, hash, src, c, 3, maxNbAttempts);
    Decide3Ok(src, anchor, filed, m1, c, m3);
    match Decide3(m1, c, m3)
    case Again3(b1, b2) => s := Search3(b1, b2);
    case Write1Then2(c1, c0, c2) =>
      s, anchor, op, ss := WriteThen(d, src, start, dst, ss, anchor, op, c1, Search2(c0, c2), ctx.Filed());
    case Write1Then3(d1, d2, d3) =>
      s, anchor, op, ss := WriteThen(d, src, start, dst, ss, anchor, op, d1, Search3(d2, d3), ctx.Filed());
    case Write2(w1, w2) =>
      s, anchor, op, ss := WriteThen(d, src, start, dst, ss, anchor, op, w1, Overflow(w2), ctx.Filed());
      if s == Overflow(w2) && anchor == w1.End() {
        s, anchor, op, ss := WriteThen(d, src, start, dst, ss, anchor, op, w2, Main(w2.End()), ctx.Filed());
      }
  }

  method MainStep(ctx: Context, hash: Hash4, src: seq<byte>, ghost anchor: nat, ip: nat, maxNbAttempts: nat)
    returns (s: State)
    requires ctx.Valid(hash, src) && StateOk(src, anchor, ctx.Filed(), Main(ip))
    modifies ctx`nextToUpdate, ctx.hashTable, ctx.chainTable
    ensures ctx.Valid(hash, src) && StateOk(src, anchor, ctx.Filed(), s) && !s.Overflow?
    ensures Advances(|src|, anchor, Main(ip), anchor, s)
    ensures ip + MFLIMIT > |src| ==> s == LastLiterals
    ensures ctx.exact && maxNbAttempts > 0 && IsRun(src, 0) ==>
              && (ip == 0 ==> s == Main(1)) && (ip == 1 ==> s == Search2(RunMatch(src), RunMatch(src)))
  {
    hide BestOk, Fits, ChainOk, NearestTried, IsRun;
    if ip > |src| - MFLIMIT { return LastLiterals; }
    var best, left := InsertAndGetWiderMatch(ctx, hash, src, ip, ip, |src| - LASTLITERALS, MINMATCH - 1,
                                             maxNbAttempts, maxNbAttempts > 128, false, false);
    if ctx.exact && maxNbAttempts > 0 && ip <= 1 && IsRun(src, 0) { RunBest(hash, src, ip, MINMATCH - 1, best); }
    if best.len < MINMATCH { return Main(ip + 1); }
    FoundOk(src, ip, ip, MINMATCH - 1, best);
    var m := Placed.Found(ip, best);
    OkBounds(src, m);
    return Search2(m, m);
  }

  lemma AnchorBound(d: OutputDirective, src: seq<byte>, start: nat, dst: array<byte>, ss: seq<Sequence>, anchor: nat,
                    op: nat)
    requires SequencesDone(d, src, start, dst, ss, anchor, op)
    ensures anchor <= |src|
  {
  }

  // Having written its match, a compressor has only the last literals left.
  lemma RunWritten(d: OutputDirective, src: seq<byte>, cap: nat, err: bool, op: nat)
    requires IsRun(src, 0) && d != FillOutput && Wrote(d, src, cap, err, 0, 0, RunMatch(src), op)
    ensures RunMatch(src).End() + LASTLITERALS == |src| && |Extension(5)| == 0
    ensures if err then cap < RunBound(|src|) else op + 6 <= RunBound(|src|)
  {
    ExtensionSize(|src| - 10);
  }

  // The machine on such a source.
  ghost predicate OnRun(src: seq<byte>, cap: nat, s: State, anchor: nat, op: nat) {
    match s
    case Main(ip) =>
      || (ip <= 1 && anchor == 0 && op == 0)
      || (ip == anchor && anchor + LASTLITERALS == |src| && op + 6 <= RunBound(|src|))
    case Search2(m0, m1) => m0 == m1 == RunMatch(src) && anchor == 0 && op == 0
    case Search3(_, _) => false
    case Overflow(_) => cap < RunBound(|src|)
    case LastLiterals => anchor + LASTLITERALS == |src| && op + 6 <= RunBound(|src|)
  }

  lemma RunStarts(src: seq<byte>, cap: nat)
    requires IsRun(src, 0)
    ensures |src| >= MFLIMIT + 1 && OnRun(src, cap, Main(0), 0, 0)
  {
  }

  lemma RunAt(src: seq<byte>, cap: nat, s: State, anchor: nat, op: nat)
    requires IsRun(src, 0) && OnRun(src, cap, s, anchor, op)
    ensures s.Search2? ==> s.m1.End() + MFLIMIT > |src|
    ensures s.Main? && s.ip > 1 ==> s.ip + MFLIMIT > |src|
    ensures !s.Search3?
  {
  }

  lemma RunGoesOn(d: OutputDirective, src: seq<byte>, cap: nat, s0: State, anchor0: nat, op0: nat, s: State,
                  anchor: nat, op: nat)
    requires IsRun(src, 0) && d != FillOutput && OnRun(src, cap, s0, anchor0, op0)
    requires s0.Main? ==>
               && anchor == anchor0 && op == op0 && (s0.ip + MFLIMIT > |src| ==> s == LastLiterals)
               && (s0.ip == 0 ==> s == Main(1)) && (s0.ip == 1 ==> s == Search2(RunMatch(src), RunMatch(src)))
    requires s0.Search2? ==>
               && Wrote(d, src, cap, anchor == anchor0, anchor0, op0, s0.m1, op)
               && (if anchor == anchor0 then s == Overflow(s0.m1) else anchor == s0.m1.End() && s == Main(anchor))
    requires s0.Main? || s0.Search2?
    ensures OnRun(src, cap, s, anchor, op)
  {
    if s0.Search2? { ExtensionSize(s0.m1.len - MINMATCH); }
  }

  lemma RunEnds(src: seq<byte>, cap: nat, s: State, anchor: nat, op: nat)
    requires IsRun(src, 0) && OnRun(src, cap, s, anchor, op) && (s.Overflow? || s == LastLiterals)
    ensures s == LastLiterals ==> anchor + LASTLITERALS == |src| && op + 6 <= RunBound(|src|) && |Extension(5)| == 0
    ensures s.Overflow? ==> cap < RunBound(|src|)
  {
  }

  // One round at the label where the machine stands.
  method OneStep(ctx: Context, hash: Hash4, d: OutputDirective, src: seq<byte>, ghost start: nat, dst: array<byte>,
                 ghost ss0: seq<Sequence>, anchor0: nat, op0: nat, s0: State, maxNbAttempts: nat)
    returns (s: State, anchor: nat, op: nat, ghost ss: seq<Sequence>)
    requires ctx.Valid(hash, src) && ctx.hashTable as object != dst && ctx.chainTable as object != dst
    requires SequencesDone(d, src, start, dst, ss0, anchor0, op0) && StateOk(src, anchor0, ctx.Filed(), s0)
    requires s0.Main? || s0.Search2? || s0.Search3?
    modifies dst, ctx`nextToUpdate, ctx.hashTable, ctx.chainTable
    ensures ctx.Valid(hash, src) && SequencesDone(d, src, start, dst, ss, anchor, op)
    ensures StateOk(src, anchor, ctx.Filed(), s) && (s.Overflow? ==> d != NotLimited)
    ensures Advances(|src|, anchor0, s0, anchor, s)
    ensures ctx.exact && d != FillOutput && maxNbAttempts > 0 && IsRun(src, 0)
            && OnRun(src, dst.Length, s0, anchor0, op0) ==>
              OnRun(src, dst.Length, s, anchor, op)
  {
    hide SequencesDone, AtSearch2, AtSearch3, Fits, Context.Valid, IsRun, OnRun, Wrote, RunMatch, Advances;
    ghost var run := ctx.exact && d != FillOutput && maxNbAttempts > 0 && IsRun(src, 0)
                     && OnRun(src, dst.Length, s0, anchor0, op0);
    if run { RunAt(src, dst.Length, s0, anchor0, op0); }
    anchor, op, ss := anchor0, op0, ss0;
    if s0.Main? {
      s := MainStep(ctx, hash, src, anchor, s0.ip, maxNbAttempts);
    } else if s0.Search2? {
      s, anchor, op, ss := Search2Step(ctx, hash, d, src, start, dst, ss, anchor, op, s0.m0, s0.m1, maxNbAttempts);
    } else {
      s, anchor, op, ss := Search3Step(ctx, hash, d, src, start, dst, ss, anchor, op, s0.n1, s0.n2, maxNbAttempts);
    }
    if run { RunGoesOn(d, src, dst.Length, s0, anchor0, op0, s, anchor, op); }
  }

  // LZ4HC_compress_hashChain on a source that begins at `start`, behind the
  // external dictionary and the prefix.
  method CompressHashChain(ctx: Context, hash: Hash4, src: seq<byte>, start: nat, dst: array<byte>, d: OutputDirective,
                           maxNbAttempts: nat)
    returns (result: nat, consumed: nat)
    requires ctx.Valid(hash, src) && ctx.Filed() <= start < |src|
    requires ctx.hashTable as object != dst && ctx.chainTable as object != dst
    requires dst.Length >= 1
    requires d == NotLimited ==> dst.Length >= CompressBound(|src| - start)
    modifies dst, ctx`nextToUpdate, ctx.hashTable, ctx.chainTable
    ensures ctx.Valid(hash, src)
    ensures result <= dst.Length && start + consumed <= |src|
    ensures result > 0 ==> BlockOf(dst[..result], src[..start], src[start..start + consumed])
    ensures result > 0 && d != FillOutput ==> start + consumed == |src|
    ensures result > 0 && start + consumed < |src| ==> result >= dst.Length - 1
    ensures result == 0 ==> d == LimitedOutput
    ensures result > 0 ==> result <= CompressBound(consumed)
    ensures ctx.exact && start == 0 && d != FillOutput && maxNbAttempts > 0 ==> RunsShrink(src, dst.Length, result)
  {
    hide BlockOf, SequencesDone, AtSearch2, AtSearch3, Fits, Context.Valid, IsRun, OnRun, Wrote, RunMatch, Extension;
    result, consumed := 0, 0;
    var anchor: nat, op: nat := start, 0;
    ghost var ss: seq<Sequence> := [];
    NothingDone(d, src, start, dst);
    var s := if |src| - start < MFLIMIT + 1 then LastLiterals else Main(start);
    ghost var run := ctx.exact && start == 0 && d != FillOutput && maxNbAttempts > 0 && IsRun(src, 0);
    if run { RunStarts(src, dst.Length); }
    while s.Main? || s.Search2? || s.Search3?
      invariant ctx.Valid(hash, src) && SequencesDone(d, src, start, dst, ss, anchor, op)
      invariant StateOk(src, anchor, ctx.Filed(), s) && (s.Overflow? ==> d != NotLimited)
      invariant anchor <= |src| && (run ==> OnRun(src, dst.Length, s, anchor, op))
      decreases |src| - anchor, Rank(s), Ahead(|src|, s)
    {
      s, anchor, op, ss := OneStep(ctx, hash, d, src, start, dst, ss, anchor, op, s, maxNbAttempts);
      AnchorBound(d, src, start, dst, ss, anchor, op);
    }
    if run { RunEnds(src, dst.Length, s, anchor, op); }
    if s.Overflow? {
      if d != FillOutput { return 0, 0; }
      op, anchor, ss := WriteLastSequence(src, start, dst, ss, anchor, op, s.m);
    }
    var ok, end, taken := LastLiteralsSegment(d, src, start, dst, ss, anchor, op);
    if !ok { return 0, 0; }
    return end, taken;
  }
}
