// How both compressors write sequences into the output array, and the
// bookkeeping that every parse shares.
module Emit {
  import opened BlockFormat
  import opened Copies

  datatype OutputDirective = NotLimited | LimitedOutput | FillOutput

  const MAX_INPUT_SIZE := 0x7E000000

  // ---------------------------------------------------------------------
  // Writing
  // ---------------------------------------------------------------------

  // Bytes of 255, then the remainder.
  method PutLongLength(dst: array<byte>, op0: nat, len0: nat) returns (op: nat)
    requires op0 + len0 / 255 + 1 <= dst.Length
    modifies dst
    ensures op == op0 + len0 / 255 + 1
    ensures dst[..op] == old(dst[..op0]) + LongLength(len0)
  {
    op := op0;
    var len := len0;
    ghost var done: seq<byte> := [];
    while len >= 255
      invariant 0 <= len && op + len / 255 + 1 == op0 + len0 / 255 + 1
      invariant dst[..op] == old(dst[..op0]) + done
      invariant done + LongLength(len) == LongLength(len0)
    {
      dst[op] := 255;
      assert done + LongLength(len) == (done + [255]) + LongLength(len - 255);
      op, len, done := op + 1, len - 255, done + [255];
    }
    dst[op] := len;
    op := op + 1;
  }

  // A token carrying a literal length, and the rest of that length.
  method PutToken(dst: array<byte>, token: nat, length: nat) returns (op: nat)
    requires token + 1 + |Extension(length)| <= dst.Length
    modifies dst
    ensures op == token + 1 + |Extension(length)|
    ensures dst[..op] == old(dst[..token]) + [Nibble(length) * 16] + Extension(length)
  {
    op := token + 1;
    if length >= RUN_MASK {
      dst[token] := RUN_MASK * 16;
      op := PutLongLength(dst, op, length - RUN_MASK);
    } else {
      dst[token] := length * 16;
    }
  }

  lemma LiteralPartSplit(pre: seq<byte>, lits: seq<byte>)
    ensures Nibble(|lits|) * 16 < 256
    ensures pre + [Nibble(|lits|) * 16] + Extension(|lits|) + lits == pre + LiteralPart(lits, 0)
    ensures |LiteralPart(lits, 0)| == 1 + |Extension(|lits|)| + |lits|
  {
  }

  // How far past the token the literals may be written, wild copy included.
  function LiteralReach(litLength: nat): nat {
    1 + |Extension(litLength)| + if litLength == 0 then 8 else litLength + 7
  }

  // A token for the literals src[anchor..ip] and the literals themselves,
  // copied eight bytes at a time.
  method PutLiterals(dst: array<byte>, token: nat, src: seq<byte>, anchor: nat, ip: nat) returns (op: nat)
    requires anchor <= ip && ip + 8 <= |src|
    requires token + LiteralReach(ip - anchor) <= dst.Length
    modifies dst
    ensures op == token + |LiteralPart(src[anchor..ip], 0)|
    ensures dst[..op] == old(dst[..token]) + LiteralPart(src[anchor..ip], 0)
  {
    hide LiteralPart, Extension, Nibble;
    LiteralPartSplit(dst[..token], src[anchor..ip]);
    op := PutToken(dst, token, ip - anchor);
    WildCopyIn(dst, op, src, anchor, ip - anchor, 8, dst.Length);
    op := op + (ip - anchor);
  }

  // The closing run, copied exactly.
  method PutLastRun(dst: array<byte>, op0: nat, src: seq<byte>, anchor: nat, lastRun: nat) returns (op: nat)
    requires anchor + lastRun <= |src|
    requires op0 + |EncodeLastRun(src[anchor..anchor + lastRun])| <= dst.Length
    modifies dst
    ensures op == op0 + |EncodeLastRun(src[anchor..anchor + lastRun])|
    ensures dst[..op] == old(dst[..op0]) + EncodeLastRun(src[anchor..anchor + lastRun])
  {
    hide LiteralPart, Extension, Nibble;
    LiteralPartSplit(dst[..op0], src[anchor..anchor + lastRun]);
    op := PutToken(dst, op0, lastRun);
    CopyLiteralChunk(dst, op, src, anchor, lastRun);
    op := op + lastRun;
  }

  // The parts of a sequence, once the match length has been added to the token.
  lemma SequenceAssembled(pre: seq<byte>, lits: seq<byte>, offset: nat, matchLen: nat, text: seq<byte>)
    requires 0 < offset <= DISTANCE_MAX && matchLen >= MINMATCH
    requires text == pre + LiteralPart(lits, 0) + [offset % 256, offset / 256]
    ensures Nibble(|lits|) * 16 + Nibble(matchLen - MINMATCH) < 256
    ensures text[|pre| := Nibble(|lits|) * 16 + Nibble(matchLen - MINMATCH)] + Extension(matchLen - MINMATCH) ==
            pre + EncodeSequence(Sequence(lits, offset, matchLen))
  {
    hide Extension;
    var nib := Nibble(matchLen - MINMATCH);
    var token := Nibble(|lits|) * 16 + nib;
    assert LiteralPart(lits, nib) == [token] + LiteralPart(lits, 0)[1..];
    var rest := LiteralPart(lits, 0)[1..] + [offset % 256, offset / 256];
    assert text == pre + [Nibble(|lits|) * 16] + rest;
    assert text[|pre| := token] == pre + [token] + rest;
  }

  // ---------------------------------------------------------------------
  // A parse in progress
  // ---------------------------------------------------------------------

  // `src` is the dictionary followed by the source proper, which begins at
  // `start`.  The sequences emitted so far stand for src[start..anchor].
  ghost predicate Parsed(ss: seq<Sequence>, src: seq<byte>, start: nat, anchor: nat) {
    start <= anchor <= |src| && WellFormed(ss, src[..start]) && Output(ss, src[..start]) == src[..anchor]
  }

  lemma ParsedExtend(ss: seq<Sequence>, src: seq<byte>, start: nat, anchor: nat, ip: nat, offset: nat, matchLen: nat)
    requires Parsed(ss, src, start, anchor) && anchor <= ip
    requires matchLen >= MINMATCH && offset <= DISTANCE_MAX && MatchRange(src, ip, ip + matchLen, offset)
    ensures var s := Sequence(src[anchor..ip], offset, matchLen);
            && Parsed(ss + [s], src, start, ip + matchLen) && Encodable(s)
            && EncodeAll(ss + [s]) == EncodeAll(ss) + EncodeSequence(s)
  {
    hide MatchRange, CopyMatch, EncodeSequence;
    MatchRangeBound(src, ip, ip + matchLen, offset);
    var s := Sequence(src[anchor..ip], offset, matchLen);
    var ext := ss + [s];
    assert ext[..|ext| - 1] == ss;
    assert src[..anchor] + src[anchor..ip] == src[..ip];
    CopyRebuilds(src, ip, ip + matchLen, offset);
  }

  lemma MatchRangeBound(src: seq<byte>, lo: nat, hi: nat, offset: nat)
    requires MatchRange(src, lo, hi, offset)
    ensures 0 < offset <= lo && hi <= |src|
  {
  }

  lemma {:induction false} ExtensionSize(n: nat)
    ensures |Extension(n)| == if n < 15 then 0 else (n - 15) / 255 + 1
    ensures 255 * |Extension(n)| <= n + 240
    ensures |Extension(n)| <= (n + 240) / 255 <= n / 255 + 1
  {
  }

  lemma EncodeSequenceSize(s: Sequence)
    requires Encodable(s)
    ensures |EncodeSequence(s)| ==
            3 + |Extension(|s.literals|)| + |s.literals| + |Extension(s.matchLen - MINMATCH)|
  {
  }

  // Worst-case expansion, amortised: a match of at least four bytes pays for
  // its token, its offset and its length bytes, and for one byte in 255 of the
  // literals before it.
  ghost predicate WithinBudget(op: nat, anchor: nat) {
    255 * op <= 256 * anchor
  }

  lemma BudgetExtend(op: nat, anchor: nat, s: Sequence)
    requires WithinBudget(op, anchor) && Encodable(s)
    ensures WithinBudget(op + |EncodeSequence(s)|, anchor + |s.literals| + s.matchLen)
  {
    hide Extension;
    EncodeSequenceSize(s);
    ExtensionSize(|s.literals|);
    ExtensionSize(s.matchLen - MINMATCH);
  }

  function CompressBound(n: nat): nat {
    n + n / 255 + 16
  }

  // The destination takes the bound, and all of the source is to be taken in.
  predicate Ample(d: OutputDirective, n: nat, cap: nat) {
    d != FillOutput && cap >= CompressBound(n)
  }

  // What the parse and the closing run amount to.
  lemma BlockComplete(ss: seq<Sequence>, src: seq<byte>, start: nat, anchor: nat, lastRun: nat)
    requires Parsed(ss, src, start, anchor) && anchor + lastRun <= |src|
    requires EndConditions(ss, src[anchor..anchor + lastRun])
    ensures var block := EncodeAll(ss) + EncodeLastRun(src[anchor..anchor + lastRun]);
            && StrictBehind(block, src[..start], src[start..anchor + lastRun])
            && (anchor + lastRun == start ==> block == [0])
  {
    hide StrictBehind, EncodeAll, Output, WellFormed;
    var last := src[anchor..anchor + lastRun];
    assert src[..anchor] + last == src[..start] + src[start..anchor + lastRun];
    EncodedIsStrict(ss, last, src[..start], src[start..anchor + lastRun]);
    if anchor + lastRun == start { NothingEncoded(ss, src[..start]); }
  }

  // The block of nothing is a single zero byte.
  lemma NothingEncoded(ss: seq<Sequence>, history: seq<byte>)
    requires WellFormed(ss, history) && |Output(ss, history)| == |history|
    ensures ss == [] && EncodeAll(ss) + EncodeLastRun([]) == [0]
  {
    hide CopyMatch;
  }

  // The block of an empty input.
  lemma EmptyBlock(history: seq<byte>)
    ensures BlockOf([0], history, [])
  {
    assert ParseLiterals([0], 0) == Length(0, 1);
    assert history + [] == history;
  }

  // What a compressor owes: a strict block of the text behind the history; of
  // nothing, the single zero byte that needs no room to be decoded.
  ghost predicate BlockOf(block: seq<byte>, history: seq<byte>, out: seq<byte>) {
    StrictBehind(block, history, out) && (out == [] ==> block == [0])
  }

  // LZ4_compressBound
  function Bound(n: nat): nat {
    if n > MAX_INPUT_SIZE then 0 else CompressBound(n)
  }

  // ---------------------------------------------------------------------
  // Room in the output
  // ---------------------------------------------------------------------

  // The output buffer against the position and the parse reached, for a source
  // that begins at `start` and ends at n: enough left for the end-of-block
  // conditions, measured from the end of the source and, for the fill policy,
  // from the end of the buffer.
  ghost predicate Room(d: OutputDirective, n: nat, cap: nat, ss: seq<Sequence>, start: nat, anchor: nat, op: nat) {
    && op <= cap && start <= anchor <= n
    && (d == NotLimited ==> Ample(d, n - start, cap))
    && WithinBudget(op, anchor - start)
    && (d == FillOutput ==> op < cap)
    && (ss != [] ==>
          && anchor + LASTLITERALS <= n && ss[|ss| - 1].matchLen >= MINMATCH
          && ss[|ss| - 1].matchLen + (n - anchor) >= MFLIMIT
          && (d == FillOutput ==> op + 1 + LASTLITERALS <= cap && ss[|ss| - 1].matchLen + (cap - op - 1) >= MFLIMIT))
  }

  // The parse so far, and the bytes that encode it.
  ghost predicate Emitted(src: seq<byte>, start: nat, text: seq<byte>, ss: seq<Sequence>, anchor: nat) {
    Parsed(ss, src, start, anchor) && text == EncodeAll(ss)
  }

  // Between sequences.
  ghost predicate SequencesDone(d: OutputDirective, src: seq<byte>, start: nat, dst: array<byte>, ss: seq<Sequence>,
                                anchor: nat, op: nat)
    reads dst
  {
    && op <= dst.Length && start <= anchor <= |src|
    && Emitted(src, start, dst[..op], ss, anchor) && Room(d, |src|, dst.Length, ss, start, anchor, op)
  }

  lemma NothingDone(d: OutputDirective, src: seq<byte>, start: nat, dst: array<byte>)
    requires start <= |src| && (d == NotLimited ==> dst.Length >= CompressBound(|src| - start))
    requires d == FillOutput ==> dst.Length > 0
    ensures SequencesDone(d, src, start, dst, [], start, 0)
  {
    assert dst[..0] == [];
  }

  // ---------------------------------------------------------------------
  // The closing literals
  // ---------------------------------------------------------------------

  // How many of the remaining literals are written, if any can be.
  method FitLastRun(d: OutputDirective, n: nat, cap: nat, ghost ss: seq<Sequence>, ghost start: nat, anchor: nat,
                    op: nat)
    returns (ok: bool, lastRun: nat)
    requires Room(d, n, cap, ss, start, anchor, op)
    ensures !ok ==> d == LimitedOutput && !Ample(d, n - start, cap)
    ensures !ok ==> op + 1 + (n - anchor) + (n - anchor + 240) / 255 > cap
    ensures ok ==> anchor + lastRun <= n && (d != FillOutput ==> anchor + lastRun == n)
    ensures ok ==> op + 1 + |Extension(lastRun)| + lastRun <= cap
    ensures ok ==> op + 1 + |Extension(lastRun)| + lastRun <= CompressBound(anchor + lastRun - start)
    // literals are left out only when the buffer is full, but for one byte
    ensures ok && anchor + lastRun < n ==> op + 1 + |Extension(lastRun)| + lastRun >= cap - 1
    ensures ok && ss != [] ==> lastRun >= LASTLITERALS && ss[|ss| - 1].matchLen + lastRun >= MFLIMIT
  {
    lastRun := n - anchor;
    ExtensionSize(lastRun);
    ghost var whole := lastRun;
    if d != NotLimited && op + lastRun + 1 + (lastRun + 255 - RUN_MASK) / 255 > cap {
      if d != FillOutput { return false, lastRun; }
      lastRun := cap - op - 1;
      lastRun := lastRun - (lastRun + 256 - RUN_MASK) / 256;
      ExtensionSize(lastRun);
    }
    return true, lastRun;
  }

  method LastLiteralsSegment(d: OutputDirective, src: seq<byte>, start: nat, dst: array<byte>, ghost ss: seq<Sequence>,
                             anchor: nat, op0: nat)
    returns (ok: bool, op: nat, consumed: nat)
    requires SequencesDone(d, src, start, dst, ss, anchor, op0)
    modifies dst
    ensures !ok ==> d == LimitedOutput && !Ample(d, |src| - start, dst.Length)
    ensures ok ==> 0 < op <= dst.Length && start + consumed <= |src|
    ensures ok ==> BlockOf(dst[..op], src[..start], src[start..start + consumed])
    ensures ok && d != FillOutput ==> start + consumed == |src|
    ensures ok ==> op <= CompressBound(consumed)
    ensures ok ==> start + consumed >= anchor
                   && op == op0 + 1 + |Extension(start + consumed - anchor)| + (start + consumed - anchor)
    ensures !ok ==> op0 + 1 + (|src| - anchor) + (|src| - anchor + 240) / 255 > dst.Length
    ensures ok && start + consumed < |src| ==> op >= dst.Length - 1
  {
    hide StrictBehind, LiteralPart, Extension, Nibble, EncodeAll, Room, WellFormed, Output;
    op, consumed := op0, anchor - start;
    var lastRun;
    ok, lastRun := FitLastRun(d, |src|, dst.Length, ss, start, anchor, op0);
    if !ok { return; }
    ghost var lits := src[anchor..anchor + lastRun];
    LiteralPartSplit([], lits);
    op := PutLastRun(dst, op0, src, anchor, lastRun);
    consumed := anchor + lastRun - start;
    BlockComplete(ss, src, start, anchor, lastRun);
  }

  // With a buffer of the bound, a sequence always fits, wild copy included.
  lemma BudgetRoom(src: seq<byte>, cap: nat, start: nat, anchor: nat, op: nat, ip: nat, offset: nat, matchLen: nat)
    requires start <= anchor <= |src| && cap >= CompressBound(|src| - start) && WithinBudget(op, anchor - start)
    requires anchor <= ip && ip + MFLIMIT <= |src| && ip + matchLen + LASTLITERALS <= |src|
    requires 0 < offset <= DISTANCE_MAX && matchLen >= MINMATCH
    ensures op + LiteralReach(ip - anchor) <= cap
    ensures op + |EncodeSequence(Sequence(src[anchor..ip], offset, matchLen))| + 1 + LASTLITERALS <= cap
    ensures op + 1 + (ip - anchor) + (2 + 1 + LASTLITERALS) + (ip - anchor) / 255 <= cap
  {
    hide Extension, EncodeSequence;
    ExtensionSize(ip - anchor);
    BudgetExtend(op, anchor - start, Sequence(src[anchor..ip], offset, matchLen));
  }

  // A sequence that fits and leaves room for the closing literals.
  lemma RoomExtend(d: OutputDirective, src: seq<byte>, cap: nat, ss: seq<Sequence>, start: nat, anchor: nat, op0: nat,
                   ip: nat, offset: nat, matchLen: nat, op: nat)
    requires Room(d, |src|, cap, ss, start, anchor, op0) && anchor <= ip && ip + MFLIMIT <= |src|
    requires ip + matchLen + LASTLITERALS <= |src| && 0 < offset <= DISTANCE_MAX && matchLen >= MINMATCH
    requires op == op0 + |EncodeSequence(Sequence(src[anchor..ip], offset, matchLen))|
    requires d != NotLimited ==> op <= cap
    requires d == FillOutput ==> op + 1 + LASTLITERALS <= cap && matchLen + (cap - op - 1) >= MFLIMIT
    ensures Room(d, |src|, cap, ss + [Sequence(src[anchor..ip], offset, matchLen)], start, ip + matchLen, op)
  {
    hide EncodeSequence;
    BudgetExtend(op0, anchor - start, Sequence(src[anchor..ip], offset, matchLen));
    if Ample(d, |src| - start, cap) {
      BudgetRoom(src, cap, start, anchor, op0, ip, offset, matchLen);
    }
  }

  // What holds once the literals of a sequence are written at `token`.
  ghost predicate LiteralsWritten(src: seq<byte>, start: nat, text: seq<byte>, ss: seq<Sequence>, anchor: nat,
                                  token: nat,
                                  ip: nat)
  {
    && Parsed(ss, src, start, anchor) && anchor <= ip <= |src| && token == |EncodeAll(ss)|
    && text == EncodeAll(ss) + LiteralPart(src[anchor..ip], 0)
  }

  lemma TokenAt(text: seq<byte>, token: nat, lits: seq<byte>)
    requires token + |LiteralPart(lits, 0)| <= |text|
    requires text[token..token + |LiteralPart(lits, 0)|] == LiteralPart(lits, 0)
    ensures text[token] == Nibble(|lits|) * 16
  {
    assert text[token] == text[token..token + |LiteralPart(lits, 0)|][0];
  }

  // Writing the match length completes the encoding of the sequence.
  lemma AssembleSequence(src: seq<byte>, start: nat, text0: seq<byte>, text: seq<byte>, ss: seq<Sequence>, anchor: nat,
                         token: nat, ip: nat, offset: nat, mc: nat)
    requires LiteralsWritten(src, start, text0, ss, anchor, token, ip)
    requires offset <= DISTANCE_MAX && MatchRange(src, ip, ip + MINMATCH + mc, offset)
    requires text == text0 + [offset % 256, offset / 256]
    ensures token < |text| && text[token] + Nibble(mc) < 256
    ensures var s := Sequence(src[anchor..ip], offset, mc + MINMATCH);
            && ip + MINMATCH + mc <= |src| && Encodable(s)
            && Emitted(src, start, text[token := text[token] + Nibble(mc)] + Extension(mc), ss + [s],
                       ip + MINMATCH + mc)
            && |text| + |Extension(mc)| == token + |EncodeSequence(s)|
  {
    hide MatchRange, Extension, Nibble, LiteralPart, EncodeSequence, EncodeAll, WellFormed;
    var lits := src[anchor..ip];
    MatchRangeBound(src, ip, ip + MINMATCH + mc, offset);
    ParsedExtend(ss, src, start, anchor, ip, offset, mc + MINMATCH);
    SequenceAssembled(EncodeAll(ss), lits, offset, mc + MINMATCH, text);
    EncodeSequenceSize(Sequence(lits, offset, mc + MINMATCH));
    LiteralPartSplit([], lits);
    TokenAt(text, token, lits);
  }

  // ---------------------------------------------------------------------
  // Runs
  // ---------------------------------------------------------------------

  // A source that is one byte over and over, and long enough for a match.
  ghost predicate IsRun(src: seq<byte>, start: nat) {
    start + MFLIMIT + 1 <= |src| && forall i :: start <= i < |src| ==> src[i] == src[start]
  }

  lemma RunIsLong(src: seq<byte>, start: nat)
    ensures IsRun(src, start) ==> start + MFLIMIT + 1 <= |src|
  {
  }

  // What such a source of n bytes takes at most.
  function RunBound(n: nat): nat { n / 255 + 11 }

  // A run is compressed to one match, and that takes no more room than the bound.
  ghost predicate RunsShrink(src: seq<byte>, cap: nat, result: nat) {
    IsRun(src, 0) ==> result <= RunBound(|src|) && (cap >= RunBound(|src|) ==> result > 0)
  }
}
