// LZ4_decompress_generic for a full block: the fast loop, the safe loop with
// its two-stage shortcut, and the over-writing copies, with a history that
// lies in front of the destination or elsewhere, as one machine over an output
// array.  The labels are the jump targets.
module Decoder {
  import opened BlockFormat
  import opened BlockAcceptance
  import opened Buffers
  import opened Copies

  const FASTLOOP_SAFE_DISTANCE := 64
  const MATCH_SAFEGUARD_DISTANCE := 12
  const WILDCOPYLENGTH := 8

  datatype Label =
    | FastLoop            // at a token, at least 64 bytes of room
    | SafeLoop            // at a token
    | SafeLiteralCopy     // literal length known
    | FastMatch           // literals written, in the fast loop
    | CopyMatchLabel      // offset read
    | SafeMatchCopy       // offset and match length known
    | OutputError
    | Finished

  datatype Directive = NoDict | WithPrefix64k | UsingExtDict

  // Where a block goes: dst[start..end].  The bytes in front of it may be read
  // from `low` on; `dict` is the external dictionary.
  datatype Target = Target(directive: Directive, low: nat, start: nat, end: nat, dict: seq<byte>) {
    ghost predicate Ok(length: nat) {
      && low <= start <= end <= length
      && (directive.UsingExtDict? ==> low == start)
      && (!directive.UsingExtDict? ==> dict == [])
      && (directive.WithPrefix64k? ==> start - low >= 65535)
    }

    function LowPrefix(): int { if directive.WithPrefix64k? then start - 65536 else low }

    predicate CheckOffset() { |dict| < 65536 }

    ghost function Layout(): Layout { if directive.UsingExtDict? then Apart else Behind }

    ghost function Cap(): nat
      requires start <= end
    {
      end - start
    }

    // How much of the text below is history.
    ghost function Base(): nat
      requires low <= start
    {
      |dict| + (start - low)
    }

    // The history and what has been produced, when output is at op.
    ghost function Text(now: seq<byte>, op: nat): (r: seq<byte>)
      requires low <= start <= op <= |now|
      ensures |r| == Base() + (op - start)
    {
      dict + now[low..op]
    }

    ghost predicate Fits(out: seq<byte>) {
      low <= start <= end && Base() <= |out| <= Base() + Cap()
    }

    // What acceptance makes of the block from the token at t on.
    ghost function From(src: seq<byte>, t: nat, out: seq<byte>): Option<seq<byte>>
      requires t <= |src| && Fits(out)
    {
      AcceptFrom(Layout(), src, t, out, Base(), Cap())
    }
  }

  // Outside the destination nothing changes.
  ghost predicate Kept(g: Target, now: seq<byte>, was: seq<byte>) {
    && g.start <= g.end <= |now| == |was|
    && now[..g.start] == was[..g.start] && now[g.end..] == was[g.end..]
  }

  lemma KeptPrefix(g: Target, now: seq<byte>, was: seq<byte>, op: nat)
    requires g.start <= g.end <= |now| == |was| && g.start <= op <= |now|
    requires now[..op] == was[..op] && now[g.end..] == was[g.end..]
    ensures Kept(g, now, was)
  {
    assert now[..g.start] == now[..op][..g.start] && was[..g.start] == was[..op][..g.start];
  }

  // ---------------------------------------------------------------------
  // What holds at the labels
  // ---------------------------------------------------------------------

  // The block is refused from the token at t on.
  ghost predicate Refused(g: Target, src: seq<byte>, t: nat, out0: seq<byte>) {
    t <= |src| && g.Fits(out0) && g.From(src, t, out0).None?
  }

  // Decoding from the token at t is decoding from the token at ip.
  ghost predicate SameFrom(g: Target, src: seq<byte>, t: nat, out0: seq<byte>, ip: nat, out: seq<byte>) {
    && t <= |src| && ip < |src| && g.Fits(out0) && g.Fits(out)
    && g.From(src, t, out0) == g.From(src, ip, out)
  }

  ghost predicate Short(g: Target, src: seq<byte>, t: nat, out0: seq<byte>)
    requires t < |src| && g.Fits(out0)
  {
    ShortcutAt(src, t, |out0| - g.Base(), g.Cap())
  }

  // The length of the literals at t is known, and they end at ip + length;
  // the shortcut does not apply.
  ghost predicate LiteralsKnown(g: Target, src: seq<byte>, t: nat, out0: seq<byte>, ip: nat, length: nat) {
    && t < |src| && g.Fits(out0) && !Short(g, src, t, out0)
    && AcceptedLiterals(src, t) == Length(length, ip)
  }

  // The literals of the sequence at t end at q and leave `out` as output; they
  // are not the last of the block.
  ghost predicate LiteralsDone(g: Target, src: seq<byte>, t: nat, out0: seq<byte>, q: nat, out: seq<byte>) {
    && t < |src| && g.Fits(out0) && g.Fits(out)
    && AcceptedLiterals(src, t).Length?
    && q == AcceptedLiterals(src, t).next + AcceptedLiterals(src, t).len && q + 2 < |src|
    && out == out0 + src[AcceptedLiterals(src, t).next..q]
    && (Short(g, src, t, out0) || (q + 8 <= |src| && |out| + MFLIMIT <= g.Base() + g.Cap()))
  }

  // Whether five bytes of room are asked for after the match.
  ghost predicate Waived(g: Target, src: seq<byte>, t: nat, out0: seq<byte>, offset: nat, out: seq<byte>)
    requires t < |src| && g.Fits(out0) && g.Fits(out)
  {
    RoomWaived(g.Layout(), Short(g, src, t, out0), src[t], offset, |out| - g.Base())
  }

  ghost predicate RoomAfter(g: Target, out: seq<byte>, length: nat)
    requires g.Fits(out)
  {
    |out| + length + LASTLITERALS <= g.Base() + g.Cap()
  }

  // The match is known, and five bytes of room after it are all it needs.
  ghost predicate MatchKnown(g: Target, src: seq<byte>, t: nat, out0: seq<byte>, q: nat, out: seq<byte>,
                             offset: nat, length: nat, ip: nat) {
    && LiteralsDone(g, src, t, out0, q, out)
    && AcceptedMatch(src, q, src[t]) == Match(offset, length, ip) && ip < |src| && offset <= DISTANCE_MAX
    && (offset <= |out| && Waived(g, src, t, out0, offset, out) ==> RoomAfter(g, out, length))
  }

  lemma LiteralsRefused(g: Target, src: seq<byte>, t: nat, out0: seq<byte>)
    requires t < |src| && g.Fits(out0) && AcceptedLiterals(src, t).NoLength?
    ensures Refused(g, src, t, out0)
  {
  }

  // The closing literals end the block, or it is refused.
  lemma LastLiteralsDecide(g: Target, src: seq<byte>, t: nat, out0: seq<byte>, ip: nat, length: nat)
    requires LiteralsKnown(g, src, t, out0, ip, length)
    requires |out0| + length + MFLIMIT > g.Base() + g.Cap() || ip + length + 8 > |src|
    ensures g.From(src, t, out0) ==
            if ip + length == |src| && |out0| + length <= g.Base() + g.Cap() then
              Some(out0 + src[ip..ip + length])
            else
              None
  {
  }

  lemma MatchDecides(g: Target, src: seq<byte>, t: nat, out0: seq<byte>, q: nat, out: seq<byte>)
    requires LiteralsDone(g, src, t, out0, q, out)
    ensures AcceptStep(g.Layout(), src, t, out0, g.Base(), g.Cap()) ==
            AcceptMatch(g.Layout(), src, Short(g, src, t, out0), q, src[t], out, g.Base(), g.Cap())
  {
    hide AcceptMatch, AcceptedLiterals;
  }

  lemma AfterMatch(g: Target, src: seq<byte>, t: nat, out0: seq<byte>, q: nat, out: seq<byte>,
                   offset: nat, length: nat, next: nat)
    requires LiteralsDone(g, src, t, out0, q, out)
    requires AcceptedMatch(src, q, src[t]) == Match(offset, length, next) && offset <= |out| && next < |src|
    requires Waived(g, src, t, out0, offset, out) || RoomAfter(g, out, length)
    ensures SameFrom(g, src, t, out0, next, CopyMatch(out, offset, length))
  {
    hide AcceptedMatch, CopyMatch, AcceptStep, ParseLiterals, ShortcutAt;
    MatchDecides(g, src, t, out0, q, out);
  }

  lemma MatchRefused(g: Target, src: seq<byte>, t: nat, out0: seq<byte>, q: nat, out: seq<byte>)
    requires LiteralsDone(g, src, t, out0, q, out)
    requires var m := AcceptedMatch(src, q, src[t]);
             m.Match? ==>
               || m.offset > |out|
               || (!Waived(g, src, t, out0, m.offset, out) && !RoomAfter(g, out, m.matchLen))
    ensures Refused(g, src, t, out0)
  {
    hide AcceptedMatch, CopyMatch, AcceptStep;
    MatchDecides(g, src, t, out0, q, out);
  }

  // ---------------------------------------------------------------------
  // Lengths
  // ---------------------------------------------------------------------

  // read_variable_length: fails exactly when the field does not close by the
  // limit (or the limit is already reached and the caller asked to check).
  method ReadVariableLength(src: seq<byte>, ip0: nat, ilimit: int, initialCheck: bool)
    returns (ok: bool, length: nat, ip: nat)
    requires ip0 <= |src| && ilimit < |src|
    requires !initialCheck ==> ip0 < |src|
    ensures ip0 <= ip <= |src|
    ensures ok ==> ReadLongLength(src, ip0) == Length(length, ip) && ip <= ilimit
    ensures !ok ==> (initialCheck && ip0 >= ilimit) || ReadLongLength(src, ip0).NoLength?
                    || ReadLongLength(src, ip0).next > ilimit
  {
    ip, length := ip0, 0;
    if initialCheck && ip >= ilimit { return false, 0, ip; }
    var s := src[ip];
    ip := ip + 1;
    length := s;
    if ip > ilimit { return false, length, ip; }
    while s == 255
      invariant ip0 < ip <= ilimit
      invariant src[ip - 1] == s
      invariant s != 255 ==> ReadLongLength(src, ip0) == Length(length, ip)
      invariant s == 255 ==> (ReadLongLength(src, ip0).Length? <==> ReadLongLength(src, ip).Length?)
      invariant s == 255 && ReadLongLength(src, ip).Length? ==>
                  ReadLongLength(src, ip0) ==
                  Length(length + ReadLongLength(src, ip).len, ReadLongLength(src, ip).next)
      decreases ilimit - ip, if s == 255 then 1 else 0
    {
      s := src[ip];
      ip := ip + 1;
      length := length + s;
      if ip > ilimit { return false, length, ip; }
    }
    return true, length, ip;
  }

  // ---------------------------------------------------------------------
  // Match copies
  // ---------------------------------------------------------------------

  // The text a match should leave, with room for what is written past it.
  ghost function IdealText(out: seq<byte>, offset: nat, n: nat): (r: seq<byte>)
    requires offset <= |out|
    ensures |r| == |out| + n && r[..|out|] == out && Repeats(r, |out|, offset)
  {
    CopyMatchRepeats(out, offset, n);
    CopyMatch(out, offset, n)
  }

  // Both shortcuts: 18 bytes in three pieces for an offset of at least 8.
  method Copy18(dst: array<byte>, op: nat, offset: nat, length: nat, hi: nat)
    requires 8 <= offset <= op && op + 18 <= hi <= dst.Length && length <= 18
    modifies dst
    ensures dst[..op + length] == CopyMatch(old(dst[..op]), offset, length) && dst[hi..] == old(dst[hi..])
  {
    hide CopyMatch, Repeats;
    ghost var R, was := IdealText(dst[..op], offset, 18), dst[..];
    CopyChunk(dst, op, op - offset, 8, R);
    TailKept(dst[..], was, op + 8, op + 16);
    FollowsLater(R, op, offset, op + 8);
    CopyChunk(dst, op + 8, op + 8 - offset, 8, R);
    TailKept(dst[..], was, op + 16, op + 18);
    FollowsLater(R, op, offset, op + 16);
    CopyChunk(dst, op + 16, op + 16 - offset, 2, R);
    TailKept(dst[..], was, op + 18, hi);
    CopyMatchPrefix(old(dst[..op]), offset, length, 18);
    assert dst[..op + length] == dst[..op + 18][..op + length];
  }

  // The fast loop's general copy, far from the end of the output.
  method FastCopyMatch(dst: array<byte>, op: nat, offset: nat, length: nat, hi: nat)
    requires offset <= op && length >= MINMATCH && op + length + FASTLOOP_SAFE_DISTANCE <= hi <= dst.Length
    modifies dst
    ensures dst[..op + length] == CopyMatch(old(dst[..op]), offset, length) && dst[hi..] == old(dst[hi..])
  {
    ghost var R := IdealText(dst[..op], offset, length + 64);
    if offset < 16 {
      CopyUsingOffset(dst, op, op + length, offset, hi, R);
    } else {
      WildCopy32(dst, op, op - offset, op + length, hi, R);
    }
    CopyMatchPrefix(old(dst[..op]), offset, length, length + 64);
  }

  // The first eight bytes of a match in the safe loop.
  method CopyFirst8(dst: array<byte>, op: nat, offset: nat, ghost R: seq<byte>) returns (s: nat)
    requires offset <= op && op + 8 <= dst.Length && op + 8 <= |R|
    requires Repeats(R, op, offset) && dst[..op] == R[..op]
    modifies dst
    ensures dst[..op + 8] == R[..op + 8] && dst[op + 8..] == old(dst[op + 8..])
    ensures s <= op && Follows(R, op + 8, op + 8 - s)
  {
    if offset < 8 {
      s := SpreadFirst8(dst, op, offset, R);
      SpreadFollows(R, op, offset);
    } else {
      CopyChunk(dst, op, op - offset, 8, R);
      FollowsLater(R, op, offset, op + 8);
      s := op + 8 - offset;
    }
  }

  // The rest of a match that ends within twelve bytes of the end of the
  // output: eight at a time while that is safe, then one at a time.
  method CopyNearEnd(dst: array<byte>, d0: nat, s0: nat, cpy: nat, hi: nat, ghost R: seq<byte>)
    requires s0 + 8 <= d0 && Follows(R, d0, d0 - s0)
    requires d0 <= hi <= dst.Length && hi <= |R| && cpy <= hi
    requires dst[..d0] == R[..d0]
    modifies dst
    ensures dst[..cpy] == R[..cpy] && dst[hi..] == old(dst[hi..])
  {
    var d, s := d0, s0;
    var oCopyLimit := hi - (WILDCOPYLENGTH - 1);
    if d < oCopyLimit {
      WildCopy8(dst, d, s, oCopyLimit, hi, R);
      s := s + (oCopyLimit - d);
      d := oCopyLimit;
    }
    while d < cpy
      invariant d - s == d0 - s0 && d0 <= d <= hi
      invariant dst[..d] == R[..d] && dst[hi..] == old(dst[hi..])
    {
      ghost var was := dst[..];
      FollowsLater(R, d0, d0 - s0, d);
      CopyChunk(dst, d, s, 1, R);
      TailKept(dst[..], was, d + 1, hi);
      d, s := d + 1, s + 1;
    }
    assert dst[..cpy] == dst[..d][..cpy] == R[..d][..cpy];
  }

  // The safe loop's copy; refuses a match that ends in the last five bytes.
  method SafeCopyMatch(dst: array<byte>, op: nat, offset: nat, length: nat, hi: nat) returns (ok: bool)
    requires offset <= op && length >= MINMATCH && op + MFLIMIT <= hi <= dst.Length
    modifies dst
    ensures ok <==> op + length + LASTLITERALS <= hi
    ensures ok ==> dst[..op + length] == CopyMatch(old(dst[..op]), offset, length)
    ensures dst[..op] == old(dst[..op]) && dst[hi..] == old(dst[hi..])
  {
    hide CopyMatch, Repeats;
    ghost var out, was := dst[..op], dst[..];
    ghost var R := IdealText(out, offset, length + 64);
    var cpy := op + length;
    var s := CopyFirst8(dst, op, offset, R);
    assert dst[..op] == dst[..op + 8][..op] == R[..op + 8][..op];
    TailKept(dst[..], was, op + 8, hi);
    if cpy > hi - MATCH_SAFEGUARD_DISTANCE && cpy > hi - LASTLITERALS { return false; }
    CopyRest(dst, op, s, cpy, hi, R);
    CopyMatchPrefix(out, offset, length, length + 64);
    assert dst[..op] == dst[..cpy][..op] == R[..cpy][..op];
    return true;
  }

  // All but the first eight bytes of it.
  method CopyRest(dst: array<byte>, op: nat, s: nat, cpy: nat, hi: nat, ghost R: seq<byte>)
    requires op + MFLIMIT <= hi <= dst.Length && s <= op && op + MINMATCH <= cpy && cpy + LASTLITERALS <= hi
    requires cpy + 64 <= |R| && Follows(R, op + 8, op + 8 - s) && dst[..op + 8] == R[..op + 8]
    modifies dst
    ensures dst[..cpy] == R[..cpy] && dst[hi..] == old(dst[hi..])
  {
    hide Repeats;
    ghost var was := dst[..];
    var d := op + 8;
    if cpy > hi - MATCH_SAFEGUARD_DISTANCE {
      CopyNearEnd(dst, d, s, cpy, hi, R);
    } else {
      CopyChunk(dst, d, s, 8, R);
      TailKept(dst[..], was, d + 8, hi);
      if cpy - op > 16 {
        FollowsLater(R, d, d - s, d + 8);
        WildCopy8(dst, d + 8, s + 8, cpy, hi, R);
      }
      assert dst[..cpy] == R[..cpy] by {
        if cpy - op <= 16 { assert dst[..cpy] == dst[..d + 8][..cpy] == R[..d + 8][..cpy]; }
      }
    }
  }

  // ---------------------------------------------------------------------
  // From the buffer to the text
  // ---------------------------------------------------------------------

  lemma TextOfLiterals(g: Target, now: seq<byte>, was: seq<byte>, op: nat, x: seq<byte>)
    requires g.low <= g.start <= op && op + |x| <= |now| && op <= |was|
    requires now[..op + |x|] == was[..op] + x
    ensures g.Text(now, op + |x|) == g.Text(was, op) + x
  {
    assert now[g.low..op + |x|] == now[..op + |x|][g.low..];
    assert was[g.low..op] == was[..op][g.low..];
    assert (was[..op] + x)[g.low..] == was[..op][g.low..] + x;
  }

  lemma TextOfCopy(g: Target, now: seq<byte>, was: seq<byte>, op: nat, offset: nat, length: nat)
    requires g.low <= g.start <= op && op + length <= |now| && op <= |was| && offset <= op - g.low
    requires now[..op + length] == CopyMatch(was[..op], offset, length)
    ensures g.Text(now, op + length) == CopyMatch(g.Text(was, op), offset, length)
  {
    hide CopyMatch;
    var x := was[g.low..op];
    assert was[..op] == was[..g.low] + x;
    CopyBehind(was[..g.low], x, offset, length);
    CopyBehind(g.dict, x, offset, length);
    assert now[g.low..op + length] == now[..op + length][g.low..];
  }

  lemma TextPrefix(g: Target, now: seq<byte>, was: seq<byte>, op: nat, op': nat)
    requires g.low <= g.start <= op <= op' <= |now| && op <= |was| && now[..op] == was[..op]
    ensures g.Text(now, op')[..|g.Text(was, op)|] == g.Text(was, op)
  {
    var x, y := now[g.low..op'], was[g.low..op];
    assert x[..|y|] == y by {
      assert x[..|y|] == now[..op][g.low..] && y == was[..op][g.low..];
    }
    assert (g.dict + x)[..|g.dict| + |y|] == g.dict + x[..|y|];
  }

  // A match that starts in the external dictionary and may go on from the
  // start of the destination.
  method CopyFromDict(g: Target, dst: array<byte>, op: nat, offset: nat, length: nat)
    requires g.Ok(dst.Length) && g.directive.UsingExtDict? && g.start <= op && op + length <= g.end
    requires op - offset < g.start && offset <= |g.dict| + (op - g.start) && length > 0
    modifies dst
    ensures g.Text(dst[..], op + length) == CopyMatch(g.Text(old(dst[..]), op), offset, length)
    ensures dst[..op] == old(dst[..op]) && dst[g.end..] == old(dst[g.end..])
  {
    hide CopyMatch;
    ghost var was := dst[..];
    var copySize := g.start - (op - offset);
    if length <= copySize {
      CopyIn(dst, op, g.dict, |g.dict| - copySize, length);
    } else {
      CopyIn(dst, op, g.dict, |g.dict| - copySize, copySize);
      CopyFromStart(g, dst, op + copySize, length - copySize);
    }
    assert dst[..op] == was[..op];
    DictCopyRepeats(g, dst[..], was, op, offset, length);
  }

  // The part of it that continues in the destination; it may overlap itself.
  method CopyFromStart(g: Target, dst: array<byte>, op: nat, rest: nat)
    requires g.Ok(dst.Length) && g.start <= op && op + rest <= g.end && (rest > 0 ==> g.start < op)
    modifies dst
    ensures forall k :: 0 <= k < dst.Length && !(op <= k < op + rest) ==> dst[k] == old(dst[k])
    ensures forall k :: op <= k < op + rest ==> dst[k] == dst[g.start + (k - op)]
  {
    if rest > op - g.start {
      var to := op;
      while to < op + rest
        invariant op <= to <= op + rest
        invariant forall k :: 0 <= k < dst.Length && !(op <= k < to) ==> dst[k] == old(dst[k])
        invariant forall k :: op <= k < to ==> dst[k] == dst[g.start + (k - op)]
      {
        dst[to] := dst[g.start + (to - op)];
        to := to + 1;
      }
    } else {
      CopyWithin(dst, op, g.start, rest);
    }
  }

  lemma DictCopyRepeats(g: Target, now: seq<byte>, was: seq<byte>, op: nat, offset: nat, length: nat)
    requires g.Ok(|now|) && g.directive.UsingExtDict? && |now| == |was| && g.start <= op && op + length <= g.end
    requires op - offset < g.start && offset <= |g.dict| + (op - g.start)
    requires now[..op] == was[..op]
    requires var c := g.start - (op - offset);
             && (forall k :: op <= k < op + length && k < op + c ==> now[k] == g.dict[|g.dict| - c + (k - op)])
             && (forall k :: op + c <= k < op + length ==> now[k] == now[g.start + (k - (op + c))])
    ensures g.Text(now, op + length) == CopyMatch(g.Text(was, op), offset, length)
  {
    hide CopyMatch;
    var r, out := g.Text(now, op + length), g.Text(was, op);
    TextPrefix(g, now, was, op, op + length);
    var c := g.start - (op - offset);
    forall i | |out| <= i < |r| ensures RepeatsAt(r, offset, i) {
      var k := i - |g.dict| + g.start;
      assert r[i] == now[k];
      if k >= op + c { assert r[i - offset] == now[g.start + (k - (op + c))]; }
    }
    CopyMatchUnique(out, offset, r);
  }

  // ---------------------------------------------------------------------
  // The segments between labels
  // ---------------------------------------------------------------------

  // A literal length that continues after the token.
  method LongLiteralLength(src: seq<byte>, t: nat) returns (ok: bool, length: nat, ip: nat)
    requires t < |src| && src[t] / 16 == RUN_MASK
    ensures t < ip <= |src|
    ensures AcceptedLiterals(src, t) == if ok then Length(length, ip) else NoLength
    ensures ok ==> length >= RUN_MASK && ip + RUN_MASK <= |src|
  {
    var addl;
    ok, addl, ip := ReadVariableLength(src, t + 1, |src| - RUN_MASK, true);
    length := RUN_MASK + addl;
  }

  lemma ShortLiteralLength(src: seq<byte>, t: nat)
    requires t < |src| && src[t] / 16 != RUN_MASK
    ensures AcceptedLiterals(src, t) == Length(src[t] / 16, t + 1)
  {
  }

  lemma NoShortcut(src: seq<byte>, t: nat, n: int, cap: nat)
    requires t < |src| && (src[t] / 16 == RUN_MASK || t + 17 >= |src| || n + 32 > cap)
    ensures !ShortcutAt(src, t, n, cap)
  {
  }

  lemma HasShortcut(src: seq<byte>, t: nat, n: int, cap: nat)
    requires t + 17 < |src| && src[t] / 16 != RUN_MASK && n + 32 <= cap
    ensures ShortcutAt(src, t, n, cap)
  {
  }

  // Literals have been written that leave room for a match.
  lemma LiteralsWritten(g: Target, src: seq<byte>, t: nat, now: seq<byte>, was: seq<byte>, op: nat, ip: nat,
                        length: nat)
    requires g.Ok(|now|) && |now| == |was| && g.start <= op && op + length <= g.end && t < |src|
    requires AcceptedLiterals(src, t) == Length(length, ip) && ip + length + 2 < |src|
    requires now[..op + length] == was[..op] + src[ip..ip + length] && now[g.end..] == was[g.end..]
    requires ShortcutAt(src, t, op - g.start, g.Cap()) || (ip + length + 8 <= |src| && op + length + MFLIMIT <= g.end)
    ensures LiteralsDone(g, src, t, g.Text(was, op), ip + length, g.Text(now, op + length))
    ensures Kept(g, now, was) && now[..op] == was[..op]
  {
    hide ShortcutAt, AcceptedLiterals;
    assert now[..op] == now[..op + length][..op];
    KeptPrefix(g, now, was, op);
    TextOfLiterals(g, now, was, op, src[ip..ip + length]);
  }

  // At most 14 literals, in one copy of 16 bytes.
  method CopyShortLiterals(dst: array<byte>, op: nat, src: seq<byte>, ip: nat, length: nat, hi: nat)
    requires op + 16 <= hi <= dst.Length && ip + 16 <= |src| && length <= 16
    modifies dst
    ensures dst[..op + length] == old(dst[..op]) + src[ip..ip + length] && dst[hi..] == old(dst[hi..])
  {
    ghost var was := dst[..];
    CopyLiteralChunk(dst, op, src, ip, 16);
    TailKept(dst[..], was, op + 16, hi);
    FewerLiterals(dst[..op + 16], was[..op], src, ip, length, 16);
    assert dst[..op + length] == dst[..op + 16][..op + length];
  }

  // From a token in the fast loop: literals of either kind, 32 or 16 bytes at
  // a time.
  method FastLiterals(g: Target, src: seq<byte>, dst: array<byte>, t: nat, op0: nat)
    returns (label_: Label, ip: nat, op: nat, length: nat)
    requires g.Ok(dst.Length) && t < |src| && g.start <= op0 && op0 + FASTLOOP_SAFE_DISTANCE <= g.end
    modifies dst
    ensures label_ == FastMatch || label_ == SafeLiteralCopy || label_ == OutputError
    ensures Kept(g, dst[..], old(dst[..])) && t < ip <= |src|
    ensures label_ == FastMatch ==>
              && g.start <= op && op + 32 <= g.end
              && LiteralsDone(g, src, t, g.Text(old(dst[..]), op0), ip, g.Text(dst[..], op))
    ensures label_ == SafeLiteralCopy ==>
              && op == op0 && dst[..] == old(dst[..])
              && LiteralsKnown(g, src, t, g.Text(dst[..], op0), ip, length)
    ensures label_ == OutputError ==> Refused(g, src, t, g.Text(old(dst[..]), op0))
  {
    hide AcceptedLiterals, LiteralsDone, Refused, Kept, ShortcutAt;
    ghost var was := dst[..];
    KeptPrefix(g, was, was, op0);
    var iend, oend := |src|, g.end;
    op := op0;
    length := src[t] / 16;
    if length == RUN_MASK {
      var ok;
      ok, length, ip := LongLiteralLength(src, t);
      if !ok {
        LiteralsRefused(g, src, t, g.Text(was, op0));
        return OutputError, ip, op, length;
      }
      if op + length > oend - 32 || ip + length > iend - 32 {
        NoShortcut(src, t, op0 - g.start, g.Cap());
        return SafeLiteralCopy, ip, op, length;
      }
      WildCopyIn(dst, op, src, ip, length, 32, g.end);
    } else {
      ip := t + 1;
      ShortLiteralLength(src, t);
      if ip > iend - (16 + 1) {
        NoShortcut(src, t, op0 - g.start, g.Cap());
        return SafeLiteralCopy, ip, op, length;
      }
      CopyShortLiterals(dst, op, src, ip, length, g.end);
      HasShortcut(src, t, op0 - g.start, g.Cap());
    }
    LiteralsWritten(g, src, t, dst[..], was, op, ip, length);
    ip, op := ip + length, op + length;
    return FastMatch, ip, op, length;
  }

  // The match of a sequence whose literals are written, in the fast loop.
  method FastMatchSegment(g: Target, src: seq<byte>, dst: array<byte>, ghost t: nat, ghost out0: seq<byte>,
                          token: byte, q: nat, op0: nat)
    returns (label_: Label, ip: nat, op: nat, offset: nat, length: nat)
    requires g.Ok(dst.Length) && g.start <= op0 && op0 + 32 <= g.end
    requires LiteralsDone(g, src, t, out0, q, g.Text(dst[..], op0)) && token == src[t]
    requires |out0| + FASTLOOP_SAFE_DISTANCE <= g.Base() + g.Cap()
    modifies dst
    ensures label_ == FastLoop || label_ == SafeMatchCopy || label_ == OutputError
    ensures Kept(g, dst[..], old(dst[..])) && q < ip <= |src|
    ensures label_ == FastLoop ==>
              && g.start <= op && op + FASTLOOP_SAFE_DISTANCE <= g.end && ip < |src|
              && SameFrom(g, src, t, out0, ip, g.Text(dst[..], op))
    ensures label_ == SafeMatchCopy ==>
              && op == op0 && dst[..] == old(dst[..])
              && MatchKnown(g, src, t, out0, q, g.Text(dst[..], op0), offset, length, ip)
    ensures label_ == OutputError ==> Refused(g, src, t, out0)
  {
    hide CopyMatch, SameFrom, LiteralsDone, Refused, AcceptedMatch, Kept, ReadOffset;
    ghost var was := dst[..];
    ghost var lit := g.Text(was, op0);
    KeptPrefix(g, was, was, op0);
    OpenLiterals(g, src, t, out0, q, lit);
    op := op0;
    offset := ReadOffset(src, q);
    ip := q + 2;
    length := token % 16;
    if length == ML_MASK {
      var ok;
      ok, length, ip := LongMatchLength(src, q);
      if !ok {
        MatchRefused(g, src, t, out0, q, lit);
        return OutputError, ip, op, offset, length;
      }
    } else {
      length := length + MINMATCH;
      ShortMatchLength(src, q, token);
    }
    if op + length >= g.end - FASTLOOP_SAFE_DISTANCE {
      EarlyIsRoomy(g, src, t, out0, q, lit, offset, length, ip);
      return SafeMatchCopy, ip, op, offset, length;
    }
    label_ := FastMatchCopy(g, src, dst, t, out0, token, q, op, offset, length, ip);
    op := op + length;
  }

  // The length of a match that continues after the offset.
  method LongMatchLength(src: seq<byte>, q: nat) returns (ok: bool, length: nat, ip: nat)
    requires q + 2 < |src|
    ensures q + 2 <= ip <= |src|
    ensures forall token: byte :: token % 16 == ML_MASK ==>
              AcceptedMatch(src, q, token) == if ok then Match(ReadOffset(src, q), length, ip) else NoMatch
    ensures ok ==> ip < |src| && length >= MINMATCH
  {
    hide ReadOffset;
    var addl;
    ok, addl, ip := ReadVariableLength(src, q + 2, |src| - LASTLITERALS + 1, false);
    length := ML_MASK + addl + MINMATCH;
  }

  lemma ShortMatchLength(src: seq<byte>, q: nat, token: byte)
    requires q + 2 < |src| && token % 16 != ML_MASK
    ensures AcceptedMatch(src, q, token) == Match(ReadOffset(src, q), token % 16 + MINMATCH, q + 2)
  {
    hide ReadOffset;
  }

  lemma OpenLiterals(g: Target, src: seq<byte>, t: nat, out0: seq<byte>, q: nat, out: seq<byte>)
    requires LiteralsDone(g, src, t, out0, q, out)
    ensures t < |src| && q + 2 < |src| && g.Fits(out0) && g.Fits(out) && |out0| <= |out|
    ensures Short(g, src, t, out0) ==> |out| <= |out0| + 14 && |out| + 18 <= g.Base() + g.Cap()
    ensures !Short(g, src, t, out0) ==> |out| + MFLIMIT <= g.Base() + g.Cap()
  {
  }

  // Where the fast loop gives up, a short match would still leave room.
  lemma EarlyIsRoomy(g: Target, src: seq<byte>, t: nat, out0: seq<byte>, q: nat, out: seq<byte>,
                     offset: nat, length: nat, ip: nat)
    requires LiteralsDone(g, src, t, out0, q, out) && |out0| + FASTLOOP_SAFE_DISTANCE <= g.Base() + g.Cap()
    requires AcceptedMatch(src, q, src[t]) == Match(offset, length, ip) && ip < |src| && offset <= DISTANCE_MAX
    ensures MatchKnown(g, src, t, out0, q, out, offset, length, ip)
  {
    hide LiteralsDone;
    OpenLiterals(g, src, t, out0, q, out);
  }

  // Copying a match in the fast loop, in one of its three ways.
  method FastMatchCopy(g: Target, src: seq<byte>, dst: array<byte>, ghost t: nat, ghost out0: seq<byte>,
                       token: byte, ghost q: nat, op: nat, offset: nat, length: nat, ghost ip: nat)
    returns (label_: Label)
    requires g.Ok(dst.Length) && g.start <= op && op + 32 <= g.end && length >= MINMATCH
    requires op + length + FASTLOOP_SAFE_DISTANCE < g.end && offset <= DISTANCE_MAX
    requires LiteralsDone(g, src, t, out0, q, g.Text(dst[..], op)) && token == src[t]
    requires AcceptedMatch(src, q, token) == Match(offset, length, ip) && ip < |src|
    modifies dst
    ensures label_ == FastLoop || label_ == OutputError
    ensures Kept(g, dst[..], old(dst[..]))
    ensures label_ == FastLoop ==> SameFrom(g, src, t, out0, ip, g.Text(dst[..], op + length))
    ensures label_ == OutputError ==> Refused(g, src, t, out0)
  {
    hide CopyMatch, SameFrom, LiteralsDone, Refused, Kept;
    ghost var was := dst[..];
    ghost var lit := g.Text(was, op);
    KeptPrefix(g, was, was, op);
    OpenLiterals(g, src, t, out0, q, lit);
    var match_ := op - offset;
    if token % 16 != ML_MASK && (g.directive.WithPrefix64k? || match_ >= g.LowPrefix()) && offset >= 8 {
      Copy18(dst, op, offset, length, g.end);
      TextOfCopy(g, dst[..], was, op, offset, length);
    } else {
      if g.CheckOffset() && match_ + |g.dict| < g.LowPrefix() {
        MatchRefused(g, src, t, out0, q, lit);
        return OutputError;
      }
      if g.directive.UsingExtDict? && match_ < g.LowPrefix() {
        CopyFromDict(g, dst, op, offset, length);
      } else {
        FastCopyMatch(dst, op, offset, length, g.end);
        TextOfCopy(g, dst[..], was, op, offset, length);
      }
    }
    assert dst[..op] == was[..op];
    KeptPrefix(g, dst[..], was, op);
    AfterMatch(g, src, t, out0, q, lit, offset, length, ip);
    return FastLoop;
  }

  // The offset of a sequence has been read, and its match is one that needs
  // five bytes of room after it.
  ghost predicate OffsetKnown(g: Target, src: seq<byte>, t: nat, out0: seq<byte>, q: nat, out: seq<byte>, offset: nat) {
    && LiteralsDone(g, src, t, out0, q, out) && offset == ReadOffset(src, q)
    && (offset <= |out| ==> !Waived(g, src, t, out0, offset, out))
  }

  // The two-stage shortcut: short literals, then a short match, both copied
  // with room to spare.
  method Shortcut(g: Target, src: seq<byte>, dst: array<byte>, t: nat, op0: nat)
    returns (label_: Label, ip: nat, op: nat, offset: nat, length: nat)
    requires g.Ok(dst.Length) && t < |src| && g.start <= op0 && ShortcutAt(src, t, op0 - g.start, g.end - g.start)
    modifies dst
    ensures (label_ == SafeLoop || label_ == CopyMatchLabel) && t < ip < |src|
    ensures Kept(g, dst[..], old(dst[..])) && g.start <= op
    ensures label_ == SafeLoop ==>
              op <= g.end && SameFrom(g, src, t, g.Text(old(dst[..]), op0), ip, g.Text(dst[..], op))
    ensures label_ == CopyMatchLabel ==>
              && 2 <= ip && op + MFLIMIT <= g.end && length == src[t] % 16
              && OffsetKnown(g, src, t, g.Text(old(dst[..]), op0), ip - 2, g.Text(dst[..], op), offset)
  {
    hide CopyMatch, SameFrom, LiteralsDone, Kept, AcceptedLiterals, OffsetKnown;
    ghost var was, out0 := dst[..], g.Text(dst[..], op0);
    ip, op := t + 1, op0;
    length := src[t] / 16;
    CopyShortLiterals(dst, op, src, ip, length, g.end);
    ShortLiteralLength(src, t);
    LiteralsWritten(g, src, t, dst[..], was, op, ip, length);
    op, ip := op + length, ip + length;
    ghost var mid := dst[..];
    label_, offset := ShortcutMatch(g, src, dst, t, out0, ip, op);
    KeptTwice(g, dst[..], mid, was);
    length := src[t] % 16;
    ip := ip + 2;
    if label_ == SafeLoop { op := op + length + MINMATCH; }
  }

  // Its second stage.
  method ShortcutMatch(g: Target, src: seq<byte>, dst: array<byte>, t: nat, ghost out0: seq<byte>, ip: nat, op: nat)
    returns (label_: Label, offset: nat)
    requires g.Ok(dst.Length) && g.start <= op && op + 18 <= g.end
    requires LiteralsDone(g, src, t, out0, ip, g.Text(dst[..], op)) && Short(g, src, t, out0) && ip + 2 < |src|
    modifies dst
    ensures label_ == SafeLoop || label_ == CopyMatchLabel
    ensures Kept(g, dst[..], old(dst[..]))
    ensures label_ == SafeLoop ==>
              var op' := op + src[t] % 16 + MINMATCH;
              op' <= g.end && SameFrom(g, src, t, out0, ip + 2, g.Text(dst[..], op'))
    ensures label_ == CopyMatchLabel ==> OffsetKnown(g, src, t, out0, ip, g.Text(dst[..], op), offset)
  {
    hide CopyMatch, SameFrom, LiteralsDone, Kept, ReadOffset, ShortcutAt;
    ghost var was := dst[..];
    ghost var lit := g.Text(was, op);
    KeptPrefix(g, was, was, op);
    OpenLiterals(g, src, t, out0, ip, lit);
    var length := src[t] % 16;
    offset := ReadOffset(src, ip);
    var match_ := op - offset;
    if length != ML_MASK && offset >= 8 && (g.directive.WithPrefix64k? || match_ >= g.LowPrefix()) {
      ShortMatchLength(src, ip, src[t]);
      Copy18(dst, op, offset, length + MINMATCH, g.end);
      TextOfCopy(g, dst[..], was, op, offset, length + MINMATCH);
      KeptPrefix(g, dst[..], was, op);
      AfterMatch(g, src, t, out0, ip, lit, offset, length + MINMATCH, ip + 2);
      return SafeLoop, offset;
    }
    return CopyMatchLabel, offset;
  }

  lemma KeptTwice(g: Target, now: seq<byte>, mid: seq<byte>, was: seq<byte>)
    requires Kept(g, now, mid) && Kept(g, mid, was)
    ensures Kept(g, now, was)
  {
  }

  // From a token in the safe loop: the shortcut, or the literal length.
  method SafeToken(g: Target, src: seq<byte>, dst: array<byte>, t: nat, op0: nat)
    returns (label_: Label, ip: nat, op: nat, offset: nat, length: nat)
    requires g.Ok(dst.Length) && t < |src| && g.start <= op0 <= g.end
    modifies dst
    ensures label_ == SafeLoop || label_ == SafeLiteralCopy || label_ == CopyMatchLabel || label_ == OutputError
    ensures Kept(g, dst[..], old(dst[..])) && t < ip <= |src| && g.start <= op
    ensures label_ == SafeLoop ==>
              && ip < |src| && op <= g.end
              && SameFrom(g, src, t, g.Text(old(dst[..]), op0), ip, g.Text(dst[..], op))
    ensures label_ == SafeLiteralCopy ==>
              op == op0 && dst[..] == old(dst[..]) && LiteralsKnown(g, src, t, g.Text(dst[..], op0), ip, length)
    ensures label_ == CopyMatchLabel ==>
              && 2 <= ip < |src| && op + MFLIMIT <= g.end && length == src[t] % 16
              && OffsetKnown(g, src, t, g.Text(old(dst[..]), op0), ip - 2, g.Text(dst[..], op), offset)
    ensures label_ == OutputError ==> Refused(g, src, t, g.Text(old(dst[..]), op0))
  {
    hide CopyMatch, SameFrom, OffsetKnown, Kept, Refused, AcceptedLiterals, ShortcutAt;
    KeptPrefix(g, dst[..], dst[..], op0);
    var shortiend, shortoend := |src| - 14 - 2, g.end - 14 - 18;
    ip, op, offset := t + 1, op0, 0;
    length := src[t] / 16;
    if length != RUN_MASK && ip < shortiend && op <= shortoend {
      HasShortcut(src, t, op0 - g.start, g.end - g.start);
      label_, ip, op, offset, length := Shortcut(g, src, dst, t, op0);
      return;
    }
    NoShortcut(src, t, op0 - g.start, g.end - g.start);
    if length == RUN_MASK {
      var ok;
      ok, length, ip := LongLiteralLength(src, t);
      if !ok {
        LiteralsRefused(g, src, t, g.Text(dst[..], op0));
        return OutputError, ip, op, offset, length;
      }
    } else {
      ShortLiteralLength(src, t);
    }
    return SafeLiteralCopy, ip, op, offset, length;
  }

  // safe_literal_copy: the closing literals, or literals followed by a match.
  method SafeLiterals(g: Target, src: seq<byte>, dst: array<byte>, ghost t: nat, ip0: nat, op0: nat, length: nat)
    returns (label_: Label, ip: nat, op: nat, offset: nat)
    requires g.Ok(dst.Length) && g.start <= op0 <= g.end && ip0 <= |src|
    requires LiteralsKnown(g, src, t, g.Text(dst[..], op0), ip0, length)
    modifies dst
    ensures label_ == Finished || label_ == CopyMatchLabel || label_ == OutputError
    ensures Kept(g, dst[..], old(dst[..])) && ip0 <= ip <= |src| && g.start <= op
    ensures label_ == Finished ==>
              op <= g.end && g.From(src, t, g.Text(old(dst[..]), op0)) == Some(g.Text(dst[..], op))
    ensures label_ == CopyMatchLabel ==>
              && 2 <= ip < |src| && op + MFLIMIT <= g.end
              && OffsetKnown(g, src, t, g.Text(old(dst[..]), op0), ip - 2, g.Text(dst[..], op), offset)
    ensures label_ == OutputError ==> Refused(g, src, t, g.Text(old(dst[..]), op0))
  {
    hide CopyMatch, LiteralsDone, Kept, AcceptedLiterals, ReadOffset, ShortcutAt, AcceptFrom;
    ghost var was := dst[..];
    KeptPrefix(g, was, was, op0);
    var iend, oend := |src|, g.end;
    ip, op, offset := ip0, op0, 0;
    var cpy := op + length;
    if cpy > oend - MFLIMIT || ip + length > iend - (2 + 1 + LASTLITERALS) {
      LastLiteralsDecide(g, src, t, g.Text(was, op), ip, length);
      if ip + length != iend || cpy > oend { return OutputError, ip, op, offset; }
      CopyLiteralChunk(dst, op, src, ip, length);
      TailKept(dst[..], was, cpy, oend);
      TextOfLiterals(g, dst[..], was, op, src[ip..ip + length]);
      assert dst[..op] == dst[..cpy][..op];
      KeptPrefix(g, dst[..], was, op);
      return Finished, ip + length, cpy, offset;
    }
    WildCopyIn(dst, op, src, ip, length, 8, oend);
    LiteralsWritten(g, src, t, dst[..], was, op, ip, length);
    ip, op := ip + length, cpy;
    offset := ReadOffset(src, ip);
    return CopyMatchLabel, ip + 2, op, offset;
  }

  // _copy_match: the rest of the match length.
  method MatchLength(ghost g: Target, src: seq<byte>, ghost t: nat, ghost out0: seq<byte>, ghost out: seq<byte>,
                     token: byte, ip0: nat, offset: nat)
    returns (label_: Label, ip: nat, length: nat)
    requires 2 <= ip0 < |src| && OffsetKnown(g, src, t, out0, ip0 - 2, out, offset) && token == src[t]
    ensures label_ == SafeMatchCopy || label_ == OutputError
    ensures label_ == SafeMatchCopy ==> MatchKnown(g, src, t, out0, ip0 - 2, out, offset, length, ip)
    ensures label_ == OutputError ==> Refused(g, src, t, out0)
    ensures ip0 <= ip <= |src|
  {
    hide LiteralsDone, Refused, AcceptedMatch, ReadOffset;
    OpenLiterals(g, src, t, out0, ip0 - 2, out);
    ip := ip0;
    length := token % 16;
    if length == ML_MASK {
      var ok;
      ok, length, ip := LongMatchLength(src, ip0 - 2);
      if !ok {
        MatchRefused(g, src, t, out0, ip0 - 2, out);
        return OutputError, ip, length;
      }
    } else {
      ShortMatchLength(src, ip0 - 2, token);
      length := length + MINMATCH;
    }
    return SafeMatchCopy, ip, length;
  }

  // safe_match_copy: check the offset, then copy.
  method SafeMatchSegment(g: Target, src: seq<byte>, dst: array<byte>, ghost t: nat, ghost out0: seq<byte>,
                          ghost q: nat, ghost ip: nat, op0: nat, offset: nat, length: nat)
    returns (label_: Label, op: nat)
    requires g.Ok(dst.Length) && g.start <= op0 && op0 + MFLIMIT <= g.end
    requires MatchKnown(g, src, t, out0, q, g.Text(dst[..], op0), offset, length, ip)
    modifies dst
    ensures label_ == SafeLoop || label_ == OutputError
    ensures Kept(g, dst[..], old(dst[..]))
    ensures label_ == SafeLoop ==>
              g.start <= op <= g.end && ip < |src| && SameFrom(g, src, t, out0, ip, g.Text(dst[..], op))
    ensures label_ == OutputError ==> Refused(g, src, t, out0)
  {
    hide CopyMatch, LiteralsDone, SameFrom, AcceptedMatch, Refused, Kept;
    ghost var was := dst[..];
    ghost var lit := g.Text(was, op0);
    KeptPrefix(g, was, was, op0);
    OpenLiterals(g, src, t, out0, q, lit);
    op := op0;
    var match_ := op - offset;
    if g.CheckOffset() && match_ + |g.dict| < g.LowPrefix() {
      MatchRefused(g, src, t, out0, q, lit);
      return OutputError, op;
    }
    var ok := true;
    if g.directive.UsingExtDict? && match_ < g.LowPrefix() {
      ok := op + length <= g.end - LASTLITERALS;
      if ok { CopyFromDict(g, dst, op, offset, length); }
    } else {
      ok := SafeCopyMatch(dst, op, offset, length, g.end);
      if ok { TextOfCopy(g, dst[..], was, op, offset, length); }
    }
    assert dst[..op] == was[..op];
    KeptPrefix(g, dst[..], was, op);
    if !ok {
      MatchRefused(g, src, t, out0, q, lit);
      return OutputError, op;
    }
    AfterMatch(g, src, t, out0, q, lit, offset, length, ip);
    return SafeLoop, op + length;
  }

  // ---------------------------------------------------------------------
  // The machine
  // ---------------------------------------------------------------------

  function Rank(l: Label): nat {
    match l
    case FastLoop => 6
    case SafeLoop => 5
    case SafeLiteralCopy => 4
    case FastMatch => 4
    case CopyMatchLabel => 2
    case SafeMatchCopy => 1
    case OutputError => 0
    case Finished => 0
  }

  lemma SameTransitive(g: Target, src: seq<byte>, h: seq<byte>, t: nat, out0: seq<byte>, ip: nat, out: seq<byte>)
    requires SameFrom(g, src, 0, h, t, out0) && SameFrom(g, src, t, out0, ip, out)
    ensures SameFrom(g, src, 0, h, ip, out) && ip < |src|
  {
    hide Target.From;
  }

  lemma SameAtStart(g: Target, src: seq<byte>, h: seq<byte>)
    requires src != [] && g.Fits(h)
    ensures SameFrom(g, src, 0, h, 0, h)
  {
    hide Target.From;
  }

  lemma SameAtEnd(g: Target, src: seq<byte>, h: seq<byte>, t: nat, out0: seq<byte>)
    requires SameFrom(g, src, 0, h, t, out0)
    ensures t < |src| && g.Fits(h) && g.Fits(out0) && g.From(src, 0, h) == g.From(src, t, out0)
    ensures Refused(g, src, t, out0) ==> g.From(src, 0, h).None?
  {
    hide AcceptFrom;
  }

  // What holds at a label, for output at op and input at ip; t and q are where
  // the current sequence and its match field start, out0 the output then.
  ghost predicate AtLabel(g: Target, src: seq<byte>, now: seq<byte>, label_: Label, t: nat, out0: seq<byte>, q: nat,
                          ip: nat, op: nat, offset: nat, length: nat)
  {
    && t < |src| && ip <= |src| && g.low <= g.start && g.end <= |now|
    && (label_ != OutputError ==> g.start <= op <= g.end)
    && match label_
       case FastLoop => ip == t && out0 == g.Text(now, op) && op + FASTLOOP_SAFE_DISTANCE <= g.end
       case SafeLoop => ip == t && out0 == g.Text(now, op)
       case SafeLiteralCopy => t < ip && out0 == g.Text(now, op) && LiteralsKnown(g, src, t, out0, ip, length)
       case FastMatch =>
         && t < ip && op + 32 <= g.end && LiteralsDone(g, src, t, out0, ip, g.Text(now, op))
         && |out0| + FASTLOOP_SAFE_DISTANCE <= g.Base() + g.Cap()
       case CopyMatchLabel =>
         && 2 <= ip < |src| && t < ip && op + MFLIMIT <= g.end
         && OffsetKnown(g, src, t, out0, ip - 2, g.Text(now, op), offset)
       case SafeMatchCopy =>
         && t < ip && op + MFLIMIT <= g.end && MatchKnown(g, src, t, out0, q, g.Text(now, op), offset, length, ip)
       case OutputError => Refused(g, src, t, out0)
       case Finished => g.Fits(out0) && g.From(src, t, out0) == Some(g.Text(now, op))
  }

  // One jump of the machine.
  method Jump(g: Target, src: seq<byte>, dst: array<byte>, label0: Label, ghost t: nat, ghost out0: seq<byte>,
              ghost q0: nat, token0: byte, ip0: nat, op0: nat, offset0: nat, length0: nat)
    returns (label_: Label, ghost q: nat, token: byte, ip: nat, op: nat, offset: nat, length: nat)
    requires g.Ok(dst.Length) && t < |src|
    requires AtLabel(g, src, dst[..], label0, t, out0, q0, ip0, op0, offset0, length0) && token0 == src[t]
    requires label0 != OutputError && label0 != Finished
    modifies dst
    ensures Kept(g, dst[..], old(dst[..])) && token == src[t]
    ensures if label_ == FastLoop || label_ == SafeLoop then
              && g.start <= op <= g.end && (label_ == FastLoop ==> op + FASTLOOP_SAFE_DISTANCE <= g.end)
              && t < ip < |src| && SameFrom(g, src, t, out0, ip, g.Text(dst[..], op))
            else
              && AtLabel(g, src, dst[..], label_, t, out0, q, ip, op, offset, length) && Rank(label_) < Rank(label0)
  {
    hide Target.From, LiteralsDone, LiteralsKnown, OffsetKnown, MatchKnown, SameFrom, Kept, Refused;
    q, token, ip, op, offset, length := q0, token0, ip0, op0, offset0, length0;
    KeptPrefix(g, dst[..], dst[..], g.start);
    match label0 {
      case FastLoop =>
        token := src[ip];
        label_, ip, op, length := FastLiterals(g, src, dst, ip, op);
      case FastMatch =>
        q := ip;
        label_, ip, op, offset, length := FastMatchSegment(g, src, dst, t, out0, token, ip, op);
      case SafeLoop =>
        token := src[ip];
        label_, ip, op, offset, length := SafeToken(g, src, dst, ip, op);
      case SafeLiteralCopy =>
        label_, ip, op, offset := SafeLiterals(g, src, dst, t, ip, op, length);
      case CopyMatchLabel =>
        q := ip - 2;
        label_, ip, length := MatchLength(g, src, t, out0, g.Text(dst[..], op), token, ip, offset);
      case SafeMatchCopy =>
        label_, op := SafeMatchSegment(g, src, dst, t, out0, q, ip, op, offset, length);
    }
  }

  // The loop over the labels.
  method Run(g: Target, src: seq<byte>, dst: array<byte>) returns (result: int)
    requires src != [] && g.Ok(dst.Length) && g.start < g.end
    modifies dst
    ensures Kept(g, dst[..], old(dst[..])) && -|src| - 1 <= result <= g.Cap()
    ensures var r := g.From(src, 0, g.Text(old(dst[..]), g.start));
            r == if result >= 0 then Some(g.Text(dst[..], g.start + result)) else None
  {
    hide Target.From, LiteralsDone, LiteralsKnown, OffsetKnown, MatchKnown, SameFrom, Kept, Refused;
    ghost var was := dst[..];
    ghost var history := g.Text(was, g.start);
    KeptPrefix(g, was, was, g.start);
    SameAtStart(g, src, history);
    var ip: nat, op: nat, offset: nat, length: nat := 0, g.start, 0, 0;
    var token := src[0];
    var label_ := if g.end - g.start < FASTLOOP_SAFE_DISTANCE then SafeLoop else FastLoop;
    ghost var t: nat, q: nat := 0, 0;
    ghost var out0 := history;
    while label_ != OutputError && label_ != Finished
      invariant AtLabel(g, src, dst[..], label_, t, out0, q, ip, op, offset, length) && token == src[t]
      invariant SameFrom(g, src, 0, history, t, out0) && Kept(g, dst[..], was)
      decreases |src| - t, Rank(label_)
    {
      ghost var before := dst[..];
      label_, q, token, ip, op, offset, length := Jump(g, src, dst, label_, t, out0, q, token, ip, op, offset, length);
      KeptTwice(g, dst[..], before, was);
      if label_ == FastLoop || label_ == SafeLoop {
        SameTransitive(g, src, history, t, out0, ip, g.Text(dst[..], op));
        t, out0, token := ip, g.Text(dst[..], op), src[ip];
      }
    }
    SameAtEnd(g, src, history, t, out0);
    if label_ == Finished { return op - g.start; }
    return -(ip as int) - 1;
  }

  // LZ4_decompress_generic: the result is the decoded size, or negative.
  method DecompressGeneric(g: Target, src: seq<byte>, dst: array<byte>) returns (result: int)
    requires g.Ok(dst.Length)
    modifies dst
    ensures Kept(g, dst[..], old(dst[..])) && -|src| - 1 <= result <= g.Cap()
    ensures DecodeBlock(g.Layout(), src, g.Text(old(dst[..]), g.start), g.Cap()) ==
            if result >= 0 then Some(dst[g.start..g.start + result]) else None
  {
    hide AcceptFrom, Kept;
    KeptPrefix(g, dst[..], dst[..], g.start);
    if g.end == g.start {
      assert (|src| == 1 && src[0] == 0 <==> src == [0]) && dst[g.start..g.start] == [];
      return if |src| == 1 && src[0] == 0 then 0 else -1;
    }
    if |src| == 0 {
      NothingRefused(g.Layout(), g.Text(dst[..], g.start), g.Cap());
      return -1;
    }
    result := Run(g, src, dst);
    if result >= 0 { assert g.Text(dst[..], g.start + result)[g.Base()..] == dst[g.start..g.start + result]; }
  }

  // Without a history, into all of dst.
  method DecompressPlain(src: seq<byte>, dst: array<byte>) returns (result: int)
    modifies dst
    ensures result <= dst.Length
    ensures DecodeBlock(Behind, src, [], dst.Length) == if result >= 0 then Some(dst[..result]) else None
  {
    hide DecodeBlock, Kept;
    var g := Target(NoDict, 0, 0, dst.Length, []);
    assert g.Text(dst[..], 0) == [];
    result := DecompressGeneric(g, src, dst);
    if result >= 0 { assert dst[0..result] == dst[..result]; }
  }

  // LZ4_decompress_safe.  The capacity is the length of dst.
  method DecompressSafe(src: seq<byte>, dst: array<byte>) returns (result: int)
    modifies dst
    // the result is exactly what the block comes to, and dst shows it
    ensures result <= dst.Length
    ensures DecodeBlock(Behind, src, [], dst.Length) == if result >= 0 then Some(dst[..result]) else None
    // a successful result is what the block means
    ensures result >= 0 ==> Decode(src) == Some(dst[..result])
    // every block that meets the end-of-block conditions is decoded if it fits
    ensures forall out :: StrictBlock(src, out) && |out| <= dst.Length && (dst.Length == 0 ==> src == [0])
              ==> result == |out|
  {
    hide *;
    result := DecompressPlain(src, dst);
    StrictDecoded(Behind, src, dst.Length);
    if result >= 0 { PlainMeans(Behind, src, dst.Length); }
  }

  // The dictionary as a text.
  ghost function DictText(dict: array?<byte>, dictOff: nat, dictSize: nat): seq<byte>
    requires dict != null ==> dictOff + dictSize <= dict.Length
    reads dict
  {
    if dict == null then [] else dict[dictOff..dictOff + dictSize]
  }

  // LZ4_decompress_safe_usingDict: a dictionary that ends where the
  // destination starts is read in place.
  method DecompressSafeUsingDict(src: seq<byte>, dst: array<byte>, at: nat, cap: nat,
                                 dict: array?<byte>, dictOff: nat, dictSize: nat)
    returns (result: int)
    requires at + cap <= dst.Length
    requires dict != null ==> dictOff + dictSize <= dict.Length
    requires dict == null ==> dictSize == 0
    requires dict == dst ==> dictOff + dictSize <= at || at + cap <= dictOff
    modifies dst
    ensures dst[..at] == old(dst[..at]) && dst[at + cap..] == old(dst[at + cap..]) && -|src| - 1 <= result <= cap
    ensures var layout := if dict == dst && dictOff + dictSize == at then Behind else Apart;
            DecodeBlock(layout, src, old(DictText(dict, dictOff, dictSize)), cap) ==
            if result >= 0 then Some(dst[at..at + result]) else None
  {
    hide DecodeBlock;
    var g;
    if dictSize == 0 {
      g := Target(NoDict, at, at, at + cap, []);
      NoHistoryNotTorn(src, cap);
    } else if dict == dst && dictOff + dictSize == at {
      g := Target(if dictSize >= 65535 then WithPrefix64k else NoDict, dictOff, at, at + cap, []);
    } else {
      g := Target(UsingExtDict, at, at, at + cap, dict[dictOff..dictOff + dictSize]);
    }
    assert g.Text(dst[..], at) == DictText(dict, dictOff, dictSize);
    result := DecompressGeneric(g, src, dst);
  }
}
