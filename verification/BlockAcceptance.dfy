// Which blocks LZ4_decompress_generic accepts, exactly, and with what result:
// the decision at every sequence as a function, for a history that lies
// directly in front of the destination and for one that lies elsewhere.  The
// two are not treated alike by the code; the difference is pinned down here.
module BlockAcceptance {
  import opened BlockFormat

  // Where the history lies.  Behind: directly in front of the destination
  // (withPrefix64k, or noDict with a low prefix).  Apart: usingExtDict.
  datatype Layout = Behind | Apart

  // ---------------------------------------------------------------------
  // One sequence
  // ---------------------------------------------------------------------

  // The literals at t; a run of length bytes must close 15 bytes before the end.
  function AcceptedLiterals(src: seq<byte>, t: nat): (r: Length)
    requires t < |src|
    ensures r.Length? ==> t < r.next <= |src|
  {
    var l := ParseLiterals(src, t);
    if l.Length? && src[t] / 16 == RUN_MASK && l.next + RUN_MASK > |src| then NoLength else l
  }

  // The match at q; a run of length bytes must close 4 bytes before the end.
  function AcceptedMatch(src: seq<byte>, q: nat, token: byte): (r: Match)
    requires q <= |src|
    ensures r.Match? ==> q < r.next <= |src| && r.matchLen >= MINMATCH
    ensures r.Match? && token % 16 != ML_MASK ==> r.matchLen <= 18
  {
    var m := ParseMatch(src, q, token);
    if m.Match? && token % 16 == ML_MASK && m.next + LASTLITERALS - 1 > |src| then NoMatch else m
  }

  // The two-stage shortcut applies at the token at t, n bytes into the block.
  predicate ShortcutAt(src: seq<byte>, t: nat, n: int, cap: nat)
    requires t < |src|
  {
    src[t] / 16 != RUN_MASK && t + 17 < |src| && n + 32 <= cap
  }

  // In the shortcut, a short match at a distance of at least 8 is copied
  // without asking for five bytes of room after it, if all of it lies in front
  // of the destination.  k bytes of the block precede the match.
  predicate RoomWaived(layout: Layout, short: bool, token: byte, offset: nat, k: int) {
    short && token % 16 != ML_MASK && offset >= 8 && (layout == Behind || offset <= k)
  }

  function AcceptMatch(layout: Layout, src: seq<byte>, short: bool, q: nat, token: byte, lit: seq<byte>,
                       base: nat, cap: nat): (r: Step)
    requires q <= |src| && base <= |lit|
    requires short && token % 16 != ML_MASK ==> |lit| + 18 <= base + cap
    ensures r.Next? ==> q < r.ip <= |src| && |lit| <= |r.out| <= base + cap
    ensures !r.End?
  {
    match AcceptedMatch(src, q, token)
    case NoMatch => Broken
    case Match(offset, matchLen, next) =>
      var k := |lit| - base;
      if offset > |lit| then Broken
      else if !RoomWaived(layout, short, token, offset, k) && k + matchLen + LASTLITERALS > cap then Broken
      else Next(next, CopyMatch(lit, offset, matchLen))
  }

  // `out` is the history followed by what the block has produced; the block
  // starts at base, and its destination takes cap bytes.
  function AcceptStep(layout: Layout, src: seq<byte>, t: nat, out: seq<byte>, base: nat, cap: nat): (r: Step)
    requires t < |src| && base <= |out| <= base + cap
    ensures r.Next? ==> t < r.ip <= |src| && |out| <= |r.out| <= base + cap
    ensures r.End? ==> |out| <= |r.out| <= base + cap
  {
    match AcceptedLiterals(src, t)
    case NoLength => Broken
    case Length(ll, p) =>
      var n := |out| - base;
      var short := ShortcutAt(src, t, n, cap);
      if !short && (n + ll + MFLIMIT > cap || p + ll + 8 > |src|) then
        if p + ll == |src| && n + ll <= cap then End(out + src[p..p + ll]) else Broken
      else
        AcceptMatch(layout, src, short, p + ll, src[t], out + src[p..p + ll], base, cap)
  }

  // ---------------------------------------------------------------------
  // A block
  // ---------------------------------------------------------------------

  function AcceptFrom(layout: Layout, src: seq<byte>, ip: nat, out: seq<byte>, base: nat, cap: nat)
    : (r: Option<seq<byte>>)
    requires ip <= |src| && base <= |out| <= base + cap
    ensures r.Some? ==> |out| <= |r.value| <= base + cap
    decreases |src| - ip
  {
    if ip == |src| then None else
    match AcceptStep(layout, src, ip, out, base, cap)
    case Broken => None
    case End(result) => Some(result)
    case Next(ip', out') => AcceptFrom(layout, src, ip', out', base, cap)
  }

  // The result of decoding a block into cap bytes.  None: it is refused.
  function DecodeBlock(layout: Layout, src: seq<byte>, history: seq<byte>, cap: nat): (r: Option<seq<byte>>)
    ensures r.Some? ==> |r.value| <= cap
  {
    if cap == 0 then (if src == [0] then Some([]) else None)
    else
      match AcceptFrom(layout, src, 0, history, |history|, cap)
      case None => None
      case Some(all) => Some(all[|history|..])
  }

  // ---------------------------------------------------------------------
  // Everything accepted means what it decodes to
  // ---------------------------------------------------------------------

  lemma AcceptedStepMeans(layout: Layout, src: seq<byte>, t: nat, out: seq<byte>, base: nat, cap: nat)
    requires t < |src| && base <= |out| <= base + cap
    requires !AcceptStep(layout, src, t, out, base, cap).Broken?
    ensures DecodeStep(src, t, out) == AcceptStep(layout, src, t, out, base, cap)
  {
    hide CopyMatch, ReadLength, ReadOffset;
  }

  lemma {:induction false} AcceptedFromMeans(layout: Layout, src: seq<byte>, ip: nat, out: seq<byte>,
                                             base: nat, cap: nat)
    requires ip <= |src| && base <= |out| <= base + cap
    requires AcceptFrom(layout, src, ip, out, base, cap).Some?
    ensures DecodeFrom(src, ip, out) == AcceptFrom(layout, src, ip, out, base, cap)
    decreases |src| - ip
  {
    hide AcceptStep, DecodeStep;
    AcceptedStepMeans(layout, src, ip, out, base, cap);
    var r := AcceptStep(layout, src, ip, out, base, cap);
    if r.Next? { AcceptedFromMeans(layout, src, r.ip, r.out, base, cap); }
  }

  lemma {:induction false} AcceptKeeps(layout: Layout, src: seq<byte>, ip: nat, out: seq<byte>, base: nat, cap: nat)
    requires ip <= |src| && base <= |out| <= base + cap
    requires AcceptFrom(layout, src, ip, out, base, cap).Some?
    ensures AcceptFrom(layout, src, ip, out, base, cap).value[..|out|] == out
    decreases |src| - ip
  {
    hide AcceptStep;
    StepKeeps(layout, src, ip, out, base, cap);
    match AcceptStep(layout, src, ip, out, base, cap)
    case Next(ip', out') =>
      AcceptKeeps(layout, src, ip', out', base, cap);
      var all := AcceptFrom(layout, src, ip', out', base, cap).value;
      assert all[..|out|] == all[..|out'|][..|out|];
    case End(all) =>
      assert AcceptFrom(layout, src, ip, out, base, cap) == Some(all);
    case Broken =>
  }

  lemma StepKeeps(layout: Layout, src: seq<byte>, t: nat, out: seq<byte>, base: nat, cap: nat)
    requires t < |src| && base <= |out| <= base + cap
    ensures var r := AcceptStep(layout, src, t, out, base, cap);
            && (r.Next? ==> r.out[..|out|] == out)
            && (r.End? ==> r.out[..|out|] == out)
  {
    hide ParseLiterals, AcceptedMatch, RoomWaived, ShortcutAt;
    var r := AcceptStep(layout, src, t, out, base, cap);
    if r.Next? {
      var l := AcceptedLiterals(src, t);
      var lit := out + src[l.next..l.next + l.len];
      assert r.out[..|lit|] == lit;
      assert r.out[..|out|] == lit[..|out|];
    }
  }

  // The block that decodes to nothing.
  lemma NothingMeans(history: seq<byte>)
    ensures DecodeFrom([0], 0, history) == Some(history + [])
  {
    assert ParseLiterals([0], 0) == Length(0, 1);
    assert [0][1..1] == [];
    assert DecodeStep([0], 0, history) == End(history + []);
  }

  // Whatever is accepted, in either layout, is what the block means after its
  // history.
  lemma AcceptedMeans(layout: Layout, src: seq<byte>, history: seq<byte>, cap: nat)
    requires DecodeBlock(layout, src, history, cap).Some?
    ensures DecodeFrom(src, 0, history) == Some(history + DecodeBlock(layout, src, history, cap).value)
  {
    hide AcceptFrom, DecodeFrom;
    if cap == 0 {
      NothingMeans(history);
    } else {
      AcceptedFromMeans(layout, src, 0, history, |history|, cap);
      AcceptKeeps(layout, src, 0, history, |history|, cap);
      var all := AcceptFrom(layout, src, 0, history, |history|, cap).value;
      assert all == all[..|history|] + all[|history|..];
    }
  }

  // ---------------------------------------------------------------------
  // Every strict block is accepted
  // ---------------------------------------------------------------------

  ghost predicate RefOk(src: seq<byte>, ip: nat, out: seq<byte>, size: nat) {
    && ip <= |src| && |out| <= size
    && RefFrom(src, ip, out, size).Done?
    && RefFrom(src, ip, out, size).next == |src|
  }

  lemma {:induction false} RefLeavesLastLiterals(src: seq<byte>, ip: nat, out: seq<byte>, size: nat)
    requires RefOk(src, ip, out, size) && |out| + LASTLITERALS <= size
    ensures ip + 1 + LASTLITERALS <= |src|
    decreases |src| - ip
  {
    var r := RefStep(src, ip, out, size);
    if r.More? { RefLeavesLastLiterals(src, r.ip, r.out, size); }
  }

  // What acceptance by the slow decoder says about the room after a sequence.
  lemma RefOkLiterals(src: seq<byte>, t: nat, out: seq<byte>, size: nat)
    requires RefOk(src, t, out, size)
    ensures t < |src| && ParseLiterals(src, t).Length?
    ensures var l := ParseLiterals(src, t);
            && l.next + l.len <= |src| && |out| + l.len <= size
            && (src[t] / 16 == RUN_MASK ==> l.len >= RUN_MASK)
            && (l.next + l.len == |src| ==> |out| + l.len == size)
            && (l.next + l.len < |src| ==> l.next + l.len + 8 <= |src| && |out| + l.len + MFLIMIT <= size)
  {
    var r := RefStep(src, t, out, size);
    if r.More? { RefLeavesLastLiterals(src, r.ip, r.out, size); }
  }

  lemma RefOkMatch(src: seq<byte>, t: nat, out: seq<byte>, size: nat, ll: nat, p: nat)
    requires RefOk(src, t, out, size) && ParseLiterals(src, t) == Length(ll, p) && p + ll < |src|
    ensures ParseMatch(src, p + ll, src[t]).Match?
    ensures var m := ParseMatch(src, p + ll, src[t]); var lit := out + src[p..p + ll];
            && m.next + 1 + LASTLITERALS <= |src| && m.offset <= |lit|
            && |lit| + m.matchLen + LASTLITERALS <= size
            && RefOk(src, m.next, CopyMatch(lit, m.offset, m.matchLen), size)
            && RefFrom(src, t, out, size) == RefFrom(src, m.next, CopyMatch(lit, m.offset, m.matchLen), size)
  {
    hide ParseMatch, CopyMatch, ParseLiterals;
    var r := RefStep(src, t, out, size);
    RefLeavesLastLiterals(src, r.ip, r.out, size);
  }

  lemma {:induction false} StrictAcceptedFrom(layout: Layout, src: seq<byte>, t: nat, out: seq<byte>, size: nat,
                                              base: nat, cap: nat)
    requires RefOk(src, t, out, size) && base <= |out| && size <= base + cap
    ensures AcceptFrom(layout, src, t, out, base, cap) == Some(RefFrom(src, t, out, size).out)
    decreases |src| - t
  {
    hide CopyMatch, RefOk, ParseLiterals, ParseMatch, RefFrom;
    RefOkLiterals(src, t, out, size);
    var Length(ll, p) := ParseLiterals(src, t);
    if p + ll == |src| {
      StrictEnds(layout, src, t, out, size, base, cap);
    } else {
      RefOkMatch(src, t, out, size, ll, p);
      var m := ParseMatch(src, p + ll, src[t]);
      var next := CopyMatch(out + src[p..p + ll], m.offset, m.matchLen);
      assert AcceptStep(layout, src, t, out, base, cap) == Next(m.next, next);
      StrictAcceptedFrom(layout, src, m.next, next, size, base, cap);
    }
  }

  lemma StrictEnds(layout: Layout, src: seq<byte>, t: nat, out: seq<byte>, size: nat, base: nat, cap: nat)
    requires RefOk(src, t, out, size) && base <= |out| && size <= base + cap
    requires t < |src| && ParseLiterals(src, t).Length?
    requires ParseLiterals(src, t).next + ParseLiterals(src, t).len == |src|
    ensures AcceptFrom(layout, src, t, out, base, cap) == Some(RefFrom(src, t, out, size).out)
  {
    hide CopyMatch, ParseMatch;
    RefOkLiterals(src, t, out, size);
  }

  // A block that meets the end-of-block conditions behind its history is
  // accepted wherever the history lies, if what it decodes to fits.
  lemma StrictAccepted(layout: Layout, src: seq<byte>, history: seq<byte>, out: seq<byte>, cap: nat)
    requires StrictBehind(src, history, out) && |out| <= cap && (cap == 0 ==> src == [0])
    ensures DecodeBlock(layout, src, history, cap) == Some(out)
  {
    hide AcceptFrom, RefFrom;
    if cap == 0 {
      assert out == [];
    } else {
      StrictAcceptedFrom(layout, src, 0, history, |history| + |out|, |history|, cap);
    }
  }

  // Without a history.
  lemma StrictDecoded(layout: Layout, src: seq<byte>, cap: nat)
    ensures forall out :: StrictBlock(src, out) && |out| <= cap && (cap == 0 ==> src == [0])
              ==> DecodeBlock(layout, src, [], cap) == Some(out)
  {
    hide DecodeBlock, StrictBlock, StrictBehind;
    forall out | StrictBlock(src, out) && |out| <= cap && (cap == 0 ==> src == [0])
      ensures DecodeBlock(layout, src, [], cap) == Some(out)
    {
      StrictAlone(src, out);
      StrictAccepted(layout, src, [], out, cap);
    }
  }

  lemma PlainMeans(layout: Layout, src: seq<byte>, cap: nat)
    requires DecodeBlock(layout, src, [], cap).Some?
    ensures Decode(src) == DecodeBlock(layout, src, [], cap)
  {
    hide DecodeBlock, DecodeFrom;
    AcceptedMeans(layout, src, [], cap);
    assert [] + DecodeBlock(layout, src, [], cap).value == DecodeBlock(layout, src, [], cap).value;
  }

  lemma NothingRefused(layout: Layout, history: seq<byte>, cap: nat)
    requires cap > 0
    ensures DecodeBlock(layout, [], history, cap).None?
  {
  }

  // ---------------------------------------------------------------------
  // Where the two layouts part
  // ---------------------------------------------------------------------

  // The sequence at t is taken by the shortcut and its match starts in the
  // history and ends in the last five bytes of the destination.
  predicate EdgeMatch(src: seq<byte>, t: nat, out: seq<byte>, base: nat, cap: nat)
    requires t < |src| && base <= |out|
  {
    && ShortcutAt(src, t, |out| - base, cap)
    && var q := t + 1 + src[t] as int / 16;
    && var k := |out| - base + src[t] as int / 16;
    && src[t] % 16 != ML_MASK
    && 8 <= ReadOffset(src, q) && k < ReadOffset(src, q) <= base + k
    && k + src[t] as int % 16 + MINMATCH + LASTLITERALS > cap
  }

  // The block ends with such a match and the closing literals after it.
  predicate TornFrom(src: seq<byte>, t: nat, out: seq<byte>, base: nat, cap: nat)
    requires t <= |src| && base <= |out| <= base + cap
    decreases |src| - t
  {
    && t < |src|
    && var r := AcceptStep(Behind, src, t, out, base, cap);
    && r.Next? && r.ip < |src|
    && if EdgeMatch(src, t, out, base, cap) then AcceptStep(Behind, src, r.ip, r.out, base, cap).End?
       else TornFrom(src, r.ip, r.out, base, cap)
  }

  predicate Torn(src: seq<byte>, history: seq<byte>, cap: nat) {
    cap > 0 && TornFrom(src, 0, history, |history|, cap)
  }

  lemma StepsAgree(src: seq<byte>, t: nat, out: seq<byte>, base: nat, cap: nat)
    requires t < |src| && base <= |out| <= base + cap
    ensures !EdgeMatch(src, t, out, base, cap) ==>
              AcceptStep(Behind, src, t, out, base, cap) == AcceptStep(Apart, src, t, out, base, cap)
    ensures EdgeMatch(src, t, out, base, cap) ==>
              && AcceptStep(Apart, src, t, out, base, cap).Broken?
              && AcceptStep(Behind, src, t, out, base, cap).Next?
              && |AcceptStep(Behind, src, t, out, base, cap).out| + LASTLITERALS > base + cap
  {
    hide CopyMatch, ReadOffset;
  }

  // That close to the end of the destination only closing literals follow.
  lemma NearTheEnd(layout: Layout, src: seq<byte>, t: nat, out: seq<byte>, base: nat, cap: nat)
    requires t <= |src| && base <= |out| <= base + cap && |out| + MFLIMIT > base + cap
    ensures AcceptFrom(layout, src, t, out, base, cap).Some? <==>
            t < |src| && AcceptStep(layout, src, t, out, base, cap).End?
  {
    hide AcceptStep;
    if t < |src| { NoMatchNearTheEnd(layout, src, t, out, base, cap); }
  }

  lemma NoMatchNearTheEnd(layout: Layout, src: seq<byte>, t: nat, out: seq<byte>, base: nat, cap: nat)
    requires t < |src| && base <= |out| <= base + cap && |out| + MFLIMIT > base + cap
    ensures !AcceptStep(layout, src, t, out, base, cap).Next?
  {
    hide AcceptedLiterals;
  }

  lemma {:induction false} LayoutsAgreeFrom(src: seq<byte>, t: nat, out: seq<byte>, base: nat, cap: nat)
    requires t <= |src| && base <= |out| <= base + cap
    ensures TornFrom(src, t, out, base, cap) ==>
              && AcceptFrom(Behind, src, t, out, base, cap).Some?
              && |AcceptFrom(Behind, src, t, out, base, cap).value| + LASTLITERALS > base + cap
              && AcceptFrom(Apart, src, t, out, base, cap).None?
    ensures !TornFrom(src, t, out, base, cap) ==>
              AcceptFrom(Behind, src, t, out, base, cap) == AcceptFrom(Apart, src, t, out, base, cap)
    decreases |src| - t
  {
    hide AcceptStep, EdgeMatch;
    if t < |src| {
      StepsAgree(src, t, out, base, cap);
      var r := AcceptStep(Behind, src, t, out, base, cap);
      if r.Next? {
        if EdgeMatch(src, t, out, base, cap) {
          NearTheEnd(Behind, src, r.ip, r.out, base, cap);
        } else {
          LayoutsAgreeFrom(src, r.ip, r.out, base, cap);
        }
      }
    }
  }

  // The place of the history changes nothing but this: a torn block is
  // accepted behind its history and refused apart from it.
  lemma LayoutsDiffer(src: seq<byte>, history: seq<byte>, cap: nat)
    ensures DecodeBlock(Behind, src, history, cap) == DecodeBlock(Apart, src, history, cap) <==>
            !Torn(src, history, cap)
    ensures Torn(src, history, cap) ==>
              DecodeBlock(Behind, src, history, cap).Some? && DecodeBlock(Apart, src, history, cap).None?
  {
    hide AcceptFrom, TornFrom;
    if cap > 0 { LayoutsAgreeFrom(src, 0, history, |history|, cap); }
  }

  // Any layout gives the one result there is, or refuses a torn block.
  lemma AnyLayout(layout: Layout, src: seq<byte>, history: seq<byte>, cap: nat)
    ensures DecodeBlock(layout, src, history, cap).Some? ==>
              DecodeBlock(layout, src, history, cap) == DecodeBlock(Behind, src, history, cap)
    ensures DecodeBlock(layout, src, history, cap).None? ==>
              DecodeBlock(Behind, src, history, cap).None? || Torn(src, history, cap)
  {
    hide DecodeBlock, Torn;
    LayoutsDiffer(src, history, cap);
  }

  // A block that meets the end-of-block conditions is never torn.
  lemma StrictNotTorn(src: seq<byte>, history: seq<byte>, out: seq<byte>, cap: nat)
    requires StrictBehind(src, history, out) && |out| <= cap
    ensures !Torn(src, history, cap)
  {
    hide DecodeBlock, TornFrom, StrictBehind;
    if cap > 0 {
      StrictAccepted(Apart, src, history, out, cap);
      LayoutsDiffer(src, history, cap);
    }
  }

  // In particular nothing is torn that leaves five bytes of room, or has no
  // history.
  lemma TornIsFull(layout: Layout, src: seq<byte>, history: seq<byte>, cap: nat)
    requires Torn(src, history, cap)
    ensures DecodeBlock(layout, src, history, cap).Some? ==>
              |DecodeBlock(layout, src, history, cap).value| + LASTLITERALS > cap
  {
    hide AcceptFrom, TornFrom;
    LayoutsAgreeFrom(src, 0, history, |history|, cap);
  }

  lemma {:induction false} NothingBehind(src: seq<byte>, t: nat, out: seq<byte>, cap: nat)
    requires t <= |src| && |out| <= cap
    ensures !TornFrom(src, t, out, 0, cap)
    decreases |src| - t
  {
    hide AcceptStep;
    if t < |src| {
      var r := AcceptStep(Behind, src, t, out, 0, cap);
      if r.Next? { NothingBehind(src, r.ip, r.out, cap); }
    }
  }

  lemma NoHistoryNotTorn(src: seq<byte>, cap: nat)
    ensures !Torn(src, [], cap)
    ensures DecodeBlock(Behind, src, [], cap) == DecodeBlock(Apart, src, [], cap)
  {
    NothingBehind(src, 0, [], cap);
    LayoutsDiffer(src, [], cap);
  }

  // An input on which they part, with 64 KB blocks: literals x and a match that
  // repeats the last of them up to position 65504, then 14 literals y and a
  // match of 18 that starts 17 bytes before the end of the history, then no
  // closing literals.
  function TornBlock(x: seq<byte>, y: seq<byte>): seq<byte>
    requires |x| <= 65500 && |y| == 14
  {
    EncodeSequence(Sequence(x, 1, 65504 - |x|)) + EncodeSequence(Sequence(y, 65535, 18)) + EncodeLastRun([])
  }

  lemma TokenAt(src: seq<byte>, ip: nat, s: Sequence)
    requires Encodable(s) && At(src, ip, EncodeSequence(s))
    ensures ip < |src| && src[ip] == Nibble(|s.literals|) * 16 + Nibble(s.matchLen - MINMATCH)
  {
    assert src[ip] == src[ip..ip + |EncodeSequence(s)|][0];
  }

  lemma TornParts(x: seq<byte>, y: seq<byte>)
    requires |x| <= 65500 && |y| == 14
    ensures var src := TornBlock(x, y);
            var a, b := EncodeSequence(Sequence(x, 1, 65504 - |x|)), EncodeSequence(Sequence(y, 65535, 18));
            && At(src, 0, a) && At(src, |a|, b) && |b| == 17 && |src| == |a| + 18 && src[|a| + 17] == 0
  {
    hide LongLength;
    var src := TornBlock(x, y);
    var a, b := EncodeSequence(Sequence(x, 1, 65504 - |x|)), EncodeSequence(Sequence(y, 65535, 18));
    var c := EncodeLastRun([]);
    assert c == [0] && |b| == 17;
    assert src[..|a|] == a && src[|a|..|a| + |b|] == b && src[|a| + |b|..] == c;
    assert src[|a| + 17] == src[|a| + |b|..][0];
  }

  // A sequence the slow decoder goes on after is accepted in either layout,
  // well before the end of the block.
  lemma AcceptedWithRoom(layout: Layout, src: seq<byte>, t: nat, out: seq<byte>, size: nat, base: nat, cap: nat)
    requires t < |src| && base <= |out| <= size <= base + cap
    requires RefStep(src, t, out, size).More? && RefStep(src, t, out, size).ip + RUN_MASK <= |src|
    ensures AcceptStep(layout, src, t, out, base, cap) ==
            Next(RefStep(src, t, out, size).ip, RefStep(src, t, out, size).out)
  {
    hide ParseLiterals, CopyMatch, ShortcutAt, RoomWaived, AcceptedLiterals, AcceptedMatch, ReadLength, ReadOffset;
    var l := ParseLiterals(src, t);
    EarlyLiterals(src, t);
    EarlyMatch(src, l.next + l.len, src[t]);
  }

  lemma EarlyLiterals(src: seq<byte>, t: nat)
    requires t < |src| && ParseLiterals(src, t).Length? && ParseLiterals(src, t).next + RUN_MASK <= |src|
    ensures AcceptedLiterals(src, t) == ParseLiterals(src, t)
  {
    hide ParseLiterals;
  }

  lemma EarlyMatch(src: seq<byte>, q: nat, token: byte)
    requires q <= |src| && ParseMatch(src, q, token).Match? && ParseMatch(src, q, token).next + 4 <= |src|
    ensures AcceptedMatch(src, q, token) == ParseMatch(src, q, token)
  {
    hide ParseMatch;
  }

  // The second is one the shortcut takes, and nothing but a token follows it.
  lemma TornSecond(src: seq<byte>, y: seq<byte>, t: nat, out: seq<byte>, base: nat)
    requires |y| == 14 && t + 18 == |src|
    requires At(src, t, EncodeSequence(Sequence(y, 65535, 18))) && |EncodeSequence(Sequence(y, 65535, 18))| == 17
    requires src[t + 17] == 0 && |out| == base + 65504 && base == 65536
    ensures TornFrom(src, t, out, base, 65536)
  {
    hide At, EncodeSequence, CopyMatch, ReadOffset;
    var p := SequenceLayout(src, t, Sequence(y, 65535, 18));
    TokenAt(src, t, Sequence(y, 65535, 18));
    assert EdgeMatch(src, t, out, base, 65536);
    StepsAgree(src, t, out, base, 65536);
    var r := AcceptStep(Behind, src, t, out, base, 65536);
    assert r.ip == t + 17;
    assert ParseLiterals(src, t + 17) == Length(0, t + 18);
  }

  lemma TornInput(x: seq<byte>, y: seq<byte>, history: seq<byte>)
    requires |x| <= 65500 && |y| == 14 && |history| == 65536
    ensures DecodeBlock(Behind, TornBlock(x, y), history, 65536).Some?
    ensures DecodeBlock(Apart, TornBlock(x, y), history, 65536).None?
  {
    hide At, EncodeSequence, AcceptStep, RefStep, CopyMatch, EncodeLastRun, LongLength, EdgeMatch;
    var src := TornBlock(x, y);
    TornParts(x, y);
    RefSequence(src, 0, history, Sequence(x, 1, 65504 - |x|), |history| + 65536);
    AcceptedWithRoom(Behind, src, 0, history, |history| + 65536, |history|, 65536);
    var t, out := |src| - 18, CopyMatch(history + x, 1, 65504 - |x|);
    TornSecond(src, y, t, out, |history|);
    if EdgeMatch(src, 0, history, |history|, 65536) { StepsAgree(src, 0, history, |history|, 65536); }
    LayoutsDiffer(src, history, 65536);
  }

  // ---------------------------------------------------------------------
  // Only the last 64 KB of the history matter
  // ---------------------------------------------------------------------

  lemma {:induction false} CopyBehind(front: seq<byte>, out: seq<byte>, offset: nat, n: nat)
    requires offset <= |out|
    ensures CopyMatch(front + out, offset, n) == front + CopyMatch(out, offset, n)
    decreases n
  {
    if n > 0 {
      var b: byte := if offset == 0 then 0 else out[|out| - offset];
      assert offset > 0 ==> (front + out)[|front + out| - offset] == b;
      assert front + out + [b] == front + (out + [b]);
      CopyBehind(front, out + [b], offset, n - 1);
    }
  }

  function Ahead(front: seq<byte>, r: Step): Step {
    match r
    case Broken => Broken
    case End(out) => End(front + out)
    case Next(ip, out) => Next(ip, front + out)
  }

  lemma StepAhead(layout: Layout, src: seq<byte>, t: nat, front: seq<byte>, out: seq<byte>, base: nat, cap: nat)
    requires t < |src| && base <= |out| <= base + cap && DISTANCE_MAX <= base
    ensures AcceptStep(layout, src, t, front + out, |front| + base, cap) ==
            Ahead(front, AcceptStep(layout, src, t, out, base, cap))
  {
    hide CopyMatch, ParseLiterals;
    var l := AcceptedLiterals(src, t);
    if l.Length? && l.next + l.len <= |src| {
      var lit := out + src[l.next..l.next + l.len];
      assert front + out + src[l.next..l.next + l.len] == front + lit;
      var m := AcceptedMatch(src, l.next + l.len, src[t]);
      if m.Match? { CopyBehind(front, lit, m.offset, m.matchLen); }
    }
  }

  lemma {:induction false} FromAhead(layout: Layout, src: seq<byte>, t: nat, front: seq<byte>, out: seq<byte>,
                                     base: nat, cap: nat)
    requires t <= |src| && base <= |out| <= base + cap && DISTANCE_MAX <= base
    ensures AcceptFrom(layout, src, t, front + out, |front| + base, cap) ==
            match AcceptFrom(layout, src, t, out, base, cap) case None => None case Some(x) => Some(front + x)
    decreases |src| - t
  {
    hide AcceptStep;
    if t < |src| {
      StepAhead(layout, src, t, front, out, base, cap);
      var r := AcceptStep(layout, src, t, out, base, cap);
      if r.Next? { FromAhead(layout, src, r.ip, front, r.out, base, cap); }
    }
  }

  // What lies further back than the longest distance is never looked at.
  lemma OnlyTheWindowMatters(layout: Layout, src: seq<byte>, front: seq<byte>, history: seq<byte>, cap: nat)
    requires DISTANCE_MAX <= |history|
    ensures DecodeBlock(layout, src, front + history, cap) == DecodeBlock(layout, src, history, cap)
  {
    hide AcceptFrom;
    if cap > 0 {
      FromAhead(layout, src, 0, front, history, |history|, cap);
      var r := AcceptFrom(layout, src, 0, history, |history|, cap);
      if r.Some? { assert (front + r.value)[|front + history|..] == r.value[|history|..]; }
    }
  }

  // A block that is strict behind a history is strict behind a longer one.
  lemma {:induction false} RefAhead(src: seq<byte>, t: nat, front: seq<byte>, out: seq<byte>, size: nat)
    requires RefOk(src, t, out, size)
    ensures RefFrom(src, t, front + out, |front| + size) == Done(front + RefFrom(src, t, out, size).out, |src|)
    decreases |src| - t
  {
    hide CopyMatch, ParseLiterals, ParseMatch, RefFrom, RefOk;
    RefOkLiterals(src, t, out, size);
    var l := ParseLiterals(src, t);
    var lit := out + src[l.next..l.next + l.len];
    assert front + out + src[l.next..l.next + l.len] == front + lit;
    if l.next + l.len == |src| {
      RefAheadEnds(src, t, front, out, size);
    } else {
      RefOkMatch(src, t, out, size, l.len, l.next);
      var m := ParseMatch(src, l.next + l.len, src[t]);
      CopyBehind(front, lit, m.offset, m.matchLen);
      RefAhead(src, m.next, front, CopyMatch(lit, m.offset, m.matchLen), size);
      RefAheadStep(src, t, front, out, size);
    }
  }

  // The closing literals x end the slow decoder.
  lemma RefEndsHere(src: seq<byte>, t: nat, out: seq<byte>, x: seq<byte>, p: nat, size: nat)
    requires t < |src| && ParseLiterals(src, t) == Length(|x|, p) && p + |x| == |src| && src[p..p + |x|] == x
    requires size == |out| + |x|
    ensures RefFrom(src, t, out, size) == Done(out + x, |src|)
  {
    hide CopyMatch, ParseMatch, ParseLiterals;
  }

  lemma RefAheadEnds(src: seq<byte>, t: nat, front: seq<byte>, out: seq<byte>, size: nat)
    requires RefOk(src, t, out, size) && t < |src| && ParseLiterals(src, t).Length?
    requires ParseLiterals(src, t).next + ParseLiterals(src, t).len == |src|
    ensures RefFrom(src, t, front + out, |front| + size) == Done(front + RefFrom(src, t, out, size).out, |src|)
  {
    hide RefFrom, RefOk, ParseLiterals;
    var p := ParseLiterals(src, t).next;
    var x := src[p..p + ParseLiterals(src, t).len];
    RefOkLiterals(src, t, out, size);
    RefEndsHere(src, t, out, x, p, size);
    RefEndsHere(src, t, front + out, x, p, |front| + size);
    Associates(front, out, x);
  }

  lemma Associates(a: seq<byte>, b: seq<byte>, c: seq<byte>)
    ensures a + b + c == a + (b + c)
  {
  }

  lemma RefAheadStep(src: seq<byte>, t: nat, front: seq<byte>, out: seq<byte>, size: nat)
    requires RefOk(src, t, out, size) && t < |src| && ParseLiterals(src, t).Length?
    requires ParseLiterals(src, t).next + ParseLiterals(src, t).len < |src|
    ensures var l := ParseLiterals(src, t); var m := ParseMatch(src, l.next + l.len, src[t]);
            && m.Match? && m.offset <= |out| + l.len && |out| + l.len + m.matchLen <= size
            && RefFrom(src, t, front + out, |front| + size) ==
               RefFrom(src, m.next, CopyMatch(front + out + src[l.next..l.next + l.len], m.offset, m.matchLen),
                       |front| + size)
  {
    hide CopyMatch, ParseMatch, ParseLiterals;
    var l := ParseLiterals(src, t);
    RefOkMatch(src, t, out, size, l.len, l.next);
    assert RefStep(src, t, out, size).More?;
  }

  lemma StrictWiden(block: seq<byte>, front: seq<byte>, history: seq<byte>, out: seq<byte>)
    requires StrictBehind(block, history, out)
    ensures StrictBehind(block, front + history, out)
  {
    hide RefFrom;
    RefAhead(block, 0, front, history, |history| + |out|);
    assert front + (history + out) == front + history + out;
  }
}
