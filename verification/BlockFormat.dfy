// The LZ4 block format: what a block of bytes means, what an encoder may emit,
// and why the two agree.  Everything here is a function of values; the
// in-place encoders and decoders are proved against it.
module BlockFormat {
  type byte = b: int | 0 <= b < 256

  datatype Option<+T> = None | Some(value: T)

  // A length field: its value and the position after it.
  datatype Length = NoLength | Length(len: nat, next: nat)

  // A match field: offset, match length, and the position after it.
  datatype Match = NoMatch | Match(offset: nat, matchLen: nat, next: nat)

  const MINMATCH := 4
  const LASTLITERALS := 5
  const MFLIMIT := 12
  const RUN_MASK := 15
  const ML_MASK := 15
  const DISTANCE_MAX := 65535

  // ---------------------------------------------------------------------
  // Decoding
  // ---------------------------------------------------------------------

  // A run of 255s closed by a smaller byte; yields its sum and the position
  // after it.
  function ReadLongLength(src: seq<byte>, ip: nat): (r: Length)
    requires ip <= |src|
    ensures r.Length? ==> ip < r.next <= |src|
    decreases |src| - ip
  {
    if ip == |src| then NoLength
    else if src[ip] < 255 then Length(src[ip], ip + 1)
    else
      match ReadLongLength(src, ip + 1)
      case NoLength => NoLength
      case Length(len, next) => Length(255 + len, next)
  }

  function ReadLength(src: seq<byte>, ip: nat, nibble: nat): (r: Length)
    requires ip <= |src|
    ensures r.Length? ==> ip <= r.next <= |src|
  {
    if nibble != 15 then Length(nibble, ip)
    else
      match ReadLongLength(src, ip)
      case NoLength => NoLength
      case Length(len, next) => Length(15 + len, next)
  }

  function ReadOffset(src: seq<byte>, ip: nat): (r: nat)
    requires ip + 2 <= |src|
    ensures r <= DISTANCE_MAX
  {
    src[ip] as int + 256 * src[ip + 1] as int
  }

  // Appends n bytes, each equal to the one `offset` positions before it.
  // Offset 0 is not a legal offset; the decoder answers it with zero bytes.
  function CopyMatch(out: seq<byte>, offset: nat, n: nat): (r: seq<byte>)
    requires offset <= |out|
    ensures |r| == |out| + n
    ensures r[..|out|] == out
    decreases n
  {
    if n == 0 then out
    else CopyMatch(out + [if offset == 0 then 0 else out[|out| - offset]], offset, n - 1)
  }

  // The literal length announced at ip, and where the literals start.
  function ParseLiterals(src: seq<byte>, ip: nat): (r: Length)
    requires ip < |src|
    ensures r.Length? ==> ip < r.next <= |src|
  {
    ReadLength(src, ip + 1, src[ip] / 16)
  }

  // The offset and match length found at ip under a given token.
  function ParseMatch(src: seq<byte>, ip: nat, token: byte): (r: Match)
    requires ip <= |src|
    ensures r.Match? ==> ip < r.next <= |src| && r.matchLen >= MINMATCH
  {
    if ip + 2 > |src| then NoMatch else
    match ReadLength(src, ip + 2, token % 16)
    case NoLength => NoMatch
    case Length(ml, next) => Match(ReadOffset(src, ip), ml + MINMATCH, next)
  }

  // One sequence: either the block is broken, or it ends here, or decoding
  // goes on after a match.
  datatype Step = Broken | End(out: seq<byte>) | Next(ip: nat, out: seq<byte>)

  function DecodeStep(src: seq<byte>, ip: nat, out: seq<byte>): (r: Step)
    requires ip < |src|
    ensures r.Next? ==> ip < r.ip <= |src|
  {
    match ParseLiterals(src, ip)
    case NoLength => Broken
    case Length(ll, p) =>
      if p + ll > |src| then Broken
      else if p + ll == |src| then End(out + src[p..p + ll])
      else
        match ParseMatch(src, p + ll, src[ip])
        case NoMatch => Broken
        case Match(offset, matchLen, next) =>
          if offset > |out| + ll then Broken
          else Next(next, CopyMatch(out + src[p..p + ll], offset, matchLen))
  }

  // What a block means when nothing is asked of it but that every read stays
  // inside it and inside the bytes already produced.
  function DecodeFrom(src: seq<byte>, ip: nat, out: seq<byte>): Option<seq<byte>>
    requires ip <= |src|
    decreases |src| - ip
  {
    if ip == |src| then None else
    match DecodeStep(src, ip, out)
    case Broken => None
    case End(result) => Some(result)
    case Next(ip', out') => DecodeFrom(src, ip', out')
  }

  function Decode(src: seq<byte>): Option<seq<byte>> {
    DecodeFrom(src, 0, [])
  }

  // The byte-by-byte reference decoder, which knows the decoded size and
  // enforces the end-of-block conditions.  Malformed stands for inputs it
  // presumes away: a source that ends too early, or a zero offset.
  datatype RefResult = Done(out: seq<byte>, next: nat) | Reject | Malformed | More(ip: nat, out: seq<byte>)

  function RefStep(src: seq<byte>, ip: nat, out: seq<byte>, size: nat): (r: RefResult)
    requires ip < |src| && |out| <= size
    ensures r.Done? ==> |r.out| == size && ip < r.next <= |src|
    ensures r.More? ==> ip < r.ip <= |src| && |r.out| <= size
  {
    match ParseLiterals(src, ip)
    case NoLength => Malformed
    case Length(ll, p) =>
      if size - |out| < ll then Reject
      else if p + ll > |src| then Malformed
      else
        var lit := out + src[p..p + ll];
        if size - |lit| < MFLIMIT then
          if |lit| == size then Done(lit, p + ll) else Reject
        else
          match ParseMatch(src, p + ll, src[ip])
          case NoMatch => Malformed
          case Match(offset, matchLen, next) =>
            if offset == 0 then Malformed
            else if size - |lit| < matchLen then Reject
            else if offset > |lit| then Reject
            else if size - |lit| - matchLen < LASTLITERALS then Reject
            else More(next, CopyMatch(lit, offset, matchLen))
  }

  function RefFrom(src: seq<byte>, ip: nat, out: seq<byte>, size: nat): (r: RefResult)
    requires ip <= |src| && |out| <= size
    ensures !r.More?
    ensures r.Done? ==> |r.out| == size && ip < r.next <= |src|
    decreases |src| - ip
  {
    if ip == |src| then Malformed
    else
      var r := RefStep(src, ip, out, size);
      if r.More? then RefFrom(src, r.ip, r.out, size) else r
  }

  // A block meets the end-of-block conditions for `out` when the reference
  // decoder, told the size, produces it and consumes the whole block; behind a
  // history, when it does so with the history in front.
  ghost predicate StrictBehind(src: seq<byte>, history: seq<byte>, out: seq<byte>) {
    RefFrom(src, 0, history, |history| + |out|) == Done(history + out, |src|)
  }

  ghost predicate StrictBlock(src: seq<byte>, out: seq<byte>) {
    RefFrom(src, 0, [], |out|) == Done(out, |src|)
  }

  lemma StrictAlone(src: seq<byte>, out: seq<byte>)
    ensures StrictBehind(src, [], out) <==> StrictBlock(src, out)
  {
    assert [] + out == out;
  }

  lemma {:induction false} RefImpliesDecodeFrom(src: seq<byte>, ip: nat, out: seq<byte>, size: nat)
    requires ip <= |src| && |out| <= size
    requires RefFrom(src, ip, out, size).Done?
    requires RefFrom(src, ip, out, size).next == |src|
    ensures DecodeFrom(src, ip, out) == Some(RefFrom(src, ip, out, size).out)
    decreases |src| - ip
  {
    var r := RefStep(src, ip, out, size);
    var Length(ll, p) := ParseLiterals(src, ip);
    if r.More? {
      RefImpliesDecodeFrom(src, r.ip, r.out, size);
    } else {
      assert src[p..p + ll] == src[p..];
    }
  }

  // ---------------------------------------------------------------------
  // Match copies
  // ---------------------------------------------------------------------

  lemma {:induction false} CopyMatchAt(out: seq<byte>, offset: nat, n: nat, i: nat)
    requires offset <= |out| && |out| <= i < |out| + n
    ensures CopyMatch(out, offset, n)[i] ==
            if offset == 0 then 0 else CopyMatch(out, offset, n)[i - offset]
    decreases n
  {
    var next := out + [if offset == 0 then 0 else out[|out| - offset]];
    var r := CopyMatch(next, offset, n - 1);
    if i > |out| {
      CopyMatchAt(next, offset, n - 1, i);
    } else {
      assert r[..|next|] == next;
      assert r[i] == r[..|next|][i];
      if offset > 0 { assert r[i - offset] == r[..|next|][i - offset]; }
    }
  }

  // The copy is determined by: it extends `out` and repeats with the offset.
  ghost predicate RepeatsAt(r: seq<byte>, offset: nat, i: nat)
    requires offset <= i < |r|
  {
    r[i] == if offset == 0 then 0 else r[i - offset]
  }

  ghost predicate Repeats(r: seq<byte>, base: nat, offset: nat)
    requires offset <= base
  {
    forall i {:trigger RepeatsAt(r, offset, i)} :: base <= i < |r| ==> RepeatsAt(r, offset, i)
  }

  // The bytes from lo to hi repeat those `offset` before them: a match.
  ghost predicate MatchRange(text: seq<byte>, lo: nat, hi: nat, offset: nat) {
    && 0 < offset <= lo && hi <= |text|
    && forall i {:trigger RepeatsAt(text, offset, i)} :: lo <= i < hi ==> RepeatsAt(text, offset, i)
  }

  lemma MatchRangeAt(text: seq<byte>, lo: nat, hi: nat, offset: nat, i: nat)
    requires MatchRange(text, lo, hi, offset) && lo <= i < hi
    ensures text[i] == text[i - offset]
  {
    assert RepeatsAt(text, offset, i);
  }

  lemma MatchRangeWithin(text: seq<byte>, lo: nat, hi: nat, offset: nat, lo': nat, hi': nat)
    requires MatchRange(text, lo, hi, offset) && lo <= lo' && hi' <= hi
    ensures MatchRange(text, lo', hi', offset)
  {
  }

  // Copying a match of the text rebuilds the text.
  lemma CopyRebuilds(text: seq<byte>, lo: nat, hi: nat, offset: nat)
    requires lo <= hi && MatchRange(text, lo, hi, offset)
    ensures CopyMatch(text[..lo], offset, hi - lo) == text[..hi]
  {
    var r := text[..hi];
    forall i | lo <= i < hi ensures RepeatsAt(r, offset, i) {
      assert RepeatsAt(text, offset, i);
    }
    assert r[..lo] == text[..lo];
    CopyMatchUnique(text[..lo], offset, r);
  }

  lemma CopyMatchRepeats(out: seq<byte>, offset: nat, n: nat)
    requires offset <= |out|
    ensures Repeats(CopyMatch(out, offset, n), |out|, offset)
  {
    forall i | |out| <= i < |out| + n
      ensures RepeatsAt(CopyMatch(out, offset, n), offset, i)
    {
      CopyMatchAt(out, offset, n, i);
    }
  }

  lemma {:induction false} CopyMatchUnique(out: seq<byte>, offset: nat, r: seq<byte>)
    requires offset <= |out| <= |r|
    requires r[..|out|] == out && Repeats(r, |out|, offset)
    ensures r == CopyMatch(out, offset, |r| - |out|)
    decreases |r| - |out|
  {
    if |r| > |out| {
      assert RepeatsAt(r, offset, |out|);
      var next := out + [if offset == 0 then 0 else out[|out| - offset]];
      assert offset > 0 ==> r[|out| - offset] == r[..|out|][|out| - offset];
      assert r[..|next|] == next;
      CopyMatchUnique(next, offset, r);
    }
  }

  // A shorter copy is a prefix of a longer one.
  lemma CopyMatchPrefix(out: seq<byte>, offset: nat, m: nat, n: nat)
    requires offset <= |out| && m <= n
    ensures CopyMatch(out, offset, n)[..|out| + m] == CopyMatch(out, offset, m)
  {
    var r := CopyMatch(out, offset, n);
    var short := r[..|out| + m];
    CopyMatchRepeats(out, offset, n);
    forall i | |out| <= i < |short| ensures RepeatsAt(short, offset, i) {
      assert RepeatsAt(r, offset, i);
    }
    assert short[..|out|] == r[..|out|];
    CopyMatchUnique(out, offset, short);
  }

  // A text that repeats with `offset` repeats with every multiple of it, from
  // the point where all the intermediate positions are inside the repetition.
  lemma {:induction false} RepeatsMultiple(r: seq<byte>, base: nat, offset: nat, k: nat, i: nat)
    requires 0 < offset <= base && Repeats(r, base, offset)
    requires k > 0 && base + (k - 1) * offset <= i < |r|
    ensures 0 <= i - k * offset && r[i] == r[i - k * offset]
    decreases k
  {
    assert RepeatsAt(r, offset, i) by { assert 0 <= (k - 1) * offset; }
    if k > 1 {
      assert (k - 1) * offset == (k - 2) * offset + offset;
      assert k * offset == (k - 1) * offset + offset;
      RepeatsMultiple(r, base, offset, k - 1, i - offset);
    }
  }

  // ---------------------------------------------------------------------
  // Encoding
  // ---------------------------------------------------------------------

  datatype Sequence = Sequence(literals: seq<byte>, offset: nat, matchLen: nat)

  function LongLength(n: nat): (r: seq<byte>)
    ensures |r| == n / 255 + 1
  {
    if n < 255 then [n] else [255] + LongLength(n - 255)
  }

  function Extension(n: nat): (r: seq<byte>) {
    if n < 15 then [] else LongLength(n - 15)
  }

  function Nibble(n: nat): (r: nat)
    ensures r < 16
  {
    if n < 15 then n else 15
  }

  predicate Encodable(s: Sequence) {
    0 < s.offset <= DISTANCE_MAX && s.matchLen >= MINMATCH
  }

  // A token, the rest of the literal length, and the literals.
  function LiteralPart(literals: seq<byte>, matchNibble: nat): seq<byte>
    requires matchNibble < 16
  {
    [Nibble(|literals|) * 16 + matchNibble] + (Extension(|literals|) + literals)
  }

  // The offset and the rest of the match length.
  function MatchPart(offset: nat, matchLen: nat): seq<byte>
    requires 0 < offset <= DISTANCE_MAX && matchLen >= MINMATCH
  {
    [offset % 256, offset / 256] + Extension(matchLen - MINMATCH)
  }

  function EncodeSequence(s: Sequence): seq<byte>
    requires Encodable(s)
  {
    LiteralPart(s.literals, Nibble(s.matchLen - MINMATCH)) + MatchPart(s.offset, s.matchLen)
  }

  function EncodeLastRun(literals: seq<byte>): seq<byte> {
    LiteralPart(literals, 0)
  }

  predicate Encodables(ss: seq<Sequence>)
    decreases |ss|
  {
    ss == [] || (Encodables(ss[..|ss| - 1]) && Encodable(ss[|ss| - 1]))
  }

  // Every match refers to bytes already produced or to the history before them.
  predicate WellFormed(ss: seq<Sequence>, history: seq<byte>): (r: bool)
    ensures r ==> Encodables(ss)
    decreases |ss|, 0
  {
    ss == [] ||
    var init, s := ss[..|ss| - 1], ss[|ss| - 1];
    WellFormed(init, history) && Encodable(s) && s.offset <= |Output(init, history)| + |s.literals|
  }

  // The history followed by what the sequences stand for.
  function Output(ss: seq<Sequence>, history: seq<byte>): (r: seq<byte>)
    requires WellFormed(ss, history)
    ensures |history| <= |r|
    decreases |ss|, 1
  {
    if ss == [] then history
    else
      var init, s := ss[..|ss| - 1], ss[|ss| - 1];
      CopyMatch(Output(init, history) + s.literals, s.offset, s.matchLen)
  }

  function EncodeAll(ss: seq<Sequence>): seq<byte>
    requires Encodables(ss)
    decreases |ss|
  {
    if ss == [] then [] else EncodeAll(ss[..|ss| - 1]) + EncodeSequence(ss[|ss| - 1])
  }

  function EncodeBlock(ss: seq<Sequence>, last: seq<byte>): seq<byte>
    requires Encodables(ss)
  {
    EncodeAll(ss) + EncodeLastRun(last)
  }

  // The parsing restrictions, stated on the last match alone: the block ends
  // with at least five literals and the last match starts at least twelve
  // bytes before the end.
  predicate EndConditions(ss: seq<Sequence>, last: seq<byte>) {
    ss == [] ||
    (|last| >= LASTLITERALS && ss[|ss| - 1].matchLen + |last| >= MFLIMIT)
  }

  // ---------------------------------------------------------------------
  // Round trip
  // ---------------------------------------------------------------------

  ghost predicate At(src: seq<byte>, ip: nat, part: seq<byte>) {
    ip + |part| <= |src| && src[ip..ip + |part|] == part
  }

  lemma AtConcat(src: seq<byte>, ip: nat, a: seq<byte>, b: seq<byte>)
    requires At(src, ip, a + b)
    ensures At(src, ip, a) && At(src, ip + |a|, b)
  {
    var whole := src[ip..ip + |a + b|];
    assert src[ip..ip + |a|] == whole[..|a|] == a;
    assert src[ip + |a|..ip + |a| + |b|] == whole[|a|..] == b;
  }

  lemma {:induction false} ReadLongLengthAt(src: seq<byte>, ip: nat, n: nat)
    requires At(src, ip, LongLength(n))
    ensures ReadLongLength(src, ip) == Length(n, ip + n / 255 + 1)
    decreases n
  {
    assert src[ip] == src[ip..ip + |LongLength(n)|][0];
    if n >= 255 {
      AtConcat(src, ip, [255], LongLength(n - 255));
      ReadLongLengthAt(src, ip + 1, n - 255);
    }
  }

  lemma ReadLengthAt(src: seq<byte>, ip: nat, n: nat)
    requires At(src, ip, Extension(n))
    ensures ReadLength(src, ip, Nibble(n)) == Length(n, ip + |Extension(n)|)
  {
    if n >= 15 { ReadLongLengthAt(src, ip, n - 15); }
  }

  lemma LiteralPartLayout(src: seq<byte>, ip: nat, literals: seq<byte>, matchNibble: nat)
    requires matchNibble < 16
    requires At(src, ip, LiteralPart(literals, matchNibble))
    ensures src[ip] % 16 == matchNibble
    ensures var p := ip + 1 + |Extension(|literals|)|;
            && ReadLength(src, ip + 1, src[ip] / 16) == Length(|literals|, p)
            && p + |literals| == ip + |LiteralPart(literals, matchNibble)|
            && src[p..p + |literals|] == literals
  {
    hide ReadLength, Extension;
    var token: byte := Nibble(|literals|) * 16 + matchNibble;
    AtConcat(src, ip, [token], Extension(|literals|) + literals);
    assert src[ip] == src[ip..ip + 1][0] == token;
    AtConcat(src, ip + 1, Extension(|literals|), literals);
    ReadLengthAt(src, ip + 1, |literals|);
  }

  lemma MatchPartLayout(src: seq<byte>, ip: nat, offset: nat, matchLen: nat)
    requires 0 < offset <= DISTANCE_MAX && matchLen >= MINMATCH
    requires At(src, ip, MatchPart(offset, matchLen))
    ensures ip + 2 <= |src| && ReadOffset(src, ip) == offset
    ensures ReadLength(src, ip + 2, Nibble(matchLen - MINMATCH)) ==
            Length(matchLen - MINMATCH, ip + |MatchPart(offset, matchLen)|)
  {
    var field: seq<byte> := [offset % 256, offset / 256];
    AtConcat(src, ip, field, Extension(matchLen - MINMATCH));
    assert src[ip] == src[ip..ip + 2][0] && src[ip + 1] == src[ip..ip + 2][1];
    ReadLengthAt(src, ip + 2, matchLen - MINMATCH);
  }

  lemma SequenceLayout(src: seq<byte>, ip: nat, s: Sequence) returns (p: nat)
    requires Encodable(s) && At(src, ip, EncodeSequence(s))
    ensures 0 < s.offset && ip < |src| && ParseLiterals(src, ip) == Length(|s.literals|, p)
    ensures p + |s.literals| < |src| && src[p..p + |s.literals|] == s.literals
    ensures p + |s.literals| + 2 <= ip + |EncodeSequence(s)|
    ensures ParseMatch(src, p + |s.literals|, src[ip]) ==
            Match(s.offset, s.matchLen, ip + |EncodeSequence(s)|)
  {
    hide At, LiteralPart, MatchPart, Extension, ReadLength, ReadOffset;
    var lit := LiteralPart(s.literals, Nibble(s.matchLen - MINMATCH));
    AtConcat(src, ip, lit, MatchPart(s.offset, s.matchLen));
    LiteralPartLayout(src, ip, s.literals, Nibble(s.matchLen - MINMATCH));
    MatchPartLayout(src, ip + |lit|, s.offset, s.matchLen);
    p := ip + 1 + |Extension(|s.literals|)|;
  }

  // One step of either decoder, from what the parse found.
  lemma DecodeStepAt(src: seq<byte>, ip: nat, out: seq<byte>, lits: seq<byte>, p: nat, offset: nat, ml: nat, next: nat)
    requires ip < |src| && ParseLiterals(src, ip) == Length(|lits|, p)
    requires p + |lits| < |src| && ParseMatch(src, p + |lits|, src[ip]) == Match(offset, ml, next)
    requires src[p..p + |lits|] == lits && offset <= |out| + |lits|
    ensures DecodeStep(src, ip, out) == Next(next, CopyMatch(out + lits, offset, ml))
  {
    hide CopyMatch, ParseLiterals, ParseMatch, ReadLength, ReadOffset;
  }

  lemma RefStepAt(src: seq<byte>, ip: nat, out: seq<byte>, n: nat, p: nat, offset: nat, ml: nat, next: nat, size: nat)
    requires ip < |src| && ParseLiterals(src, ip) == Length(n, p)
    requires p + n < |src| && ParseMatch(src, p + n, src[ip]) == Match(offset, ml, next)
    requires 0 < offset <= |out| + n && |out| + n + MFLIMIT <= size && |out| + n + ml + LASTLITERALS <= size
    ensures RefStep(src, ip, out, size) == More(next, CopyMatch(out + src[p..p + n], offset, ml))
  {
    hide CopyMatch, ParseLiterals, ParseMatch, ReadLength, ReadOffset;
  }

  // One encoded sequence is decoded to its literals and its match.
  lemma DecodeSequence(src: seq<byte>, ip: nat, out: seq<byte>, s: Sequence)
    requires Encodable(s) && s.offset <= |out| + |s.literals|
    requires At(src, ip, EncodeSequence(s))
    ensures ip < |src|
    ensures DecodeStep(src, ip, out) ==
            Next(ip + |EncodeSequence(s)|, CopyMatch(out + s.literals, s.offset, s.matchLen))
  {
    hide *;
    var p := SequenceLayout(src, ip, s);
    DecodeStepAt(src, ip, out, s.literals, p, s.offset, s.matchLen, ip + |EncodeSequence(s)|);
  }

  lemma RefSequence(src: seq<byte>, ip: nat, out: seq<byte>, s: Sequence, size: nat)
    requires Encodable(s) && s.offset <= |out| + |s.literals|
    requires At(src, ip, EncodeSequence(s))
    requires |out| + |s.literals| + MFLIMIT <= size
    requires |out| + |s.literals| + s.matchLen + LASTLITERALS <= size
    ensures ip < |src|
    ensures RefStep(src, ip, out, size) ==
            More(ip + |EncodeSequence(s)|, CopyMatch(out + s.literals, s.offset, s.matchLen))
  {
    hide *;
    var p := SequenceLayout(src, ip, s);
    var n, ml, next := |s.literals|, s.matchLen, ip + |EncodeSequence(s)|;
    assert ml + |out| + n + LASTLITERALS <= size;
    RefStepAt(src, ip, out, n, p, s.offset, ml, next, size);
  }

  // The closing literals end both decoders.
  lemma LastRunEnds(src: seq<byte>, ip: nat, out: seq<byte>, last: seq<byte>)
    requires At(src, ip, EncodeLastRun(last)) && ip + |EncodeLastRun(last)| == |src|
    ensures ip < |src|
    ensures DecodeStep(src, ip, out) == End(out + last)
    ensures RefStep(src, ip, out, |out| + |last|) == Done(out + last, |src|)
  {
    hide At, LiteralPart, ParseMatch, ReadLength;
    LiteralPartLayout(src, ip, last, 0);
    assert src[|src| - |last|..|src|] == src[|src| - |last|..];
  }

  // Decoding an encoded prefix reaches the end of it with its output.
  lemma {:induction false} DecodePrefix(ss: seq<Sequence>, tail: seq<byte>, history: seq<byte>)
    requires WellFormed(ss, history)
    ensures DecodeFrom(EncodeAll(ss) + tail, 0, history) ==
            DecodeFrom(EncodeAll(ss) + tail, |EncodeAll(ss)|, Output(ss, history))
    decreases |ss|
  {
    hide EncodeSequence, CopyMatch, DecodeStep;
    if ss != [] {
      var init, s := ss[..|ss| - 1], ss[|ss| - 1];
      var pre, e := EncodeAll(init), EncodeSequence(s);
      var src := EncodeAll(ss) + tail;
      assert src == pre + (e + tail);
      DecodePrefix(init, e + tail, history);
      assert At(src, |pre|, e);
      DecodeSequence(src, |pre|, Output(init, history), s);
    }
  }

  lemma DecodeEncode(ss: seq<Sequence>, last: seq<byte>, history: seq<byte>)
    requires WellFormed(ss, history)
    ensures DecodeFrom(EncodeBlock(ss, last), 0, history) == Some(Output(ss, history) + last)
  {
    hide EncodeAll, Output, EncodeLastRun, DecodeStep;
    var src := EncodeBlock(ss, last);
    DecodePrefix(ss, EncodeLastRun(last), history);
    LastRunEnds(src, |EncodeAll(ss)|, Output(ss, history), last);
  }

  // The same for the reference decoder, which also checks distances to the end.
  lemma {:induction false} RefPrefix(ss: seq<Sequence>, tail: seq<byte>, history: seq<byte>, size: nat)
    requires WellFormed(ss, history) && |Output(ss, history)| <= size
    requires ss != [] ==> |Output(ss, history)| + LASTLITERALS <= size
    requires ss != [] ==> |Output(ss, history)| - ss[|ss| - 1].matchLen + MFLIMIT <= size
    ensures RefFrom(EncodeAll(ss) + tail, 0, history, size) ==
            RefFrom(EncodeAll(ss) + tail, |EncodeAll(ss)|, Output(ss, history), size)
    decreases |ss|
  {
    hide EncodeSequence, CopyMatch, RefStep;
    if ss != [] {
      var init, s := ss[..|ss| - 1], ss[|ss| - 1];
      var pre, e := EncodeAll(init), EncodeSequence(s);
      var src := EncodeAll(ss) + tail;
      assert src == pre + (e + tail);
      assert |Output(ss, history)| == |Output(init, history)| + |s.literals| + s.matchLen;
      RefPrefix(init, e + tail, history, size);
      assert At(src, |pre|, e);
      RefSequence(src, |pre|, Output(init, history), s, size);
    }
  }

  lemma EncodedIsStrict(ss: seq<Sequence>, last: seq<byte>, history: seq<byte>, out: seq<byte>)
    requires WellFormed(ss, history) && EndConditions(ss, last)
    requires Output(ss, history) + last == history + out
    ensures StrictBehind(EncodeBlock(ss, last), history, out)
  {
    hide EncodeAll, Output, EncodeLastRun, RefStep;
    var src := EncodeBlock(ss, last);
    var all := Output(ss, history);
    assert |history| + |out| == |all| + |last|;
    RefPrefix(ss, EncodeLastRun(last), history, |all| + |last|);
    LastRunEnds(src, |EncodeAll(ss)|, all, last);
  }
}
