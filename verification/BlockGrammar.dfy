// The LZ4 block format as a grammar: the bytes of a block and what they stand
// for, in numbers, sequence after sequence; and that the decoders of the block
// format accept exactly the texts of the grammar.
module BlockGrammar {
  import opened Arithmetic
  import opened BlockFormat

  // Literals and a match of `length` bytes, `offset` bytes back.
  datatype Part = Part(literals: seq<byte>, offset: nat, length: nat)

  // A block: its parts, its last literals, and four bits of the last token that
  // mean nothing.
  datatype Block = Block(parts: seq<Part>, last: seq<byte>, spare: nat)

  predicate PartOk(p: Part) { p.offset < 65536 && p.length >= 4 }

  predicate BlockOk(b: Block) { b.spare < 16 && forall i :: 0 <= i < |b.parts| ==> PartOk(b.parts[i]) }

  // ---------------------------------------------------------------------
  // Bytes
  // ---------------------------------------------------------------------

  function HalfByte(n: nat): nat { if n < 15 then n else 15 }

  // What four bits do not tell: bytes of 255 and a smaller one.
  function MoreLength(n: nat): seq<byte> {
    if n < 15 then [] else seq((n - 15) / 255, _ => 255) + [(n - 15) % 255]
  }

  function Literals(literals: seq<byte>, low: nat): seq<byte>
    requires low < 16
  {
    [16 * HalfByte(|literals|) + low] + (MoreLength(|literals|) + literals)
  }

  function PartBytes(p: Part): seq<byte>
    requires PartOk(p)
  {
    Literals(p.literals, HalfByte(p.length - 4)) + ([p.offset % 256, p.offset / 256] + MoreLength(p.length - 4))
  }

  function Bytes(b: Block): seq<byte>
    requires BlockOk(b)
    decreases |b.parts|
  {
    if b.parts == [] then Literals(b.last, b.spare)
    else PartBytes(b.parts[0]) + Bytes(b.(parts := b.parts[1..]))
  }

  // ---------------------------------------------------------------------
  // Meaning
  // ---------------------------------------------------------------------

  // Byte k of the last `offset` bytes over and over; zeros for the offset 0.
  function Again(out: seq<byte>, offset: nat, k: nat): byte
    requires offset <= |out|
  {
    if offset == 0 then 0 else out[|out| - offset + k % offset]
  }

  // The text with n of these bytes behind it.
  function Repeated(out: seq<byte>, offset: nat, n: nat): seq<byte>
    requires offset <= |out|
  {
    out + seq(n, i requires 0 <= i => Again(out, offset, i))
  }

  // Every offset leads to a byte that is there.
  predicate Grounded(parts: seq<Part>, out: seq<byte>)
    decreases |parts|
  {
    parts == []
    || (parts[0].offset <= |out| + |parts[0].literals|
        && Grounded(parts[1..], Repeated(out + parts[0].literals, parts[0].offset, parts[0].length)))
  }

  function Meaning(parts: seq<Part>, out: seq<byte>): seq<byte>
    requires Grounded(parts, out)
    decreases |parts|
  {
    if parts == [] then out
    else Meaning(parts[1..], Repeated(out + parts[0].literals, parts[0].offset, parts[0].length))
  }

  // Every match has an offset, begins twelve bytes before the end and ends five
  // bytes before it.
  predicate Restricted(parts: seq<Part>, n: nat, size: nat)
    decreases |parts|
  {
    parts == []
    || (var at := n + |parts[0].literals|;
        parts[0].offset > 0 && at + 12 <= size && at + parts[0].length + 5 <= size
        && Restricted(parts[1..], at + parts[0].length, size))
  }

  // ---------------------------------------------------------------------
  // The fields
  // ---------------------------------------------------------------------

  lemma {:induction false} LongLengthIs(n: nat)
    ensures LongLength(n) == seq(n / 255, _ => 255) + [n % 255]
  {
    if n >= 255 {
      LongLengthIs(n - 255);
      assert (n - 255) / 255 == n / 255 - 1;
      assert seq(n / 255, _ => 255) == [255] + seq(n / 255 - 1, _ => 255);
    }
  }

  lemma FieldsAre(n: nat)
    ensures MoreLength(n) == Extension(n) && HalfByte(n) == Nibble(n)
  {
    if n >= 15 { LongLengthIs(n - 15); }
  }

  lemma LiteralsAre(literals: seq<byte>, low: nat)
    requires low < 16
    ensures Literals(literals, low) == LiteralPart(literals, low)
  {
    FieldsAre(|literals|);
  }

  // A step round the circle of the last `offset` bytes.
  lemma Around(offset: nat, j: nat)
    requires offset > 0
    ensures (j + 1) % offset == if j % offset + 1 == offset then 0 else j % offset + 1
  {
    var q, r := j / offset, j % offset;
    assert j == q * offset + r;
    if r + 1 == offset {
      assert j + 1 == (q + 1) * offset + 0;
      DivUnique(j + 1, offset, q + 1, 0);
    } else {
      assert j + 1 == q * offset + (r + 1);
      DivUnique(j + 1, offset, q, r + 1);
    }
  }

  lemma AgainOn(out: seq<byte>, offset: nat, k: nat)
    requires offset <= |out| && k > 0
    ensures Again(out, offset, k) == Again(out + [Again(out, offset, 0)], offset, k - 1)
  {
    if offset > 0 { Around(offset, k - 1); }
  }

  lemma {:induction false} RepeatedIs(out: seq<byte>, offset: nat, n: nat)
    requires offset <= |out|
    ensures Repeated(out, offset, n) == CopyMatch(out, offset, n)
    decreases n
  {
    hide Again;
    if n > 0 {
      var b := Again(out, offset, 0);
      FirstAgain(out, offset);
      RepeatedIs(out + [b], offset, n - 1);
      var r, r' := Repeated(out, offset, n), Repeated(out + [b], offset, n - 1);
      forall i | |out| < i < |out| + n ensures r[i] == r'[i] {
        AgainOn(out, offset, i - |out|);
      }
      assert r == r';
    }
  }

  lemma FirstAgain(out: seq<byte>, offset: nat)
    requires offset <= |out|
    ensures Again(out, offset, 0) == if offset == 0 then 0 else out[|out| - offset]
  {
  }

  // ---------------------------------------------------------------------
  // From the grammar to the decoders
  // ---------------------------------------------------------------------

  // A part at its place in the source is parsed as what it is.
  lemma PartLayout(src: seq<byte>, ip: nat, p: Part) returns (q: nat)
    requires PartOk(p) && At(src, ip, PartBytes(p))
    ensures ip < |src| && ParseLiterals(src, ip) == Length(|p.literals|, q)
    ensures q + |p.literals| < |src| && src[q..q + |p.literals|] == p.literals
    ensures ParseMatch(src, q + |p.literals|, src[ip]) == Match(p.offset, p.length, ip + |PartBytes(p)|)
  {
    hide At, LiteralPart, Literals, ReadLength, Extension, MoreLength, Nibble;
    var low := HalfByte(p.length - 4);
    var lit, field := Literals(p.literals, low), [p.offset % 256, p.offset / 256];
    AtConcat(src, ip, lit, field + MoreLength(p.length - 4));
    LiteralsAre(p.literals, low);
    LiteralPartLayout(src, ip, p.literals, low);
    q := ip + 1 + |Extension(|p.literals|)|;
    AtConcat(src, ip + |lit|, field, MoreLength(p.length - 4));
    OffsetAt(src, ip + |lit|, p.offset);
    FieldsAre(p.length - 4);
    ReadLengthAt(src, ip + |lit| + 2, p.length - 4);
  }

  lemma OffsetAt(src: seq<byte>, ip: nat, offset: nat)
    requires offset < 65536 && At(src, ip, [offset % 256, offset / 256])
    ensures ip + 2 <= |src| && ReadOffset(src, ip) == offset
  {
    assert src[ip] == src[ip..ip + 2][0] && src[ip + 1] == src[ip..ip + 2][1];
  }

  lemma LastLayout(src: seq<byte>, ip: nat, last: seq<byte>, spare: nat)
    requires spare < 16 && ip <= |src| && src[ip..] == Literals(last, spare)
    ensures ip < |src| && |last| <= |src| && ParseLiterals(src, ip) == Length(|last|, |src| - |last|)
    ensures src[|src| - |last|..] == last
  {
    hide ReadLength;
    LiteralsAre(last, spare);
    assert At(src, ip, LiteralPart(last, spare)) by { assert src[ip..ip + |src[ip..]|] == src[ip..]; }
    LiteralPartLayout(src, ip, last, spare);
  }

  // The bytes of a block with a part in front.
  lemma FrontPart(src: seq<byte>, ip: nat, b: Block)
    requires BlockOk(b) && b.parts != [] && ip <= |src| && src[ip..] == Bytes(b)
    ensures At(src, ip, PartBytes(b.parts[0])) && ip + |PartBytes(b.parts[0])| <= |src|
    ensures src[ip + |PartBytes(b.parts[0])|..] == Bytes(b.(parts := b.parts[1..]))
  {
    hide PartBytes, Bytes;
    var x, rest := PartBytes(b.parts[0]), Bytes(b.(parts := b.parts[1..]));
    BytesAre(b);
    assert src[ip..] == x + rest;
    assert src[ip..ip + |x|] == src[ip..][..|x|] == x;
    assert src[ip + |x|..] == src[ip..][|x|..] == rest;
  }

  lemma BytesAre(b: Block)
    requires BlockOk(b) && b.parts != []
    ensures BlockOk(b.(parts := b.parts[1..]))
    ensures Bytes(b) == PartBytes(b.parts[0]) + Bytes(b.(parts := b.parts[1..]))
  {
  }

  lemma PartReads(src: seq<byte>, ip: nat, p: Part, out: seq<byte>)
    requires PartOk(p) && At(src, ip, PartBytes(p)) && p.offset <= |out| + |p.literals|
    ensures ip < |src|
    ensures DecodeStep(src, ip, out) == Next(ip + |PartBytes(p)|, Repeated(out + p.literals, p.offset, p.length))
  {
    hide PartBytes, ParseLiterals, ParseMatch, Repeated, CopyMatch, At;
    var q := PartLayout(src, ip, p);
    RepeatedIs(out + p.literals, p.offset, p.length);
  }

  lemma LastReads(src: seq<byte>, ip: nat, last: seq<byte>, spare: nat, out: seq<byte>)
    requires spare < 16 && ip <= |src| && src[ip..] == Literals(last, spare)
    ensures ip < |src| && DecodeStep(src, ip, out) == End(out + last)
  {
    hide Literals, ParseLiterals, ParseMatch;
    LastLayout(src, ip, last, spare);
    assert src[|src| - |last|..|src|] == last;
  }

  lemma {:induction false} Reads(src: seq<byte>, ip: nat, b: Block, out: seq<byte>)
    requires BlockOk(b) && Grounded(b.parts, out) && ip <= |src| && src[ip..] == Bytes(b)
    ensures DecodeFrom(src, ip, out) == Some(Meaning(b.parts, out) + b.last)
    decreases |b.parts|
  {
    hide PartBytes, Literals, DecodeStep, Repeated, At;
    if b.parts == [] {
      LastReads(src, ip, b.last, b.spare, out);
    } else {
      var p := b.parts[0];
      FrontPart(src, ip, b);
      PartReads(src, ip, p, out);
      BytesAre(b);
      Reads(src, ip + |PartBytes(p)|, b.(parts := b.parts[1..]), Repeated(out + p.literals, p.offset, p.length));
    }
  }

  // The reference decoder, which knows the size.
  lemma StrictStep(src: seq<byte>, ip: nat, p: Part, out: seq<byte>, size: nat)
    requires PartOk(p) && At(src, ip, PartBytes(p)) && 0 < p.offset <= |out| + |p.literals|
    requires |out| + |p.literals| + 12 <= size && |out| + |p.literals| + p.length + 5 <= size
    ensures ip < |src|
    ensures RefStep(src, ip, out, size) ==
            More(ip + |PartBytes(p)|, Repeated(out + p.literals, p.offset, p.length))
  {
    hide PartBytes, ParseLiterals, ParseMatch, Repeated, CopyMatch, At;
    var q := PartLayout(src, ip, p);
    RepeatedIs(out + p.literals, p.offset, p.length);
  }

  lemma StrictEnd(src: seq<byte>, ip: nat, last: seq<byte>, spare: nat, out: seq<byte>)
    requires spare < 16 && ip <= |src| && src[ip..] == Literals(last, spare)
    ensures ip < |src| && RefStep(src, ip, out, |out| + |last|) == Done(out + last, |src|)
  {
    hide Literals, ParseLiterals, ParseMatch;
    LastLayout(src, ip, last, spare);
    assert src[|src| - |last|..|src|] == last;
  }

  lemma {:induction false} ReadsStrictly(src: seq<byte>, ip: nat, b: Block, out: seq<byte>, size: nat)
    requires BlockOk(b) && Grounded(b.parts, out) && ip <= |src| && src[ip..] == Bytes(b)
    requires Restricted(b.parts, |out|, size) && |Meaning(b.parts, out) + b.last| == size
    requires |out| <= size
    ensures RefFrom(src, ip, out, size) == Done(Meaning(b.parts, out) + b.last, |src|)
    decreases |b.parts|
  {
    hide PartBytes, Literals, RefStep, Repeated, At;
    if b.parts == [] {
      StrictEnd(src, ip, b.last, b.spare, out);
    } else {
      var p := b.parts[0];
      FrontPart(src, ip, b);
      StrictStep(src, ip, p, out, size);
      BytesAre(b);
      RepeatedSize(out + p.literals, p.offset, p.length);
      ReadsStrictly(src, ip + |PartBytes(p)|, b.(parts := b.parts[1..]),
                    Repeated(out + p.literals, p.offset, p.length), size);
    }
  }

  lemma RepeatedSize(out: seq<byte>, offset: nat, n: nat)
    requires offset <= |out|
    ensures |Repeated(out, offset, n)| == |out| + n
  {
  }

  // ---------------------------------------------------------------------
  // From the decoders to the grammar
  // ---------------------------------------------------------------------

  lemma {:induction false} LongLengthFound(src: seq<byte>, ip: nat)
    requires ip <= |src| && ReadLongLength(src, ip).Length?
    ensures var r := ReadLongLength(src, ip); At(src, ip, LongLength(r.len)) && r.next == ip + |LongLength(r.len)|
    decreases |src| - ip
  {
    var r := ReadLongLength(src, ip);
    if src[ip] == 255 {
      LongLengthFound(src, ip + 1);
      assert src[ip..r.next] == [255] + src[ip + 1..r.next];
    }
  }

  lemma LengthFound(src: seq<byte>, ip: nat, nibble: nat)
    requires ip <= |src| && nibble < 16 && ReadLength(src, ip, nibble).Length?
    ensures var r := ReadLength(src, ip, nibble);
            HalfByte(r.len) == nibble && At(src, ip, MoreLength(r.len)) && r.next == ip + |MoreLength(r.len)|
  {
    FieldsAre(ReadLength(src, ip, nibble).len);
    if nibble == 15 { LongLengthFound(src, ip); } else { assert src[ip..ip] == []; }
  }

  // Two neighbours are one.
  lemma AtJoin(src: seq<byte>, ip: nat, a: seq<byte>, b: seq<byte>)
    requires At(src, ip, a) && At(src, ip + |a|, b)
    ensures At(src, ip, a + b)
  {
    assert src[ip..ip + |a| + |b|] == src[ip..ip + |a|] + src[ip + |a|..ip + |a| + |b|];
  }

  // Literals that have been parsed, whatever follows them.
  lemma LiteralsFound(src: seq<byte>, ip: nat, n: nat, q: nat)
    requires ip < |src| && ParseLiterals(src, ip) == Length(n, q) && q + n <= |src|
    ensures At(src, ip, Literals(src[q..q + n], src[ip] % 16)) && q + n == ip + |Literals(src[q..q + n], src[ip] % 16)|
  {
    hide ReadLength, MoreLength;
    LengthFound(src, ip + 1, src[ip] / 16);
    var lits := src[q..q + n];
    assert At(src, q, lits) && At(src, ip, [src[ip]]);
    AtJoin(src, ip + 1, MoreLength(n), lits);
    AtJoin(src, ip, [src[ip]], MoreLength(n) + lits);
    assert 16 * HalfByte(n) + src[ip] % 16 == src[ip];
  }

  lemma MatchFound(src: seq<byte>, ip: nat, token: byte, offset: nat, length: nat, next: nat)
    requires ip <= |src| && ParseMatch(src, ip, token) == Match(offset, length, next)
    ensures offset < 65536 && length >= 4 && HalfByte(length - 4) == token % 16
    ensures At(src, ip, [offset % 256, offset / 256] + MoreLength(length - 4))
    ensures next == ip + 2 + |MoreLength(length - 4)|
  {
    hide ReadLength, MoreLength;
    LengthFound(src, ip + 2, token % 16);
    var field := [offset % 256, offset / 256];
    assert src[ip..ip + 2] == field;
    AtJoin(src, ip, field, MoreLength(length - 4));
  }

  // A sequence that has been parsed is a part.
  lemma PartFound(src: seq<byte>, ip: nat, n: nat, q: nat, offset: nat, length: nat, next: nat)
    requires ip < |src| && ParseLiterals(src, ip) == Length(n, q) && q + n <= |src|
    requires ParseMatch(src, q + n, src[ip]) == Match(offset, length, next)
    ensures PartOk(Part(src[q..q + n], offset, length))
    ensures next <= |src| && src[ip..] == PartBytes(Part(src[q..q + n], offset, length)) + src[next..]
  {
    hide ParseLiterals, ParseMatch, Literals, MoreLength;
    LiteralsFound(src, ip, n, q);
    MatchFound(src, q + n, src[ip], offset, length, next);
    var lit, rest := Literals(src[q..q + n], src[ip] % 16), [offset % 256, offset / 256] + MoreLength(length - 4);
    AtJoin(src, ip, lit, rest);
    assert src[ip..] == src[ip..next] + src[next..];
  }

  lemma LastFound(src: seq<byte>, ip: nat, n: nat, q: nat)
    requires ip < |src| && ParseLiterals(src, ip) == Length(n, q) && q + n == |src|
    ensures src[ip..] == Literals(src[q..], src[ip] % 16)
  {
    hide ParseLiterals, Literals;
    LiteralsFound(src, ip, n, q);
    assert src[q..q + n] == src[q..] && src[ip..|src|] == src[ip..];
  }

  // A part in front of a block.
  function Before(p: Part, b: Block): Block { b.(parts := [p] + b.parts) }

  lemma BeforeIs(p: Part, b: Block)
    requires PartOk(p) && BlockOk(b)
    ensures BlockOk(Before(p, b)) && Bytes(Before(p, b)) == PartBytes(p) + Bytes(b)
  {
    hide PartBytes;
    var all := Before(p, b);
    assert all.parts[1..] == b.parts && all.(parts := b.parts) == b;
  }

  lemma BeforeMeans(p: Part, b: Block, out: seq<byte>)
    requires p.offset <= |out| + |p.literals|
    requires Grounded(b.parts, Repeated(out + p.literals, p.offset, p.length))
    ensures Grounded(Before(p, b).parts, out)
    ensures Meaning(Before(p, b).parts, out) == Meaning(b.parts, Repeated(out + p.literals, p.offset, p.length))
    ensures forall size :: Restricted(Before(p, b).parts, |out|, size) <==>
              p.offset > 0 && |out| + |p.literals| + 12 <= size && |out| + |p.literals| + p.length + 5 <= size
              && Restricted(b.parts, |out| + |p.literals| + p.length, size)
  {
    assert Before(p, b).parts[1..] == b.parts;
  }

  lemma {:induction false} BlockFound(src: seq<byte>, ip: nat, out: seq<byte>) returns (b: Block)
    requires ip <= |src| && DecodeFrom(src, ip, out).Some?
    ensures BlockOk(b) && Grounded(b.parts, out) && src[ip..] == Bytes(b)
    ensures DecodeFrom(src, ip, out).value == Meaning(b.parts, out) + b.last
    decreases |src| - ip
  {
    hide ParseLiterals, ParseMatch, Literals, PartBytes, Repeated, CopyMatch;
    var Length(n, q) := ParseLiterals(src, ip);
    if q + n == |src| {
      LastFound(src, ip, n, q);
      b := Block([], src[q..], src[ip] % 16);
      assert src[q..q + n] == src[q..];
    } else {
      var Match(offset, length, next) := ParseMatch(src, q + n, src[ip]);
      var p := Part(src[q..q + n], offset, length);
      PartFound(src, ip, n, q, offset, length, next);
      RepeatedIs(out + p.literals, offset, length);
      var rest := BlockFound(src, next, Repeated(out + p.literals, offset, length));
      b := Before(p, rest);
      BeforeIs(p, rest);
      BeforeMeans(p, rest, out);
    }
  }

  lemma {:induction false} StrictBlockFound(src: seq<byte>, ip: nat, out: seq<byte>, size: nat) returns (b: Block)
    requires ip <= |src| && |out| <= size && RefFrom(src, ip, out, size).Done?
    requires RefFrom(src, ip, out, size).next == |src|
    ensures BlockOk(b) && Grounded(b.parts, out) && src[ip..] == Bytes(b) && Restricted(b.parts, |out|, size)
    ensures RefFrom(src, ip, out, size).out == Meaning(b.parts, out) + b.last
    decreases |src| - ip
  {
    hide ParseLiterals, ParseMatch, Literals, PartBytes, Repeated, CopyMatch;
    var Length(n, q) := ParseLiterals(src, ip);
    var r := RefStep(src, ip, out, size);
    if r.Done? {
      LastFound(src, ip, n, q);
      b := Block([], src[q..], src[ip] % 16);
      assert src[q..q + n] == src[q..];
    } else {
      var Match(offset, length, next) := ParseMatch(src, q + n, src[ip]);
      var p := Part(src[q..q + n], offset, length);
      PartFound(src, ip, n, q, offset, length, next);
      RepeatedIs(out + p.literals, offset, length);
      var rest := StrictBlockFound(src, next, Repeated(out + p.literals, offset, length), size);
      b := Before(p, rest);
      BeforeIs(p, rest);
      BeforeMeans(p, rest, out);
    }
  }

  // ---------------------------------------------------------------------
  // Exactly the grammar
  // ---------------------------------------------------------------------

  // The bytes of a block that stands for x behind a history.
  ghost predicate StandsFor(b: Block, src: seq<byte>, history: seq<byte>, x: seq<byte>) {
    BlockOk(b) && src == Bytes(b) && Grounded(b.parts, history) && Meaning(b.parts, history) + b.last == history + x
  }

  // A block means what the grammar says it stands for.
  lemma DecodedBlocks(src: seq<byte>, history: seq<byte>, x: seq<byte>)
    ensures DecodeFrom(src, 0, history) == Some(history + x) <==> exists b :: StandsFor(b, src, history, x)
  {
    hide Bytes, DecodeFrom, Meaning, Grounded;
    assert src[0..] == src;
    if DecodeFrom(src, 0, history) == Some(history + x) {
      var b := BlockFound(src, 0, history);
      assert StandsFor(b, src, history, x);
    }
    forall b | StandsFor(b, src, history, x) ensures DecodeFrom(src, 0, history) == Some(history + x) {
      Reads(src, 0, b, history);
    }
  }

  // A block is strict if in addition its parts keep away from its end.
  lemma StrictBlocks(src: seq<byte>, history: seq<byte>, x: seq<byte>)
    ensures StrictBehind(src, history, x) <==>
            exists b :: StandsFor(b, src, history, x) && Restricted(b.parts, |history|, |history| + |x|)
  {
    hide Bytes, RefFrom, Meaning, Grounded, Restricted;
    assert src[0..] == src;
    var size := |history| + |x|;
    if StrictBehind(src, history, x) {
      var b := StrictBlockFound(src, 0, history, size);
      assert StandsFor(b, src, history, x);
    }
    forall b | StandsFor(b, src, history, x) && Restricted(b.parts, |history|, size)
      ensures StrictBehind(src, history, x)
    {
      ReadsStrictly(src, 0, b, history, size);
    }
  }
}