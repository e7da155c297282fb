// The copy routines of the block codec.  The "wild" ones write past the end
// they are given; each is specified by an ideal text whose prefix the buffer
// must show up to that end, and by a bound `hi` beyond which nothing changes.
module Copies {
  import opened BlockFormat
  import opened Buffers

  // memcpy from the input into the output.
  method CopyIn(dst: array<byte>, d: nat, src: seq<byte>, s: nat, n: nat)
    requires d + n <= dst.Length && s + n <= |src|
    modifies dst
    ensures forall k :: 0 <= k < dst.Length ==>
              dst[k] == if d <= k < d + n then src[s + (k - d)] else old(dst[k])
  {
    forall k | d <= k < d + n { dst[k] := src[s + (k - d)]; }
  }

  // memcpy inside the output; the two ranges must not overlap.
  method CopyWithin(dst: array<byte>, d: nat, s: nat, n: nat)
    requires s + n <= d && d + n <= dst.Length
    modifies dst
    ensures forall k :: 0 <= k < dst.Length ==>
              dst[k] == if d <= k < d + n then old(dst[s + (k - d)]) else old(dst[k])
  {
    forall k | d <= k < d + n { dst[k] := dst[s + (k - d)]; }
  }

  // The text repeats from d on with period D.
  ghost predicate Follows(R: seq<byte>, d: nat, D: nat) {
    0 < D <= d && Repeats(R, d, D)
  }

  // One memcpy inside the output extends the part that shows the ideal text.
  method CopyChunk(dst: array<byte>, d: nat, s: nat, n: nat, ghost R: seq<byte>)
    requires s + n <= d && d + n <= dst.Length && d + n <= |R|
    requires n > 0 && Follows(R, d, d - s)
    requires dst[..d] == R[..d]
    modifies dst
    ensures dst[..d + n] == R[..d + n]
    ensures dst[d + n..] == old(dst[d + n..])
  {
    CopyWithin(dst, d, s, n);
    forall k | d <= k < d + n ensures dst[k] == R[k] {
      assert RepeatsAt(R, d - s, k);
      assert old(dst[..d])[s + (k - d)] == R[..d][s + (k - d)];
    }
    assert forall k :: 0 <= k < d ==> dst[k] == old(dst[..d])[k] == R[..d][k];
  }

  lemma FollowsLater(R: seq<byte>, d: nat, D: nat, d': nat)
    requires Follows(R, d, D) && d <= d'
    ensures Follows(R, d', D)
  {
  }

  // LZ4_wildCopy8 inside the output: may write 8 bytes beyond e.
  method WildCopy8(dst: array<byte>, d: nat, s: nat, e: nat, hi: nat, ghost R: seq<byte>)
    requires s + 8 <= d && d + 8 <= hi <= dst.Length && e + 7 <= hi
    requires d + 8 <= |R| && e + 7 <= |R| && Follows(R, d, d - s)
    requires dst[..d] == R[..d]
    modifies dst
    ensures e <= d + 8 ==> dst[..d + 8] == R[..d + 8]
    ensures dst[..e] == R[..e] && dst[..d] == R[..d]
    ensures dst[hi..] == old(dst[hi..])
  {
    ghost var was := dst[..];
    CopyChunk(dst, d, s, 8, R);
    TailKept(dst[..], was, d + 8, hi);
    var i := 8;
    while d + i < e
      invariant i == 8 || (8 <= i && d + i <= e + 7)
      invariant d + i <= hi && d + i <= |R|
      invariant dst[..d + i] == R[..d + i] && dst[hi..] == old(dst[hi..])
    {
      FollowsLater(R, d, d - s, d + i);
      ghost var before := dst[..];
      CopyChunk(dst, d + i, s + i, 8, R);
      TailKept(dst[..], before, d + i + 8, hi);
      i := i + 8;
    }
    assert dst[..e] == dst[..d + i][..e] == R[..d + i][..e];
    assert dst[..d] == dst[..d + i][..d] == R[..d + i][..d];
  }

  // LZ4_wildCopy32 inside the output: two 16-byte copies a turn, so the
  // distance may be as short as 16; may write 32 bytes beyond e.
  method WildCopy32(dst: array<byte>, d: nat, s: nat, e: nat, hi: nat, ghost R: seq<byte>)
    requires s + 16 <= d < e && e + 31 <= hi <= dst.Length
    requires e + 31 <= |R| && Follows(R, d, d - s)
    requires dst[..d] == R[..d]
    modifies dst
    ensures dst[..e] == R[..e]
    ensures dst[hi..] == old(dst[hi..])
  {
    var i := 0;
    while d + i < e
      invariant 0 <= i && d + i <= e + 31
      invariant dst[..d + i] == R[..d + i] && dst[hi..] == old(dst[hi..])
    {
      ghost var was := dst[..];
      FollowsLater(R, d, d - s, d + i);
      CopyChunk(dst, d + i, s + i, 16, R);
      TailKept(dst[..], was, d + i + 16, d + i + 32);
      FollowsLater(R, d, d - s, d + i + 16);
      CopyChunk(dst, d + i + 16, s + i + 16, 16, R);
      TailKept(dst[..], was, d + i + 32, hi);
      i := i + 32;
    }
    assert dst[..e] == dst[..d + i][..e] == R[..d + i][..e];
  }

  // A memcpy from the input extends the text by the bytes read.
  method CopyLiteralChunk(dst: array<byte>, d: nat, src: seq<byte>, s: nat, n: nat)
    requires d + n <= dst.Length && s + n <= |src|
    modifies dst
    ensures dst[..d + n] == old(dst[..d]) + src[s..s + n]
    ensures dst[d + n..] == old(dst[d + n..])
  {
    CopyIn(dst, d, src, s, n);
  }

  lemma MoreLiterals(out: seq<byte>, src: seq<byte>, s: nat, i: nat, n: nat)
    requires s + i + n <= |src|
    ensures out + src[s..s + i] + src[s + i..s + i + n] == out + src[s..s + i + n]
  {
    assert src[s..s + i] + src[s + i..s + i + n] == src[s..s + i + n];
  }

  lemma FewerLiterals(text: seq<byte>, out: seq<byte>, src: seq<byte>, s: nat, n: nat, i: nat)
    requires n <= i && s + i <= |src| && text == out + src[s..s + i]
    ensures text[..|out| + n] == out + src[s..s + n]
  {
  }

  // LZ4_wildCopy8 / LZ4_wildCopy32 from the input, copying `step` bytes a turn.
  method WildCopyIn(dst: array<byte>, d: nat, src: seq<byte>, s: nat, n: nat, step: nat, hi: nat)
    requires 0 < step && hi <= dst.Length
    requires d + n + step - 1 <= hi && d + step <= hi
    requires s + n + step - 1 <= |src| && s + step <= |src|
    modifies dst
    ensures dst[..d + n] == old(dst[..d]) + src[s..s + n]
    ensures dst[hi..] == old(dst[hi..])
  {
    ghost var out, all := dst[..d], dst[..];
    CopyLiteralChunk(dst, d, src, s, step);
    TailKept(dst[..], all, d + step, hi);
    var i := step;
    while i < n
      invariant i <= n + step - 1 || i == step
      invariant d + i <= hi && s + i <= |src|
      invariant dst[..d + i] == out + src[s..s + i] && dst[hi..] == all[hi..]
    {
      ghost var was := dst[..];
      CopyLiteralChunk(dst, d + i, src, s + i, step);
      MoreLiterals(out, src, s, i, step);
      TailKept(dst[..], was, d + i + step, hi);
      i := i + step;
    }
    FewerLiterals(dst[..d + i], out, src, s, n, i);
    assert dst[..d + n] == dst[..d + i][..d + n];
  }

  // ---------------------------------------------------------------------
  // Overlapping matches closer than 8 bytes
  // ---------------------------------------------------------------------

  const INC32: seq<nat> := [0, 1, 2, 1, 0, 4, 4, 4]
  const DEC64: seq<int> := [0, 0, 0, -1, -4, 1, 2, 3]

  // The distance reached after the first eight bytes: a multiple of the
  // offset, and no longer an overlap for 8-byte copies.
  function SpreadDistance(offset: nat): nat
    requires offset < 8
  {
    8 + offset - INC32[offset] + DEC64[offset]
  }

  lemma SpreadFollows(R: seq<byte>, d: nat, offset: nat)
    requires offset < 8 && offset <= d && Repeats(R, d, offset)
    ensures SpreadDistance(offset) >= 8 && Follows(R, d + 8, SpreadDistance(offset))
  {
    var D := SpreadDistance(offset);
    forall i | d + 8 <= i < |R| ensures RepeatsAt(R, D, i) {
      if offset == 0 {
        assert RepeatsAt(R, 0, i) && RepeatsAt(R, 0, i - 8);
      } else {
        RepeatsMultiple(R, d, offset, if offset < 4 then [8, 4, 3][offset - 1] else 2, i);
      }
    }
  }

  // The bytes 4 to 7 of the match are those found INC32[offset] bytes into it.
  lemma SpreadSecondHalf(R: seq<byte>, d: nat, offset: nat, i: nat)
    requires offset < 8 && offset <= d && Repeats(R, d, offset) && d + 8 <= |R|
    requires d + 4 <= i < d + 8
    ensures R[i] == if offset == 0 then 0 else R[i - 4 - offset + INC32[offset]]
  {
    if offset == 0 {
      assert RepeatsAt(R, 0, i);
    } else {
      RepeatsMultiple(R, d, offset, [4, 2, 2, 2, 1, 1, 1][offset - 1], i);
    }
  }

  // The first eight bytes of a match with an offset below 8, through the two
  // tables; yields where the following 8-byte copies read.
  method SpreadFirst8(dst: array<byte>, d: nat, offset: nat, ghost R: seq<byte>) returns (s: int)
    requires offset < 8 && offset <= d && d + 8 <= dst.Length && d + 8 <= |R|
    requires Repeats(R, d, offset)
    requires dst[..d] == R[..d]
    modifies dst
    ensures dst[..d + 8] == R[..d + 8] && dst[d + 8..] == old(dst[d + 8..])
    ensures s == d + 8 - SpreadDistance(offset)
  {
    s := d - offset;
    dst[d], dst[d + 1], dst[d + 2], dst[d + 3] := 0, 0, 0, 0;
    var j := 0;
    while j < 4
      invariant 0 <= j <= 4
      invariant forall k :: 0 <= k < d + j ==> dst[k] == R[k]
      invariant dst[d + 4..] == old(dst[d + 4..])
      invariant offset == 0 ==> forall k :: d <= k < d + 4 ==> dst[k] == 0
    {
      assert RepeatsAt(R, offset, d + j);
      dst[d + j] := dst[s + j];
      j := j + 1;
    }
    s := s + INC32[offset];
    CopyWithin(dst, d + 4, s, 4);
    forall k | d + 4 <= k < d + 8 ensures dst[k] == R[k] {
      SpreadSecondHalf(R, d, offset, k);
    }
    s := s - DEC64[offset];
  }

  // LZ4_memcpy_using_offset_base: any offset; may write 8 bytes beyond e.
  method CopyUsingOffsetBase(dst: array<byte>, d: nat, e: nat, offset: nat, hi: nat, ghost R: seq<byte>)
    requires offset <= d && d + MINMATCH <= e && e + 12 <= hi <= dst.Length && e + 12 <= |R|
    requires Repeats(R, d, offset)
    requires dst[..d] == R[..d]
    modifies dst
    ensures dst[..e] == R[..e]
    ensures dst[hi..] == old(dst[hi..])
  {
    if offset < 8 {
      var s := SpreadFirst8(dst, d, offset, R);
      TailKept(dst[..], old(dst[..]), d + 8, hi);
      SpreadFollows(R, d, offset);
      WildCopy8(dst, d + 8, s, e, hi, R);
    } else {
      CopyChunk(dst, d, d - offset, 8, R);
      TailKept(dst[..], old(dst[..]), d + 8, hi);
      FollowsLater(R, d, offset, d + 8);
      WildCopy8(dst, d + 8, d + 8 - offset, e, hi, R);
    }
  }

  // Eight bytes that a short offset repeats.
  method Pattern8(dst: array<byte>, d: nat, offset: nat, ghost R: seq<byte>) returns (v: seq<byte>)
    requires (offset == 1 || offset == 2 || offset == 4) && offset <= d <= dst.Length && d + 8 <= |R|
    requires Repeats(R, d, offset) && dst[..d] == R[..d]
    ensures |v| == 8 && forall k :: 0 <= k < 8 ==> v[k] == R[d + k]
  {
    var m0 := d - offset;
    v := dst[m0..d];
    if offset == 2 { v := v + v; }
    if offset == 1 {
      v := [dst[m0], dst[m0], dst[m0], dst[m0], dst[m0], dst[m0], dst[m0], dst[m0]];
    } else {
      v := v + v;
    }
    forall k | 0 <= k < 8 ensures v[k] == R[d + k] {
      var m := k / offset + 1;
      RepeatsMultiple(R, d, offset, m, d + k);
      assert R[..d][d + k - m * offset] == dst[d + k - m * offset];
    }
  }

  // LZ4_memcpy_using_offset: offsets 1, 2 and 4 store an 8-byte pattern over
  // and over; the others go through the tables.
  method CopyUsingOffset(dst: array<byte>, d: nat, e: nat, offset: nat, hi: nat, ghost R: seq<byte>)
    requires offset <= d && d + MINMATCH <= e && e + 12 <= hi <= dst.Length && e + 12 <= |R|
    requires Repeats(R, d, offset)
    requires dst[..d] == R[..d]
    modifies dst
    ensures dst[..e] == R[..e]
    ensures dst[hi..] == old(dst[hi..])
  {
    if offset != 1 && offset != 2 && offset != 4 {
      CopyUsingOffsetBase(dst, d, e, offset, hi, R);
      return;
    }
    var v := Pattern8(dst, d, offset, R);
    var i := 0;
    while i == 0 || d + i < e
      invariant 0 <= i && i % 8 == 0 && d + i <= e + 8
      invariant i > 8 ==> d + i <= e + 7
      invariant dst[..d + i] == R[..d + i] && dst[hi..] == old(dst[hi..])
      decreases e + 8 - i
    {
      ghost var was := dst[..];
      StorePattern(dst, d, i, v, offset, R, d + i);
      TailKept(dst[..], was, d + i + 8, hi);
      i := i + 8;
    }
    assert dst[..e] == dst[..d + i][..e] == R[..d + i][..e];
  }

  // One more store of the pattern.
  method StorePattern(dst: array<byte>, ghost d: nat, ghost i: nat, v: seq<byte>, ghost offset: nat, ghost R: seq<byte>,
                      at: nat)
    requires (offset == 1 || offset == 2 || offset == 4) && offset <= d && at == d + i && i % 8 == 0
    requires at + 8 <= dst.Length && at + 8 <= |R| && Repeats(R, d, offset) && dst[..at] == R[..at]
    requires |v| == 8 && forall k :: 0 <= k < 8 ==> v[k] == R[d + k]
    modifies dst
    ensures dst[..at + 8] == R[..at + 8] && dst[at + 8..] == old(dst[at + 8..])
  {
    hide Repeats;
    ghost var was := dst[..at];
    CopyIn(dst, at, v, 0, 8);
    forall k | 0 <= k < 8 ensures v[k] == R[at + k] { PatternPersists(R, d, offset, i, k); }
    assert dst[..at] == was;
    assert dst[at..at + 8] == R[at..at + 8];
    assert dst[..at + 8] == dst[..at] + dst[at..at + 8];
  }

  lemma {:induction false} PatternPersists(R: seq<byte>, d: nat, offset: nat, i: nat, k: nat)
    requires offset == 1 || offset == 2 || offset == 4
    requires offset <= d && Repeats(R, d, offset)
    requires i % 8 == 0 && k < 8 && d + i + k < |R|
    ensures R[d + i + k] == R[d + k]
    decreases i
  {
    if i > 0 {
      RepeatsMultiple(R, d, offset, 8 / offset, d + i + k);
      PatternPersists(R, d, offset, i - 8, k);
    }
  }
}
