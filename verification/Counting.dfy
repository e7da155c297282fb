// LZ4_count and LZ4HC_countBack: comparing word by word and locating the first
// differing byte by multiply-and-shift is comparing byte by byte.
module Counting {
  import opened BlockFormat

  // ---------------------------------------------------------------------
  // Words
  // ---------------------------------------------------------------------

  function Bits(b0: bool, b1: bool, b2: bool, b3: bool, b4: bool, b5: bool, b6: bool, b7: bool): bv8 {
    (if b0 then 1 else 0) | (if b1 then 2 else 0) | (if b2 then 4 else 0) | (if b3 then 8 else 0) |
    (if b4 then 16 else 0) | (if b5 then 32 else 0) | (if b6 then 64 else 0) | (if b7 then 128 else 0)
  }

  lemma BitsInjective(b0: bool, b1: bool, b2: bool, b3: bool, b4: bool, b5: bool, b6: bool, b7: bool,
                      c0: bool, c1: bool, c2: bool, c3: bool, c4: bool, c5: bool, c6: bool, c7: bool)
    requires Bits(b0, b1, b2, b3, b4, b5, b6, b7) == Bits(c0, c1, c2, c3, c4, c5, c6, c7)
    ensures b0 == c0 && b1 == c1 && b2 == c2 && b3 == c3 && b4 == c4 && b5 == c5 && b6 == c6 && b7 == c7
  {
  }

  function Odd(x: nat): bool { x % 2 == 1 }
  function Half(x: nat): nat { x / 2 }

  // A byte as eight bits.
  function Bv(x: byte): bv8 {
    var x1 := Half(x); var x2 := Half(x1); var x3 := Half(x2); var x4 := Half(x3);
    var x5 := Half(x4); var x6 := Half(x5); var x7 := Half(x6);
    Bits(Odd(x), Odd(x1), Odd(x2), Odd(x3), Odd(x4), Odd(x5), Odd(x6), Odd(x7))
  }

  lemma OddHalfDetermine(x: nat, y: nat)
    ensures Odd(x) == Odd(y) && Half(x) == Half(y) ==> x == y
  {
  }

  lemma HalfBound(x: nat, w: nat)
    requires x < 2 * w
    ensures Half(x) < w
  {
  }

  lemma HalvesDetermine(x: byte, y: byte)
    requires Bv(x) == Bv(y)
    ensures x == y
  {
    hide Bits, Odd, Half;
    var x1 := Half(x); var x2 := Half(x1); var x3 := Half(x2); var x4 := Half(x3);
    var x5 := Half(x4); var x6 := Half(x5); var x7 := Half(x6); var x8 := Half(x7);
    var y1 := Half(y); var y2 := Half(y1); var y3 := Half(y2); var y4 := Half(y3);
    var y5 := Half(y4); var y6 := Half(y5); var y7 := Half(y6); var y8 := Half(y7);
    BitsInjective(Odd(x), Odd(x1), Odd(x2), Odd(x3), Odd(x4), Odd(x5), Odd(x6), Odd(x7),
                  Odd(y), Odd(y1), Odd(y2), Odd(y3), Odd(y4), Odd(y5), Odd(y6), Odd(y7));
    HalfBound(x, 128); HalfBound(x1, 64); HalfBound(x2, 32); HalfBound(x3, 16);
    HalfBound(x4, 8); HalfBound(x5, 4); HalfBound(x6, 2); HalfBound(x7, 1);
    HalfBound(y, 128); HalfBound(y1, 64); HalfBound(y2, 32); HalfBound(y3, 16);
    HalfBound(y4, 8); HalfBound(y5, 4); HalfBound(y6, 2); HalfBound(y7, 1);
    OddHalfDetermine(x7, y7); OddHalfDetermine(x6, y6); OddHalfDetermine(x5, y5); OddHalfDetermine(x4, y4);
    OddHalfDetermine(x3, y3); OddHalfDetermine(x2, y2); OddHalfDetermine(x1, y1); OddHalfDetermine(x, y);
  }

  lemma BvInjective(x: byte, y: byte)
    ensures Bv(x) == Bv(y) <==> x == y
  {
    hide Bv;
    if Bv(x) == Bv(y) { HalvesDetermine(x, y); }
  }

  // Little-endian words.
  function Word64(b0: bv8, b1: bv8, b2: bv8, b3: bv8, b4: bv8, b5: bv8, b6: bv8, b7: bv8): bv64 {
    (b0 as bv64) | ((b1 as bv64) << 8) | ((b2 as bv64) << 16) | ((b3 as bv64) << 24) |
    ((b4 as bv64) << 32) | ((b5 as bv64) << 40) | ((b6 as bv64) << 48) | ((b7 as bv64) << 56)
  }

  function Word32(b0: bv8, b1: bv8, b2: bv8, b3: bv8): bv32 {
    (b0 as bv32) | ((b1 as bv32) << 8) | ((b2 as bv32) << 16) | ((b3 as bv32) << 24)
  }

  function Word16(b0: bv8, b1: bv8): bv16 {
    (b0 as bv16) | ((b1 as bv16) << 8)
  }

  function Read64(src: seq<byte>, p: nat): bv64
    requires p + 8 <= |src|
  {
    Word64(Bv(src[p]), Bv(src[p + 1]), Bv(src[p + 2]), Bv(src[p + 3]),
           Bv(src[p + 4]), Bv(src[p + 5]), Bv(src[p + 6]), Bv(src[p + 7]))
  }

  function Read32(src: seq<byte>, p: nat): bv32
    requires p + 4 <= |src|
  {
    Word32(Bv(src[p]), Bv(src[p + 1]), Bv(src[p + 2]), Bv(src[p + 3]))
  }

  function Read16(src: seq<byte>, p: nat): bv16
    requires p + 2 <= |src|
  {
    Word16(Bv(src[p]), Bv(src[p + 1]))
  }

  // LZ4_NbCommonBytes, 64-bit little-endian, without bit-scan instruction:
  // mask the bytes below the lowest nonzero one, then add them up.
  function LowMask(diff: bv64): bv64 {
    (diff ^ (diff - 1)) & 0x0101010101010100
  }

  function SumBytes(val: bv64): bv64 {
    (val * 0x0101010101010101) >> 56
  }

  function NbCommonBytes(diff: bv64): nat {
    SumBytes(LowMask(diff)) as nat
  }

  // LZ4HC_NbCommonBytes32, little-endian, without bit-scan instruction.
  function TopByte(diff: bv32): bv32 {
    var val := diff >> 8;
    ((((val + 0x00FFFF00) | 0x00FFFFFF) + val) | (val + 0x00FF0000)) >> 24
  }

  function NbCommonBytes32(diff: bv32): nat {
    (TopByte(diff) ^ 3) as nat
  }

  lemma WordZero(b0: bv8, b1: bv8, b2: bv8, b3: bv8, b4: bv8, b5: bv8, b6: bv8, b7: bv8)
    ensures Word64(b0, b1, b2, b3, b4, b5, b6, b7) == 0 <==>
            b0 == 0 && b1 == 0 && b2 == 0 && b3 == 0 && b4 == 0 && b5 == 0 && b6 == 0 && b7 == 0
  {
  }

  lemma LowMaskOf(b0: bv8, b1: bv8, b2: bv8, b3: bv8, b4: bv8, b5: bv8, b6: bv8, b7: bv8)
    ensures var n := LowMask(Word64(b0, b1, b2, b3, b4, b5, b6, b7));
            if b0 != 0 then n == 0 else if b1 != 0 then n == 0x100 else if b2 != 0 then n == 0x10100
            else if b3 != 0 then n == 0x1010100 else if b4 != 0 then n == 0x101010100
            else if b5 != 0 then n == 0x10101010100 else if b6 != 0 then n == 0x1010101010100
            else b7 != 0 ==> n == 0x101010101010100
  {
  }

  lemma SumBytesOf()
    ensures SumBytes(0) == 0 && SumBytes(0x100) == 1 && SumBytes(0x10100) == 2 && SumBytes(0x1010100) == 3
    ensures SumBytes(0x101010100) == 4 && SumBytes(0x10101010100) == 5 && SumBytes(0x1010101010100) == 6
    ensures SumBytes(0x101010101010100) == 7
  {
  }

  // The multiply-and-shift value is the index of the first nonzero byte.
  lemma FirstNonzeroByte(b0: bv8, b1: bv8, b2: bv8, b3: bv8, b4: bv8, b5: bv8, b6: bv8, b7: bv8)
    ensures var n := NbCommonBytes(Word64(b0, b1, b2, b3, b4, b5, b6, b7));
            if b0 != 0 then n == 0 else if b1 != 0 then n == 1 else if b2 != 0 then n == 2
            else if b3 != 0 then n == 3 else if b4 != 0 then n == 4 else if b5 != 0 then n == 5
            else if b6 != 0 then n == 6 else b7 != 0 ==> n == 7
  {
    hide LowMask, SumBytes, Word64;
    LowMaskOf(b0, b1, b2, b3, b4, b5, b6, b7);
    SumBytesOf();
  }

  lemma TopByteOf(b0: bv8, b1: bv8, b2: bv8, b3: bv8)
    ensures var n := TopByte(Word32(b0, b1, b2, b3));
            if b3 != 0 then n == 3 else if b2 != 0 then n == 2 else if b1 != 0 then n == 1 else n == 0
  {
  }

  lemma LastNonzeroByte(b0: bv8, b1: bv8, b2: bv8, b3: bv8)
    ensures var n := NbCommonBytes32(Word32(b0, b1, b2, b3));
            if b3 != 0 then n == 0 else if b2 != 0 then n == 1 else if b1 != 0 then n == 2 else n == 3
  {
    hide Word32, TopByte;
    TopByteOf(b0, b1, b2, b3);
  }

  // ---------------------------------------------------------------------
  // Differences of words
  // ---------------------------------------------------------------------

  function Xor(src: seq<byte>, p: nat, q: nat): bv8
    requires p < |src| && q < |src|
  {
    Bv(src[p]) ^ Bv(src[q])
  }

  lemma XorZero(src: seq<byte>, p: nat, q: nat)
    requires p < |src| && q < |src|
    ensures Xor(src, p, q) == 0 <==> src[p] == src[q]
  {
    hide Bv;
    BvInjective(src[p], src[q]);
  }

  lemma XorWord64(src: seq<byte>, p: nat, q: nat)
    requires p + 8 <= |src| && q + 8 <= |src|
    ensures Read64(src, p) ^ Read64(src, q) ==
            Word64(Xor(src, p, q), Xor(src, p + 1, q + 1), Xor(src, p + 2, q + 2), Xor(src, p + 3, q + 3),
                   Xor(src, p + 4, q + 4), Xor(src, p + 5, q + 5), Xor(src, p + 6, q + 6), Xor(src, p + 7, q + 7))
  {
    hide Bv;
  }

  lemma XorWord32(src: seq<byte>, p: nat, q: nat)
    requires p + 4 <= |src| && q + 4 <= |src|
    ensures Read32(src, p) ^ Read32(src, q) ==
            Word32(Xor(src, p, q), Xor(src, p + 1, q + 1), Xor(src, p + 2, q + 2), Xor(src, p + 3, q + 3))
  {
    hide Bv;
  }

  lemma EqualBytesMatch(src: seq<byte>, i: nat, offset: nat, n: nat)
    requires 0 < offset <= i && i + 8 <= |src| && n <= 8
    requires n > 0 ==> src[i] == src[i - offset]
    requires n > 1 ==> src[i + 1] == src[i + 1 - offset]
    requires n > 2 ==> src[i + 2] == src[i + 2 - offset]
    requires n > 3 ==> src[i + 3] == src[i + 3 - offset]
    requires n > 4 ==> src[i + 4] == src[i + 4 - offset]
    requires n > 5 ==> src[i + 5] == src[i + 5 - offset]
    requires n > 6 ==> src[i + 6] == src[i + 6 - offset]
    requires n > 7 ==> src[i + 7] == src[i + 7 - offset]
    ensures MatchRange(src, i, i + n, offset)
  {
  }

  // The number of leading equal bytes of two 8-byte words, 8 if they are equal.
  function CommonBytes(diff: bv64): nat {
    if diff == 0 then 8 else NbCommonBytes(diff)
  }

  lemma DiffBytes64(src: seq<byte>, p: nat, i: nat)
    requires p + 8 <= |src| && i + 8 <= |src|
    ensures var n := CommonBytes(Read64(src, p) ^ Read64(src, i));
            && n <= 8
            && (n > 0 ==> src[p] == src[i])
            && (n > 1 ==> src[p + 1] == src[i + 1])
            && (n > 2 ==> src[p + 2] == src[i + 2])
            && (n > 3 ==> src[p + 3] == src[i + 3])
            && (n > 4 ==> src[p + 4] == src[i + 4])
            && (n > 5 ==> src[p + 5] == src[i + 5])
            && (n > 6 ==> src[p + 6] == src[i + 6])
            && (n > 7 ==> src[p + 7] == src[i + 7])
            && (n < 8 ==> src[p + n] != src[i + n])
    ensures Read64(src, p) ^ Read64(src, i) != 0 ==> CommonBytes(Read64(src, p) ^ Read64(src, i)) < 8
  {
    hide Bv, Word64, NbCommonBytes, Read64, Xor;
    XorWord64(src, p, i);
    var x0, x1, x2, x3 := Xor(src, p, i), Xor(src, p + 1, i + 1), Xor(src, p + 2, i + 2), Xor(src, p + 3, i + 3);
    var x4, x5, x6, x7 := Xor(src, p + 4, i + 4), Xor(src, p + 5, i + 5),
                          Xor(src, p + 6, i + 6), Xor(src, p + 7, i + 7);
    XorZero(src, p, i); XorZero(src, p + 1, i + 1); XorZero(src, p + 2, i + 2); XorZero(src, p + 3, i + 3);
    XorZero(src, p + 4, i + 4); XorZero(src, p + 5, i + 5); XorZero(src, p + 6, i + 6); XorZero(src, p + 7, i + 7);
    WordZero(x0, x1, x2, x3, x4, x5, x6, x7);
    FirstNonzeroByte(x0, x1, x2, x3, x4, x5, x6, x7);
  }

  lemma Diff64(src: seq<byte>, i: nat, offset: nat)
    requires 0 < offset <= i && i + 8 <= |src|
    ensures var diff := Read64(src, i - offset) ^ Read64(src, i);
            && (diff == 0 ==> MatchRange(src, i, i + 8, offset))
            && (diff != 0 ==>
                  var n := NbCommonBytes(diff);
                  n < 8 && MatchRange(src, i, i + n, offset) && src[i + n] != src[i + n - offset])
  {
    hide Read64, NbCommonBytes, MatchRange;
    DiffBytes64(src, i - offset, i);
    EqualBytesMatch(src, i, offset, CommonBytes(Read64(src, i - offset) ^ Read64(src, i)));
  }

  // The same from the end, for 4-byte words.
  lemma Diff32(src: seq<byte>, i: nat, offset: nat)
    requires 0 < offset <= i && i + 4 <= |src|
    ensures var diff := Read32(src, i - offset) ^ Read32(src, i);
            && (diff == 0 <==> MatchRange(src, i, i + 4, offset))
            && (diff != 0 ==>
                  var n := NbCommonBytes32(diff);
                  n < 4 && MatchRange(src, i + 4 - n, i + 4, offset) && src[i + 3 - n] != src[i + 3 - n - offset])
  {
    hide Bv, Word32, NbCommonBytes32, Read32, Xor;
    var p := i - offset;
    XorWord32(src, p, i);
    var x0, x1, x2, x3 := Xor(src, p, i), Xor(src, p + 1, i + 1), Xor(src, p + 2, i + 2), Xor(src, p + 3, i + 3);
    XorZero(src, p, i); XorZero(src, p + 1, i + 1); XorZero(src, p + 2, i + 2); XorZero(src, p + 3, i + 3);
    LastNonzeroByte(x0, x1, x2, x3);
    Word32Zero(x0, x1, x2, x3);
    if MatchRange(src, i, i + 4, offset) {
      assert RepeatsAt(src, offset, i) && RepeatsAt(src, offset, i + 1);
      assert RepeatsAt(src, offset, i + 2) && RepeatsAt(src, offset, i + 3);
    }
  }

  lemma Word32Zero(b0: bv8, b1: bv8, b2: bv8, b3: bv8)
    ensures Word32(b0, b1, b2, b3) == 0 <==> b0 == 0 && b1 == 0 && b2 == 0 && b3 == 0
  {
  }

  lemma XorSelf(a: bv32, b: bv32)
    ensures a ^ b == 0 <==> a == b
  {
  }

  lemma Equal32(src: seq<byte>, i: nat, offset: nat)
    requires 0 < offset <= i && i + 4 <= |src|
    ensures Read32(src, i - offset) == Read32(src, i) <==> MatchRange(src, i, i + 4, offset)
  {
    hide Read32, NbCommonBytes32;
    Diff32(src, i, offset);
    XorSelf(Read32(src, i - offset), Read32(src, i));
  }

  lemma Word16Injective(a: bv8, b: bv8, c: bv8, d: bv8)
    ensures Word16(a, b) == Word16(c, d) <==> a == c && b == d
  {
  }

  lemma Equal16(src: seq<byte>, i: nat, offset: nat)
    requires 0 < offset <= i && i + 2 <= |src|
    ensures Read16(src, i - offset) == Read16(src, i) <==> MatchRange(src, i, i + 2, offset)
  {
    hide Bv, Word16;
    var p := i - offset;
    BvInjective(src[p], src[i]);
    BvInjective(src[p + 1], src[i + 1]);
    Word16Injective(Bv(src[p]), Bv(src[p + 1]), Bv(src[i]), Bv(src[i + 1]));
    if MatchRange(src, i, i + 2, offset) {
      assert RepeatsAt(src, offset, i) && RepeatsAt(src, offset, i + 1);
    }
  }

  // ---------------------------------------------------------------------
  // The counting loops
  // ---------------------------------------------------------------------

  // n bytes agree, and either the limit is reached or the next ones differ.
  ghost predicate IsCommonPrefix(src: seq<byte>, p: nat, limit: nat, offset: nat, n: nat) {
    && p + n <= limit <= |src| && MatchRange(src, p, p + n, offset)
    && (p + n < limit ==> src[p + n] != src[p + n - offset])
  }

  // LZ4_count: the length of the common prefix of the texts at pIn and pMatch.
  method Count(src: seq<byte>, pIn: nat, pMatch: nat, pInLimit: nat) returns (n: nat)
    requires pMatch < pIn <= pInLimit <= |src|
    ensures IsCommonPrefix(src, pIn, pInLimit, pIn - pMatch, n)
  {
    hide Read64, Read32, Read16, NbCommonBytes;
    var i := pIn;
    var offset := pIn - pMatch;
    while i < pInLimit - (8 - 1)
      invariant pIn <= i <= pInLimit
      invariant MatchRange(src, pIn, i, offset)
    {
      var diff := Read64(src, i - offset) ^ Read64(src, i);
      Diff64(src, i, offset);
      if diff != 0 {
        var common := NbCommonBytes(diff);
        return i + common - pIn;
      }
      i := i + 8;
    }
    if i < pInLimit - 3 {
      Equal32(src, i, offset);
      if Read32(src, i - offset) == Read32(src, i) { i := i + 4; }
    }
    if i < pInLimit - 1 {
      Equal16(src, i, offset);
      if Read16(src, i - offset) == Read16(src, i) { i := i + 2; }
    }
    if i < pInLimit && src[i - offset] == src[i] { i := i + 1; }
    return i - pIn;
  }

  // LZ4HC_countBack: the length of the common suffix of the texts before ip
  // and before the match, as a negative number.
  method CountBack(src: seq<byte>, ip: nat, m: nat, iMin: nat, mMin: nat) returns (back: int)
    requires mMin <= m < ip <= |src| && iMin <= ip
    ensures back <= 0 && iMin <= ip + back && mMin <= m + back
    ensures MatchRange(src, ip + back, ip, ip - m)
    ensures ip + back > iMin && m + back > mMin ==> src[ip + back - 1] != src[m + back - 1]
  {
    hide Read32, NbCommonBytes32;
    back := 0;
    var offset := ip - m;
    var min: int := if ip - iMin < m - mMin then iMin as int - ip else mMin as int - m;
    while back - min > 3
      invariant min <= back <= 0 && MatchRange(src, ip + back, ip, offset)
    {
      var diff := Read32(src, ip + back - 4 - offset) ^ Read32(src, ip + back - 4);
      Diff32(src, ip + back - 4, offset);
      if diff != 0 {
        return back - NbCommonBytes32(diff);
      }
      back := back - 4;
    }
    while back > min && src[ip + back - 1] == src[m + back - 1]
      invariant min <= back <= 0 && MatchRange(src, ip + back, ip, offset)
    {
      assert RepeatsAt(src, offset, ip + back - 1);
      back := back - 1;
    }
  }

  // ---------------------------------------------------------------------
  // Runs of one byte
  // ---------------------------------------------------------------------

  ghost predicate Run(src: seq<byte>, lo: nat, hi: nat, c: byte) {
    hi <= |src| && forall i :: lo <= i < hi ==> src[i] == c
  }

  // A 32-bit sample of a repeated byte, doubled to 64 bits as the code does.
  function Pattern32(c: byte): bv32 { Word32(Bv(c), Bv(c), Bv(c), Bv(c)) }

  function Pattern64(pattern: bv32): bv64 {
    (pattern as bv64) + ((pattern as bv64) << 32)
  }

  lemma DoubledPattern(b: bv8)
    ensures Pattern64(Word32(b, b, b, b)) == Word64(b, b, b, b, b, b, b, b)
  {
  }

  function XorByte(src: seq<byte>, i: nat, c: byte): bv8
    requires i < |src|
  {
    Bv(src[i]) ^ Bv(c)
  }

  lemma XorByteZero(src: seq<byte>, i: nat, c: byte)
    requires i < |src|
    ensures XorByte(src, i, c) == 0 <==> src[i] == c
  {
    hide Bv;
    BvInjective(src[i], c);
  }

  function Splat64(c: byte): bv64 {
    Word64(Bv(c), Bv(c), Bv(c), Bv(c), Bv(c), Bv(c), Bv(c), Bv(c))
  }

  lemma XorSplat(src: seq<byte>, i: nat, c: byte)
    requires i + 8 <= |src|
    ensures Read64(src, i) ^ Splat64(c) ==
            Word64(XorByte(src, i, c), XorByte(src, i + 1, c), XorByte(src, i + 2, c), XorByte(src, i + 3, c),
                   XorByte(src, i + 4, c), XorByte(src, i + 5, c), XorByte(src, i + 6, c), XorByte(src, i + 7, c))
  {
    hide Bv;
  }

  lemma PatternIsSplat(c: byte)
    ensures Pattern64(Pattern32(c)) == Splat64(c)
  {
    hide Bv, Word64, Word32, Pattern64;
    DoubledPattern(Bv(c));
  }

  lemma XorPattern(src: seq<byte>, i: nat, c: byte)
    requires i + 8 <= |src|
    ensures Read64(src, i) ^ Pattern64(Pattern32(c)) ==
            Word64(XorByte(src, i, c), XorByte(src, i + 1, c), XorByte(src, i + 2, c), XorByte(src, i + 3, c),
                   XorByte(src, i + 4, c), XorByte(src, i + 5, c), XorByte(src, i + 6, c), XorByte(src, i + 7, c))
  {
    hide Bv, Word64, Read64, Pattern64, Pattern32, XorByte, Splat64;
    PatternIsSplat(c);
    XorSplat(src, i, c);
  }

  lemma DiffPattern(src: seq<byte>, i: nat, c: byte)
    requires i + 8 <= |src|
    ensures var diff := Read64(src, i) ^ Pattern64(Pattern32(c));
            && (diff == 0 ==> Run(src, i, i + 8, c))
            && (diff != 0 ==> var n := NbCommonBytes(diff); n < 8 && Run(src, i, i + n, c) && src[i + n] != c)
  {
    hide Bv, Word64, NbCommonBytes, Read64, Pattern64, Pattern32, XorByte;
    XorPattern(src, i, c);
    XorByteZero(src, i, c); XorByteZero(src, i + 1, c); XorByteZero(src, i + 2, c); XorByteZero(src, i + 3, c);
    XorByteZero(src, i + 4, c); XorByteZero(src, i + 5, c); XorByteZero(src, i + 6, c); XorByteZero(src, i + 7, c);
    var x0, x1, x2, x3 := XorByte(src, i, c), XorByte(src, i + 1, c), XorByte(src, i + 2, c), XorByte(src, i + 3, c);
    var x4, x5, x6, x7 := XorByte(src, i + 4, c), XorByte(src, i + 5, c),
                          XorByte(src, i + 6, c), XorByte(src, i + 7, c);
    WordZero(x0, x1, x2, x3, x4, x5, x6, x7);
    FirstNonzeroByte(x0, x1, x2, x3, x4, x5, x6, x7);
  }

  lemma Word32Injective(a0: bv8, a1: bv8, a2: bv8, a3: bv8, b0: bv8, b1: bv8, b2: bv8, b3: bv8)
    ensures Word32(a0, a1, a2, a3) == Word32(b0, b1, b2, b3) <==> a0 == b0 && a1 == b1 && a2 == b2 && a3 == b3
  {
  }

  lemma ReadsPattern(src: seq<byte>, i: nat, c: byte)
    requires i + 4 <= |src|
    ensures Read32(src, i) == Pattern32(c) <==> Run(src, i, i + 4, c)
  {
    hide Bv, Word32;
    Word32Injective(Bv(src[i]), Bv(src[i + 1]), Bv(src[i + 2]), Bv(src[i + 3]), Bv(c), Bv(c), Bv(c), Bv(c));
    BvInjective(src[i], c); BvInjective(src[i + 1], c); BvInjective(src[i + 2], c); BvInjective(src[i + 3], c);
  }

  // The test for a repeated byte on a 32-bit sample.
  function IsRepeat(pattern: bv32): bool {
    (pattern & 0xFFFF) == (pattern >> 16) && (pattern & 0xFF) == (pattern >> 24)
  }

  lemma RepeatWord(b0: bv8, b1: bv8, b2: bv8, b3: bv8)
    ensures IsRepeat(Word32(b0, b1, b2, b3)) <==> b0 == b1 == b2 == b3
  {
  }

  lemma RepeatedByte(src: seq<byte>, i: nat)
    requires i + 4 <= |src| && IsRepeat(Read32(src, i))
    ensures Run(src, i, i + 4, src[i]) && Read32(src, i) == Pattern32(src[i])
  {
    hide Bv, Word32, IsRepeat;
    RepeatWord(Bv(src[i]), Bv(src[i + 1]), Bv(src[i + 2]), Bv(src[i + 3]));
    BvInjective(src[i], src[i + 1]); BvInjective(src[i], src[i + 2]); BvInjective(src[i], src[i + 3]);
  }

  // LZ4HC_rotatePattern
  function RotatePattern(rotate: int, pattern: bv32): bv32 {
    var bitsToRotate: nat := rotate % 4 * 8;
    if bitsToRotate == 0 then pattern else (pattern << bitsToRotate) | (pattern >> (32 - bitsToRotate))
  }

  // A repeated byte looks the same from everywhere.
  lemma RotatedRepeat(rotate: int, c: byte)
    ensures RotatePattern(rotate, Pattern32(c)) == Pattern32(c)
  {
    hide Bv;
    RotatedWord(Bv(c));
    var k := rotate % 4;
    assert k == 0 || k == 1 || k == 2 || k == 3;
  }

  lemma RotatedWord(b: bv8)
    ensures var w := Word32(b, b, b, b);
            (w << 8) | (w >> 24) == w && (w << 16) | (w >> 16) == w && (w << 24) | (w >> 8) == w
  {
  }

  // LZ4HC_countPattern for a repeated byte: every byte of the sample is c.
  method CountPattern(src: seq<byte>, p: nat, iEnd: nat, c: byte, pattern: bv32) returns (n: nat)
    requires p <= iEnd <= |src| && pattern == Pattern32(c)
    ensures p + n <= iEnd && Run(src, p, p + n, c)
    ensures p + n < iEnd ==> src[p + n] != c
  {
    hide Read64, Pattern64, NbCommonBytes, Pattern32;
    var i := p;
    while i < iEnd - (8 - 1)
      invariant p <= i <= iEnd && Run(src, p, i, c)
    {
      var diff := Read64(src, i) ^ Pattern64(pattern);
      DiffPattern(src, i, c);
      if diff != 0 {
        return i + NbCommonBytes(diff) - p;
      }
      i := i + 8;
    }
    while i < iEnd && src[i] == c
      invariant p <= i <= iEnd && Run(src, p, i, c)
    {
      i := i + 1;
    }
    return i - p;
  }

  // LZ4HC_reverseCountPattern for a repeated byte.
  method ReverseCountPattern(src: seq<byte>, p: nat, iLow: nat, c: byte, pattern: bv32) returns (n: nat)
    requires iLow <= p <= |src| && pattern == Pattern32(c)
    ensures iLow + n <= p && Run(src, p - n, p, c)
    ensures iLow + n < p ==> src[p - n - 1] != c
  {
    hide Read32, Pattern32;
    var i := p;
    while i >= iLow + 4
      invariant iLow <= i <= p && Run(src, i, p, c)
    {
      ReadsPattern(src, i - 4, c);
      if Read32(src, i - 4) != pattern { break; }
      i := i - 4;
    }
    while i > iLow && src[i - 1] == c
      invariant iLow <= i <= p && Run(src, i, p, c)
    {
      i := i - 1;
    }
    return p - i;
  }
}
