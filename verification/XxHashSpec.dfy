// XXH32 and XXH64 as the description of the algorithm gives them (sections
// "XXH32 algorithm description" and "XXH64 algorithm description"), by position
// in the text, with rotations as shifts; and the values published for a few
// texts.
module XxHashSpec {
  import opened BlockFormat

  // The little-endian number in the four bytes at p.
  function FourBytes(s: seq<byte>, p: nat): (n: nat)
    requires p + 4 <= |s|
    ensures n < 4294967296
  {
    s[p] as int + 256 * s[p + 1] as int + 65536 * s[p + 2] as int + 16777216 * s[p + 3] as int
  }

  // ---------------------------------------------------------------------
  // 32 bits
  // ---------------------------------------------------------------------

  function Word32(n: nat): bv32
    requires n < 4294967296
  {
    n as bv32
  }

  function Plus32(a: bv32, b: bv32): bv32 { a + b }

  function Times32(a: bv32, b: bv32): bv32 { a * b }

  function Rotated32By1(x: bv32): bv32 { (x << 1) | (x >> 31) }
  function Rotated32By7(x: bv32): bv32 { (x << 7) | (x >> 25) }
  function Rotated32By11(x: bv32): bv32 { (x << 11) | (x >> 21) }
  function Rotated32By12(x: bv32): bv32 { (x << 12) | (x >> 20) }
  function Rotated32By13(x: bv32): bv32 { (x << 13) | (x >> 19) }
  function Rotated32By17(x: bv32): bv32 { (x << 17) | (x >> 15) }
  function Rotated32By18(x: bv32): bv32 { (x << 18) | (x >> 14) }

  function Folded32By13(x: bv32): bv32 { x ^ (x >> 13) }
  function Folded32By15(x: bv32): bv32 { x ^ (x >> 15) }
  function Folded32By16(x: bv32): bv32 { x ^ (x >> 16) }

  function Round32(acc: bv32, lane: bv32): bv32 {
    Times32(Rotated32By13(Plus32(acc, Times32(lane, 0x85EBCA77))), 0x9E3779B1)
  }

  // Accumulator k after n stripes of 16 bytes.
  function Accumulator32(seed: bv32, s: seq<byte>, k: nat, n: nat): bv32
    requires k < 4 && 16 * n <= |s|
  {
    if n == 0 then
      if k == 0 then Plus32(Plus32(seed, 0x9E3779B1), 0x85EBCA77) else if k == 1 then Plus32(seed, 0x85EBCA77)
      else if k == 2 then seed else seed - 0x9E3779B1
    else
      Round32(Accumulator32(seed, s, k, n - 1), Word32(FourBytes(s, 16 * (n - 1) + 4 * k)))
  }

  // Steps 1 to 3: the accumulators converge, unless there is no whole stripe.
  function Converged32(seed: bv32, s: seq<byte>): bv32 {
    var n := |s| / 16;
    if n == 0 then Plus32(seed, 0x165667B1)
    else
      Convergence32(Accumulator32(seed, s, 0, n), Accumulator32(seed, s, 1, n), Accumulator32(seed, s, 2, n),
                    Accumulator32(seed, s, 3, n))
  }

  function Convergence32(acc1: bv32, acc2: bv32, acc3: bv32, acc4: bv32): bv32 {
    Plus32(Plus32(Plus32(Rotated32By1(acc1), Rotated32By7(acc2)), Rotated32By12(acc3)), Rotated32By18(acc4))
  }

  // Step 4.
  function Counted32(acc: bv32, n: nat): bv32 {
    Plus32(acc, Word32(n % 4294967296))
  }

  function WordStep32(acc: bv32, lane: bv32): bv32 {
    Times32(Rotated32By17(Plus32(acc, Times32(lane, 0xC2B2AE3D))), 0x27D4EB2F)
  }

  function ByteStep32(acc: bv32, lane: bv32): bv32 {
    Times32(Rotated32By11(Plus32(acc, Times32(lane, 0x165667B1))), 0x9E3779B1)
  }

  // Step 5: the remaining input, from p on.
  function Remaining32(acc: bv32, s: seq<byte>, p: nat): bv32
    requires p <= |s|
    decreases |s| - p
  {
    if p + 4 <= |s| then Remaining32(WordStep32(acc, Word32(FourBytes(s, p))), s, p + 4)
    else if p < |s| then Remaining32(ByteStep32(acc, Word32(s[p])), s, p + 1)
    else acc
  }

  // Step 6.
  function Mixed32(acc0: bv32): bv32 {
    Folded32By16(Times32(Folded32By13(Times32(Folded32By15(acc0), 0x85EBCA77)), 0xC2B2AE3D))
  }

  function Xxh32(seed: bv32, s: seq<byte>): bv32 {
    Mixed32(Remaining32(Counted32(Converged32(seed, s), |s|), s, 16 * (|s| / 16)))
  }

  // ---------------------------------------------------------------------
  // 64 bits
  // ---------------------------------------------------------------------

  function Word64(n: nat): bv64
    requires n < 18446744073709551616
  {
    n as bv64
  }

  function Plus64(a: bv64, b: bv64): bv64 { a + b }

  function Xor64(a: bv64, b: bv64): bv64 { a ^ b }

  function Times64(a: bv64, b: bv64): bv64 { a * b }

  function Rotated64By1(x: bv64): bv64 { (x << 1) | (x >> 63) }
  function Rotated64By7(x: bv64): bv64 { (x << 7) | (x >> 57) }
  function Rotated64By11(x: bv64): bv64 { (x << 11) | (x >> 53) }
  function Rotated64By12(x: bv64): bv64 { (x << 12) | (x >> 52) }
  function Rotated64By18(x: bv64): bv64 { (x << 18) | (x >> 46) }
  function Rotated64By23(x: bv64): bv64 { (x << 23) | (x >> 41) }
  function Rotated64By27(x: bv64): bv64 { (x << 27) | (x >> 37) }
  function Rotated64By31(x: bv64): bv64 { (x << 31) | (x >> 33) }

  function Folded64By29(x: bv64): bv64 { x ^ (x >> 29) }
  function Folded64By32(x: bv64): bv64 { x ^ (x >> 32) }
  function Folded64By33(x: bv64): bv64 { x ^ (x >> 33) }

  // The little-endian number in the eight bytes at p.
  function EightBytes(s: seq<byte>, p: nat): (n: nat)
    requires p + 8 <= |s|
    ensures n < 18446744073709551616
  {
    FourBytes(s, p) + 4294967296 * FourBytes(s, p + 4)
  }

  function Round64(acc: bv64, lane: bv64): bv64 {
    Times64(Rotated64By31(Plus64(acc, Times64(lane, 0xC2B2AE3D27D4EB4F))), 0x9E3779B185EBCA87)
  }

  function Merged64(acc: bv64, accN: bv64): bv64 {
    Plus64(Times64(Xor64(acc, Round64(0, accN)), 0x9E3779B185EBCA87), 0x85EBCA77C2B2AE63)
  }

  // Accumulator k after n stripes of 32 bytes.
  function Accumulator64(seed: bv64, s: seq<byte>, k: nat, n: nat): bv64
    requires k < 4 && 32 * n <= |s|
  {
    if n == 0 then
      if k == 0 then Plus64(Plus64(seed, 0x9E3779B185EBCA87), 0xC2B2AE3D27D4EB4F)
      else if k == 1 then Plus64(seed, 0xC2B2AE3D27D4EB4F)
      else if k == 2 then seed else seed - 0x9E3779B185EBCA87
    else
      Round64(Accumulator64(seed, s, k, n - 1), Word64(EightBytes(s, 32 * (n - 1) + 8 * k)))
  }

  function Converged64(seed: bv64, s: seq<byte>): bv64 {
    var n := |s| / 32;
    if n == 0 then Plus64(seed, 0x27D4EB2F165667C5)
    else
      Convergence64(Accumulator64(seed, s, 0, n), Accumulator64(seed, s, 1, n), Accumulator64(seed, s, 2, n),
                    Accumulator64(seed, s, 3, n))
  }

  function Convergence64(acc1: bv64, acc2: bv64, acc3: bv64, acc4: bv64): bv64 {
    var acc := Plus64(Plus64(Plus64(Rotated64By1(acc1), Rotated64By7(acc2)), Rotated64By12(acc3)),
                      Rotated64By18(acc4));
    Merged64(Merged64(Merged64(Merged64(acc, acc1), acc2), acc3), acc4)
  }

  function Counted64(acc: bv64, n: nat): bv64 {
    Plus64(acc, Word64(n % 18446744073709551616))
  }

  function LongStep64(acc: bv64, lane: bv64): bv64 {
    Plus64(Times64(Rotated64By27(Xor64(acc, Round64(0, lane))), 0x9E3779B185EBCA87), 0x85EBCA77C2B2AE63)
  }

  function WordStep64(acc: bv64, lane: bv64): bv64 {
    Plus64(Times64(Rotated64By23(Xor64(acc, Times64(lane, 0x9E3779B185EBCA87))), 0xC2B2AE3D27D4EB4F),
           0x165667B19E3779F9)
  }

  function ByteStep64(acc: bv64, lane: bv64): bv64 {
    Times64(Rotated64By11(Xor64(acc, Times64(lane, 0x27D4EB2F165667C5))), 0x9E3779B185EBCA87)
  }

  function Remaining64(acc: bv64, s: seq<byte>, p: nat): bv64
    requires p <= |s|
    decreases |s| - p
  {
    if p + 8 <= |s| then Remaining64(LongStep64(acc, Word64(EightBytes(s, p))), s, p + 8)
    else if p + 4 <= |s| then Remaining64(WordStep64(acc, Word64(FourBytes(s, p))), s, p + 4)
    else if p < |s| then Remaining64(ByteStep64(acc, Word64(s[p])), s, p + 1)
    else acc
  }

  function Mixed64(acc0: bv64): bv64 {
    Folded64By32(Times64(Folded64By29(Times64(Folded64By33(acc0), 0xC2B2AE3D27D4EB4F)), 0x165667B19E3779F9))
  }

  function Xxh64(seed: bv64, s: seq<byte>): bv64 {
    Mixed64(Remaining64(Counted64(Converged64(seed, s), |s|), s, 32 * (|s| / 32)))
  }

  // ---------------------------------------------------------------------
  // Published values
  // ---------------------------------------------------------------------

  // "abc"
  predicate ThreeLetters(s: seq<byte>) {
    && |s| == 3
    && s[0] == 97 && s[1] == 98 && s[2] == 99
  }

  // "abcd"
  predicate FourLetters(s: seq<byte>) {
    && |s| == 4
    && s[0] == 97 && s[1] == 98 && s[2] == 99 && s[3] == 100
  }

  // "Nobody inspects the spammish repetition"
  predicate Nobody(s: seq<byte>) {
    && |s| == 39
    && s[0] == 78 && s[1] == 111 && s[2] == 98 && s[3] == 111 && s[4] == 100 && s[5] == 121
    && s[6] == 32 && s[7] == 105 && s[8] == 110 && s[9] == 115 && s[10] == 112 && s[11] == 101
    && s[12] == 99 && s[13] == 116 && s[14] == 115 && s[15] == 32 && s[16] == 116 && s[17] == 104
    && s[18] == 101 && s[19] == 32 && s[20] == 115 && s[21] == 112 && s[22] == 97 && s[23] == 109
    && s[24] == 109 && s[25] == 105 && s[26] == 115 && s[27] == 104 && s[28] == 32 && s[29] == 114
    && s[30] == 101 && s[31] == 112 && s[32] == 101 && s[33] == 116 && s[34] == 105 && s[35] == 116
    && s[36] == 105 && s[37] == 111 && s[38] == 110
  }

  lemma EmptyWords32()
    ensures Word32(0) == 0x00000000
  {
  }

  lemma EmptySteps32()
    ensures Plus32(0, 0x165667B1) == 0x165667B1
    ensures Plus32(0x165667B1, 0x00000000) == 0x165667B1
    ensures Mixed32(0x165667B1) == 0x02CC5D05
  {
  }

  lemma Empty32(s: seq<byte>)
    requires s == []
    ensures Xxh32(0, s) == 0x02CC5D05
  {
    hide Plus32, Word32, Round32, Convergence32, WordStep32, ByteStep32, Mixed32, FourBytes;
    EmptyWords32();
    EmptySteps32();
    assert Counted32(0x165667B1, 0) == 0x165667B1;
    assert Remaining32(0x165667B1, s, 0) == 0x165667B1;
  }

  lemma ThreeLettersWords32()
    ensures Word32(3) == 0x00000003
    ensures Word32(97) == 0x00000061
    ensures Word32(98) == 0x00000062
    ensures Word32(99) == 0x00000063
  {
  }

  lemma ThreeLettersSteps32()
    ensures Plus32(0, 0x165667B1) == 0x165667B1
    ensures Plus32(0x165667B1, 0x00000003) == 0x165667B4
    ensures ByteStep32(0x165667B4, 0x00000061) == 0xDCA1DBE8
    ensures ByteStep32(0xDCA1DBE8, 0x00000062) == 0x4F80FD3D
    ensures ByteStep32(0x4F80FD3D, 0x00000063) == 0x760A1E67
    ensures Mixed32(0x760A1E67) == 0x32D153FF
  {
  }

  lemma ThreeLetters32(s: seq<byte>)
    requires ThreeLetters(s)
    ensures Xxh32(0, s) == 0x32D153FF
  {
    hide Plus32, Word32, Round32, Convergence32, WordStep32, ByteStep32, Mixed32, FourBytes;
    ThreeLettersWords32();
    ThreeLettersSteps32();
    assert Converged32(0, s) == 0x165667B1;
    assert Counted32(0x165667B1, 3) == 0x165667B4;
    assert Remaining32(0x760A1E67, s, 3) == 0x760A1E67;
    assert Remaining32(0x4F80FD3D, s, 2) == 0x760A1E67;
    assert Remaining32(0xDCA1DBE8, s, 1) == 0x760A1E67;
    assert Remaining32(0x165667B4, s, 0) == 0x760A1E67;
  }

  lemma FourLettersNumbers32(s: seq<byte>)
    requires FourLetters(s)
    ensures FourBytes(s, 0) == 1684234849
  {
  }

  lemma FourLettersWords32()
    ensures Word32(4) == 0x00000004
    ensures Word32(1684234849) == 0x64636261
  {
  }

  lemma FourLettersSteps32()
    ensures Plus32(0, 0x165667B1) == 0x165667B1
    ensures Plus32(0x165667B1, 0x00000004) == 0x165667B5
    ensures WordStep32(0x165667B5, 0x64636261) == 0x75275207
    ensures Mixed32(0x75275207) == 0xA3643705
  {
  }

  lemma FourLetters32(s: seq<byte>)
    requires FourLetters(s)
    ensures Xxh32(0, s) == 0xA3643705
  {
    hide Plus32, Word32, Round32, Convergence32, WordStep32, ByteStep32, Mixed32, FourBytes;
    FourLettersNumbers32(s);
    FourLettersWords32();
    FourLettersSteps32();
    assert Converged32(0, s) == 0x165667B1;
    assert Counted32(0x165667B1, 4) == 0x165667B5;
    assert Remaining32(0x75275207, s, 4) == 0x75275207;
    assert Remaining32(0x165667B5, s, 0) == 0x75275207;
  }

  lemma NobodyNumbers32(s: seq<byte>)
    requires Nobody(s)
    ensures FourBytes(s, 0) == 1868721998
    ensures FourBytes(s, 4) == 1763735908
    ensures FourBytes(s, 8) == 1701868398
    ensures FourBytes(s, 12) == 544437347
    ensures FourBytes(s, 16) == 543516788
    ensures FourBytes(s, 20) == 1835102323
    ensures FourBytes(s, 24) == 1752394093
    ensures FourBytes(s, 28) == 1885696544
    ensures FourBytes(s, 32) == 1953068133
  {
  }

  lemma NobodyWords32()
    ensures Word32(39) == 0x00000027
    ensures Word32(105) == 0x00000069
    ensures Word32(110) == 0x0000006E
    ensures Word32(111) == 0x0000006F
    ensures Word32(543516788) == 0x20656874
    ensures Word32(544437347) == 0x20737463
    ensures Word32(1701868398) == 0x6570736E
    ensures Word32(1752394093) == 0x6873696D
    ensures Word32(1763735908) == 0x69207964
    ensures Word32(1835102323) == 0x6D617073
    ensures Word32(1868721998) == 0x6F626F4E
    ensures Word32(1885696544) == 0x70657220
    ensures Word32(1953068133) == 0x74697465
  {
  }

  lemma NobodySteps32()
    ensures Plus32(Plus32(0, 0x9E3779B1), 0x85EBCA77) == 0x24234428 && Plus32(0, 0x85EBCA77) == 0x85EBCA77
    ensures Round32(0x24234428, 0x6F626F4E) == 0x046A700A
    ensures Round32(0x85EBCA77, 0x69207964) == 0xBFADF8E3
    ensures Round32(0x00000000, 0x6570736E) == 0x5B32B4AA
    ensures Round32(0x61C8864F, 0x20737463) == 0x137E5555
    ensures Round32(0x046A700A, 0x20656874) == 0x719A836E
    ensures Round32(0xBFADF8E3, 0x6D617073) == 0x514C1DE8
    ensures Round32(0x5B32B4AA, 0x6873696D) == 0x97FA4BA2
    ensures Round32(0x137E5555, 0x70657220) == 0x242A97A2
    ensures Convergence32(0x719A836E, 0x514C1DE8, 0x97FA4BA2, 0x242A97A2) == 0x8C86B52D
    ensures Plus32(0x8C86B52D, 0x00000027) == 0x8C86B554
    ensures WordStep32(0x8C86B554, 0x74697465) == 0x09B51544
    ensures ByteStep32(0x09B51544, 0x00000069) == 0xCDEFD3C9
    ensures ByteStep32(0xCDEFD3C9, 0x0000006F) == 0x3852087B
    ensures ByteStep32(0x3852087B, 0x0000006E) == 0xB3A7011B
    ensures Mixed32(0xB3A7011B) == 0xE2293B2F
  {
  }

  lemma Nobody32(s: seq<byte>)
    requires Nobody(s)
    ensures Xxh32(0, s) == 0xE2293B2F
  {
    hide Plus32, Word32, Round32, Convergence32, WordStep32, ByteStep32, Mixed32, FourBytes;
    NobodyNumbers32(s);
    NobodyWords32();
    NobodySteps32();
    assert Accumulator32(0, s, 0, 0) == 0x24234428;
    assert Accumulator32(0, s, 1, 0) == 0x85EBCA77;
    assert Accumulator32(0, s, 2, 0) == 0x00000000;
    assert Accumulator32(0, s, 3, 0) == 0x61C8864F;
    assert Accumulator32(0, s, 0, 1) == 0x046A700A;
    assert Accumulator32(0, s, 1, 1) == 0xBFADF8E3;
    assert Accumulator32(0, s, 2, 1) == 0x5B32B4AA;
    assert Accumulator32(0, s, 3, 1) == 0x137E5555;
    assert Accumulator32(0, s, 0, 2) == 0x719A836E;
    assert Accumulator32(0, s, 1, 2) == 0x514C1DE8;
    assert Accumulator32(0, s, 2, 2) == 0x97FA4BA2;
    assert Accumulator32(0, s, 3, 2) == 0x242A97A2;
    assert Converged32(0, s) == 0x8C86B52D;
    assert Counted32(0x8C86B52D, 39) == 0x8C86B554;
    assert Remaining32(0xB3A7011B, s, 39) == 0xB3A7011B;
    assert Remaining32(0x3852087B, s, 38) == 0xB3A7011B;
    assert Remaining32(0xCDEFD3C9, s, 37) == 0xB3A7011B;
    assert Remaining32(0x09B51544, s, 36) == 0xB3A7011B;
    assert Remaining32(0x8C86B554, s, 32) == 0xB3A7011B;
  }

  lemma EmptyWords64()
    ensures Word64(0) == 0x0000000000000000
  {
  }

  lemma EmptySteps64()
    ensures Plus64(0, 0x27D4EB2F165667C5) == 0x27D4EB2F165667C5
    ensures Plus64(0x27D4EB2F165667C5, 0x0000000000000000) == 0x27D4EB2F165667C5
    ensures Mixed64(0x27D4EB2F165667C5) == 0xEF46DB3751D8E999
  {
  }

  lemma Empty64(s: seq<byte>)
    requires s == []
    ensures Xxh64(0, s) == 0xEF46DB3751D8E999
  {
    hide Plus64, Word64, Round64, Convergence64, WordStep64, ByteStep64, Mixed64, FourBytes, LongStep64, EightBytes;
    EmptyWords64();
    EmptySteps64();
    assert Counted64(0x27D4EB2F165667C5, 0) == 0x27D4EB2F165667C5;
    assert Remaining64(0x27D4EB2F165667C5, s, 0) == 0x27D4EB2F165667C5;
  }

  lemma ThreeLettersWords64()
    ensures Word64(3) == 0x0000000000000003
    ensures Word64(97) == 0x0000000000000061
    ensures Word64(98) == 0x0000000000000062
    ensures Word64(99) == 0x0000000000000063
  {
  }

  lemma ThreeLettersSteps64()
    ensures Plus64(0, 0x27D4EB2F165667C5) == 0x27D4EB2F165667C5
    ensures Plus64(0x27D4EB2F165667C5, 0x0000000000000003) == 0x27D4EB2F165667C8
    ensures ByteStep64(0x27D4EB2F165667C8, 0x0000000000000061) == 0x0E6D11BDC91F0215
    ensures ByteStep64(0x0E6D11BDC91F0215, 0x0000000000000062) == 0x791983E9AB307069
    ensures ByteStep64(0x791983E9AB307069, 0x0000000000000063) == 0xE87A46F8B9A4C39E
    ensures Mixed64(0xE87A46F8B9A4C39E) == 0x44BC2CF5AD770999
  {
  }

  lemma ThreeLetters64(s: seq<byte>)
    requires ThreeLetters(s)
    ensures Xxh64(0, s) == 0x44BC2CF5AD770999
  {
    hide Plus64, Word64, Round64, Convergence64, WordStep64, ByteStep64, Mixed64, FourBytes, LongStep64, EightBytes;
    ThreeLettersWords64();
    ThreeLettersSteps64();
    assert Converged64(0, s) == 0x27D4EB2F165667C5;
    assert Counted64(0x27D4EB2F165667C5, 3) == 0x27D4EB2F165667C8;
    assert Remaining64(0xE87A46F8B9A4C39E, s, 3) == 0xE87A46F8B9A4C39E;
    assert Remaining64(0x791983E9AB307069, s, 2) == 0xE87A46F8B9A4C39E;
    assert Remaining64(0x0E6D11BDC91F0215, s, 1) == 0xE87A46F8B9A4C39E;
    assert Remaining64(0x27D4EB2F165667C8, s, 0) == 0xE87A46F8B9A4C39E;
  }

  lemma FourLettersNumbers64(s: seq<byte>)
    requires FourLetters(s)
    ensures FourBytes(s, 0) == 1684234849
  {
  }

  lemma FourLettersWords64()
    ensures Word64(4) == 0x0000000000000004
    ensures Word64(1684234849) == 0x0000000064636261
  {
  }

  lemma FourLettersSteps64()
    ensures Plus64(0, 0x27D4EB2F165667C5) == 0x27D4EB2F165667C5
    ensures Plus64(0x27D4EB2F165667C5, 0x0000000000000004) == 0x27D4EB2F165667C9
    ensures WordStep64(0x27D4EB2F165667C9, 0x0000000064636261) == 0x00E08A5499BA7DCB
    ensures Mixed64(0x00E08A5499BA7DCB) == 0xDE0327B0D25D92CC
  {
  }

  lemma FourLetters64(s: seq<byte>)
    requires FourLetters(s)
    ensures Xxh64(0, s) == 0xDE0327B0D25D92CC
  {
    hide Plus64, Word64, Round64, Convergence64, WordStep64, ByteStep64, Mixed64, FourBytes, LongStep64, EightBytes;
    FourLettersNumbers64(s);
    FourLettersWords64();
    FourLettersSteps64();
    assert Converged64(0, s) == 0x27D4EB2F165667C5;
    assert Counted64(0x27D4EB2F165667C5, 4) == 0x27D4EB2F165667C9;
    assert Remaining64(0x00E08A5499BA7DCB, s, 4) == 0x00E08A5499BA7DCB;
    assert Remaining64(0x27D4EB2F165667C9, s, 0) == 0x00E08A5499BA7DCB;
  }

  lemma NobodyNumbers64(s: seq<byte>)
    requires Nobody(s)
    ensures FourBytes(s, 0) == 1868721998 && FourBytes(s, 4) == 1763735908
    ensures EightBytes(s, 0) == 7575188045509586766
    ensures FourBytes(s, 8) == 1701868398 && FourBytes(s, 12) == 544437347
    ensures EightBytes(s, 8) == 2338340601787872110
    ensures FourBytes(s, 16) == 543516788 && FourBytes(s, 20) == 1835102323
    ensures EightBytes(s, 16) == 7881704462642145396
    ensures FourBytes(s, 24) == 1752394093 && FourBytes(s, 28) == 1885696544
    ensures EightBytes(s, 24) == 8099004988412619117
    ensures FourBytes(s, 32) == 1953068133
  {
  }

  lemma NobodyWords64()
    ensures Word64(39) == 0x0000000000000027
    ensures Word64(105) == 0x0000000000000069
    ensures Word64(110) == 0x000000000000006E
    ensures Word64(111) == 0x000000000000006F
    ensures Word64(1953068133) == 0x0000000074697465
    ensures Word64(2338340601787872110) == 0x207374636570736E
    ensures Word64(7575188045509586766) == 0x692079646F626F4E
    ensures Word64(7881704462642145396) == 0x6D61707320656874
    ensures Word64(8099004988412619117) == 0x706572206873696D
  {
  }

  lemma NobodySteps64()
    ensures Plus64(Plus64(0, 0x9E3779B185EBCA87), 0xC2B2AE3D27D4EB4F) == 0x60EA27EEADC0B5D6
    ensures Plus64(0, 0xC2B2AE3D27D4EB4F) == 0xC2B2AE3D27D4EB4F
    ensures Round64(0x60EA27EEADC0B5D6, 0x692079646F626F4E) == 0x37245127A4067E4B
    ensures Round64(0xC2B2AE3D27D4EB4F, 0x207374636570736E) == 0x1B302B0A818F92CF
    ensures Round64(0x0000000000000000, 0x6D61707320656874) == 0xCD62D843D0580FCA
    ensures Round64(0x61C8864E7A143579, 0x706572206873696D) == 0x1C16E43EF2142A4A
    ensures Plus64(0x84F22C421A11A8B5, 0x0000000000000027) == 0x84F22C421A11A8DC
    ensures WordStep64(0x84F22C421A11A8DC, 0x0000000074697465) == 0x9FCA0F5D0AAA110F
    ensures ByteStep64(0x9FCA0F5D0AAA110F, 0x0000000000000069) == 0x769671546F21BA14
    ensures ByteStep64(0x769671546F21BA14, 0x000000000000006F) == 0xEAE9B643C5F94E52
    ensures ByteStep64(0xEAE9B643C5F94E52, 0x000000000000006E) == 0x1D0A47483B37CC24
    ensures Mixed64(0x1D0A47483B37CC24) == 0xFBCEA83C8A378BF1
  {
  }

  lemma NobodyMerges64()
    ensures Plus64(Plus64(Plus64(Rotated64By1(0x37245127A4067E4B), Rotated64By7(0x1B302B0A818F92CF)),
                          Rotated64By12(0xCD62D843D0580FCA)), Rotated64By18(0x1C16E43EF2142A4A)) == 0xC4DE2CE639FB8154
    ensures Merged64(0xC4DE2CE639FB8154, 0x37245127A4067E4B) == 0x30D40DDD00AEA144
    ensures Merged64(0x30D40DDD00AEA144, 0x1B302B0A818F92CF) == 0xE5A1F095BF498698
    ensures Merged64(0xE5A1F095BF498698, 0xCD62D843D0580FCA) == 0xF9CEE721E748096D
    ensures Merged64(0xF9CEE721E748096D, 0x1C16E43EF2142A4A) == 0x84F22C421A11A8B5
  {
  }

  lemma NobodyConverge64()
    ensures Convergence64(0x37245127A4067E4B, 0x1B302B0A818F92CF, 0xCD62D843D0580FCA,
                          0x1C16E43EF2142A4A) == 0x84F22C421A11A8B5
  {
    hide Merged64;
    NobodyMerges64();
  }

  lemma Nobody64(s: seq<byte>)
    requires Nobody(s)
    ensures Xxh64(0, s) == 0xFBCEA83C8A378BF1
  {
    hide Plus64, Word64, Round64, Convergence64, WordStep64, ByteStep64, Mixed64, FourBytes, LongStep64, EightBytes;
    NobodyNumbers64(s);
    NobodyWords64();
    NobodySteps64();
    NobodyConverge64();
    assert Accumulator64(0, s, 0, 0) == 0x60EA27EEADC0B5D6;
    assert Accumulator64(0, s, 1, 0) == 0xC2B2AE3D27D4EB4F;
    assert Accumulator64(0, s, 2, 0) == 0x0000000000000000;
    assert Accumulator64(0, s, 3, 0) == 0x61C8864E7A143579;
    assert Accumulator64(0, s, 0, 1) == 0x37245127A4067E4B;
    assert Accumulator64(0, s, 1, 1) == 0x1B302B0A818F92CF;
    assert Accumulator64(0, s, 2, 1) == 0xCD62D843D0580FCA;
    assert Accumulator64(0, s, 3, 1) == 0x1C16E43EF2142A4A;
    assert Converged64(0, s) == 0x84F22C421A11A8B5;
    assert Counted64(0x84F22C421A11A8B5, 39) == 0x84F22C421A11A8DC;
    assert Remaining64(0x1D0A47483B37CC24, s, 39) == 0x1D0A47483B37CC24;
    assert Remaining64(0xEAE9B643C5F94E52, s, 38) == 0x1D0A47483B37CC24;
    assert Remaining64(0x769671546F21BA14, s, 37) == 0x1D0A47483B37CC24;
    assert Remaining64(0x9FCA0F5D0AAA110F, s, 36) == 0x1D0A47483B37CC24;
    assert Remaining64(0x84F22C421A11A8DC, s, 32) == 0x1D0A47483B37CC24;
  }
}
