// XXH64: the one-shot function and the streaming state.
module XxHash64 {
  import opened BlockFormat
  import opened FrameFormat
  import opened Buffers
  import XxHashSpec

  const PRIME64_1: bv64 := 11400714785074694791
  const PRIME64_2: bv64 := 14029467366897019727
  const PRIME64_3: bv64 := 1609587929392839161
  const PRIME64_4: bv64 := 9650029242287828579
  const PRIME64_5: bv64 := 2870177450012600261

  function Add(a: bv64, b: bv64): bv64 { a + b }

  function Mix(a: bv64, b: bv64): bv64 { a ^ b }

  function Mul(a: bv64, b: bv64): bv64 { a * b }

  function Fold(x: bv64, r: nat): bv64
    requires r <= 64
  {
    x ^ (x >> r)
  }

  function Rotl(x: bv64, r: nat): bv64
    requires r <= 64
  {
    x.RotateLeft(r)
  }

  function Round(acc: bv64, input: bv64): bv64 {
    Mul(Rotl(Add(acc, Mul(input, PRIME64_2)), 31), PRIME64_1)
  }

  function MergeRound(acc: bv64, val: bv64): bv64 {
    Add(Mul(Mix(acc, Round(0, val)), PRIME64_1), PRIME64_4)
  }

  function Avalanche(h0: bv64): bv64 {
    var h1 := Mul(Fold(h0, 33), PRIME64_2);
    var h2 := Mul(Fold(h1, 29), PRIME64_3);
    Fold(h2, 32)
  }

  function Word(s: seq<byte>): bv64
    requires |s| >= 8
  {
    LE64(s) as bv64
  }

  function HalfWord(s: seq<byte>): bv64
    requires |s| >= 4
  {
    LE32(s) as bv64
  }

  // ---------------------------------------------------------------------
  // The algorithm
  // ---------------------------------------------------------------------

  datatype Lanes = Lanes(v1: bv64, v2: bv64, v3: bv64, v4: bv64)

  function Start(seed: bv64): Lanes {
    Lanes(Add(Add(seed, PRIME64_1), PRIME64_2), Add(seed, PRIME64_2), seed, seed - PRIME64_1)
  }

  // One stripe of 32 bytes.
  function Stripe(l: Lanes, s: seq<byte>): Lanes
    requires |s| >= 32
  {
    Lanes(Round(l.v1, Word(s[..8])), Round(l.v2, Word(s[8..16])), Round(l.v3, Word(s[16..24])),
          Round(l.v4, Word(s[24..32])))
  }

  // All whole stripes of a text.
  function Absorb(l: Lanes, s: seq<byte>): Lanes
    decreases |s|
  {
    if |s| < 32 then l else Absorb(Stripe(l, s[..32]), s[32..])
  }

  function Converge(l: Lanes): bv64 {
    var h := Add(Add(Add(Rotl(l.v1, 1), Rotl(l.v2, 7)), Rotl(l.v3, 12)), Rotl(l.v4, 18));
    MergeRound(MergeRound(MergeRound(MergeRound(h, l.v1), l.v2), l.v3), l.v4)
  }

  function Process8(h: bv64, s: seq<byte>): bv64
    requires |s| >= 8
  {
    Add(Mul(Rotl(Mix(h, Round(0, Word(s[..8]))), 27), PRIME64_1), PRIME64_4)
  }

  function Process4(h: bv64, s: seq<byte>): bv64
    requires |s| >= 4
  {
    Add(Mul(Rotl(Mix(h, Mul(HalfWord(s[..4]), PRIME64_1)), 23), PRIME64_2), PRIME64_3)
  }

  function Process1(h: bv64, b: byte): bv64 {
    Mul(Rotl(Mix(h, Mul(b as bv64, PRIME64_5)), 11), PRIME64_1)
  }

  // The rest: words of eight bytes while there are any, then one of four if
  // it is there, then bytes.
  function Rest(h: bv64, s: seq<byte>): bv64
    decreases |s|
  {
    if |s| >= 8 then Rest(Process8(h, s), s[8..])
    else if |s| >= 4 then Rest(Process4(h, s), s[4..])
    else if |s| > 0 then Rest(Process1(h, s[0]), s[1..])
    else h
  }

  function Length64(n: nat): bv64 {
    (n % 0x1_0000_0000_0000_0000) as bv64
  }

  // XXH64, as the code arranges it.
  function Hash(seed: bv64, s: seq<byte>): bv64 {
    var tail := s[|s| - |s| % 32..];
    var h := if |s| >= 32 then Converge(Absorb(Start(seed), s)) else Add(seed, PRIME64_5);
    Avalanche(Rest(Add(h, Length64(|s|)), tail))
  }

  lemma {:induction false} AbsorbAppend(l: Lanes, a: seq<byte>, b: seq<byte>)
    requires |a| % 32 == 0
    ensures Absorb(l, a + b) == Absorb(Absorb(l, a), b)
    decreases |a|
  {
    hide Stripe;
    if |a| == 0 {
      assert a + b == b;
    } else {
      assert (a + b)[..32] == a[..32] && (a + b)[32..] == a[32..] + b;
      AbsorbAppend(Stripe(l, a[..32]), a[32..], b);
    }
  }

  lemma AbsorbOne(l: Lanes, s: seq<byte>)
    requires |s| == 32
    ensures Absorb(l, s) == Stripe(l, s)
  {
    hide Stripe;
    assert s[..32] == s && Absorb(Stripe(l, s), s[32..]) == Stripe(l, s);
  }

  // A part shorter than a stripe is not absorbed.
  lemma AbsorbTail(l: Lanes, a: seq<byte>, b: seq<byte>)
    requires |a| % 32 == 0 && |b| < 32
    ensures Absorb(l, a + b) == Absorb(l, a)
  {
    hide Stripe;
    AbsorbAppend(l, a, b);
  }

  // ---------------------------------------------------------------------
  // The end of the computation
  // ---------------------------------------------------------------------

  lemma Rest8(h: bv64, s: seq<byte>, p: nat)
    requires p + 8 <= |s|
    ensures Rest(h, s[p..]) == Rest(Process8(h, s[p..]), s[p + 8..])
  {
    hide Process8;
    assert s[p..][8..] == s[p + 8..];
  }

  lemma Rest4(h: bv64, s: seq<byte>, p: nat)
    requires p + 4 <= |s| < p + 8
    ensures Rest(h, s[p..]) == Rest(Process4(h, s[p..]), s[p + 4..])
  {
    hide Process4, Process8;
    assert s[p..][4..] == s[p + 4..];
  }

  lemma Rest1(h: bv64, s: seq<byte>, p: nat)
    requires p < |s| < p + 4
    ensures Rest(h, s[p..]) == Rest(Process1(h, s[p]), s[p + 1..])
  {
    hide Process1, Process4, Process8;
    assert s[p..][1..] == s[p + 1..];
  }

  lemma RestNone(h: bv64, s: seq<byte>)
    ensures Rest(h, s[|s|..]) == h
  {
  }

  // Up to three words of eight bytes.
  method Words(h0: bv64, s: seq<byte>, n: nat) returns (h: bv64, p: nat)
    requires |s| < 32 && 8 * n <= |s|
    ensures p == 8 * n && Rest(h0, s) == Rest(h, s[p..])
  {
    hide Process8, Rest;
    h, p := h0, 0;
    assert s[0..] == s;
    if n >= 3 { Rest8(h, s, p); h, p := Process8(h, s[p..]), p + 8; }
    if n >= 2 { Rest8(h, s, p); h, p := Process8(h, s[p..]), p + 8; }
    if n >= 1 { Rest8(h, s, p); h, p := Process8(h, s[p..]), p + 8; }
  }

  // Up to three steps of one byte.
  method Bytes(h0: bv64, s: seq<byte>, p0: nat, n: nat) returns (h: bv64, p: nat)
    requires p0 + n == |s| && n < 4
    ensures Rest(h0, s[p0..]) == h
  {
    hide Process1, Rest;
    h, p := h0, p0;
    if n >= 3 { Rest1(h, s, p); h, p := Process1(h, s[p]), p + 1; }
    if n >= 2 { Rest1(h, s, p); h, p := Process1(h, s[p]), p + 1; }
    if n >= 1 { Rest1(h, s, p); h, p := Process1(h, s[p]), p + 1; }
    RestNone(h, s);
  }

  // One step of four bytes.
  method FourBytes(h0: bv64, s: seq<byte>, p0: nat) returns (h: bv64, p: nat)
    requires p0 + 4 <= |s| < p0 + 8
    ensures p == p0 + 4 && Rest(h0, s[p0..]) == Rest(h, s[p..])
  {
    hide Process4, Rest;
    Rest4(h0, s, p0);
    h, p := Process4(h0, s[p0..]), p0 + 4;
  }

  // XXH64_finalize: a jump into eight runs of steps, by the length.  Each run
  // starts with as many words of eight bytes as there are.
  method Finalize(h0: bv64, s: seq<byte>) returns (h: bv64)
    requires |s| < 32
    ensures h == Avalanche(Rest(h0, s))
  {
    hide Avalanche, Rest;
    var p: nat;
    var len := |s|;
    h, p := Words(h0, s, len / 8);
    if len == 24 || len == 16 || len == 8 {
      h, p := Bytes(h, s, p, 0);
    } else if len == 28 || len == 20 || len == 12 || len == 4 {
      h, p := FourBytes(h, s, p);
      h, p := Bytes(h, s, p, 0);
    } else if len == 25 || len == 17 || len == 9 {
      h, p := Bytes(h, s, p, 1);
    } else if len == 29 || len == 21 || len == 13 || len == 5 {
      h, p := FourBytes(h, s, p);
      h, p := Bytes(h, s, p, 1);
    } else if len == 26 || len == 18 || len == 10 {
      h, p := Bytes(h, s, p, 2);
    } else if len == 30 || len == 22 || len == 14 || len == 6 {
      h, p := FourBytes(h, s, p);
      h, p := Bytes(h, s, p, 2);
    } else if len == 27 || len == 19 || len == 11 {
      h, p := Bytes(h, s, p, 3);
    } else {
      if len >= 7 { h, p := FourBytes(h, s, p); }
      h, p := Bytes(h, s, p, len % 4);
    }
    h := Avalanche(h);
  }

  // The whole stripes of a text, from l on.
  method Stripes(l0: Lanes, s: seq<byte>) returns (l: Lanes, p: nat)
    ensures p == |s| - |s| % 32 && l == Absorb(l0, s)
  {
    hide Stripe, Absorb;
    l, p := l0, 0;
    while p + 31 < |s|
      invariant p <= |s| && p % 32 == 0 && Absorb(l0, s) == Absorb(l, s[p..])
    {
      NextStripe(l, s[p..]);
      assert s[p..][..32] == s[p..p + 32] && s[p..][32..] == s[p + 32..];
      l := Stripe(l, s[p..p + 32]);
      p := p + 32;
    }
    NoStripe(l, s[p..]);
  }

  lemma NextStripe(l: Lanes, s: seq<byte>)
    requires |s| >= 32
    ensures Absorb(l, s) == Absorb(Stripe(l, s[..32]), s[32..])
  {
    hide Stripe;
  }

  lemma NoStripe(l: Lanes, s: seq<byte>)
    requires |s| < 32
    ensures Absorb(l, s) == l
  {
    hide Stripe;
  }

  // XXH64, in one go.
  method XXH64(s: seq<byte>, seed: bv64) returns (h: bv64)
    ensures h == Hash(seed, s) == XxHashSpec.Xxh64(seed, s)
  {
    hide XxHashSpec.Xxh64, Avalanche, Converge, Absorb, Rest, Length64, Start, Add;
    var p := 0;
    if |s| >= 32 {
      var l;
      l, p := Stripes(Start(seed), s);
      h := Converge(l);
    } else {
      h := Add(seed, PRIME64_5);
    }
    h := Add(h, Length64(|s|));
    h := Finalize(h, s[p..]);
    HashIsXxh64(seed, s);
  }

  // ---------------------------------------------------------------------
  // Against the description of the algorithm
  // ---------------------------------------------------------------------

  lemma RotationIs(x: bv64)
    ensures Rotl(x, 1) == XxHashSpec.Rotated64By1(x)
    ensures Rotl(x, 7) == XxHashSpec.Rotated64By7(x)
    ensures Rotl(x, 11) == XxHashSpec.Rotated64By11(x)
    ensures Rotl(x, 12) == XxHashSpec.Rotated64By12(x)
    ensures Rotl(x, 18) == XxHashSpec.Rotated64By18(x)
    ensures Rotl(x, 23) == XxHashSpec.Rotated64By23(x)
    ensures Rotl(x, 27) == XxHashSpec.Rotated64By27(x)
    ensures Rotl(x, 31) == XxHashSpec.Rotated64By31(x)
  {
  }

  lemma FoldIs(x: bv64)
    ensures Fold(x, 29) == XxHashSpec.Folded64By29(x) && Fold(x, 32) == XxHashSpec.Folded64By32(x)
    ensures Fold(x, 33) == XxHashSpec.Folded64By33(x)
  {
  }

  lemma SumIs(a: bv64, b: bv64)
    ensures Add(a, b) == XxHashSpec.Plus64(a, b)
  {
  }

  lemma MixIs(a: bv64, b: bv64)
    ensures Mix(a, b) == XxHashSpec.Xor64(a, b)
  {
  }

  lemma ProductIs(a: bv64, b: bv64)
    ensures Mul(a, b) == XxHashSpec.Times64(a, b)
  {
  }

  lemma PrimesAre()
    ensures PRIME64_1 == 0x9E3779B185EBCA87 && PRIME64_2 == 0xC2B2AE3D27D4EB4F && PRIME64_3 == 0x165667B19E3779F9
    ensures PRIME64_4 == 0x85EBCA77C2B2AE63 && PRIME64_5 == 0x27D4EB2F165667C5
  {
  }

  lemma RoundIs(acc: bv64, lane: bv64)
    ensures Round(acc, lane) == XxHashSpec.Round64(acc, lane)
  {
    hide Rotl, Mul, XxHashSpec.Times64, Add, XxHashSpec.Plus64, XxHashSpec.Rotated64By31;
    PrimesAre();
    var a := Add(acc, Mul(lane, PRIME64_2));
    ProductIs(lane, PRIME64_2);
    SumIs(acc, Mul(lane, PRIME64_2));
    RotationIs(a);
    ProductIs(Rotl(a, 31), PRIME64_1);
  }

  lemma MergeIs(acc: bv64, val: bv64)
    ensures MergeRound(acc, val) == XxHashSpec.Merged64(acc, val)
  {
    hide Mix, XxHashSpec.Xor64, Round, XxHashSpec.Round64, Mul, XxHashSpec.Times64, Add, XxHashSpec.Plus64;
    PrimesAre();
    RoundIs(0, val);
    MixIs(acc, Round(0, val));
    var a := Mix(acc, Round(0, val));
    ProductIs(a, PRIME64_1);
    SumIs(Mul(a, PRIME64_1), PRIME64_4);
  }

  lemma ConvergeIs(l: Lanes)
    ensures Converge(l) == XxHashSpec.Convergence64(l.v1, l.v2, l.v3, l.v4)
  {
    hide Rotl, Add, XxHashSpec.Plus64, XxHashSpec.Rotated64By1, XxHashSpec.Rotated64By7, XxHashSpec.Rotated64By12,
         XxHashSpec.Rotated64By18, MergeRound, XxHashSpec.Merged64;
    RotationIs(l.v1); RotationIs(l.v2); RotationIs(l.v3); RotationIs(l.v4);
    var a := Add(Rotl(l.v1, 1), Rotl(l.v2, 7));
    var h := Add(Add(a, Rotl(l.v3, 12)), Rotl(l.v4, 18));
    SumIs(Rotl(l.v1, 1), Rotl(l.v2, 7));
    SumIs(a, Rotl(l.v3, 12));
    SumIs(Add(a, Rotl(l.v3, 12)), Rotl(l.v4, 18));
    var h1 := MergeRound(h, l.v1);
    var h2 := MergeRound(h1, l.v2);
    MergeIs(h, l.v1); MergeIs(h1, l.v2); MergeIs(h2, l.v3); MergeIs(MergeRound(h2, l.v3), l.v4);
  }

  lemma LongStepIs(h: bv64, lane: bv64)
    ensures Add(Mul(Rotl(Mix(h, Round(0, lane)), 27), PRIME64_1), PRIME64_4) == XxHashSpec.LongStep64(h, lane)
  {
    hide Mix, XxHashSpec.Xor64, Rotl, Mul, XxHashSpec.Times64, Add, XxHashSpec.Plus64, XxHashSpec.Rotated64By27,
         Round, XxHashSpec.Round64;
    PrimesAre();
    RoundIs(0, lane);
    MixIs(h, Round(0, lane));
    var a := Mix(h, Round(0, lane));
    RotationIs(a);
    ProductIs(Rotl(a, 27), PRIME64_1);
    SumIs(Mul(Rotl(a, 27), PRIME64_1), PRIME64_4);
  }

  lemma WordStepIs(h: bv64, lane: bv64)
    ensures Add(Mul(Rotl(Mix(h, Mul(lane, PRIME64_1)), 23), PRIME64_2), PRIME64_3) == XxHashSpec.WordStep64(h, lane)
  {
    hide Mix, XxHashSpec.Xor64, Rotl, Mul, XxHashSpec.Times64, Add, XxHashSpec.Plus64, XxHashSpec.Rotated64By23;
    PrimesAre();
    ProductIs(lane, PRIME64_1);
    MixIs(h, Mul(lane, PRIME64_1));
    var a := Mix(h, Mul(lane, PRIME64_1));
    RotationIs(a);
    ProductIs(Rotl(a, 23), PRIME64_2);
    SumIs(Mul(Rotl(a, 23), PRIME64_2), PRIME64_3);
  }

  lemma ByteStepIs(h: bv64, lane: bv64)
    ensures Mul(Rotl(Mix(h, Mul(lane, PRIME64_5)), 11), PRIME64_1) == XxHashSpec.ByteStep64(h, lane)
  {
    hide Mix, XxHashSpec.Xor64, Rotl, Mul, XxHashSpec.Times64, XxHashSpec.Rotated64By11;
    PrimesAre();
    ProductIs(lane, PRIME64_5);
    MixIs(h, Mul(lane, PRIME64_5));
    var a := Mix(h, Mul(lane, PRIME64_5));
    RotationIs(a);
    ProductIs(Rotl(a, 11), PRIME64_1);
  }

  lemma AvalancheIs(h: bv64)
    ensures Avalanche(h) == XxHashSpec.Mixed64(h)
  {
    hide Mul, XxHashSpec.Times64, Fold, XxHashSpec.Folded64By29, XxHashSpec.Folded64By32, XxHashSpec.Folded64By33;
    PrimesAre();
    FoldIs(h);
    var a := Mul(Fold(h, 33), PRIME64_2);
    ProductIs(Fold(h, 33), PRIME64_2);
    FoldIs(a);
    ProductIs(Fold(a, 29), PRIME64_3);
    FoldIs(Mul(Fold(a, 29), PRIME64_3));
  }

  lemma WordIs(s: seq<byte>, p: nat)
    requires p + 8 <= |s|
    ensures Word(s[p..p + 8]) == XxHashSpec.Word64(XxHashSpec.EightBytes(s, p))
  {
    var x := s[p..p + 8];
    assert LE32(x[..4]) == XxHashSpec.FourBytes(s, p) && LE32(x[4..8]) == XxHashSpec.FourBytes(s, p + 4);
  }

  lemma HalfWordIs(s: seq<byte>, p: nat)
    requires p + 4 <= |s|
    ensures HalfWord(s[p..p + 4]) == XxHashSpec.Word64(XxHashSpec.FourBytes(s, p))
  {
    assert LE32(s[p..p + 4]) == XxHashSpec.FourBytes(s, p);
  }

  lemma ByteIs(b: byte)
    ensures b as bv64 == XxHashSpec.Word64(b)
  {
  }

  lemma LengthIs(acc: bv64, n: nat)
    ensures Add(acc, Length64(n)) == XxHashSpec.Counted64(acc, n)
  {
    hide Add, XxHashSpec.Plus64;
    SumIs(acc, Length64(n));
  }

  lemma LaneIs(acc: bv64, s: seq<byte>, p: nat, k: nat)
    requires p + 32 <= |s| && k + 8 <= 32
    ensures Round(acc, Word(s[p..p + 32][k..k + 8]))
         == XxHashSpec.Round64(acc, XxHashSpec.Word64(XxHashSpec.EightBytes(s, p + k)))
  {
    hide Round, XxHashSpec.Round64, Word, XxHashSpec.Word64, XxHashSpec.EightBytes;
    SliceOfSlice(s, p, 32, k, 8);
    WordIs(s, p + k);
    RoundIs(acc, Word(s[p + k..p + k + 8]));
  }

  lemma StripeIs(l: Lanes, s: seq<byte>, p: nat)
    requires p + 32 <= |s|
    ensures Stripe(l, s[p..p + 32]) ==
            Lanes(XxHashSpec.Round64(l.v1, XxHashSpec.Word64(XxHashSpec.EightBytes(s, p))),
                  XxHashSpec.Round64(l.v2, XxHashSpec.Word64(XxHashSpec.EightBytes(s, p + 8))),
                  XxHashSpec.Round64(l.v3, XxHashSpec.Word64(XxHashSpec.EightBytes(s, p + 16))),
                  XxHashSpec.Round64(l.v4, XxHashSpec.Word64(XxHashSpec.EightBytes(s, p + 24))))
  {
    hide Round, XxHashSpec.Round64, Word, XxHashSpec.Word64, XxHashSpec.EightBytes;
    LaneIs(l.v1, s, p, 0);
    LaneIs(l.v2, s, p, 8);
    LaneIs(l.v3, s, p, 16);
    LaneIs(l.v4, s, p, 24);
    assert s[p..p + 32][..8] == s[p..p + 32][0..8];
  }

  // The accumulators after n stripes.
  function Accumulators(seed: bv64, s: seq<byte>, n: nat): Lanes
    requires 32 * n <= |s|
  {
    Lanes(XxHashSpec.Accumulator64(seed, s, 0, n), XxHashSpec.Accumulator64(seed, s, 1, n),
          XxHashSpec.Accumulator64(seed, s, 2, n), XxHashSpec.Accumulator64(seed, s, 3, n))
  }

  lemma StartIs(seed: bv64, s: seq<byte>)
    ensures Start(seed) == Accumulators(seed, s, 0)
  {
    hide Add, XxHashSpec.Plus64;
    PrimesAre();
    SumIs(seed, PRIME64_1);
    SumIs(Add(seed, PRIME64_1), PRIME64_2);
    SumIs(seed, PRIME64_2);
  }

  lemma {:induction false} LanesAre(seed: bv64, s: seq<byte>, n: nat)
    requires 32 * n <= |s|
    ensures Absorb(Start(seed), s[..32 * n]) == Accumulators(seed, s, n)
  {
    hide Stripe, Start, XxHashSpec.Round64, XxHashSpec.Word64, XxHashSpec.EightBytes, XxHashSpec.Plus64;
    if n == 0 {
      StartIs(seed, s);
      assert s[..0] == [];
    } else {
      var p := 32 * (n - 1);
      LanesAre(seed, s, n - 1);
      assert s[..32 * n] == s[..p] + s[p..p + 32];
      AbsorbAppend(Start(seed), s[..p], s[p..p + 32]);
      AbsorbOne(Absorb(Start(seed), s[..p]), s[p..p + 32]);
      StripeIs(Accumulators(seed, s, n - 1), s, p);
    }
  }

  lemma Process8Is(h: bv64, s: seq<byte>, p: nat)
    requires p + 8 <= |s|
    ensures Process8(h, s[p..]) == XxHashSpec.LongStep64(h, XxHashSpec.Word64(XxHashSpec.EightBytes(s, p)))
  {
    hide Rotl, Mul, Add, Mix, Round, XxHashSpec.LongStep64, Word, XxHashSpec.Word64, XxHashSpec.EightBytes;
    assert s[p..][..8] == s[p..p + 8];
    WordIs(s, p);
    LongStepIs(h, Word(s[p..p + 8]));
  }

  lemma Process4Is(h: bv64, s: seq<byte>, p: nat)
    requires p + 4 <= |s|
    ensures Process4(h, s[p..]) == XxHashSpec.WordStep64(h, XxHashSpec.Word64(XxHashSpec.FourBytes(s, p)))
  {
    hide Rotl, Mul, Add, Mix, XxHashSpec.WordStep64, HalfWord, XxHashSpec.Word64, XxHashSpec.FourBytes;
    assert s[p..][..4] == s[p..p + 4];
    HalfWordIs(s, p);
    WordStepIs(h, HalfWord(s[p..p + 4]));
  }

  lemma Process1Is(h: bv64, b: byte)
    ensures Process1(h, b) == XxHashSpec.ByteStep64(h, XxHashSpec.Word64(b))
  {
    hide Rotl, Mul, Mix, XxHashSpec.ByteStep64, XxHashSpec.Word64;
    ByteIs(b);
    ByteStepIs(h, XxHashSpec.Word64(b));
  }

  lemma {:induction false} RestIs(h: bv64, s: seq<byte>, p: nat)
    requires p <= |s|
    ensures Rest(h, s[p..]) == XxHashSpec.Remaining64(h, s, p)
    decreases |s| - p
  {
    hide Process8, Process4, Process1, XxHashSpec.LongStep64, XxHashSpec.WordStep64, XxHashSpec.ByteStep64,
         XxHashSpec.Word64, XxHashSpec.FourBytes, XxHashSpec.EightBytes;
    if p + 8 <= |s| {
      Rest8(h, s, p);
      Process8Is(h, s, p);
      RestIs(Process8(h, s[p..]), s, p + 8);
    } else if p + 4 <= |s| {
      Rest4(h, s, p);
      Process4Is(h, s, p);
      RestIs(Process4(h, s[p..]), s, p + 4);
    } else if p < |s| {
      Rest1(h, s, p);
      Process1Is(h, s[p]);
      RestIs(Process1(h, s[p]), s, p + 1);
    }
  }

  // The code's algorithm is the one described.
  lemma HashIsXxh64(seed: bv64, s: seq<byte>)
    ensures Hash(seed, s) == XxHashSpec.Xxh64(seed, s)
  {
    hide Avalanche, Converge, Absorb, Rest, Start, Add, Length64, XxHashSpec.Mixed64, XxHashSpec.Convergence64,
         XxHashSpec.Remaining64, XxHashSpec.Accumulator64, XxHashSpec.Plus64, XxHashSpec.Counted64;
    var n := |s| / 32;
    var p := 32 * n;
    assert p == |s| - |s| % 32;
    if n > 0 {
      LanesAre(seed, s, n);
      assert s == s[..p] + s[p..];
      AbsorbTail(Start(seed), s[..p], s[p..]);
      ConvergeIs(Absorb(Start(seed), s));
    } else {
      PrimesAre();
      SumIs(seed, PRIME64_5);
    }
    var acc := XxHashSpec.Converged64(seed, s);
    LengthIs(acc, |s|);
    RestIs(Add(acc, Length64(|s|)), s, p);
    AvalancheIs(Rest(Add(acc, Length64(|s|)), s[p..]));
  }

  // ---------------------------------------------------------------------
  // Streaming
  // ---------------------------------------------------------------------

  // XXH64_state_t.
  class State {
    var totalLen: nat
    var lanes: Lanes
    const mem64: array<byte>
    var memsize: nat
    ghost var seed: bv64
    ghost var input: seq<byte>

    // The whole stripes of the input are absorbed, the rest is in memory.
    ghost predicate Absorbed()
      reads `lanes, `memsize, `seed, `input, mem64
    {
      && mem64.Length == 32 && memsize == |input| % 32
      && lanes == Absorb(Start(seed), input) && mem64[..memsize] == input[|input| - memsize..]
    }

    ghost predicate Valid()
      reads this, mem64
    {
      Absorbed() && Counted(|input|)
    }

    ghost predicate Counted(n: nat)
      reads `totalLen
    {
      totalLen == n % 0x1_0000_0000_0000_0000
    }

    constructor (seed: bv64)
      ensures Valid() && this.seed == seed && input == [] && fresh(mem64)
    {
      hide Start, Stripe;
      totalLen, lanes, memsize := 0, Start(seed), 0;
      mem64 := new byte[32];
      this.seed, input := seed, [];
    }

    // XXH64_reset
    method Reset(seed: bv64)
      requires mem64.Length == 32
      modifies this
      ensures Valid() && this.seed == seed && input == []
    {
      hide Start, Absorb;
      totalLen, lanes, memsize := 0, Start(seed), 0;
      this.seed, input := seed, [];
      NoStripe(Start(seed), []);
      assert mem64[..0] == [];
    }

    // Less than a stripe in all: fill the memory.
    method Fill(x: seq<byte>)
      requires Absorbed() && memsize + |x| < 32
      modifies `memsize, `input, mem64
      ensures Absorbed() && input == old(input) + x
    {
      hide Stripe, Absorb, Start;
      ghost var tail := mem64[..memsize];
      ghost var front := input[..|input| - memsize];
      assert input == front + tail;
      PutBytes(mem64, memsize, x);
      AbsorbTail(Start(seed), front, tail);
      AbsorbTail(Start(seed), front, tail + x);
      assert input + x == front + (tail + x);
      memsize := memsize + |x|;
      input := input + x;
    }

    // The bytes that complete a stripe in memory.
    method CompleteStripe(x: seq<byte>)
      requires Absorbed() && memsize + |x| == 32
      modifies `memsize, `input, `lanes, mem64
      ensures Absorbed() && memsize == 0 && input == old(input) + x
    {
      hide Stripe, Absorb, Start;
      ghost var tail := mem64[..memsize];
      ghost var front := input[..|input| - memsize];
      assert input == front + tail;
      PutBytes(mem64, memsize, x);
      assert mem64[..32] == tail + x;
      lanes := Stripe(lanes, mem64[..32]);
      AbsorbTail(Start(seed), front, tail);
      AbsorbAppend(Start(seed), front, tail + x);
      AbsorbOne(Absorb(Start(seed), front), tail + x);
      assert input + x == front + (tail + x);
      memsize := 0;
      input := input + x;
      assert mem64[..0] == [] && input[|input|..] == [];
    }

    // With empty memory: whole stripes, then the rest into memory.
    method Continue(x: seq<byte>)
      requires Absorbed() && memsize == 0
      modifies `memsize, `input, `lanes, mem64
      ensures Absorbed() && input == old(input) + x
    {
      hide Stripe, Absorb, Start;
      var p;
      lanes, p := Stripes(lanes, x);
      AbsorbAppend(Start(seed), input, x);
      EndOfSum(input, x, |x| - p);
      PutBytes(mem64, 0, x[p..]);
      memsize := |x| - p;
      input := input + x;
    }

    // The length modulo 2^64.
    method CountIn(n: nat, ghost before: nat)
      requires Counted(before)
      modifies `totalLen
      ensures Counted(before + n)
    {
      LengthStep(before, n);
      totalLen := (totalLen + n % 0x1_0000_0000_0000_0000) % 0x1_0000_0000_0000_0000;
    }

    lemma InMemory()
      requires Absorbed()
      ensures memsize < 32
    {
    }

    // XXH64_update
    method Update(x: seq<byte>)
      requires Valid()
      modifies this, mem64
      ensures Valid() && seed == old(seed) && input == old(input) + x
    {
      hide Absorbed, Counted;
      ghost var i0 := input;
      InMemory();
      CountIn(|x|, |input|);
      if memsize + |x| < 32 {
        Fill(x);
        return;
      }
      var p: nat := 0;
      if memsize > 0 {
        p := 32 - memsize;
        CompleteStripe(x[..p]);
      }
      Continue(x[p..]);
      Rejoin(i0, x, p);
    }

    // XXH64_digest: the value of the one-shot function on all input so far,
    // while its length stays below 2^64.
    method Digest() returns (h: bv64)
      requires Valid()
      ensures |input| < 0x1_0000_0000_0000_0000 ==> h == Hash(seed, input) == XxHashSpec.Xxh64(seed, input)
    {
      hide XxHashSpec.Xxh64, Stripe, Absorb, Rest, Avalanche, Converge, Add, Length64, Start;
      h := if totalLen >= 32 then Converge(lanes) else Add(lanes.v3, PRIME64_5);
      if |input| < 32 { NoStripe(Start(seed), input); SeedKept(seed); }
      SameLength(|input|);
      h := Add(h, Length64(totalLen));
      h := Finalize(h, mem64[..memsize]);
      HashIsXxh64(seed, input);
    }
  }

  lemma Rejoin(i: seq<byte>, x: seq<byte>, p: nat)
    requires p <= |x|
    ensures i + x[..p] + x[p..] == i + x && (p == 0 ==> i + x[..p] == i && x[p..] == x)
  {
  }

  lemma EndOfSum(i: seq<byte>, x: seq<byte>, n: nat)
    requires n <= |x|
    ensures (i + x)[|i + x| - n..] == x[|x| - n..]
  {
  }

  lemma SeedKept(seed: bv64)
    ensures Start(seed).v3 == seed
  {
  }

  lemma SameLength(n: nat)
    ensures Length64(n % 0x1_0000_0000_0000_0000) == Length64(n)
  {
    assert n % 0x1_0000_0000_0000_0000 % 0x1_0000_0000_0000_0000 == n % 0x1_0000_0000_0000_0000;
  }

  lemma LengthStep(n: nat, k: nat)
    ensures (n % 0x1_0000_0000_0000_0000 + k % 0x1_0000_0000_0000_0000) % 0x1_0000_0000_0000_0000
         == (n + k) % 0x1_0000_0000_0000_0000
  {
  }

  // Any partition of a text into updates gives the value of the one-shot
  // function on the text.
  method HashInPieces(pieces: seq<seq<byte>>, seed: bv64) returns (h: bv64)
    requires |Joined(pieces)| < 0x1_0000_0000_0000_0000
    ensures h == Hash(seed, Joined(pieces)) == XxHashSpec.Xxh64(seed, Joined(pieces))
  {
    hide Hash, Joined, XxHashSpec.Xxh64;
    var state := new State(seed);
    assert pieces[..0] == [];
    NothingJoined();
    for i := 0 to |pieces|
      invariant state.Valid() && state.seed == seed && state.input == Joined(pieces[..i]) && fresh(state)
      invariant fresh(state.mem64)
    {
      state.Update(pieces[i]);
      OneMoreJoined(pieces, i);
    }
    assert pieces[..|pieces|] == pieces;
    h := state.Digest();
  }
}
