// XXH32: the one-shot function and the streaming state.
module XxHash32 {
  import opened BlockFormat
  import opened FrameFormat
  import opened Buffers
  import XxHashSpec

  const PRIME32_1: bv32 := 2654435761
  const PRIME32_2: bv32 := 2246822519
  const PRIME32_3: bv32 := 3266489917
  const PRIME32_4: bv32 := 668265263
  const PRIME32_5: bv32 := 374761393

  function Add(a: bv32, b: bv32): bv32 { a + b }

  function Mul(a: bv32, b: bv32): bv32 { a * b }

  function Fold(x: bv32, r: nat): bv32
    requires r <= 32
  {
    x ^ (x >> r)
  }

  function Rotl(x: bv32, r: nat): bv32
    requires r <= 32
  {
    x.RotateLeft(r)
  }

  function Round(seed: bv32, input: bv32): bv32 {
    Mul(Rotl(Add(seed, Mul(input, PRIME32_2)), 13), PRIME32_1)
  }

  function Avalanche(h0: bv32): bv32 {
    var h1 := Mul(Fold(h0, 15), PRIME32_2);
    var h2 := Mul(Fold(h1, 13), PRIME32_3);
    Fold(h2, 16)
  }

  function Word(s: seq<byte>): bv32
    requires |s| >= 4
  {
    LE32(s) as bv32
  }

  // ---------------------------------------------------------------------
  // The algorithm
  // ---------------------------------------------------------------------

  datatype Lanes = Lanes(v1: bv32, v2: bv32, v3: bv32, v4: bv32)

  function Start(seed: bv32): Lanes {
    Lanes(Add(Add(seed, PRIME32_1), PRIME32_2), Add(seed, PRIME32_2), seed, seed - PRIME32_1)
  }

  // One stripe of 16 bytes.
  function Stripe(l: Lanes, s: seq<byte>): Lanes
    requires |s| >= 16
  {
    Lanes(Round(l.v1, Word(s[..4])), Round(l.v2, Word(s[4..8])), Round(l.v3, Word(s[8..12])),
          Round(l.v4, Word(s[12..16])))
  }

  // All whole stripes of a text.
  function Absorb(l: Lanes, s: seq<byte>): Lanes
    decreases |s|
  {
    if |s| < 16 then l else Absorb(Stripe(l, s[..16]), s[16..])
  }

  function Converge(l: Lanes): bv32 {
    Add(Add(Add(Rotl(l.v1, 1), Rotl(l.v2, 7)), Rotl(l.v3, 12)), Rotl(l.v4, 18))
  }

  function Process4(h: bv32, s: seq<byte>): bv32
    requires |s| >= 4
  {
    Mul(Rotl(Add(h, Mul(Word(s[..4]), PRIME32_3)), 17), PRIME32_4)
  }

  function Process1(h: bv32, b: byte): bv32 {
    Mul(Rotl(Add(h, Mul(b as bv32, PRIME32_5)), 11), PRIME32_1)
  }

  // The rest: words while there are any, then bytes.
  function Rest(h: bv32, s: seq<byte>): bv32
    decreases |s|
  {
    if |s| >= 4 then Rest(Process4(h, s), s[4..])
    else if |s| > 0 then Rest(Process1(h, s[0]), s[1..])
    else h
  }

  function Length32(n: nat): bv32 {
    (n % 0x1_0000_0000) as bv32
  }

  // XXH32, as the code arranges it.
  function Hash(seed: bv32, s: seq<byte>): bv32 {
    var tail := s[|s| - |s| % 16..];
    var h := if |s| >= 16 then Converge(Absorb(Start(seed), s)) else Add(seed, PRIME32_5);
    Avalanche(Rest(Add(h, Length32(|s|)), tail))
  }

  lemma {:induction false} AbsorbAppend(l: Lanes, a: seq<byte>, b: seq<byte>)
    requires |a| % 16 == 0
    ensures Absorb(l, a + b) == Absorb(Absorb(l, a), b)
    decreases |a|
  {
    hide Stripe;
    if |a| == 0 {
      assert a + b == b;
    } else {
      assert (a + b)[..16] == a[..16] && (a + b)[16..] == a[16..] + b;
      AbsorbAppend(Stripe(l, a[..16]), a[16..], b);
    }
  }

  lemma AbsorbOne(l: Lanes, s: seq<byte>)
    requires |s| == 16
    ensures Absorb(l, s) == Stripe(l, s)
  {
    hide Stripe;
    assert s[..16] == s && Absorb(Stripe(l, s), s[16..]) == Stripe(l, s);
  }

  // A part shorter than a stripe is not absorbed.
  lemma AbsorbTail(l: Lanes, a: seq<byte>, b: seq<byte>)
    requires |a| % 16 == 0 && |b| < 16
    ensures Absorb(l, a + b) == Absorb(l, a)
  {
    hide Stripe;
    AbsorbAppend(l, a, b);
  }

  // ---------------------------------------------------------------------
  // The end of the computation
  // ---------------------------------------------------------------------

  lemma Rest4(h: bv32, s: seq<byte>, p: nat)
    requires p + 4 <= |s|
    ensures Rest(h, s[p..]) == Rest(Process4(h, s[p..]), s[p + 4..])
  {
    hide Process4;
    assert s[p..][4..] == s[p + 4..];
  }

  lemma Rest1(h: bv32, s: seq<byte>, p: nat)
    requires p < |s| < p + 4
    ensures Rest(h, s[p..]) == Rest(Process1(h, s[p]), s[p + 1..])
  {
    hide Process1, Process4;
    assert s[p..][1..] == s[p + 1..];
  }

  lemma RestNone(h: bv32, s: seq<byte>)
    ensures Rest(h, s[|s|..]) == h
  {
  }

  // XXH32_finalize: a jump into four runs of steps, by the length.
  method Finalize(h0: bv32, s: seq<byte>) returns (h: bv32)
    requires |s| < 16
    ensures h == Avalanche(Rest(h0, s))
  {
    hide Avalanche, Process1, Process4, Rest;
    h := h0;
    var p: nat := 0;
    ghost var goal := Rest(h0, s);
    assert s[0..] == s;
    var len := |s|;
    if len == 12 || len == 8 || len == 4 {
      if len >= 12 { Rest4(h, s, p); h, p := Process4(h, s[p..]), p + 4; }
      if len >= 8 { Rest4(h, s, p); h, p := Process4(h, s[p..]), p + 4; }
      Rest4(h, s, p); h, p := Process4(h, s[p..]), p + 4;
    } else if len == 13 || len == 9 || len == 5 {
      if len >= 13 { Rest4(h, s, p); h, p := Process4(h, s[p..]), p + 4; }
      if len >= 9 { Rest4(h, s, p); h, p := Process4(h, s[p..]), p + 4; }
      Rest4(h, s, p); h, p := Process4(h, s[p..]), p + 4;
      Rest1(h, s, p); h, p := Process1(h, s[p]), p + 1;
    } else if len == 14 || len == 10 || len == 6 {
      if len >= 14 { Rest4(h, s, p); h, p := Process4(h, s[p..]), p + 4; }
      if len >= 10 { Rest4(h, s, p); h, p := Process4(h, s[p..]), p + 4; }
      Rest4(h, s, p); h, p := Process4(h, s[p..]), p + 4;
      Rest1(h, s, p); h, p := Process1(h, s[p]), p + 1;
      Rest1(h, s, p); h, p := Process1(h, s[p]), p + 1;
    } else {
      if len >= 15 { Rest4(h, s, p); h, p := Process4(h, s[p..]), p + 4; }
      if len >= 11 { Rest4(h, s, p); h, p := Process4(h, s[p..]), p + 4; }
      if len >= 7 { Rest4(h, s, p); h, p := Process4(h, s[p..]), p + 4; }
      if len >= 3 { Rest1(h, s, p); h, p := Process1(h, s[p]), p + 1; }
      if len >= 2 { Rest1(h, s, p); h, p := Process1(h, s[p]), p + 1; }
      if len >= 1 { Rest1(h, s, p); h, p := Process1(h, s[p]), p + 1; }
    }
    assert p == |s| && Rest(h, s[p..]) == goal;
    RestNone(h, s);
    h := Avalanche(h);
  }

  // The whole stripes of a text, from l on.
  method Stripes(l0: Lanes, s: seq<byte>) returns (l: Lanes, p: nat)
    ensures p == |s| - |s| % 16 && l == Absorb(l0, s)
  {
    hide Stripe, Absorb;
    l, p := l0, 0;
    while p + 15 < |s|
      invariant p <= |s| && p % 16 == 0 && Absorb(l0, s) == Absorb(l, s[p..])
    {
      NextStripe(l, s[p..]);
      assert s[p..][..16] == s[p..p + 16] && s[p..][16..] == s[p + 16..];
      l := Stripe(l, s[p..p + 16]);
      p := p + 16;
    }
    NoStripe(l, s[p..]);
  }

  lemma NextStripe(l: Lanes, s: seq<byte>)
    requires |s| >= 16
    ensures Absorb(l, s) == Absorb(Stripe(l, s[..16]), s[16..])
  {
    hide Stripe;
  }

  lemma NoStripe(l: Lanes, s: seq<byte>)
    requires |s| < 16
    ensures Absorb(l, s) == l
  {
    hide Stripe;
  }

  // XXH32, in one go.
  method XXH32(s: seq<byte>, seed: bv32) returns (h: bv32)
    ensures h == Hash(seed, s) == XxHashSpec.Xxh32(seed, s)
  {
    hide XxHashSpec.Xxh32, Avalanche, Converge, Absorb, Rest, Length32, Start, Add;
    var p := 0;
    if |s| >= 16 {
      var l;
      l, p := Stripes(Start(seed), s);
      h := Converge(l);
    } else {
      h := Add(seed, PRIME32_5);
    }
    h := Add(h, Length32(|s|));
    h := Finalize(h, s[p..]);
    HashIsXxh32(seed, s);
  }

  // ---------------------------------------------------------------------
  // Against the description of the algorithm
  // ---------------------------------------------------------------------

  lemma RotationIs(x: bv32)
    ensures Rotl(x, 1) == XxHashSpec.Rotated32By1(x)
    ensures Rotl(x, 7) == XxHashSpec.Rotated32By7(x)
    ensures Rotl(x, 11) == XxHashSpec.Rotated32By11(x)
    ensures Rotl(x, 12) == XxHashSpec.Rotated32By12(x)
    ensures Rotl(x, 13) == XxHashSpec.Rotated32By13(x)
    ensures Rotl(x, 17) == XxHashSpec.Rotated32By17(x)
    ensures Rotl(x, 18) == XxHashSpec.Rotated32By18(x)
  {
  }

  lemma SumIs(a: bv32, b: bv32)
    ensures Add(a, b) == XxHashSpec.Plus32(a, b)
  {
  }

  lemma ProductIs(a: bv32, b: bv32)
    ensures Mul(a, b) == XxHashSpec.Times32(a, b)
  {
  }

  lemma PrimesAre()
    ensures PRIME32_1 == 0x9E3779B1 && PRIME32_2 == 0x85EBCA77 && PRIME32_3 == 0xC2B2AE3D
    ensures PRIME32_4 == 0x27D4EB2F && PRIME32_5 == 0x165667B1
  {
  }

  lemma RoundIs(acc: bv32, lane: bv32)
    ensures Round(acc, lane) == XxHashSpec.Round32(acc, lane)
  {
    hide Rotl, Mul, XxHashSpec.Times32, Add, XxHashSpec.Plus32, XxHashSpec.Rotated32By13;
    PrimesAre();
    var a := Add(acc, Mul(lane, PRIME32_2));
    ProductIs(lane, PRIME32_2);
    SumIs(acc, Mul(lane, PRIME32_2));
    RotationIs(a);
    ProductIs(Rotl(a, 13), PRIME32_1);
  }

  lemma WordIs(s: seq<byte>, p: nat)
    requires p + 4 <= |s|
    ensures Word(s[p..p + 4]) == XxHashSpec.Word32(XxHashSpec.FourBytes(s, p))
  {
    assert LE32(s[p..p + 4]) == XxHashSpec.FourBytes(s, p);
  }

  lemma ConvergeIs(l: Lanes)
    ensures Converge(l) == XxHashSpec.Convergence32(l.v1, l.v2, l.v3, l.v4)
  {
    hide Rotl, Add, XxHashSpec.Plus32, XxHashSpec.Rotated32By1, XxHashSpec.Rotated32By7, XxHashSpec.Rotated32By12,
         XxHashSpec.Rotated32By18;
    RotationIs(l.v1); RotationIs(l.v2); RotationIs(l.v3); RotationIs(l.v4);
    var a := Add(Rotl(l.v1, 1), Rotl(l.v2, 7));
    SumIs(Rotl(l.v1, 1), Rotl(l.v2, 7));
    SumIs(a, Rotl(l.v3, 12));
    SumIs(Add(a, Rotl(l.v3, 12)), Rotl(l.v4, 18));
  }

  lemma WordStepIs(h: bv32, lane: bv32)
    ensures Mul(Rotl(Add(h, Mul(lane, PRIME32_3)), 17), PRIME32_4) == XxHashSpec.WordStep32(h, lane)
  {
    hide Rotl, Mul, XxHashSpec.Times32, Add, XxHashSpec.Plus32, XxHashSpec.Rotated32By17;
    PrimesAre();
    var a := Add(h, Mul(lane, PRIME32_3));
    ProductIs(lane, PRIME32_3);
    SumIs(h, Mul(lane, PRIME32_3));
    RotationIs(a);
    ProductIs(Rotl(a, 17), PRIME32_4);
  }

  lemma ByteStepIs(h: bv32, lane: bv32)
    ensures Mul(Rotl(Add(h, Mul(lane, PRIME32_5)), 11), PRIME32_1) == XxHashSpec.ByteStep32(h, lane)
  {
    hide Rotl, Mul, XxHashSpec.Times32, Add, XxHashSpec.Plus32, XxHashSpec.Rotated32By11;
    PrimesAre();
    var a := Add(h, Mul(lane, PRIME32_5));
    ProductIs(lane, PRIME32_5);
    SumIs(h, Mul(lane, PRIME32_5));
    RotationIs(a);
    ProductIs(Rotl(a, 11), PRIME32_1);
  }

  lemma AvalancheIs(h: bv32)
    ensures Avalanche(h) == XxHashSpec.Mixed32(h)
  {
    hide Mul, XxHashSpec.Times32, Fold, XxHashSpec.Folded32By13, XxHashSpec.Folded32By15,
         XxHashSpec.Folded32By16;
    PrimesAre();
    FoldIs(h);
    var a := Mul(Fold(h, 15), PRIME32_2);
    ProductIs(Fold(h, 15), PRIME32_2);
    FoldIs(a);
    ProductIs(Fold(a, 13), PRIME32_3);
    FoldIs(Mul(Fold(a, 13), PRIME32_3));
  }

  lemma FoldIs(x: bv32)
    ensures Fold(x, 13) == XxHashSpec.Folded32By13(x) && Fold(x, 15) == XxHashSpec.Folded32By15(x)
    ensures Fold(x, 16) == XxHashSpec.Folded32By16(x)
  {
  }

  lemma StartIs(seed: bv32, s: seq<byte>)
    ensures Start(seed) == Accumulators(seed, s, 0)
  {
    hide Add, XxHashSpec.Plus32;
    PrimesAre();
    SumIs(seed, PRIME32_1);
    SumIs(Add(seed, PRIME32_1), PRIME32_2);
    SumIs(seed, PRIME32_2);
  }

  lemma LengthIs(acc: bv32, n: nat)
    ensures Add(acc, Length32(n)) == XxHashSpec.Counted32(acc, n)
  {
    hide Add, XxHashSpec.Plus32;
    SumIs(acc, Length32(n));
  }

  lemma StripeIs(l: Lanes, s: seq<byte>, p: nat)
    requires p + 16 <= |s|
    ensures Stripe(l, s[p..p + 16]) ==
            Lanes(XxHashSpec.Round32(l.v1, XxHashSpec.Word32(XxHashSpec.FourBytes(s, p))),
                  XxHashSpec.Round32(l.v2, XxHashSpec.Word32(XxHashSpec.FourBytes(s, p + 4))),
                  XxHashSpec.Round32(l.v3, XxHashSpec.Word32(XxHashSpec.FourBytes(s, p + 8))),
                  XxHashSpec.Round32(l.v4, XxHashSpec.Word32(XxHashSpec.FourBytes(s, p + 12))))
  {
    hide Round, XxHashSpec.Round32, Word, XxHashSpec.Word32, XxHashSpec.FourBytes;
    var x := s[p..p + 16];
    SliceOfSlice(s, p, 16, 0, 4); SliceOfSlice(s, p, 16, 4, 4);
    SliceOfSlice(s, p, 16, 8, 4); SliceOfSlice(s, p, 16, 12, 4);
    WordIs(s, p); WordIs(s, p + 4); WordIs(s, p + 8); WordIs(s, p + 12);
    RoundIs(l.v1, Word(x[..4])); RoundIs(l.v2, Word(x[4..8]));
    RoundIs(l.v3, Word(x[8..12])); RoundIs(l.v4, Word(x[12..16]));
  }

  // The accumulators after n stripes.
  function Accumulators(seed: bv32, s: seq<byte>, n: nat): Lanes
    requires 16 * n <= |s|
  {
    Lanes(XxHashSpec.Accumulator32(seed, s, 0, n), XxHashSpec.Accumulator32(seed, s, 1, n),
          XxHashSpec.Accumulator32(seed, s, 2, n), XxHashSpec.Accumulator32(seed, s, 3, n))
  }

  lemma {:induction false} LanesAre(seed: bv32, s: seq<byte>, n: nat)
    requires 16 * n <= |s|
    ensures Absorb(Start(seed), s[..16 * n]) == Accumulators(seed, s, n)
  {
    hide Stripe, Start, XxHashSpec.Round32, XxHashSpec.Word32, XxHashSpec.FourBytes, XxHashSpec.Plus32;
    if n == 0 {
      StartIs(seed, s);
      assert s[..0] == [];
    } else {
      var p := 16 * (n - 1);
      LanesAre(seed, s, n - 1);
      assert s[..16 * n] == s[..p] + s[p..p + 16];
      AbsorbAppend(Start(seed), s[..p], s[p..p + 16]);
      AbsorbOne(Absorb(Start(seed), s[..p]), s[p..p + 16]);
      StripeIs(Accumulators(seed, s, n - 1), s, p);
    }
  }

  lemma {:induction false} RestIs(h: bv32, s: seq<byte>, p: nat)
    requires p <= |s|
    ensures Rest(h, s[p..]) == XxHashSpec.Remaining32(h, s, p)
    decreases |s| - p
  {
    hide Rotl, Mul, Add, XxHashSpec.WordStep32, XxHashSpec.ByteStep32, Word, XxHashSpec.Word32, XxHashSpec.FourBytes;
    if p + 4 <= |s| {
      Rest4(h, s, p);
      assert s[p..][..4] == s[p..p + 4];
      WordIs(s, p);
      WordStepIs(h, Word(s[p..p + 4]));
      RestIs(Process4(h, s[p..]), s, p + 4);
    } else if p < |s| {
      Rest1(h, s, p);
      ByteIs(s[p]);
      ByteStepIs(h, XxHashSpec.Word32(s[p]));
      RestIs(Process1(h, s[p]), s, p + 1);
    }
  }

  lemma ByteIs(b: byte)
    ensures b as bv32 == XxHashSpec.Word32(b)
  {
  }

  // The code's algorithm is the one described.
  lemma HashIsXxh32(seed: bv32, s: seq<byte>)
    ensures Hash(seed, s) == XxHashSpec.Xxh32(seed, s)
  {
    hide Avalanche, Converge, Absorb, Rest, Start, Add, Length32, XxHashSpec.Mixed32, XxHashSpec.Convergence32,
         XxHashSpec.Remaining32, XxHashSpec.Accumulator32, XxHashSpec.Plus32, XxHashSpec.Counted32;
    var n := |s| / 16;
    var p := 16 * n;
    assert p == |s| - |s| % 16;
    if n > 0 {
      LanesAre(seed, s, n);
      assert s == s[..p] + s[p..];
      AbsorbTail(Start(seed), s[..p], s[p..]);
      ConvergeIs(Absorb(Start(seed), s));
    } else {
      PrimesAre();
      SumIs(seed, PRIME32_5);
    }
    var acc := XxHashSpec.Converged32(seed, s);
    LengthIs(acc, |s|);
    RestIs(Add(acc, Length32(|s|)), s, p);
    AvalancheIs(Rest(Add(acc, Length32(|s|)), s[p..]));
  }

  // ---------------------------------------------------------------------
  // Streaming
  // ---------------------------------------------------------------------

  // XXH32_state_t.
  class State {
    var totalLen32: nat
    var largeLen: bool
    var lanes: Lanes
    const mem32: array<byte>
    var memsize: nat
    ghost var seed: bv32
    ghost var input: seq<byte>

    // The whole stripes of the input are absorbed, the rest is in memory.
    ghost predicate Absorbed()
      reads `lanes, `memsize, `seed, `input, mem32
    {
      && mem32.Length == 16 && memsize == |input| % 16
      && lanes == Absorb(Start(seed), input) && mem32[..memsize] == input[|input| - memsize..]
    }

    ghost predicate Valid()
      reads this, mem32
    {
      Absorbed() && Counted(|input|)
    }

    ghost predicate Counted(n: nat)
      reads `totalLen32, `largeLen
    {
      totalLen32 == n % 0x1_0000_0000 && largeLen == (n >= 16)
    }

    constructor (seed: bv32)
      ensures Valid() && this.seed == seed && input == [] && fresh(mem32)
    {
      hide Start, Stripe;
      totalLen32, largeLen, lanes, memsize := 0, false, Start(seed), 0;
      mem32 := new byte[16];
      this.seed, input := seed, [];
    }

    // XXH32_reset
    method Reset(seed: bv32)
      requires mem32.Length == 16
      modifies this
      ensures Valid() && this.seed == seed && input == []
    {
      hide Start, Absorb;
      totalLen32, largeLen, lanes, memsize := 0, false, Start(seed), 0;
      this.seed, input := seed, [];
      NoStripe(Start(seed), []);
      assert mem32[..0] == [];
    }

    // Less than a stripe in all: fill the memory.
    method Fill(x: seq<byte>)
      requires Absorbed() && memsize + |x| < 16
      modifies `memsize, `input, mem32
      ensures Absorbed() && input == old(input) + x
    {
      hide Stripe, Absorb, Start;
      ghost var tail := mem32[..memsize];
      ghost var front := input[..|input| - memsize];
      assert input == front + tail;
      PutBytes(mem32, memsize, x);
      AbsorbTail(Start(seed), front, tail);
      AbsorbTail(Start(seed), front, tail + x);
      assert input + x == front + (tail + x);
      memsize := memsize + |x|;
      input := input + x;
    }

    // The bytes that complete a stripe in memory.
    method CompleteStripe(x: seq<byte>)
      requires Absorbed() && memsize + |x| == 16
      modifies `memsize, `input, `lanes, mem32
      ensures Absorbed() && memsize == 0 && input == old(input) + x
    {
      hide Stripe, Absorb, Start;
      ghost var tail := mem32[..memsize];
      ghost var front := input[..|input| - memsize];
      assert input == front + tail;
      PutBytes(mem32, memsize, x);
      assert mem32[..16] == tail + x;
      lanes := Stripe(lanes, mem32[..16]);
      AbsorbTail(Start(seed), front, tail);
      AbsorbAppend(Start(seed), front, tail + x);
      AbsorbOne(Absorb(Start(seed), front), tail + x);
      assert input + x == front + (tail + x);
      memsize := 0;
      input := input + x;
      assert mem32[..0] == [] && input[|input|..] == [];
    }

    // With empty memory: whole stripes, then the rest into memory.
    method Continue(x: seq<byte>)
      requires Absorbed() && memsize == 0
      modifies `memsize, `input, `lanes, mem32
      ensures Absorbed() && input == old(input) + x
    {
      hide Absorbed;
      ghost var i0 := input;
      var p;
      OnStripes();
      lanes, p := Stripes(lanes, x);
      PutBytes(mem32, 0, x[p..]);
      memsize := |x| - p;
      input := input + x;
      assert mem32[..memsize] == x[p..];
      Continued(i0, x, p);
    }

    lemma OnStripes()
      requires Absorbed() && memsize == 0
      ensures mem32.Length == 16 && |input| % 16 == 0 && lanes == Absorb(Start(seed), input)
    {
    }

    lemma Continued(i: seq<byte>, x: seq<byte>, p: nat)
      requires |i| % 16 == 0 && input == i + x && p == |x| - |x| % 16 && mem32.Length == 16
      requires lanes == Absorb(Absorb(Start(seed), i), x) && memsize == |x| - p && mem32[..memsize] == x[p..]
      ensures Absorbed()
    {
      hide Absorb, Start;
      AbsorbAppend(Start(seed), i, x);
      EndOfSum(i, x, p);
    }

    // The length modulo 2^32, and whether it ever reached a stripe.
    method CountIn(n: nat, ghost before: nat)
      requires Counted(before)
      modifies `totalLen32, `largeLen
      ensures Counted(before + n)
    {
      LengthStep(before, n);
      totalLen32 := (totalLen32 + n % 0x1_0000_0000) % 0x1_0000_0000;
      largeLen := largeLen || n >= 16 || totalLen32 >= 16;
    }

    lemma InMemory()
      requires Absorbed()
      ensures memsize < 16
    {
    }

    // XXH32_update
    method Update(x: seq<byte>)
      requires Valid()
      modifies this, mem32
      ensures Valid() && seed == old(seed) && input == old(input) + x
    {
      hide Absorbed, Counted;
      ghost var i0 := input;
      InMemory();
      CountIn(|x|, |input|);
      if memsize + |x| < 16 {
        Fill(x);
        return;
      }
      var p: nat := 0;
      if memsize > 0 {
        p := 16 - memsize;
        CompleteStripe(x[..p]);
      }
      Continue(x[p..]);
      Rejoin(i0, x, p);
    }

    // XXH32_digest: the value of the one-shot function on all input so far.
    method Digest() returns (h: bv32)
      requires Valid()
      ensures h == Hash(seed, input) == XxHashSpec.Xxh32(seed, input)
    {
      hide XxHashSpec.Xxh32, Stripe, Absorb, Rest, Avalanche, Converge, Add, Length32, Start;
      h := if largeLen then Converge(lanes) else Add(lanes.v3, PRIME32_5);
      if !largeLen { NoStripe(Start(seed), input); SeedKept(seed); }
      SameLength(|input|);
      h := Add(h, Length32(totalLen32));
      h := Finalize(h, mem32[..memsize]);
      HashIsXxh32(seed, input);
    }
  }

  lemma Rejoin(i: seq<byte>, x: seq<byte>, p: nat)
    requires p <= |x|
    ensures i + x[..p] + x[p..] == i + x && (p == 0 ==> i + x[..p] == i && x[p..] == x)
  {
  }

  lemma EndOfSum(i: seq<byte>, x: seq<byte>, p: nat)
    requires |i| % 16 == 0 && p == |x| - |x| % 16
    ensures |i + x| % 16 == |x| - p && (i + x)[|i + x| - (|x| - p)..] == x[p..]
  {
  }

  lemma SeedKept(seed: bv32)
    ensures Start(seed).v3 == seed
  {
  }

  lemma SameLength(n: nat)
    ensures Length32(n % 0x1_0000_0000) == Length32(n)
  {
    assert n % 0x1_0000_0000 % 0x1_0000_0000 == n % 0x1_0000_0000;
  }

  lemma LengthStep(n: nat, k: nat)
    ensures (n % 0x1_0000_0000 + k % 0x1_0000_0000) % 0x1_0000_0000 == (n + k) % 0x1_0000_0000
    ensures n + k >= 16 <==> n >= 16 || k >= 16 || (n % 0x1_0000_0000 + k % 0x1_0000_0000) % 0x1_0000_0000 >= 16
  {
  }

  // Any partition of a text into updates gives the value of the one-shot
  // function on the text.
  method HashInPieces(pieces: seq<seq<byte>>, seed: bv32) returns (h: bv32)
    ensures h == Hash(seed, Joined(pieces)) == XxHashSpec.Xxh32(seed, Joined(pieces))
  {
    hide Hash, Joined, XxHashSpec.Xxh32;
    var state := new State(seed);
    assert pieces[..0] == [];
    NothingJoined();
    for i := 0 to |pieces|
      invariant state.Valid() && state.seed == seed && state.input == Joined(pieces[..i]) && fresh(state)
      invariant fresh(state.mem32)
    {
      state.Update(pieces[i]);
      OneMoreJoined(pieces, i);
    }
    assert pieces[..|pieces|] == pieces;
    h := state.Digest();
  }
}
