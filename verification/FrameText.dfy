// What the pieces of a frame, written one after the other, do to the machine
// that reads them.
module FrameText {
  import opened BlockFormat
  import opened BlockAcceptance
  import opened FrameFormat

  // A machine that has read nothing.
  const START := Machine(false, [], 0, 0, Reading(Magic, 4, []))

  function LE32Bytes(v: nat): (s: seq<byte>)
    requires v < 0x1_0000_0000
    ensures |s| == 4 && LE32(s) == v
  {
    var q1 := v / 256;
    var q2 := q1 / 256;
    [v % 256, q1 % 256, q2 % 256, q2 / 256]
  }

  function LE64Bytes(v: U64): (s: seq<byte>)
    ensures |s| == 8 && LE64(s) == v
  {
    var lo, hi := LE32Bytes(v % 0x1_0000_0000), LE32Bytes(v / 0x1_0000_0000);
    assert (lo + hi)[..4] == lo && (lo + hi)[4..8] == hi;
    lo + hi
  }

  // Between two blocks of a frame.
  ghost predicate AtBlocks(m: Machine, f: Frame) {
    m.stage == Reading(BlockHead(f), 4, []) && !m.skip
  }

  function Sum(env: Env, f: Frame, body: seq<byte>): seq<byte>
    requires f.blockSum ==> env.xxh(body) < 0x1_0000_0000
  {
    if f.blockSum then LE32Bytes(env.xxh(body)) else []
  }

  // A compressed block.
  lemma BlockRead(env: Env, m: Machine, f: Frame, body: seq<byte>, x: seq<byte>)
    requires EnvOk(env) && AtBlocks(m, f) && 0 < |body| <= f.maxBlock < 0x8000_0000
    requires DecodeBlock(Behind, body, f.History(), f.maxBlock) == Some(x)
    ensures FeedAll(env, m, LE32Bytes(|body|) + (body + Sum(env, f, body))) ==
            m.(out := m.out + x, torn := m.torn + Tears(body, f)).Next(f.Take(x))
  {
    hide FeedAll, LE32Bytes, LE32, Frame.Take, Frame.History, DecodeBlock, Tears;
    var hb, sb := LE32Bytes(|body|), Sum(env, f, body);
    FeedField(env, m, hb);
    assert [] + hb == hb;
    var m1 := FeedAll(env, m, hb);
    var rest := body + sb;
    FeedField(env, m1, rest);
    assert [] + rest == rest;
    assert rest[..|rest| - f.SumSize()] == body && rest[|body|..] == sb;
    FeedAppend(env, m, hb, rest);
  }

  // A block stored as it is.
  lemma RawRead(env: Env, m: Machine, f: Frame, x: seq<byte>)
    requires EnvOk(env) && AtBlocks(m, f) && 0 < |x| <= f.maxBlock < 0x8000_0000
    ensures FeedAll(env, m, LE32Bytes(0x8000_0000 + |x|) + (x + Sum(env, f, x))) == m.(out := m.out + x).Next(f.Take(x))
  {
    hide FeedAll, LE32Bytes, LE32, Frame.Take;
    var hb, sb := LE32Bytes(0x8000_0000 + |x|), Sum(env, f, x);
    FeedField(env, m, hb);
    assert [] + hb == hb;
    var m1 := FeedAll(env, m, hb);
    FeedRaw(env, m1, x);
    assert [] + x == x;
    var m2 := FeedAll(env, m1, x);
    FeedAppend(env, m1, x, sb);
    FeedAppend(env, m, hb, x + sb);
    BlockSumKept(f, x);
    if f.blockSum {
      FeedField(env, m2, sb);
      assert [] + sb == sb;
    } else {
      assert sb == [];
      FeedNothing(env, m2);
    }
  }

  lemma BlockSumKept(f: Frame, x: seq<byte>)
    ensures f.Take(x).blockSum == f.blockSum
  {
  }

  lemma FeedNothing(env: Env, m: Machine)
    ensures FeedAll(env, m, []) == m
  {
  }

  // The end mark and the content checksum.
  lemma EndRead(env: Env, m: Machine, f: Frame)
    requires EnvOk(env) && AtBlocks(m, f) && f.remaining == 0
    ensures var s := LE32Bytes(0) + if f.contentSum then LE32Bytes(env.xxh(f.content)) else [];
            FeedAll(env, m, s) == m.End()
  {
    hide FeedAll, LE32Bytes, LE32;
    var hb := LE32Bytes(0);
    var sb := if f.contentSum then LE32Bytes(env.xxh(f.content)) else [];
    FeedField(env, m, hb);
    assert [] + hb == hb;
    var m1 := FeedAll(env, m, hb);
    FeedAppend(env, m, hb, sb);
    if f.contentSum {
      FeedField(env, m1, sb);
      assert [] + sb == sb;
    } else {
      FeedNothing(env, m1);
    }
  }

  // ---------------------------------------------------------------------
  // The frame header
  // ---------------------------------------------------------------------

  // LZ4F_preferences_t, as far as it shapes the frame.
  datatype Prefs = Prefs(linked: bool, blockSum: bool, contentSum: bool, contentSize: U64, dictID: nat,
                         blockSizeID: nat, level: int, autoFlush: bool, favorDecSpeed: bool)

  predicate PrefsOk(p: Prefs) {
    p.dictID < 0x1_0000_0000 && 4 <= p.blockSizeID <= 7
  }

  function FlagByte(p: Prefs): byte {
    64 + (if p.linked then 0 else 32) + (if p.blockSum then 16 else 0) + (if p.contentSize > 0 then 8 else 0)
    + (if p.contentSum then 4 else 0) + (if p.dictID > 0 then 1 else 0)
  }

  lemma FlagByteReads(p: Prefs)
    ensures var b := FlagByte(p);
            && b as int / 64 == 1 && !Flag(b, 2) && Flag(b, 32) == !p.linked && Flag(b, 16) == p.blockSum
            && Flag(b, 8) == (p.contentSize > 0) && Flag(b, 4) == p.contentSum && Flag(b, 1) == (p.dictID > 0)
  {
  }

  // The descriptor: flags, block size, and the optional fields.
  function Descriptor(p: Prefs): seq<byte>
    requires PrefsOk(p)
  {
    [FlagByte(p), p.blockSizeID * 16]
    + (if p.contentSize > 0 then LE64Bytes(p.contentSize) else [])
    + (if p.dictID > 0 then LE32Bytes(p.dictID) else [])
  }

  function HeaderText(env: Env, p: Prefs): seq<byte>
    requires PrefsOk(p)
  {
    LE32Bytes(MAGIC) + Descriptor(p) + [env.xxh(Descriptor(p)) / 256 % 256]
  }

  function PrefsFrame(p: Prefs): Frame
    requires PrefsOk(p)
  {
    Frame(p.linked, p.blockSum, p.contentSum, p.contentSize, BlockSize(p.blockSizeID), p.contentSize, [])
  }

  lemma DescriptorSize(p: Prefs)
    requires PrefsOk(p)
    ensures |Descriptor(p)| + 5 == HeaderSize(FlagByte(p)) && Descriptor(p)[0] == FlagByte(p)
    ensures Descriptor(p)[1] == p.blockSizeID * 16
    ensures p.contentSize > 0 ==> |Descriptor(p)| >= 10 && Descriptor(p)[2..10] == LE64Bytes(p.contentSize)
  {
    FlagByteReads(p);
    hide FlagByte;
    if p.contentSize > 0 {
      assert Descriptor(p) == [FlagByte(p), p.blockSizeID * 16] + LE64Bytes(p.contentSize)
                              + (if p.dictID > 0 then LE32Bytes(p.dictID) else []);
    }
  }

  // The header written is read back as the frame it was written for.
  lemma HeaderParses(env: Env, p: Prefs)
    requires PrefsOk(p)
    ensures var s := HeaderText(env, p);
            && 7 <= |s| <= 19 && !Skippable(s) && FlagError(s) == None && |s| == HeaderSize(s[4])
            && DescriptorError(env, s) == None && HeaderFrame(s) == PrefsFrame(p)
  {
    hide Descriptor, FlagByte;
    var s, d := HeaderText(env, p), Descriptor(p);
    FlagByteReads(p);
    DescriptorSize(p);
    assert s[..4] == LE32Bytes(MAGIC) && s[4..|s| - 1] == d;
    assert LE32(s) == LE32(s[..4]);
    assert s[4] == d[0] && s[5] == d[1];
    if p.contentSize > 0 { assert s[6..][..8] == d[2..10]; SameLE64(s[6..], d[2..10]); }
  }

  lemma SameLE64(s: seq<byte>, t: seq<byte>)
    requires |s| >= 8 && |t| == 8 && s[..8] == t
    ensures LE64(s) == LE64(t)
  {
    assert s[..4] == t[..4] && s[4..8] == t[4..8];
  }

  lemma HeaderRead(env: Env, m: Machine, p: Prefs)
    requires PrefsOk(p) && m.stage == Reading(Magic, 4, []) && !m.skip
    ensures FeedAll(env, m, HeaderText(env, p)) == m.Next(PrefsFrame(p))
  {
    hide FeedAll, HeaderText, FlagError, DescriptorError, HeaderFrame, HeaderSize, Skippable, PrefsFrame;
    var s := HeaderText(env, p);
    HeaderParses(env, p);
    HeaderFedLong(env, m, s);
    forall n | 0 < n < |s| ensures FeedAll(env, m, s[..n]).stage != Reading(Magic, 4, []) {
      var t := s[..n];
      if n < 4 {
        FeedField(env, m, t);
      } else {
        HeaderStart(t, s);
        if n < 7 { HeaderFed(env, m, t); } else { FlagErrorEarly(t, s); HeaderFedLong(env, m, t); }
      }
    }
  }

  lemma HeaderStart(t: seq<byte>, s: seq<byte>)
    requires 4 <= |t| <= |s| && t == s[..|t|]
    ensures Skippable(t) == Skippable(s)
  {
  }
}
