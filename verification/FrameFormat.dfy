// The LZ4 frame format as a machine that reads one byte at a time: what a
// frame means, whatever way its bytes arrive.
module FrameFormat {
  import opened BlockFormat
  import opened BlockAcceptance

  const MAGIC := 0x184D2204
  const KB64 := 65536

  type U64 = x: int | 0 <= x < 0x1_0000_0000_0000_0000

  // What the frame layer takes from elsewhere: the 32-bit hash.
  datatype Env = Env(xxh: seq<byte> -> nat)

  ghost predicate EnvOk(env: Env) {
    forall s {:trigger env.xxh(s)} :: env.xxh(s) < 0x1_0000_0000
  }

  datatype Error =
    | FrameTypeUnknown | ReservedFlagSet | HeaderVersionWrong | MaxBlockSizeInvalid | HeaderChecksumInvalid
    | BlockChecksumInvalid | DecompressionFailed | FrameSizeWrong | ContentChecksumInvalid

  // The parameters of a frame and what it has produced so far.
  datatype Frame = Frame(linked: bool, blockSum: bool, contentSum: bool, contentSize: nat, maxBlock: nat,
                         remaining: U64, content: seq<byte>)
  {
    function Take(x: seq<byte>): Frame {
      var left := if contentSize != 0 then (remaining - |x|) % 0x1_0000_0000_0000_0000 else remaining;
      this.(content := content + x, remaining := left)
    }

    // The history a block of this frame may refer to.
    function History(): seq<byte> { if linked then Window(content) else [] }

    function SumSize(): nat { if blockSum then 4 else 0 }
  }

  datatype What =
    | Magic | Head | SkipSize | BlockHead(f: Frame) | RawSum(r: Frame, raw: seq<byte>) | Block(b: Frame)
    | Suffix(e: Frame)

  datatype Stage =
    | Reading(what: What, need: nat, got: seq<byte>)
    | Raw(f: Frame, block: seq<byte>, left: nat)
    | Skip(left: nat)
    | Failed(error: Error)

  // `out` is everything produced since the start, over all frames; `frames`
  // counts the frames that are complete.  `torn` counts the blocks that are
  // accepted only where their history lies directly in front of their
  // destination, so that the verdict on them is not the format's alone.
  datatype Machine = Machine(skip: bool, out: seq<byte>, frames: nat, torn: nat, stage: Stage) {
    // The end of a frame: ready for another, with checksums on again.
    function End(): Machine { Machine(false, out, frames + 1, torn, Reading(Magic, 4, [])) }

    function Fail(e: Error): Machine { this.(stage := Failed(e)) }

    function Next(f: Frame): Machine { this.(stage := Reading(BlockHead(f), 4, [])) }
  }

  // ---------------------------------------------------------------------
  // Fields
  // ---------------------------------------------------------------------

  function LE32(s: seq<byte>): (n: nat)
    requires |s| >= 4
    ensures n < 0x1_0000_0000
  {
    s[0] as int + 0x100 * s[1] as int + 0x1_0000 * s[2] as int + 0x100_0000 * s[3] as int
  }

  function LE64(s: seq<byte>): (n: U64)
    requires |s| >= 8
  {
    LE32(s[..4]) + 0x1_0000_0000 * LE32(s[4..8])
  }

  predicate Skippable(s: seq<byte>)
    requires |s| >= 4
  {
    LE32(s) / 16 == 0x184D2A5
  }

  // The flag of this weight.
  predicate Flag(b: byte, weight: nat)
    requires weight > 0
  {
    b as int / weight % 2 == 1
  }

  // The header up to its descriptor flags tells how long it is.
  function HeaderSize(flg: byte): (n: nat)
    ensures 7 <= n <= 19
  {
    7 + (if Flag(flg, 8) then 8 else 0) + if Flag(flg, 1) then 4 else 0
  }

  function BlockSize(id: nat): nat {
    if id == 4 then 65536 else if id == 5 then 262144 else if id == 6 then 1048576 else 4194304
  }

  predicate IsBlockSize(n: nat) {
    n == 65536 || n == 262144 || n == 1048576 || n == 4194304
  }

  // The last 64 KB.
  function Window(s: seq<byte>): seq<byte> {
    if |s| <= KB64 then s else s[|s| - KB64..]
  }

  // ---------------------------------------------------------------------
  // The machine
  // ---------------------------------------------------------------------

  // The flags of the descriptor, which can be checked before the rest is there.
  function FlagError(s: seq<byte>): Option<Error>
    requires |s| >= 7
  {
    if LE32(s) != MAGIC then Some(FrameTypeUnknown)
    else if Flag(s[4], 2) then Some(ReservedFlagSet)
    else if s[4] as int / 64 != 1 then Some(HeaderVersionWrong)
    else None
  }

  function DescriptorError(env: Env, s: seq<byte>): Option<Error>
    requires |s| >= 7
  {
    if Flag(s[5], 128) then Some(ReservedFlagSet)
    else if s[5] as int / 16 % 8 < 4 then Some(MaxBlockSizeInvalid)
    else if s[5] as int % 16 != 0 then Some(ReservedFlagSet)
    else if env.xxh(s[4..|s| - 1]) / 256 % 256 != s[|s| - 1] as int then Some(HeaderChecksumInvalid)
    else None
  }

  function HeaderFrame(s: seq<byte>): Frame
    requires |s| >= 7 && |s| == HeaderSize(s[4])
  {
    var maxBlock := BlockSize(s[5] as int / 16 % 8);
    var size := if Flag(s[4], 8) then LE64(s[6..]) else 0;
    Frame(!Flag(s[4], 32), Flag(s[4], 16), Flag(s[4], 4), size, maxBlock, size, [])
  }

  function HeadDone(env: Env, m: Machine, s: seq<byte>): Machine
    requires |s| >= 7
  {
    if FlagError(s).Some? then m.Fail(FlagError(s).value)
    else if |s| < HeaderSize(s[4]) then m.(stage := Reading(Head, HeaderSize(s[4]), s))
    else if |s| > HeaderSize(s[4]) then m.Fail(FrameTypeUnknown)
    else if DescriptorError(env, s).Some? then m.Fail(DescriptorError(env, s).value)
    else m.Next(HeaderFrame(s))
  }

  // The end mark has been read.
  function EndMark(m: Machine, f: Frame): Machine {
    if f.remaining != 0 then m.Fail(FrameSizeWrong)
    else if !f.contentSum then m.End()
    else m.(stage := Reading(Suffix(f), 4, []))
  }

  // All bytes of an uncompressed block have been passed on.
  function AfterRaw(m: Machine, f: Frame, block: seq<byte>): Machine {
    if f.blockSum then m.(stage := Reading(RawSum(f, block), 4, [])) else m.Next(f)
  }

  function BlockHeadDone(m: Machine, f: Frame, h: nat): Machine {
    var size := h % 0x8000_0000;
    if h == 0 then EndMark(m, f)
    else if size > f.maxBlock then m.Fail(MaxBlockSizeInvalid)
    else if h < 0x8000_0000 then m.(stage := Reading(Block(f), size + f.SumSize(), []))
    else if size == 0 then AfterRaw(m, f, [])
    else m.(stage := Raw(f, [], size))
  }

  // Whether the block is torn in this frame, as a number.
  function Tears(data: seq<byte>, f: Frame): nat {
    if Torn(data, f.History(), f.maxBlock) then 1 else 0
  }

  function BlockDone(env: Env, m: Machine, f: Frame, s: seq<byte>): Machine
    requires |s| >= f.SumSize()
  {
    var data := s[..|s| - f.SumSize()];
    if f.blockSum && LE32(s[|data|..]) != env.xxh(data) then m.Fail(BlockChecksumInvalid)
    else
      match DecodeBlock(Behind, data, f.History(), f.maxBlock)
      case None => m.Fail(DecompressionFailed)
      case Some(x) => m.(out := m.out + x, torn := m.torn + Tears(data, f)).Next(f.Take(x))
  }

  // A field has been read completely.
  function Complete(env: Env, m: Machine, what: What, got: seq<byte>): Machine {
    match what
    case Magic =>
      if |got| < 4 then m.Fail(FrameTypeUnknown)
      else if Skippable(got) then m.(stage := Reading(SkipSize, 4, []))
      else m.(stage := Reading(Head, 7, got))
    case Head => if |got| < 7 then m.Fail(FrameTypeUnknown) else HeadDone(env, m, got)
    case SkipSize =>
      if |got| < 4 then m.Fail(FrameTypeUnknown) else if LE32(got) == 0 then m.End() else m.(stage := Skip(LE32(got)))
    case BlockHead(f) => if |got| < 4 then m.Fail(FrameTypeUnknown) else BlockHeadDone(m, f, LE32(got))
    case RawSum(f, block) =>
      if |got| < 4 then m.Fail(FrameTypeUnknown)
      else if !m.skip && LE32(got) != env.xxh(block) then m.Fail(BlockChecksumInvalid) else m.Next(f)
    case Block(f) => if |got| < f.SumSize() then m.Fail(FrameTypeUnknown) else BlockDone(env, m, f, got)
    case Suffix(f) =>
      if |got| < 4 then m.Fail(FrameTypeUnknown)
      else if !m.skip && LE32(got) != env.xxh(f.content) then m.Fail(ContentChecksumInvalid) else m.End()
  }

  // One byte.
  function Feed(env: Env, m: Machine, b: byte): Machine {
    match m.stage
    case Failed(_) => m
    case Skip(left) => if left <= 1 then m.End() else m.(stage := Skip(left - 1))
    case Raw(f, block, left) =>
      var m' := m.(out := m.out + [b]);
      if left <= 1 then AfterRaw(m', f.Take([b]), block + [b])
      else m'.(stage := Raw(f.Take([b]), block + [b], left - 1))
    case Reading(what, need, got) =>
      if |got| + 1 < need then m.(stage := Reading(what, need, got + [b])) else Complete(env, m, what, got + [b])
  }

  function FeedAll(env: Env, m: Machine, s: seq<byte>): Machine
    decreases |s|
  {
    if s == [] then m else Feed(env, FeedAll(env, m, s[..|s| - 1]), s[|s| - 1])
  }

  // ---------------------------------------------------------------------
  // Feeding in pieces
  // ---------------------------------------------------------------------

  lemma {:induction false} FeedAppend(env: Env, m: Machine, a: seq<byte>, b: seq<byte>)
    ensures FeedAll(env, m, a + b) == FeedAll(env, FeedAll(env, m, a), b)
    decreases |b|
  {
    hide Feed;
    if b == [] {
      assert a + b == a;
    } else {
      assert (a + b)[..|a + b| - 1] == a + b[..|b| - 1];
      FeedAppend(env, m, a, b[..|b| - 1]);
    }
  }

  function FeedChunks(env: Env, m: Machine, chunks: seq<seq<byte>>): Machine
    decreases |chunks|
  {
    if chunks == [] then m else FeedAll(env, FeedChunks(env, m, chunks[..|chunks| - 1]), chunks[|chunks| - 1])
  }

  function Joined(chunks: seq<seq<byte>>): seq<byte>
    decreases |chunks|
  {
    if chunks == [] then [] else Joined(chunks[..|chunks| - 1]) + chunks[|chunks| - 1]
  }

  lemma NothingJoined()
    ensures Joined([]) == []
  {
  }

  lemma OneMoreJoined(pieces: seq<seq<byte>>, i: nat)
    requires i < |pieces|
    ensures Joined(pieces[..i + 1]) == Joined(pieces[..i]) + pieces[i]
  {
    assert pieces[..i + 1][..i] == pieces[..i];
  }

  // However a text is cut, the machine ends in the same state.
  lemma {:induction false} ChunksDoNotMatter(env: Env, m: Machine, chunks: seq<seq<byte>>)
    ensures FeedChunks(env, m, chunks) == FeedAll(env, m, Joined(chunks))
    decreases |chunks|
  {
    hide Feed;
    if chunks != [] {
      var front := chunks[..|chunks| - 1];
      ChunksDoNotMatter(env, m, front);
      FeedAppend(env, m, Joined(front), chunks[|chunks| - 1]);
    }
  }

  // An error is final.
  lemma {:induction false} FailedStays(env: Env, m: Machine, s: seq<byte>)
    requires m.stage.Failed?
    ensures FeedAll(env, m, s) == m
    decreases |s|
  {
    if s != [] { FailedStays(env, m, s[..|s| - 1]); }
  }

  // Bytes of a field are collected until it is complete.
  lemma {:induction false} FeedField(env: Env, m: Machine, s: seq<byte>)
    requires m.stage.Reading? && |m.stage.got| < m.stage.need && |m.stage.got| + |s| <= m.stage.need
    ensures |m.stage.got| + |s| < m.stage.need ==>
              FeedAll(env, m, s) == m.(stage := Reading(m.stage.what, m.stage.need, m.stage.got + s))
    ensures |m.stage.got| + |s| == m.stage.need ==>
              FeedAll(env, m, s) == Complete(env, m, m.stage.what, m.stage.got + s)
    decreases |s|
  {
    hide Complete;
    if s != [] {
      var front := s[..|s| - 1];
      FeedField(env, m, front);
      assert m.stage.got + s == m.stage.got + front + [s[|s| - 1]];
      if |m.stage.got| + |s| == m.stage.need {
        CompleteIgnoresGot(env, m, m.stage.got + front, m.stage.what, m.stage.got + s);
      }
    } else {
      assert m.stage.got + s == m.stage.got;
    }
  }

  lemma CompleteIgnoresGot(env: Env, m: Machine, got: seq<byte>, what: What, all: seq<byte>)
    requires m.stage.Reading? && |all| == m.stage.need && what == m.stage.what
    ensures Complete(env, m.(stage := Reading(what, m.stage.need, got)), what, all) == Complete(env, m, what, all)
  {
  }

  // Bytes of an uncompressed block are passed on as they come.
  lemma {:induction false} FeedRaw(env: Env, m: Machine, s: seq<byte>)
    requires m.stage.Raw? && |s| <= m.stage.left && 0 < m.stage.left
    ensures var m' := m.(out := m.out + s); var f := m.stage.f.Take(s);
            FeedAll(env, m, s) == if |s| == 0 then m
                                  else if |s| < m.stage.left then
                                    m'.(stage := Raw(f, m.stage.block + s, m.stage.left - |s|))
                                  else AfterRaw(m', f, m.stage.block + s)
    decreases |s|
  {
    hide Frame.Take, Complete;
    if s != [] {
      var front, last := s[..|s| - 1], s[|s| - 1];
      FeedRaw(env, m, front);
      TakeTwice(m.stage.f, front, [last]);
      assert front + [last] == s;
      assert m.out + s == m.out + front + [last];
      assert m.stage.block + s == m.stage.block + front + [last];
      if front == [] { assert s == [last] && m.out + s == m.out + [last]; }
    }
  }

  lemma TakeTwice(f: Frame, a: seq<byte>, b: seq<byte>)
    ensures f.Take(a).Take(b) == f.Take(a + b)
  {
    assert f.content + a + b == f.content + (a + b);
  }

  lemma TakeNothing(f: Frame)
    ensures f.Take([]) == f
  {
    assert f.content + [] == f.content;
  }

  lemma {:induction false} FeedSkip(env: Env, m: Machine, s: seq<byte>)
    requires m.stage.Skip? && |s| <= m.stage.left
    ensures FeedAll(env, m, s) ==
            if |s| == 0 then m else if |s| < m.stage.left then m.(stage := Skip(m.stage.left - |s|)) else m.End()
    decreases |s|
  {
    if s != [] { FeedSkip(env, m, s[..|s| - 1]); }
  }

  // ---------------------------------------------------------------------
  // The header as a whole
  // ---------------------------------------------------------------------

  lemma FlagErrorEarly(s: seq<byte>, t: seq<byte>)
    requires 7 <= |s| <= |t| && s == t[..|s|]
    ensures FlagError(s) == FlagError(t) && HeaderSize(s[4]) == HeaderSize(t[4]) && Skippable(s) == Skippable(t)
  {
  }

  // The start of a frame, fed in one piece.
  lemma HeaderFed(env: Env, m: Machine, s: seq<byte>)
    requires m.stage == Reading(Magic, 4, []) && |s| >= 4
    ensures Skippable(s) ==> |s| < 8 ==> FeedAll(env, m, s) == m.(stage := Reading(SkipSize, 4, s[4..]))
    ensures !Skippable(s) && |s| < 7 ==> FeedAll(env, m, s) == m.(stage := Reading(Head, 7, s))
    ensures !Skippable(s) && |s| == 7 ==> FeedAll(env, m, s) == HeadDone(env, m, s)
  {
    hide Feed;
    var a, b := s[..4], s[4..];
    assert s == a + b;
    FeedAppend(env, m, a, b);
    FeedField(env, m, a);
    assert [] + a == a;
    var m1 := FeedAll(env, m, a);
    assert Skippable(a) == Skippable(s);
    if Skippable(s) {
      if |s| < 8 { FeedField(env, m1, b); assert [] + b == b; }
    } else if |s| <= 7 {
      FeedField(env, m1, b);
    }
  }

  lemma HeaderFedLong(env: Env, m: Machine, s: seq<byte>)
    requires m.stage == Reading(Magic, 4, []) && |s| >= 7 && !Skippable(s) && FlagError(s).None?
    requires |s| <= HeaderSize(s[4])
    ensures FeedAll(env, m, s) ==
            if |s| < HeaderSize(s[4]) then m.(stage := Reading(Head, HeaderSize(s[4]), s)) else HeadDone(env, m, s)
  {
    hide Feed, DescriptorError, HeaderFrame;
    var a, b := s[..7], s[7..];
    assert s == a + b;
    FeedAppend(env, m, a, b);
    HeaderFed(env, m, a);
    FlagErrorEarly(a, s);
    var m1 := FeedAll(env, m, a);
    if |s| > 7 { FeedField(env, m1, b); } else { assert a == s; }
  }
}
