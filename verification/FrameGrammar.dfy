// The LZ4 frame format v1.6.1 as a grammar: what the bytes of a frame have to be,
// field after field, in numbers; and that the machine which reads one byte at a
// time accepts exactly the texts of the grammar.
module FrameGrammar {
  import opened BlockFormat
  import opened BlockAcceptance
  import opened FrameFormat
  import opened XxHashSpec

  // What a text amounts to: an error, the beginning of a frame, or a frame that
  // ends with byte `end` - 1.
  datatype Meaning = Wrong(error: Error) | Partial | Whole(content: seq<byte>, end: nat)

  function After(k: nat, r: Meaning): Meaning {
    if r.Whole? then Whole(r.content, k + r.end) else r
  }

  // ---------------------------------------------------------------------
  // The header
  // ---------------------------------------------------------------------

  // Magic number, version 01, reserved bit clear.
  predicate FlagsGood(s: seq<byte>)
    requires |s| >= 7
  {
    s[..4] == [0x04, 0x22, 0x4D, 0x18] && 64 <= s[4] < 128 && s[4] as int / 2 % 2 == 0
  }

  function FlagsWrong(s: seq<byte>): Error
    requires |s| >= 7
  {
    if s[..4] != [0x04, 0x22, 0x4D, 0x18] then FrameTypeUnknown
    else if s[4] as int / 2 % 2 == 1 then ReservedFlagSet
    else HeaderVersionWrong
  }

  // With a content size and a dictionary id, if their flags are set.
  function HeaderLength(flg: byte): nat {
    7 + (if flg as int / 8 % 2 == 1 then 8 else 0) + if flg as int % 2 == 1 then 4 else 0
  }

  // A block size of 64 KB, 256 KB, 1 MB or 4 MB with nothing around it, and the
  // second byte of the hash of the descriptor.
  predicate DescriptorGood(env: Env, s: seq<byte>, n: nat)
    requires 7 <= n <= |s|
  {
    (s[5] == 64 || s[5] == 80 || s[5] == 96 || s[5] == 112) && s[n - 1] as int == env.xxh(s[4..n - 1]) / 256 % 256
  }

  function DescriptorWrong(s: seq<byte>): Error
    requires |s| >= 7
  {
    if s[5] >= 128 then ReservedFlagSet
    else if s[5] < 64 then MaxBlockSizeInvalid
    else if s[5] as int % 16 != 0 then ReservedFlagSet
    else HeaderChecksumInvalid
  }

  // What a header says.
  datatype Descriptor = Descriptor(linked: bool, blockSums: bool, contentSum: bool, size: nat, largest: nat)

  function Described(s: seq<byte>): Descriptor
    requires |s| >= 7 && |s| >= HeaderLength(s[4])
  {
    Descriptor(s[4] as int / 32 % 2 == 0, s[4] as int / 16 % 2 == 1, s[4] as int / 4 % 2 == 1,
               if s[4] as int / 8 % 2 == 1 then EightBytes(s, 6) else 0,
               if s[5] == 64 then 65536 else if s[5] == 80 then 262144 else if s[5] == 96 then 1048576 else 4194304)
  }

  // ---------------------------------------------------------------------
  // Blocks
  // ---------------------------------------------------------------------

  // The last 64 KB of what precedes a block, in a frame of linked blocks.
  function HistoryOf(d: Descriptor, content: seq<byte>): seq<byte> {
    if !d.linked then [] else if |content| <= 65536 then content else content[|content| - 65536..]
  }

  // What the bytes of a block stand for.
  function BlockContent(d: Descriptor, content: seq<byte>, stored: bool, data: seq<byte>): Option<seq<byte>> {
    if stored then Some(data) else DecodeBlock(Behind, data, HistoryOf(d, content), d.largest)
  }

  // The end mark has been read: sizes agree, and so does the checksum.
  function AtEnd(env: Env, skip: bool, d: Descriptor, content: seq<byte>, s: seq<byte>): Meaning {
    if d.size != 0 && |content| % 18446744073709551616 != d.size then Wrong(FrameSizeWrong)
    else if !d.contentSum then Whole(content, 0)
    else if |s| < 4 then Partial
    else if !skip && FourBytes(s, 0) != env.xxh(content) then Wrong(ContentChecksumInvalid)
    else Whole(content, 4)
  }

  // A block at the beginning of a text: an error, not all there, or its content
  // and where it ends.
  datatype Piece = Bad(error: Error) | Cut | Piece(x: seq<byte>, end: nat)

  // `skip` turns the checksums of content and of stored blocks off.
  function OneBlock(env: Env, skip: bool, d: Descriptor, content: seq<byte>, s: seq<byte>): (r: Piece)
    requires |s| >= 4
    ensures r.Piece? ==> 4 <= r.end <= |s|
  {
    var stored := FourBytes(s, 0) >= 2147483648;
    var size := if stored then FourBytes(s, 0) - 2147483648 else FourBytes(s, 0);
    var end := 4 + size + if d.blockSums then 4 else 0;
    if size > d.largest then Bad(MaxBlockSizeInvalid)
    else if |s| < end then Cut
    else if d.blockSums && !(stored && skip) && FourBytes(s, 4 + size) != env.xxh(s[4..4 + size]) then
      Bad(BlockChecksumInvalid)
    else
      match BlockContent(d, content, stored, s[4..4 + size])
      case None => Bad(DecompressionFailed)
      case Some(x) => Piece(x, end)
  }

  // Blocks up to the end of the frame, behind `content`.
  function Blocks(env: Env, skip: bool, d: Descriptor, content: seq<byte>, s: seq<byte>): Meaning
    decreases |s|
  {
    if |s| < 4 then Partial
    else if FourBytes(s, 0) == 0 then After(4, AtEnd(env, skip, d, content, s[4..]))
    else
      match OneBlock(env, skip, d, content, s)
      case Bad(e) => Wrong(e)
      case Cut => Partial
      case Piece(x, end) => After(end, Blocks(env, skip, d, content + x, s[end..]))
  }

  // A text from the beginning of a frame on.
  function ReadFrame(env: Env, skip: bool, s: seq<byte>): Meaning {
    if |s| < 4 then Partial
    else if 0x184D2A50 <= FourBytes(s, 0) <= 0x184D2A5F then
      if |s| < 8 || |s| < 8 + FourBytes(s, 4) then Partial else Whole([], 8 + FourBytes(s, 4))
    else if |s| < 7 then Partial
    else if !FlagsGood(s) then Wrong(FlagsWrong(s))
    else
      var n := HeaderLength(s[4]);
      if |s| < n then Partial
      else if !DescriptorGood(env, s, n) then Wrong(DescriptorWrong(s))
      else After(n, Blocks(env, skip, Described(s), [], s[n..]))
  }

  // ---------------------------------------------------------------------
  // The machine
  // ---------------------------------------------------------------------

  // The machine comes to the same: it fails, waits for more, or is ready for
  // another frame, having produced the content.
  ghost predicate Agrees(env: Env, m: Machine, base: seq<byte>, s: seq<byte>, r: Meaning) {
    match r
    case Wrong(e) => FeedAll(env, m, s).stage == Failed(e) && FeedAll(env, m, s).frames == m.frames
    case Partial => !FeedAll(env, m, s).stage.Failed? && FeedAll(env, m, s).frames == m.frames
    case Whole(content, end) =>
      && end <= |s|
      && var m' := FeedAll(env, m, s[..end]);
      && m'.stage == Reading(Magic, 4, []) && m'.frames == m.frames + 1 && !m'.skip
      && m'.out == base + content
  }

  // The machine's frame is the one described, with this content.
  ghost predicate Stands(f: Frame, d: Descriptor, content: seq<byte>) {
    && f.linked == d.linked && f.blockSum == d.blockSums && f.contentSum == d.contentSum && f.contentSize == d.size
    && f.maxBlock == d.largest && f.content == content && d.size < 18446744073709551616
    && f.remaining == if d.size != 0 then (d.size - |content|) % 18446744073709551616 else 0
  }

  lemma StandsMore(f: Frame, d: Descriptor, content: seq<byte>, x: seq<byte>)
    requires Stands(f, d, content)
    ensures Stands(f.Take(x), d, content + x)
  {
  }

  lemma NumberIs(s: seq<byte>, p: nat)
    requires p + 4 <= |s|
    ensures LE32(s[p..p + 4]) == FourBytes(s, p)
  {
  }

  // Reading on from where k bytes have led.
  lemma AgreesLater(env: Env, m: Machine, base: seq<byte>, s: seq<byte>, k: nat, r: Meaning)
    requires k <= |s| && FeedAll(env, m, s[..k]).frames == m.frames
    requires Agrees(env, FeedAll(env, m, s[..k]), base, s[k..], r)
    ensures Agrees(env, m, base, s, After(k, r))
  {
    hide FeedAll;
    assert s == s[..k] + s[k..];
    FeedAppend(env, m, s[..k], s[k..]);
    if r.Whole? {
      assert s[..k + r.end] == s[..k] + s[k..][..r.end];
      FeedAppend(env, m, s[..k], s[k..][..r.end]);
    }
  }

  // A text at whose k-th byte the machine fails.
  lemma AgreesFailed(env: Env, m: Machine, base: seq<byte>, s: seq<byte>, k: nat, e: Error)
    requires k <= |s| && FeedAll(env, m, s[..k]).stage == Failed(e) && FeedAll(env, m, s[..k]).frames == m.frames
    ensures Agrees(env, m, base, s, Wrong(e))
  {
    hide FeedAll;
    assert s == s[..k] + s[k..];
    FeedAppend(env, m, s[..k], s[k..]);
    FailedStays(env, FeedAll(env, m, s[..k]), s[k..]);
  }

  // Four bytes of a field.
  lemma FieldFed(env: Env, m: Machine, what: What, s: seq<byte>)
    requires m.stage == Reading(what, 4, [])
    ensures |s| < 4 ==> !FeedAll(env, m, s).stage.Failed? && FeedAll(env, m, s).frames == m.frames
    ensures |s| >= 4 ==> FeedAll(env, m, s[..4]) == Complete(env, m, what, s[..4])
  {
    hide Complete;
    if |s| < 4 { FeedField(env, m, s); } else { FeedField(env, m, s[..4]); assert [] + s[..4] == s[..4]; }
  }

  // Between two blocks, with this much content behind what came before.
  ghost predicate Midway(m: Machine, base: seq<byte>, f: Frame, d: Descriptor, content: seq<byte>) {
    && m.stage == Reading(BlockHead(f), 4, []) && m.out == base + content && Stands(f, d, content)
    && d.largest <= 4194304
  }

  // The state after the header of a block.
  lemma HeadRead(env: Env, m: Machine, f: Frame, s: seq<byte>)
    requires m.stage == Reading(BlockHead(f), 4, []) && |s| >= 4
    ensures FeedAll(env, m, s[..4]) == BlockHeadDone(m, f, FourBytes(s, 0))
  {
    hide FeedAll, BlockHeadDone, LE32, FourBytes;
    FieldFed(env, m, BlockHead(f), s);
    NumberIs(s, 0);
    assert s[0..4] == s[..4];
  }

  lemma EndAgrees(env: Env, m: Machine, base: seq<byte>, f: Frame, d: Descriptor, content: seq<byte>, s: seq<byte>)
    requires Midway(m, base, f, d, content) && |s| >= 4 && FourBytes(s, 0) == 0
    ensures Agrees(env, m, base, s, After(4, AtEnd(env, m.skip, d, content, s[4..])))
  {
    hide FeedAll, LE32, FourBytes;
    HeadRead(env, m, f, s);
    var m4, rest := FeedAll(env, m, s[..4]), s[4..];
    if m4.stage.Failed? {
      AgreesFailed(env, m, base, s, 4, FrameSizeWrong);
    } else if f.contentSum {
      FieldFed(env, m4, Suffix(f), rest);
      if |rest| >= 4 {
        NumberIs(rest, 0);
        assert rest[0..4] == rest[..4];
        if FeedAll(env, m4, rest[..4]).stage.Failed? {
          AgreesFailed(env, m4, base, rest, 4, ContentChecksumInvalid);
        }
      }
      AgreesLater(env, m, base, s, 4, AtEnd(env, m.skip, d, content, rest));
    }
  }

  // What a block of `end` bytes leads to.
  ghost predicate Led(env: Env, m: Machine, f: Frame, s: seq<byte>, end: nat, r: Meaning, x: seq<byte>) {
    if |s| < end then !FeedAll(env, m, s).stage.Failed? && FeedAll(env, m, s).frames == m.frames
    else
      var m' := FeedAll(env, m, s[..end]);
      && m'.frames == m.frames
      && (if r.Wrong? then m'.stage == Failed(r.error)
          else m'.stage == Reading(BlockHead(f.Take(x)), 4, []) && m'.out == m.out + x && m'.skip == m.skip)
  }

  lemma FedOn(env: Env, m: Machine, s: seq<byte>, a: nat, b: nat)
    requires a <= b <= |s|
    ensures FeedAll(env, m, s[..b]) == FeedAll(env, FeedAll(env, m, s[..a]), s[a..b])
  {
    hide FeedAll;
    assert s[..b] == s[..a] + s[a..b];
    FeedAppend(env, m, s[..a], s[a..b]);
  }

  lemma TakeKeeps(f: Frame, x: seq<byte>)
    ensures f.Take(x).blockSum == f.blockSum
  {
  }

  // A stored block: its bytes, then its checksum.
  lemma StoredLed(env: Env, m: Machine, f: Frame, s: seq<byte>, size: nat)
    requires m.stage == Reading(BlockHead(f), 4, []) && |s| >= 4 && FourBytes(s, 0) == 2147483648 + size
    requires size <= f.maxBlock < 2147483648
    ensures var end := 4 + size + f.SumSize();
            var data := if |s| < end then [] else s[4..4 + size];
            Led(env, m, f, s, end,
                if |s| >= end && f.blockSum && !m.skip && FourBytes(s, 4 + size) != env.xxh(data) then
                  Wrong(BlockChecksumInvalid)
                else Partial,
                data)
  {
    hide FeedAll, LE32, FourBytes, Frame.Take;
    HeadRead(env, m, f, s);
    var m4 := FeedAll(env, m, s[..4]);
    FedOn(env, m, s, 4, |s|);
    assert s[..|s|] == s;
    if |s| < 4 + size {
      FeedRaw(env, m4, s[4..]);
    } else {
      StoredData(env, m, f, s, size);
      var data, q := s[4..4 + size], 4 + size;
      var m5 := FeedAll(env, m, s[..q]);
      FedOn(env, m, s, q, |s|);
      TakeKeeps(f, data);
      if f.blockSum {
        FieldFed(env, m5, RawSum(f.Take(data), data), s[q..]);
        if |s| >= q + 4 {
          NumberIs(s, q);
          FedOn(env, m, s, q, q + 4);
          assert s[q..][..4] == s[q..q + 4];
        }
      } else {
        assert m5.out == m.out + data;
      }
    }
  }

  lemma StoredData(env: Env, m: Machine, f: Frame, s: seq<byte>, size: nat)
    requires m.stage == Reading(BlockHead(f), 4, []) && |s| >= 4 + size && FourBytes(s, 0) == 2147483648 + size
    requires size <= f.maxBlock < 2147483648
    ensures FeedAll(env, m, s[..4 + size]) ==
            AfterRaw(m.(out := m.out + s[4..4 + size]), f.Take(s[4..4 + size]), s[4..4 + size])
  {
    hide FeedAll, LE32, FourBytes;
    HeadRead(env, m, f, s);
    var m4, data := FeedAll(env, m, s[..4]), s[4..4 + size];
    FedOn(env, m, s, 4, 4 + size);
    if size == 0 {
      assert s[..4 + size] == s[..4] && data == [] && m.out + data == m.out;
      TakeNothing(f);
    } else {
      FeedRaw(env, m4, data);
      assert [] + data == data;
    }
  }

  // A compressed block with its checksum.
  lemma CodedLed(env: Env, m: Machine, f: Frame, s: seq<byte>, size: nat)
    requires m.stage == Reading(BlockHead(f), 4, []) && |s| >= 4 && FourBytes(s, 0) == size
    requires 0 < size <= f.maxBlock < 2147483648
    ensures var end := 4 + size + f.SumSize();
            var data := if |s| < end then [] else s[4..4 + size];
            var x := DecodeBlock(Behind, data, f.History(), f.maxBlock);
            Led(env, m, f, s, end,
                if |s| >= end && f.blockSum && FourBytes(s, 4 + size) != env.xxh(data) then Wrong(BlockChecksumInvalid)
                else if x.None? then Wrong(DecompressionFailed) else Partial,
                if x.Some? then x.value else [])
  {
    hide FeedAll, LE32, FourBytes, Frame.Take, Frame.History, DecodeBlock, Tears;
    HeadRead(env, m, f, s);
    var m4, end := FeedAll(env, m, s[..4]), 4 + size + f.SumSize();
    FedOn(env, m, s, 4, |s|);
    assert s[..|s|] == s;
    if |s| < end {
      FeedField(env, m4, s[4..]);
    } else {
      var got := s[4..end];
      FedOn(env, m, s, 4, end);
      FeedField(env, m4, got);
      assert [] + got == got;
      assert got[..|got| - f.SumSize()] == s[4..4 + size];
      if f.blockSum {
        NumberIs(s, 4 + size);
        assert got[size..] == s[4 + size..4 + size + 4];
      }
    }
  }

  // The machine after a block, by what the grammar says about it.
  lemma BlockAgrees(env: Env, m: Machine, base: seq<byte>, f: Frame, d: Descriptor, content: seq<byte>, s: seq<byte>)
    requires Midway(m, base, f, d, content) && |s| >= 4 && FourBytes(s, 0) != 0
    ensures var r := OneBlock(env, m.skip, d, content, s);
            && (r.Bad? ==> Agrees(env, m, base, s, Wrong(r.error)))
            && (r.Cut? ==> Agrees(env, m, base, s, Partial))
            && (r.Piece? ==>
                  var m' := FeedAll(env, m, s[..r.end]);
                  Midway(m', base, f.Take(r.x), d, content + r.x) && m'.skip == m.skip && m'.frames == m.frames)
  {
    hide FeedAll, FourBytes, DecodeBlock, Frame.Take, LE32;
    HeadRead(env, m, f, s);
    var stored := FourBytes(s, 0) >= 2147483648;
    var size := if stored then FourBytes(s, 0) - 2147483648 else FourBytes(s, 0);
    if size > d.largest {
      AgreesFailed(env, m, base, s, 4, MaxBlockSizeInvalid);
    } else {
      if stored { StoredLed(env, m, f, s, size); } else { CodedLed(env, m, f, s, size); }
      SameHistory(f, d, content);
      var r, end := OneBlock(env, m.skip, d, content, s), 4 + size + f.SumSize();
      if r.Bad? {
        AgreesFailed(env, m, base, s, end, r.error);
      } else if r.Piece? {
        StandsMore(f, d, content, r.x);
        assert base + content + r.x == base + (content + r.x);
      }
    }
  }

  lemma SameHistory(f: Frame, d: Descriptor, content: seq<byte>)
    requires Stands(f, d, content)
    ensures f.History() == HistoryOf(d, content)
  {
  }

  lemma {:induction false} BlocksAgree(env: Env, m: Machine, base: seq<byte>, f: Frame, d: Descriptor,
                                       content: seq<byte>, s: seq<byte>)
    requires Midway(m, base, f, d, content)
    ensures Agrees(env, m, base, s, Blocks(env, m.skip, d, content, s))
    decreases |s|
  {
    hide FeedAll, FourBytes, Frame.Take, AtEnd, OneBlock, Agrees, Stands;
    if |s| < 4 {
      TooShort(env, m, base, f, s);
    } else if FourBytes(s, 0) == 0 {
      EndAgrees(env, m, base, f, d, content, s);
    } else {
      BlockAgrees(env, m, base, f, d, content, s);
      var r := OneBlock(env, m.skip, d, content, s);
      if r.Piece? {
        var m' := FeedAll(env, m, s[..r.end]);
        BlocksAgree(env, m', base, f.Take(r.x), d, content + r.x, s[r.end..]);
        AgreesLater(env, m, base, s, r.end, Blocks(env, m.skip, d, content + r.x, s[r.end..]));
      }
    }
  }

  lemma TooShort(env: Env, m: Machine, base: seq<byte>, f: Frame, s: seq<byte>)
    requires m.stage == Reading(BlockHead(f), 4, []) && |s| < 4
    ensures Agrees(env, m, base, s, Partial)
  {
    hide FeedAll;
    FieldFed(env, m, BlockHead(f), s);
  }

  // ---------------------------------------------------------------------
  // The whole frame
  // ---------------------------------------------------------------------

  // Before a frame.
  function Before(skip: bool): Machine { Machine(skip, [], 0, 0, Reading(Magic, 4, [])) }

  lemma SkippableIs(s: seq<byte>)
    requires |s| >= 4
    ensures Skippable(s) <==> 0x184D2A50 <= FourBytes(s, 0) <= 0x184D2A5F
  {
    NumberIs(s, 0);
    assert s[0..4] == s[..4];
  }

  lemma FlagsAre(s: seq<byte>)
    requires |s| >= 7
    ensures FlagError(s) == if FlagsGood(s) then None else Some(FlagsWrong(s))
    ensures HeaderSize(s[4]) == HeaderLength(s[4])
  {
  }

  lemma DescriptorIs(env: Env, s: seq<byte>)
    requires |s| >= 7
    ensures DescriptorError(env, s) == if DescriptorGood(env, s, |s|) then None else Some(DescriptorWrong(s))
  {
  }

  lemma FrameIs(env: Env, s: seq<byte>)
    requires |s| >= 7 && |s| == HeaderSize(s[4]) && HeaderSize(s[4]) == HeaderLength(s[4])
    requires DescriptorGood(env, s, |s|)
    ensures Stands(HeaderFrame(s), Described(s), []) && Described(s).largest <= 4194304
  {
  }

  lemma SkippableAgrees(env: Env, skip: bool, s: seq<byte>)
    requires |s| >= 4 && 0x184D2A50 <= FourBytes(s, 0) <= 0x184D2A5F
    ensures Agrees(env, Before(skip), [], s, ReadFrame(env, skip, s))
  {
    hide FeedAll, FourBytes, LE32, Skippable;
    var m0 := Before(skip);
    SkippableIs(s);
    SkippableIs(s[..4]);
    HeadBytes(s, 4);
    FieldFed(env, m0, Magic, s);
    var m4, rest := FeedAll(env, m0, s[..4]), s[4..];
    FieldFed(env, m4, SkipSize, rest);
    FedOn(env, m0, s, 4, |s|);
    assert s[..|s|] == s;
    if |s| >= 8 {
      NumberIs(s, 4);
      FedOn(env, m0, s, 4, 8);
      assert rest[..4] == s[4..8];
      var n, m8 := FourBytes(s, 4), FeedAll(env, m0, s[..8]);
      if n > 0 {
        var k := if |s| < 8 + n then |s| else 8 + n;
        FedOn(env, m0, s, 8, k);
        FeedSkip(env, m8, s[8..k]);
      }
    }
  }

  lemma HeadBytes(s: seq<byte>, n: nat)
    requires 4 <= n <= |s|
    ensures FourBytes(s[..n], 0) == FourBytes(s, 0)
  {
  }

  lemma FlagsEarly(s: seq<byte>)
    requires |s| >= 7
    ensures FlagsGood(s[..7]) == FlagsGood(s) && FlagsWrong(s[..7]) == FlagsWrong(s)
  {
    assert s[..7][..4] == s[..4];
  }

  lemma DescriptorEarly(env: Env, s: seq<byte>, n: nat)
    requires 7 <= n <= |s|
    ensures DescriptorGood(env, s[..n], n) == DescriptorGood(env, s, n) && DescriptorWrong(s[..n]) == DescriptorWrong(s)
    ensures n == HeaderLength(s[4]) ==> Described(s[..n]) == Described(s)
  {
    assert s[..n][4..n - 1] == s[4..n - 1];
  }

  // A frame that is not skippable, from its complete flags on.
  lemma HeaderAgrees(env: Env, skip: bool, s: seq<byte>)
    requires |s| >= 7 && !(0x184D2A50 <= FourBytes(s, 0) <= 0x184D2A5F)
    ensures Agrees(env, Before(skip), [], s, ReadFrame(env, skip, s))
  {
    hide FeedAll, FourBytes, LE32, Skippable, FlagsGood, FlagsWrong, DescriptorGood, DescriptorWrong, Blocks,
         FlagError, DescriptorError, HeaderFrame, Described, HeaderSize, HeaderLength;
    var m0, n := Before(skip), HeaderLength(s[4]);
    SkippableIs(s);
    FlagsAre(s);
    FlagsEarly(s);
    FlagErrorEarly(s[..7], s);
    HeaderFed(env, m0, s[..7]);
    if !FlagsGood(s) {
      AgreesFailed(env, m0, [], s, 7, FlagsWrong(s));
    } else if |s| < n {
      HeaderFedLong(env, m0, s);
    } else {
      var h := s[..n];
      LengthIs(s[4]);
      FlagErrorEarly(h, s);
      HeaderFedLong(env, m0, h);
      DescriptorIs(env, h);
      DescriptorEarly(env, s, n);
      if DescriptorGood(env, s, n) {
        FrameIs(env, h);
        var m := FeedAll(env, m0, h);
        BlocksAgree(env, m, [], HeaderFrame(h), Described(s), [], s[n..]);
        AgreesLater(env, m0, [], s, n, Blocks(env, skip, Described(s), [], s[n..]));
      } else {
        AgreesFailed(env, m0, [], s, n, DescriptorWrong(s));
      }
    }
  }

  lemma LengthIs(flg: byte)
    ensures 7 <= HeaderLength(flg) == HeaderSize(flg)
  {
  }

  // Which headers are accepted, byte by byte: 04 22 4D 18, version 01 without the
  // reserved bit, one of four block sizes, and the second byte of the hash of
  // what lies between.
  predicate HeaderGood(env: Env, s: seq<byte>)
    requires |s| >= 7
  {
    && s[0] == 0x04 && s[1] == 0x22 && s[2] == 0x4D && s[3] == 0x18
    && (s[4] as int) / 64 == 1 && (s[4] as int) / 2 % 2 == 0
    && s[5] in {0x40, 0x50, 0x60, 0x70}
    && s[|s| - 1] as int == env.xxh(s[4..|s| - 1]) / 256 % 256
  }

  lemma AcceptedHeaders(env: Env, skip: bool, s: seq<byte>)
    requires |s| >= 7 && |s| == HeaderLength(s[4]) && !(0x184D2A50 <= FourBytes(s, 0) <= 0x184D2A5F)
    ensures FeedAll(env, Before(skip), s).stage.Failed? <==> !HeaderGood(env, s)
  {
    hide FeedAll, FourBytes, Skippable, FlagError, DescriptorError, HeaderFrame, HeaderSize, HeaderLength;
    SkippableIs(s);
    FlagsAre(s);
    if FlagsGood(s) {
      HeaderFedLong(env, Before(skip), s);
      DescriptorIs(env, s);
    } else {
      FlagsEarly(s);
      FlagErrorEarly(s[..7], s);
      HeaderFed(env, Before(skip), s[..7]);
      AgreesFailed(env, Before(skip), [], s, 7, FlagsWrong(s));
    }
  }

  // The machine reads every text as the grammar does.
  lemma MachineReads(env: Env, skip: bool, s: seq<byte>)
    ensures Agrees(env, Before(skip), [], s, ReadFrame(env, skip, s))
  {
    hide FeedAll, FourBytes, Skippable, FlagsGood, FlagsWrong, DescriptorGood, DescriptorWrong, Blocks;
    if |s| < 4 {
      FieldFed(env, Before(skip), Magic, s);
    } else if 0x184D2A50 <= FourBytes(s, 0) <= 0x184D2A5F {
      SkippableAgrees(env, skip, s);
    } else {
      SkippableIs(s);
      if |s| < 7 { HeaderFed(env, Before(skip), s); } else { HeaderAgrees(env, skip, s); }
    }
  }
}
