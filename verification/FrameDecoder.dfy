// LZ4F_decompress: the resumable frame decoder, its internal buffers and the
// history it keeps across the caller's buffers.
module FrameDecoder {
  import opened BlockFormat
  import opened BlockAcceptance
  import opened FrameFormat
  import opened FrameHistory
  import opened Buffers
  import Decoder

  predicate IsSuffix(x: seq<byte>, h: seq<byte>) {
    |x| <= |h| && h[|h| - |x|..] == x
  }

  method Smallest(a: nat, b: nat, c: nat) returns (n: nat)
    ensures n <= a && n <= b && n <= c && (n == a || n == b || n == c)
  {
    n := if b < c then b else c;
    if n > a { n := a; }
  }

  // A call wrote now[a..b] and gave it out; nothing before a or from hi on
  // has changed.
  ghost predicate Gave(before: seq<byte>, after: seq<byte>, was: seq<byte>, now: seq<byte>, a: nat, b: nat, hi: nat) {
    && a <= b <= hi <= |now| == |was| && now[..a] == was[..a] && now[hi..] == was[hi..]
    && after == before + now[a..b]
  }

  lemma GaveMore(d0: seq<byte>, d1: seq<byte>, d2: seq<byte>, s0: seq<byte>, s1: seq<byte>, s2: seq<byte>, a: nat,
                 b: nat, c: nat, hi: nat)
    requires Gave(d0, d1, s0, s1, a, b, hi) && Gave(d1, d2, s1, s2, b, c, hi)
    ensures Gave(d0, d2, s0, s2, a, c, hi)
  {
    assert s2[..a] == s2[..b][..a] && s1[..a] == s1[..b][..a];
    assert s2[a..b] == s2[..b][a..] && s1[a..b] == s1[..b][a..];
    assert s2[a..c] == s2[a..b] + s2[b..c];
  }

  lemma GaveNothing(d: seq<byte>, s: seq<byte>, a: nat, hi: nat)
    requires a <= hi <= |s|
    ensures Gave(d, d, s, s, a, a, hi)
  {
    assert d == d + s[a..a];
  }

  // ---------------------------------------------------------------------
  // Failing, by the format or at a torn block
  // ---------------------------------------------------------------------

  // Reading s fails with this error before another frame is complete.
  ghost predicate Fails(env: Env, m: Machine, s: seq<byte>, frames: nat, e: Error) {
    exists p: nat {:trigger s[..p]} ::
      p <= |s| && FeedAll(env, m, s[..p]).frames == frames && FeedAll(env, m, s[..p]).stage == Failed(e)
  }

  // The first q bytes of s end with a torn block.
  ghost predicate TearsAt(env: Env, m: Machine, s: seq<byte>, q: nat)
    requires 0 < q <= |s|
  {
    FeedAll(env, m, s[..q]).torn > FeedAll(env, m, s[..q - 1]).torn
  }

  // In the middle of a block that need not fit into `room` bytes, behind what
  // has come out before it.
  ghost predicate Cramped(m: Machine, room: nat) {
    m.stage.Reading? && m.stage.what.Block? && |m.out| + m.stage.what.b.maxBlock > room
  }

  // Reading s meets a torn block before another frame is complete; with a known
  // room one that need not fit.
  ghost predicate Tore(env: Env, m: Machine, s: seq<byte>, frames: nat, room: Option<nat>) {
    exists q: nat ::
      && 0 < q <= |s| && TearsAt(env, m, s, q) && FeedAll(env, m, s[..q]).frames == frames
      && (room.Some? ==> Cramped(FeedAll(env, m, s[..q - 1]), room.value))
  }

  // Every torn block of s would fit into a known room, whatever its size.
  ghost predicate Roomy(env: Env, m: Machine, s: seq<byte>, room: Option<nat>) {
    room.Some? ==>
      forall q: nat :: 0 < q <= |s| && TearsAt(env, m, s, q) ==> !Cramped(FeedAll(env, m, s[..q - 1]), room.value)
  }

  lemma FailsAtEnd(env: Env, m: Machine, s: seq<byte>, frames: nat, e: Error)
    requires FeedAll(env, m, s).frames == frames && FeedAll(env, m, s).stage == Failed(e)
    ensures Fails(env, m, s, frames, e)
  {
    hide FeedAll;
    assert s[..|s|] == s;
  }

  lemma FailsLater(env: Env, m: Machine, s: seq<byte>, p: nat, frames: nat, e: Error)
    requires p <= |s| && Fails(env, FeedAll(env, m, s[..p]), s[p..], frames, e)
    ensures Fails(env, m, s, frames, e)
  {
    hide FeedAll;
    var m1 := FeedAll(env, m, s[..p]);
    var q: nat :| q <= |s[p..]| && FeedAll(env, m1, s[p..][..q]).frames == frames
                  && FeedAll(env, m1, s[p..][..q]).stage == Failed(e);
    assert s[p..][..q] == s[p..p + q];
    FedSoFar(env, m, s, p, p + q);
  }

  // Positions of a part are positions of the whole.
  lemma TearsWithin(env: Env, m: Machine, s: seq<byte>, p: nat, r: nat, q: nat)
    requires p <= r <= |s| && 0 < q <= r - p
    ensures TearsAt(env, FeedAll(env, m, s[..p]), s[p..r], q) <==> TearsAt(env, m, s[..r], p + q)
    ensures FeedAll(env, FeedAll(env, m, s[..p]), s[p..r][..q]) == FeedAll(env, m, s[..r][..p + q])
    ensures FeedAll(env, FeedAll(env, m, s[..p]), s[p..r][..q - 1]) == FeedAll(env, m, s[..r][..p + q - 1])
  {
    hide FeedAll;
    assert s[p..r][..q] == s[p..p + q] && s[p..r][..q - 1] == s[p..p + q - 1];
    assert s[..r][..p + q] == s[..p + q] && s[..r][..p + q - 1] == s[..p + q - 1];
    FedSoFar(env, m, s, p, p + q);
    FedSoFar(env, m, s, p, p + q - 1);
  }

  lemma ToreLater(env: Env, m: Machine, s: seq<byte>, p: nat, frames: nat, room: Option<nat>)
    requires p <= |s| && Tore(env, FeedAll(env, m, s[..p]), s[p..], frames, room)
    ensures Tore(env, m, s, frames, room)
  {
    hide FeedAll, TearsAt, Cramped;
    var m1 := FeedAll(env, m, s[..p]);
    var q: nat :| 0 < q <= |s[p..]| && TearsAt(env, m1, s[p..], q) && FeedAll(env, m1, s[p..][..q]).frames == frames
                  && (room.Some? ==> Cramped(FeedAll(env, m1, s[p..][..q - 1]), room.value));
    assert s[p..|s|] == s[p..] && s[..|s|] == s;
    TearsWithin(env, m, s, p, |s|, q);
  }

  lemma RoomyMore(env: Env, m: Machine, s: seq<byte>, p: nat, r: nat, room: Option<nat>)
    requires p <= r <= |s| && Roomy(env, m, s[..p], room)
    requires Roomy(env, FeedAll(env, m, s[..p]), s[p..r], room)
    ensures Roomy(env, m, s[..r], room)
  {
    hide FeedAll, TearsAt, Cramped;
    if room.Some? {
      forall q: nat | 0 < q <= r && TearsAt(env, m, s[..r], q)
        ensures !Cramped(FeedAll(env, m, s[..r][..q - 1]), room.value)
      {
        if q <= p {
          TearsBefore(env, m, s, p, r, q);
        } else {
          TearsWithin(env, m, s, p, r, q - p);
          assert !Cramped(FeedAll(env, FeedAll(env, m, s[..p]), s[p..r][..q - p - 1]), room.value);
        }
      }
    }
  }

  lemma TearsBefore(env: Env, m: Machine, s: seq<byte>, p: nat, r: nat, q: nat)
    requires 0 < q <= p <= r <= |s|
    ensures TearsAt(env, m, s[..r], q) == TearsAt(env, m, s[..p], q)
    ensures FeedAll(env, m, s[..r][..q - 1]) == FeedAll(env, m, s[..p][..q - 1])
  {
    hide FeedAll;
    assert s[..r][..q] == s[..p][..q] && s[..r][..q - 1] == s[..p][..q - 1];
  }

  lemma {:induction false} TornGrows(env: Env, m: Machine, s: seq<byte>)
    ensures FeedAll(env, m, s).torn >= m.torn
    decreases |s|
  {
    hide Feed;
    if s != [] {
      TornGrows(env, m, s[..|s| - 1]);
      OneByteTears(env, FeedAll(env, m, s[..|s| - 1]), s[|s| - 1]);
    }
  }

  lemma OneByteTears(env: Env, m: Machine, b: byte)
    ensures Feed(env, m, b).torn >= m.torn
    ensures Feed(env, m, b).torn > m.torn ==>
              m.stage.Reading? && m.stage.what.Block? && m.stage.what.b.History() != []
  {
    hide LE32, FlagError, DescriptorError, HeaderFrame, Frame.Take, DecodeBlock, Torn, Frame.History;
    forall data, cap ensures !Torn(data, [], cap) { NoHistoryNotTorn(data, cap); }
  }

  // Nothing is torn where the number of torn blocks stays.
  lemma QuietIsRoomy(env: Env, m: Machine, s: seq<byte>, room: Option<nat>)
    requires FeedAll(env, m, s).torn == m.torn
    ensures Roomy(env, m, s, room)
  {
    hide FeedAll;
    forall q: nat | 0 < q <= |s| && TearsAt(env, m, s, q) ensures false {
      TornGrows(env, m, s[..q - 1]);
      TornGrows(env, FeedAll(env, m, s[..q]), s[q..]);
      FedRest(env, m, s, q);
    }
  }

  // A header as far as it is stored: seven bytes are collected first, then as
  // many as its flags ask for.
  predicate HeaderPart(t: seq<byte>, target: nat) {
    |t| <= target && (target == 7 || (|t| >= 7 && !Skippable(t) && FlagError(t) == None && target == HeaderSize(t[4])))
  }

  lemma HeaderPartGrows(t: seq<byte>, x: seq<byte>, target: nat)
    requires HeaderPart(t, target) && |t + x| <= target
    ensures HeaderPart(t + x, target)
  {
    if target != 7 { FlagErrorEarly(t, t + x); }
  }

  datatype DStage =
    | GetFrameHeader | StoreFrameHeader | Init | GetBlockHeader | StoreBlockHeader | CopyDirect | GetBlockChecksum
    | GetCBlock | StoreCBlock | FlushOut | GetSuffix | StoreSuffix | GetSFrameSize | StoreSFrameSize | SkipSkippable

  datatype FrameInfo = FrameInfo(linked: bool, blockSum: bool, contentSum: bool, contentSize: nat)

  // What a stage asks for: another stage, the end of the call with a hint for
  // the next one, or failure.
  datatype Flow = Go | Stop(hint: nat) | Err(error: Error)

  // LZ4F_dctx.  The two hash states stand for the bytes they have absorbed.
  // The ghost fields are the reference machine, its current frame and raw
  // block, everything handed to the caller so far, the number of frames whose
  // end has been noticed, and of torn blocks decoded behind their history;
  // `apart` tells that one was met apart from it.
  class Context {
    const header: array<byte>
    var tmpIn: array<byte>
    var tmpInSize: nat
    var tmpInTarget: nat
    var dStage: DStage
    var info: FrameInfo
    var frameRemainingSize: U64
    var maxBlockSize: nat
    var xxh: seq<byte>
    var blockChecksum: seq<byte>
    var skipChecksum: bool
    ghost var spec: Machine
    ghost var frame: Frame
    ghost var raw: seq<byte>
    ghost var delivered: seq<byte>
    ghost var frames: nat
    ghost var torn: nat
    ghost var apart: bool
    var tmpOutBuffer: array<byte>
    var maxBufferSize: nat
    var dict: array?<byte>
    var dictOff: nat
    var dictSize: nat
    var tmpOut: nat
    var tmpOutSize: nat
    var tmpOutStart: nat

    // The dictionary region ends with the window of h.
    ghost predicate DictShows(h: seq<byte>)
      reads `dict, `dictOff, `dictSize, `tmpOutBuffer, dict
    {
      if dict == null then dictSize == 0 && h == []
      else dictOff + dictSize <= dict.Length && Window(dict[dictOff..dictOff + dictSize]) == Window(h)
           && (dict == tmpOutBuffer ==> dictOff == 0)
    }

    // What of h is with the caller once `start` bytes of tmpOut are flushed.
    ghost function Flushed(h: seq<byte>, start: nat): seq<byte>
      requires tmpOutSize <= |h| && start <= tmpOutSize
      reads `tmpOutSize
    {
      h[..|h| - tmpOutSize + start]
    }

    // A decoded block waits in tmpOut, `start` bytes of it already flushed.
    // The room before it in the buffer holds its window, or can be filled
    // with it from the dictionary.
    ghost predicate FlushOk(h: seq<byte>, start: nat)
      reads `dict, `dictOff, `dictSize, `tmpOutBuffer, `tmpOut, `tmpOutSize, dict, tmpOutBuffer
    {
      && tmpOutSize <= |h| && start <= tmpOutSize && tmpOut + tmpOutSize <= tmpOutBuffer.Length
      && tmpOutBuffer[tmpOut..tmpOut + tmpOutSize] == h[|h| - tmpOutSize..]
      && RoomFor(h, tmpOutSize, tmpOut)
      && (if dict == tmpOutBuffer then
            && dictOff == 0 && dictSize == tmpOut + start
            && Window(tmpOutBuffer[..tmpOut + tmpOutSize]) == Window(h)
          else DictShows(Flushed(h, start)))
    }

    // c bytes of the dictionary go in front of tmpOut.
    method CopyFront(lo: int, c: nat)
      requires dict != null && dict != tmpOutBuffer && (c > 0 ==> 0 <= lo && lo + c <= dict.Length)
      requires c <= tmpOut <= tmpOutBuffer.Length
      modifies tmpOutBuffer
      ensures CopiedFront(old(tmpOutBuffer[..]), tmpOutBuffer[..], dict[..], lo, tmpOut, c)
    {
      if c > 0 { MemCpy(tmpOutBuffer, tmpOut - c, dict, lo, c); }
    }

    lemma FlushParts(h: seq<byte>)
      requires FlushOk(h, tmpOutStart) && dict != null && dict != tmpOutBuffer
      ensures dictOff + dictSize <= dict.Length
      ensures DictAndBlock(dict[..], dictOff, dictSize, tmpOutBuffer[..], h, tmpOutSize, tmpOutStart, tmpOut)
    {
      hide Window, RoomFor;
    }

    // Copy the relevant part of the dictionary in front of tmpOut.
    method CopyBeforeTmpOut(ghost h: seq<byte>)
      requires FlushOk(h, tmpOutStart) && dict != null && dict != tmpOutBuffer
      modifies tmpOutBuffer
      ensures WindowSaved(tmpOutBuffer[..], h, tmpOutSize, tmpOut)
    {
      hide FlushOk, DictAndBlock, CopiedFront, WindowSaved;
      FlushParts(h);
      var copySize: nat := if tmpOutSize > KB64 then 0 else KB64 - tmpOutSize;
      if copySize > tmpOut { copySize := tmpOut; }
      ghost var was := tmpOutBuffer[..];
      CopyFits(dict[..], dictOff, dictSize, was, h, tmpOutSize, tmpOutStart, tmpOut, copySize);
      var oldDictEnd := dictOff + dictSize - tmpOutStart;
      CopyFront(oldDictEnd - copySize, copySize);
      Copied(dict[..], dictOff, dictSize, was, tmpOutBuffer[..], h, tmpOutSize, tmpOutStart, tmpOut, copySize);
    }

    // The dictionary moves into tmpOutBuffer, ending where the flushing got.
    method SaveBeforeTmpOut(ghost h: seq<byte>, flushed: nat)
      requires FlushOk(h, tmpOutStart) && dict != null && dict != tmpOutBuffer && tmpOutStart + flushed <= tmpOutSize
      modifies this`dict, this`dictOff, this`dictSize, tmpOutBuffer
      ensures FlushOk(h, tmpOutStart + flushed) && dict == tmpOutBuffer
    {
      hide Window, RoomFor;
      CopyBeforeTmpOut(h);
      dict := tmpOutBuffer;
      dictOff := 0;
      dictSize := tmpOut + tmpOutStart + flushed;
    }

    // Copy what was just written to the destination behind the dictionary in
    // tmpOutBuffer, dropping the front of the dictionary if the buffer is full.
    method AppendToTmp(dst: array<byte>, at: nat, size: nat, ghost h: seq<byte>)
      requires dict == tmpOutBuffer && dst != tmpOutBuffer && at + size <= dst.Length && size < KB64
      requires DictShows(h) && maxBufferSize == tmpOutBuffer.Length >= 3 * KB64
      modifies this`dictSize, tmpOutBuffer
      ensures DictShows(h + dst[at..at + size])
    {
      hide Window;
      ghost var x := dst[at..at + size];
      ghost var r := tmpOutBuffer[..dictSize];
      assert tmpOutBuffer[0..dictSize] == r;
      if dictSize + size > maxBufferSize {
        var preserveSize := KB64 - size;
        MemCpy(tmpOutBuffer, 0, tmpOutBuffer, dictSize - preserveSize, preserveSize);
        assert tmpOutBuffer[..preserveSize] == r[|r| - preserveSize..];
        WindowKeep(r, h, preserveSize, x);
        dictSize := preserveSize;
      } else {
        WindowExtend(r, h, x);
      }
      ghost var front := tmpOutBuffer[..dictSize];
      MemCpy(tmpOutBuffer, dictSize, dst, at, size);
      dictSize := dictSize + size;
      assert tmpOutBuffer[0..dictSize] == front + x;
    }

    // Join the end of a dictionary elsewhere and what was just written.
    method JoinIntoTmp(dst: array<byte>, at: nat, size: nat, ghost h: seq<byte>)
      requires dict != null && dict != tmpOutBuffer && dst != tmpOutBuffer && at + size <= dst.Length && size < KB64
      requires DictShows(h) && maxBufferSize == tmpOutBuffer.Length >= 3 * KB64
      modifies this`dict, this`dictOff, this`dictSize, tmpOutBuffer
      ensures DictShows(h + dst[at..at + size]) && dict == tmpOutBuffer
    {
      hide Window;
      ghost var x := dst[at..at + size];
      ghost var r := dict[dictOff..dictOff + dictSize];
      var preserveSize: nat := KB64 - size;
      if preserveSize > dictSize { preserveSize := dictSize; }
      WindowKeep(r, h, preserveSize, x);
      MemCpyBoth(tmpOutBuffer, dict, dictOff + dictSize - preserveSize, preserveSize, dst, at, size);
      assert tmpOutBuffer[0..preserveSize + size] == r[|r| - preserveSize..] + x;
      dict := tmpOutBuffer;
      dictOff := 0;
      dictSize := preserveSize + size;
    }

    // The state of the history: within tmpOut a block waits to be flushed.
    ghost predicate HistoryOk(withinTmp: bool, h: seq<byte>, start: nat)
      reads `dict, `dictOff, `dictSize, `tmpOutBuffer, `tmpOut, `tmpOutSize, dict, tmpOutBuffer
    {
      if withinTmp then FlushOk(h, start) else DictShows(h)
    }

    // What the caller has of the history h.
    ghost function Given(withinTmp: bool, h: seq<byte>, start: nat): seq<byte>
      reads `tmpOutSize
    {
      if withinTmp && start <= tmpOutSize <= |h| then Flushed(h, start) else h
    }

    // Handing x to the caller turns h into h2: a flush adds nothing new.
    ghost predicate Hands(withinTmp: bool, h: seq<byte>, start: nat, x: seq<byte>, h2: seq<byte>)
      reads `tmpOutSize
    {
      && Given(withinTmp, h, start) + x == Given(withinTmp, h2, start + |x|)
      && if withinTmp then h2 == h && start + |x| <= tmpOutSize <= |h| else h2 == h + x
    }

    // An empty dictionary starts where the destination stands.
    method StartInPlace(dst: array<byte>, at: nat, withinTmp: bool, ghost h: seq<byte>)
      requires dictSize == 0 && at <= dst.Length && dst != tmpOutBuffer && HistoryOk(withinTmp, h, tmpOutStart)
      modifies `dict, `dictOff
      ensures HistoryOk(withinTmp, h, tmpOutStart) && dict == dst && dictOff == at
    {
      assert Given(withinTmp, h, tmpOutStart) == [];
      dict := dst;
      dictOff := at;
      assert dst[at..at] == [];
    }

    // Prefix mode: what was just written continues the dictionary in place.
    method ExtendInPlace(dst: array<byte>, at: nat, size: nat, withinTmp: bool, ghost h: seq<byte>, ghost h2: seq<byte>)
      requires dict == dst && dictOff + dictSize == at && at + size <= dst.Length && dst != tmpOutBuffer
      requires HistoryOk(withinTmp, h, tmpOutStart) && Hands(withinTmp, h, tmpOutStart, dst[at..at + size], h2)
      modifies `dictSize
      ensures HistoryOk(withinTmp, h2, tmpOutStart + size) && dictOff + dictSize == at + size
    {
      hide Window, RoomFor;
      WindowExtend(dst[dictOff..at], Given(withinTmp, h, tmpOutStart), dst[at..at + size]);
      assert dst[dictOff..at + size] == dst[dictOff..at] + dst[at..at + size];
      dictSize := dictSize + size;
    }

    // The destination itself holds a whole window by now.
    method SwitchToDst(dst: array<byte>, at: nat, size: nat, dstBufferStart: nat, withinTmp: bool, ghost h: seq<byte>,
                       ghost h2: seq<byte>)
      requires dstBufferStart <= at && at + size <= dst.Length && dst != tmpOutBuffer
      requires at - dstBufferStart + size >= KB64
      requires HistoryOk(withinTmp, h, tmpOutStart) && Hands(withinTmp, h, tmpOutStart, dst[at..at + size], h2)
      requires IsSuffix(dst[dstBufferStart..at], Given(withinTmp, h, tmpOutStart))
      modifies `dict, `dictOff, `dictSize
      ensures HistoryOk(withinTmp, h2, tmpOutStart + size) && dict == dst && dictOff + dictSize == at + size
    {
      hide Window, RoomFor, IsSuffix;
      LongEnough(dst[dstBufferStart..at], Given(withinTmp, h, tmpOutStart), dst[at..at + size]);
      assert dst[dstBufferStart..at + size] == dst[dstBufferStart..at] + dst[at..at + size];
      dict := dst;
      dictOff := dstBufferStart;
      dictSize := at - dstBufferStart + size;
    }

    // The dictionary is in tmpOutBuffer up to the flushed part: it grows.
    method GrowWithinTmp(size: nat, ghost h: seq<byte>)
      requires FlushOk(h, tmpOutStart) && dict == tmpOutBuffer && tmpOutStart + size <= tmpOutSize
      modifies `dictSize
      ensures FlushOk(h, tmpOutStart + size)
    {
      hide Window, RoomFor;
      dictSize := dictSize + size;
    }

    // The destination is too short to serve as history: it has to be kept in
    // tmpOutBuffer.
    method KeepInTmp(dst: array<byte>, at: nat, size: nat, withinTmp: bool, ghost h: seq<byte>, ghost h2: seq<byte>)
      requires at + size <= dst.Length && dst != tmpOutBuffer && size < KB64 && dict != null
      requires maxBufferSize == tmpOutBuffer.Length >= 3 * KB64
      requires HistoryOk(withinTmp, h, tmpOutStart) && Hands(withinTmp, h, tmpOutStart, dst[at..at + size], h2)
      modifies `dict, `dictOff, `dictSize, tmpOutBuffer
      ensures HistoryOk(withinTmp, h2, tmpOutStart + size) && dict == tmpOutBuffer
    {
      hide FlushOk, DictShows;
      if withinTmp && dict == tmpOutBuffer {
        GrowWithinTmp(size, h);
      } else if withinTmp {
        SaveBeforeTmpOut(h, size);
      } else if dict == tmpOutBuffer {
        AppendToTmp(dst, at, size, h);
      } else {
        JoinIntoTmp(dst, at, size, h);
      }
    }

    // There is no dictionary yet, or it ends in the destination where output
    // goes on.
    ghost predicate InPlace(dst: array<byte>, at: nat)
      reads `dict, `dictOff, `dictSize
    {
      if dict == null then dictSize == 0 else dict == dst && dictOff + dictSize == at
    }

    // As long as this is so, how much can have come out when the destination
    // ends.
    ghost function Room(dst: array<byte>, at: nat, hi: nat): Option<nat>
      reads `dict, `dictOff, `dictSize, `delivered
    {
      if at <= hi && InPlace(dst, at) then Some(|delivered| + (hi - at)) else None
    }

    // LZ4F_updateDict: `size` bytes have been written at `at`.
    method UpdateDict(dst: array<byte>, at: nat, size: nat, dstBufferStart: nat, withinTmp: bool, ghost h: seq<byte>,
                      ghost h2: seq<byte>)
      requires dstBufferStart <= at && at + size <= dst.Length && dst != tmpOutBuffer
      requires maxBufferSize == tmpOutBuffer.Length >= 3 * KB64
      requires HistoryOk(withinTmp, h, tmpOutStart) && Hands(withinTmp, h, tmpOutStart, dst[at..at + size], h2)
      requires IsSuffix(dst[dstBufferStart..at], Given(withinTmp, h, tmpOutStart))
      modifies `dict, `dictOff, `dictSize, tmpOutBuffer
      ensures HistoryOk(withinTmp, h2, tmpOutStart + size)
      ensures dict == tmpOutBuffer || (dict == dst && dictOff + dictSize == at + size)
      ensures old(InPlace(dst, at)) ==> InPlace(dst, at + size)
    {
      hide HistoryOk, Hands, IsSuffix, Given;
      NoDict(withinTmp, h);
      if dictSize == 0 { StartInPlace(dst, at, withinTmp, h); }
      if dict == dst && dictOff + dictSize == at {
        ExtendInPlace(dst, at, size, withinTmp, h, h2);
      } else if at - dstBufferStart + size >= KB64 {
        SwitchToDst(dst, at, size, dstBufferStart, withinTmp, h, h2);
      } else {
        KeepInTmp(dst, at, size, withinTmp, h, h2);
      }
    }

    lemma NoDict(withinTmp: bool, h: seq<byte>)
      requires HistoryOk(withinTmp, h, tmpOutStart)
      ensures dict == null ==> dictSize == 0
    {
    }

    // -------------------------------------------------------------------
    // The state between stages
    // -------------------------------------------------------------------

    predicate InBlocks()
      reads `dStage
    {
      match dStage
      case Init | GetBlockHeader | StoreBlockHeader | CopyDirect | GetBlockChecksum => true
      case GetCBlock | StoreCBlock | FlushOut => true
      case _ => false
    }

    ghost predicate InFrame()
      reads `dStage
    {
      InBlocks() || dStage == GetSuffix || dStage == StoreSuffix
    }

    // Objects the state depends on; the caller's buffer only while it holds
    // the dictionary.
    ghost function Repr(): set<object>
      reads this
    {
      {this, header, tmpIn, tmpOutBuffer} + if InBlocks() && dict != null then (var d: array<byte> := dict; {d}) else {}
    }

    // The buffers of a context, whatever it is doing.
    ghost predicate Allocated()
      reads `tmpIn, `tmpOutBuffer, `maxBufferSize
    {
      && header.Length == 19 && header != tmpIn && header != tmpOutBuffer && tmpIn != tmpOutBuffer
      && (maxBufferSize == 0 || (tmpIn.Length >= 4 && IsBlockSize(tmpIn.Length - 4)
                                && (maxBufferSize == tmpIn.Length - 4 || maxBufferSize == tmpIn.Length - 4 + 2 * KB64)))
      && maxBufferSize == tmpOutBuffer.Length
    }

    ghost predicate Shape()
      reads `tmpIn, `tmpOutBuffer, `dict, `maxBufferSize, `apart
    {
      Allocated() && dict != header && dict != tmpIn && !apart
    }

    // The decoded bytes not yet handed over.
    ghost function Pending(): seq<byte>
      requires tmpOutStart <= tmpOutSize && tmpOut + tmpOutSize <= tmpOutBuffer.Length
      reads `tmpOutStart, `tmpOutSize, `tmpOut, `tmpOutBuffer, tmpOutBuffer
    {
      tmpOutBuffer[tmpOut + tmpOutStart..tmpOut + tmpOutSize]
    }

    ghost function At(stage: Stage): Machine
      reads `skipChecksum, `delivered, `frames, `torn
    {
      Machine(skipChecksum, delivered, frames, torn, stage)
    }

    ghost predicate AtFrameStart()
      reads `spec, `skipChecksum, `delivered, `frames, `torn
    {
      spec == At(Reading(Magic, 4, []))
    }

    // Seven bytes are collected, then as many as the flags ask for.
    ghost predicate AtStoredHeader(env: Env)
      requires header.Length == 19
      reads `tmpInSize, `tmpInTarget, `spec, `skipChecksum, `delivered, `frames, `torn, header
    {
      && tmpInSize < tmpInTarget <= 19 && HeaderPart(header[..tmpInSize], tmpInTarget)
      && spec == FeedAll(env, At(Reading(Magic, 4, [])), header[..tmpInSize])
    }

    ghost predicate AtBlockHead()
      reads `spec, `skipChecksum, `delivered, `frames, `torn, `frame
    {
      spec == At(Reading(BlockHead(frame), 4, []))
    }

    ghost predicate AtStoredBlockHead()
      reads `tmpInSize, `tmpIn, `spec, `skipChecksum, `delivered, `frames, `torn, `frame, tmpIn
    {
      tmpInSize < 4 <= tmpIn.Length && spec == At(Reading(BlockHead(frame), 4, tmpIn[..tmpInSize]))
    }

    ghost predicate AtRaw()
      reads `tmpInTarget, `spec, `skipChecksum, `delivered, `frames, `torn, `frame, `raw, `blockChecksum
    {
      && spec == (if tmpInTarget == 0 then AfterRaw(At(Skip(0)), frame, raw) else At(Raw(frame, raw, tmpInTarget)))
      && (frame.blockSum && !skipChecksum ==> blockChecksum == raw)
    }

    ghost predicate AtRawSum()
      requires header.Length == 19
      reads `tmpInSize, `spec, `skipChecksum, `delivered, `frames, `torn, `frame, `raw, `blockChecksum, header
    {
      && tmpInSize < 4 && spec == At(Reading(RawSum(frame, raw), 4, header[..tmpInSize]))
      && (!skipChecksum ==> blockChecksum == raw)
    }

    ghost predicate BlockSizeOk()
      reads `tmpInTarget, `frame, `maxBlockSize
    {
      frame.SumSize() < tmpInTarget <= maxBlockSize + frame.SumSize()
    }

    ghost predicate AtBlock()
      reads `tmpInTarget, `maxBlockSize, `spec, `skipChecksum, `delivered, `frames, `torn, `frame
    {
      BlockSizeOk() && spec == At(Reading(Block(frame), tmpInTarget, []))
    }

    ghost predicate AtStoredBlock()
      reads `tmpInTarget, `maxBlockSize, `tmpInSize, `tmpIn, `spec, `skipChecksum, `delivered, `frames, `torn, `frame,
            tmpIn
    {
      && BlockSizeOk() && tmpInSize < tmpInTarget <= tmpIn.Length
      && spec == At(Reading(Block(frame), tmpInTarget, tmpIn[..tmpInSize]))
    }

    ghost predicate AtFlush()
      reads `tmpOutStart, `tmpOutSize, `tmpOut, `tmpOutBuffer, `spec, `skipChecksum, `delivered, `frames, `torn, `frame,
            tmpOutBuffer
    {
      && tmpOutStart <= tmpOutSize && tmpOut + tmpOutSize <= tmpOutBuffer.Length
      && spec == Machine(skipChecksum, delivered + Pending(), frames, torn, Reading(BlockHead(frame), 4, []))
    }

    ghost predicate AtEndMark()
      reads `spec, `skipChecksum, `delivered, `frames, `torn, `frame
    {
      spec == EndMark(At(Skip(0)), frame)
    }

    ghost predicate AtStoredSuffix()
      reads `tmpInSize, `tmpIn, `spec, `skipChecksum, `delivered, `frames, `torn, `frame, tmpIn
    {
      frame.contentSum && tmpInSize < 4 <= tmpIn.Length && spec == At(Reading(Suffix(frame), 4, tmpIn[..tmpInSize]))
    }

    ghost predicate AtSkipSize()
      reads `spec, `skipChecksum, `delivered, `frames, `torn
    {
      spec == At(Reading(SkipSize, 4, []))
    }

    ghost predicate AtStoredSkipSize()
      requires header.Length == 19
      reads `tmpInSize, `tmpInTarget, `spec, `skipChecksum, `delivered, `frames, `torn, header
    {
      4 <= tmpInSize < 8 == tmpInTarget && spec == At(Reading(SkipSize, 4, header[4..tmpInSize]))
    }

    ghost predicate AtSkip()
      reads `spec, `skipChecksum, `delivered, `frames, `torn, `tmpInTarget
    {
      spec == if tmpInTarget == 0 then At(Skip(0)).End() else At(Skip(tmpInTarget))
    }

    // The machine is where the stage says.
    ghost predicate StageOk(env: Env)
      requires header.Length == 19
      reads this, header, tmpIn, tmpOutBuffer
    {
      match dStage
      case GetFrameHeader => AtFrameStart()
      case StoreFrameHeader => AtStoredHeader(env)
      case Init => AtBlockHead() && frame.content == []
      case GetBlockHeader => AtBlockHead()
      case StoreBlockHeader => AtStoredBlockHead()
      case CopyDirect => AtRaw()
      case GetBlockChecksum => AtRawSum()
      case GetCBlock => AtBlock()
      case StoreCBlock => AtStoredBlock()
      case FlushOut => AtFlush()
      case GetSuffix => AtEndMark()
      case StoreSuffix => AtStoredSuffix()
      case GetSFrameSize => AtSkipSize()
      case StoreSFrameSize => AtStoredSkipSize()
      case SkipSkippable => AtSkip()
    }

    // The context knows the parameters of the frame.
    ghost predicate FrameOk()
      reads `info, `frame, `maxBlockSize, `frameRemainingSize
    {
      && info == FrameInfo(frame.linked, frame.blockSum, frame.contentSum, frame.contentSize)
      && maxBlockSize == frame.maxBlock && IsBlockSize(maxBlockSize) && frameRemainingSize == frame.remaining
    }

    // The buffers are large enough for it, and the hash is up to date.
    ghost predicate BuffersOk()
      reads `tmpIn, `maxBlockSize, `maxBufferSize, `frame, `skipChecksum, `xxh
    {
      && tmpIn.Length >= maxBlockSize + 4
      && maxBufferSize >= maxBlockSize + (if frame.linked then 2 * KB64 else 0)
      && (frame.contentSum && !skipChecksum ==> xxh == frame.content)
    }

    // The history is where the next linked block needs it.
    ghost predicate BlocksOk(flush: bool)
      reads `frame, `tmpOutStart, `dict, `dictOff, `dictSize, `tmpOutBuffer, `tmpOut, `tmpOutSize, dict, tmpOutBuffer
    {
      if frame.linked then HistoryOk(flush, frame.content, tmpOutStart)
      else dict == null && dictSize == 0 && tmpOut == 0
    }

    ghost predicate NoHistory()
      reads `dict, `dictSize
    {
      dict == null && dictSize == 0
    }

    ghost predicate Valid(env: Env)
      reads this, Repr()
    {
      && EnvOk(env) && Shape() && StageOk(env)
      && (InFrame() ==> FrameOk())
      && (InFrame() && dStage != Init ==> BuffersOk())
      && (InBlocks() && dStage != Init ==> BlocksOk(dStage == FlushOut))
      && (dStage == GetFrameHeader || dStage == StoreFrameHeader || dStage == Init ==> NoHistory())
      && (dStage == GetFrameHeader || dStage == StoreFrameHeader ==> frameRemainingSize == 0)
    }

    // The caller's buffer is none of ours, and no dictionary lies where it is
    // going to be written.
    ghost predicate CallBuffer(dst: array<byte>, lo: nat, dstPtr: nat, hi: nat)
      reads `tmpIn, `tmpOutBuffer, `dict, `dictOff, `dictSize
    {
      && lo <= dstPtr <= hi <= dst.Length && dst != header && dst != tmpIn && dst != tmpOutBuffer
      && (dict == dst ==> dictOff + dictSize <= dstPtr || hi <= dictOff)
    }

    // What this call wrote ends the history given out.
    ghost predicate Ends(dst: array<byte>, lo: nat, dstPtr: nat, flush: bool)
      requires lo <= dstPtr <= dst.Length
      reads `frame, `tmpOutStart, `tmpOutSize, dst
    {
      frame.linked ==> IsSuffix(dst[lo..dstPtr], Given(flush, frame.content, tmpOutStart))
    }

    // The relation of the caller's buffer to the state during a call.
    ghost predicate CallOk(dst: array<byte>, lo: nat, dstPtr: nat, hi: nat)
      reads this, dst
    {
      && lo <= dstPtr <= hi <= dst.Length && dst != header && dst != tmpIn && dst != tmpOutBuffer
      && (dStage == GetFrameHeader || dStage == StoreFrameHeader || dStage == Init ==> dstPtr == lo)
      && (InBlocks() ==> CallBuffer(dst, lo, dstPtr, hi))
      && (InBlocks() && dStage != Init ==> Ends(dst, lo, dstPtr, dStage == FlushOut))
    }

    // The parts of the state, by groups of stages.
    lemma OpenBlocks(env: Env)
      requires Valid(env) && InBlocks() && dStage != Init
      ensures EnvOk(env) && Shape() && StageOk(env) && FrameOk() && BuffersOk() && BlocksOk(dStage == FlushOut)
      ensures InFrame()
    {
      hide Shape, StageOk, FrameOk, BuffersOk, BlocksOk, NoHistory, EnvOk;
    }

    lemma OpenInit(env: Env)
      requires Valid(env) && dStage == Init
      ensures EnvOk(env) && Shape() && AtBlockHead() && frame.content == [] && FrameOk() && NoHistory()
    {
      hide Shape, FrameOk, BuffersOk, BlocksOk, NoHistory, EnvOk;
    }

    lemma CloseBlocks(env: Env)
      requires InBlocks() && dStage != Init
      requires EnvOk(env) && Shape() && StageOk(env) && FrameOk() && BuffersOk() && BlocksOk(dStage == FlushOut)
      ensures Valid(env) && InFrame()
    {
      hide Shape, StageOk, FrameOk, BuffersOk, BlocksOk, NoHistory, EnvOk;
    }

    lemma CloseSuffix(env: Env)
      requires dStage == GetSuffix || dStage == StoreSuffix
      requires EnvOk(env) && Shape() && StageOk(env) && FrameOk() && BuffersOk()
      ensures Valid(env)
    {
      hide Shape, StageOk, FrameOk, BuffersOk, BlocksOk, NoHistory, EnvOk;
    }

    lemma CloseHeader(env: Env)
      requires !InFrame() || dStage == Init
      requires EnvOk(env) && Shape() && StageOk(env) && NoHistory()
      requires if dStage == Init then FrameOk() else frameRemainingSize == 0
      ensures Valid(env)
    {
      hide Shape, StageOk, FrameOk, BuffersOk, BlocksOk, NoHistory, EnvOk;
    }

    // LZ4F_createDecompressionContext
    constructor (env: Env)
      requires EnvOk(env)
      ensures Valid(env) && spec == Machine(false, [], 0, 0, Reading(Magic, 4, [])) && delivered == []
      ensures frames == 0
      ensures fresh(Repr()) && dStage == GetFrameHeader && AtRest()
    {
      header := new byte[19];
      tmpIn := new byte[0];
      tmpOutBuffer := new byte[0];
      maxBufferSize, tmpInSize, tmpInTarget, frameRemainingSize, maxBlockSize := 0, 0, 0, 0, 0;
      dict, dictOff, dictSize, tmpOut, tmpOutSize, tmpOutStart := null, 0, 0, 0, 0, 0;
      dStage, info, xxh, blockChecksum, skipChecksum := GetFrameHeader, FrameInfo(false, false, false,
                                                                                  0), [], [], false;
      spec, delivered, frames, torn, raw := Machine(false, [], 0, 0, Reading(Magic, 4, [])), [], 0, 0, [];
      apart := false;
      new;
    }

    method ResetFields()
      modifies `dStage, `dict, `dictSize, `skipChecksum, `frameRemainingSize
      ensures dStage == GetFrameHeader && NoHistory() && dict == null && !skipChecksum && frameRemainingSize == 0
    {
      dStage := GetFrameHeader;
      dict := null;
      dictSize := 0;
      skipChecksum := false;
      frameRemainingSize := 0;
    }

    // LZ4F_resetDecompressionContext: whatever the context was doing, and even
    // after an error, it is then as good as a new one.
    method Reset(env: Env)
      requires EnvOk(env) && Allocated()
      modifies `dStage, `dict, `dictSize, `skipChecksum, `frameRemainingSize, `spec, `delivered, `frames, `torn, `apart
      ensures Valid(env) && AtRest() && dStage == GetFrameHeader && Repr() == {this, header, tmpIn, tmpOutBuffer}
      ensures spec == Machine(false, [], 0, 0, Reading(Magic, 4, [])) && delivered == [] && frames == 0
    {
      ResetFields();
      spec, delivered, frames, torn := Machine(false, [], 0, 0, Reading(Magic, 4, [])), [], 0, 0;
      apart := false;
    }

    lemma ValidAllocated(env: Env)
      requires Valid(env)
      ensures Allocated()
    {
      hide EnvOk, StageOk, FrameOk, BuffersOk, BlocksOk, NoHistory;
    }

    // -------------------------------------------------------------------
    // The header
    // -------------------------------------------------------------------

    // A skippable frame: only its size is of interest.
    method SkippableHeader(env: Env, s: seq<byte>, stored: bool) returns (used: nat)
      requires EnvOk(env) && Shape() && |s| >= 7 && Skippable(s)
      requires stored ==> |s| == 7 == tmpInSize && header[..7] == s
      modifies `tmpInTarget, `dStage, `spec
      ensures 4 <= used <= |s| && (stored ==> used == |s|) && Valid(env)
      ensures (dStage == StoreSFrameSize || dStage == GetSFrameSize)
      ensures spec == FeedAll(env, old(At(Reading(Magic, 4, []))), s[..used])
    {
      hide FeedAll;
      used := |s|;
      if stored {
        tmpInTarget := 8;
        dStage := StoreSFrameSize;
        assert s[..used] == s && header[4..tmpInSize] == s[4..];
      } else {
        used := 4;
        dStage := GetSFrameSize;
        assert s[..used][4..] == [];
      }
      HeaderFed(env, At(Reading(Magic, 4, [])), s[..used]);
      spec := FeedAll(env, At(Reading(Magic, 4, [])), s[..used]);
    }

    // The parameters of the frame, from a complete descriptor without error.
    method TakeParameters(env: Env, h: seq<byte>)
      requires |h| >= 7 && |h| == HeaderSize(h[4]) && DescriptorError(env, h) == None && frameRemainingSize == 0
      modifies `info, `maxBlockSize, `frameRemainingSize, `frame
      ensures FrameOk() && frame == HeaderFrame(h) && frame.content == []
    {
      hide LE64, LE32, FlagError;
      info := FrameInfo(!Flag(h[4], 32), Flag(h[4], 16), Flag(h[4], 4), 0);
      maxBlockSize := BlockSize(h[5] as int / 16 % 8);
      if Flag(h[4], 8) {
        info := info.(contentSize := LE64(h[6..]));
        frameRemainingSize := LE64(h[6..]);
      }
      frame := HeaderFrame(h);
    }

    // The frame is open.
    method StartFrame(env: Env, h: seq<byte>)
      requires EnvOk(env) && Shape() && NoHistory() && frameRemainingSize == 0
      requires |h| >= 7 && |h| == HeaderSize(h[4]) && DescriptorError(env, h) == None
      modifies `info, `maxBlockSize, `frameRemainingSize, `frame, `spec, `dStage
      ensures Valid(env) && dStage == Init && spec == At(Skip(0)).Next(HeaderFrame(h))
    {
      hide EnvOk, FeedAll, NoHistory, Valid, StageOk, FrameOk, HeaderFrame, DescriptorError, HeaderSize;
      TakeParameters(env, h);
      spec := At(Skip(0)).Next(frame);
      dStage := Init;
      AtInitStage(env);
      CloseHeader(env);
    }

    lemma AtInitStage(env: Env)
      requires Shape() && dStage == Init && AtBlockHead() && frame.content == []
      ensures StageOk(env)
    {
      hide AtBlockHead;
    }

    // LZ4F_decodeHeader, on what the context has stored or on the source.
    method DecodeHeader(env: Env, s: seq<byte>, stored: bool) returns (flow: Flow, used: nat)
      requires EnvOk(env) && Shape() && NoHistory() && frameRemainingSize == 0 && |s| >= 7
      requires !stored ==> |s| >= 19
      requires stored ==>
                 |s| <= 19 && header[..|s|] == s && tmpInSize == |s| && HeaderPart(s, |s|)
      modifies `tmpInTarget, `dStage, `spec, `info, `maxBlockSize, `frameRemainingSize, `frame
      ensures flow.Go? || flow.Err?
      ensures flow.Go? ==>
                && used <= |s| && (stored ==> used == |s|) && 4 <= used
                && spec == FeedAll(env, old(At(Reading(Magic, 4, []))), s[..used])
                && Valid(env) && !dStage.GetFrameHeader? && (dStage.StoreFrameHeader? ==> stored)
                && (InFrame() ==> dStage == Init)
      ensures flow.Err? ==>
                var m := FeedAll(env, old(At(Reading(Magic, 4, []))), s);
                m.stage == Failed(flow.error) && m.frames == old(frames)
    {
      hide FeedAll, FlagError, DescriptorError, HeaderFrame, Skippable, Flag, BlocksOk, BuffersOk, FrameOk,
           AtStoredBlockHead, AtRaw, AtRawSum, AtBlock, AtStoredBlock, AtFlush, AtEndMark, AtStoredSuffix, AtSkipSize,
           AtStoredSkipSize, AtSkip;
      ghost var m0 := At(Reading(Magic, 4, []));
      flow, used := Go, |s|;
      if Skippable(s) {
        used := SkippableHeader(env, s, stored);
        return;
      }
      assert s == s[..7] + s[7..];
      FeedAppend(env, m0, s[..7], s[7..]);
      HeaderFed(env, m0, s[..7]);
      FlagErrorEarly(s[..7], s);
      if FlagError(s).Some? {
        FailedStays(env, FeedAll(env, m0, s[..7]), s[7..]);
        return Err(FlagError(s).value), 0;
      }
      var size := HeaderSize(s[4]);
      if |s| < size {
        tmpInTarget := size;
        dStage := StoreFrameHeader;
        spec := FeedAll(env, m0, s[..used]);
        assert s[..used] == s;
        return;
      }
      var h := s[..size];
      used := size;
      FlagErrorEarly(h, s);
      HeaderFedLong(env, m0, h);
      FlagErrorEarly(h, h);
      if DescriptorError(env, h).Some? {
        assert s == h + s[size..];
        FeedAppend(env, m0, h, s[size..]);
        FailedStays(env, FeedAll(env, m0, h), s[size..]);
        return Err(DescriptorError(env, h).value), 0;
      }
      StartFrame(env, h);
    }

    // dstage_getFrameHeader
    method GetFrameHeaderStep(env: Env, src: seq<byte>, srcPtr0: nat) returns (flow: Flow, srcPtr: nat)
      requires Valid(env) && dStage == GetFrameHeader && srcPtr0 <= |src|
      modifies `tmpInSize, `tmpInTarget, `dStage, `spec, `info, `maxBlockSize, `frameRemainingSize, `frame
      ensures tmpIn == old(tmpIn) && tmpOutBuffer == old(tmpOutBuffer) && delivered == old(delivered)
      ensures frames == old(frames)
      ensures !flow.Err? ==>
                && Valid(env) && srcPtr0 <= srcPtr <= |src| && spec == FeedAll(env, old(spec), src[srcPtr0..srcPtr])
                && skipChecksum == old(skipChecksum) && (InFrame() ==> dStage == Init)
                && (flow.Go? ==> srcPtr > srcPtr0 || (dStage == StoreFrameHeader && srcPtr0 < |src|))
                && (flow.Stop? ==> flow.hint > 0 && srcPtr0 == |src| && dStage == GetFrameHeader)
      ensures flow.Err? ==> Fails(env, old(spec), src[srcPtr0..], old(frames), flow.error)
    {
      hide FeedAll;
      if |src| - srcPtr0 >= 19 {
        var used;
        flow, used := DecodeHeader(env, src[srcPtr0..], false);
        srcPtr := srcPtr0 + used;
        assert flow.Go? ==> src[srcPtr0..][..used] == src[srcPtr0..srcPtr];
        if flow.Err? { FailsAtEnd(env, old(spec), src[srcPtr0..], old(frames), flow.error); }
        return;
      }
      tmpInSize := 0;
      srcPtr := srcPtr0;
      NothingFed(env, spec, src, srcPtr);
      if srcPtr == |src| { return Stop(7), srcPtr; }
      tmpInTarget := 7;
      dStage := StoreFrameHeader;
      assert header[..0] == src[srcPtr..srcPtr];
      flow := Go;
    }

    // Move bytes from the source into a buffer until it holds `target`.
    method Collect(buf: array<byte>, target: nat, src: seq<byte>, srcPtr0: nat) returns (srcPtr: nat)
      requires tmpInSize <= target <= buf.Length && srcPtr0 <= |src|
      modifies `tmpInSize, buf
      ensures srcPtr0 <= srcPtr <= |src| && old(tmpInSize) <= tmpInSize <= target
      ensures buf[..tmpInSize] == old(buf[..tmpInSize]) + src[srcPtr0..srcPtr]
      ensures tmpInSize - old(tmpInSize) == srcPtr - srcPtr0 && (tmpInSize < target ==> srcPtr == |src|)
    {
      var wanted, left := target - tmpInSize, |src| - srcPtr0;
      var sizeToCopy := if wanted < left then wanted else left;
      srcPtr := srcPtr0 + sizeToCopy;
      PutBytes(buf, tmpInSize, src[srcPtr0..srcPtr]);
      tmpInSize := tmpInSize + sizeToCopy;
    }

    // dstage_storeFrameHeader
    method StoreFrameHeaderStep(env: Env, src: seq<byte>, srcPtr0: nat) returns (flow: Flow, srcPtr: nat)
      requires Valid(env) && dStage == StoreFrameHeader && srcPtr0 <= |src|
      modifies `tmpInSize, `tmpInTarget, `dStage, `spec, `info, `maxBlockSize, `frameRemainingSize, `frame, header
      ensures tmpIn == old(tmpIn) && tmpOutBuffer == old(tmpOutBuffer) && delivered == old(delivered)
      ensures frames == old(frames)
      ensures !flow.Err? ==>
                && Valid(env) && srcPtr0 <= srcPtr <= |src| && spec == FeedAll(env, old(spec), src[srcPtr0..srcPtr])
                && skipChecksum == old(skipChecksum) && (InFrame() ==> dStage == Init)
                && (srcPtr0 < |src| ==> srcPtr > srcPtr0) && (flow.Go? ==> srcPtr > srcPtr0)
                && (flow.Stop? ==> flow.hint > 0 && srcPtr == |src| && dStage == StoreFrameHeader)
      ensures flow.Err? ==> Fails(env, old(spec), src[srcPtr0..], old(frames), flow.error)
    {
      hide FeedAll, FlagError, Skippable, Flag, BlocksOk, BuffersOk, FrameOk, HeaderSize, HeaderPart, AtStoredBlockHead,
           AtRaw, AtRawSum, AtBlock, AtStoredBlock, AtFlush, AtEndMark, AtStoredSuffix, AtSkipSize, AtStoredSkipSize,
           AtSkip;
      ghost var m0 := At(Reading(Magic, 4, []));
      ghost var before := header[..tmpInSize];
      srcPtr := Collect(header, tmpInTarget, src, srcPtr0);
      ghost var x := src[srcPtr0..srcPtr];
      HeaderPartGrows(before, x, tmpInTarget);
      FeedAppend(env, m0, before, x);
      if tmpInSize < tmpInTarget {
        spec := FeedAll(env, spec, x);
        return Stop(tmpInTarget - tmpInSize + 4), srcPtr;
      }
      ghost var s := header[..tmpInTarget];
      var used;
      flow, used := DecodeHeader(env, header[..tmpInTarget], true);
      if flow.Err? {
        assert s == before + x;
        RefusedHere(env, old(spec), src, srcPtr0, srcPtr, old(frames), flow.error);
      } else {
        assert s[..used] == s;
      }
    }

    // -------------------------------------------------------------------
    // Block headers
    // -------------------------------------------------------------------

    // Ready for the next block.
    method EnterBlockHead(env: Env)
      requires EnvOk(env) && Shape() && FrameOk() && BuffersOk() && BlocksOk(false)
      modifies `dStage, `spec
      ensures Valid(env) && dStage == GetBlockHeader && spec == At(Reading(BlockHead(frame), 4, []))
    {
      hide EnvOk, Shape, FrameOk, BuffersOk, BlocksOk, Valid;
      spec := At(Reading(BlockHead(frame), 4, []));
      dStage := GetBlockHeader;
      CloseBlocks(env);
    }

    // Buffers for the block size of the frame, kept if they are large enough.
    method AllocateBuffers()
      requires Shape() && FrameOk()
      modifies `tmpIn, `tmpOutBuffer, `maxBufferSize
      ensures Shape() && tmpIn.Length >= maxBlockSize + 4
      ensures maxBufferSize >= maxBlockSize + (if frame.linked then 2 * KB64 else 0)
      ensures (tmpIn == old(tmpIn) || fresh(tmpIn)) && (tmpOutBuffer == old(tmpOutBuffer) || fresh(tmpOutBuffer))
      ensures dict == null || dict == old(tmpOutBuffer) || dict != tmpOutBuffer
    {
      hide IsBlockSize, FrameOk;
      FrameParameters();
      EnoughBuffer(tmpIn.Length, maxBufferSize, maxBlockSize, info.linked);
      var bufferNeeded := maxBlockSize + if info.linked then 2 * KB64 else 0;
      if bufferNeeded > maxBufferSize {
        tmpIn := new byte[maxBlockSize + 4];
        tmpOutBuffer := new byte[bufferNeeded];
        maxBufferSize := bufferNeeded;
      }
    }

    method ClearTmp()
      modifies `tmpInSize, `tmpInTarget, `tmpOut, `tmpOutStart, `tmpOutSize
      ensures tmpOut == 0 && tmpOutStart == 0 && tmpOutSize == 0
    {
      tmpInSize, tmpInTarget := 0, 0;
      tmpOut, tmpOutStart, tmpOutSize := 0, 0, 0;
    }

    // Buffers, hash and indices for the frame that begins.
    method PrepareFrame()
      requires Shape() && FrameOk() && NoHistory() && frame.content == []
      modifies `xxh, `tmpIn, `tmpOutBuffer, `maxBufferSize, `tmpInSize, `tmpInTarget, `tmpOut, `tmpOutStart, `tmpOutSize
      ensures Shape() && BuffersOk() && BlocksOk(false)
      ensures (tmpIn == old(tmpIn) || fresh(tmpIn)) && (tmpOutBuffer == old(tmpOutBuffer) || fresh(tmpOutBuffer))
    {
      hide Shape, HistoryOk, IsBlockSize, FrameOk, NoHistory;
      FrameParameters();
      if info.contentSum { xxh := []; }
      NoHistoryFields();
      AllocateBuffers();
      ClearTmp();
      EmptyHistory(0);
    }

    // dstage_init
    method InitStep(env: Env)
      requires Valid(env) && dStage == Init
      modifies `xxh, `tmpIn, `tmpOutBuffer, `maxBufferSize, `tmpInSize, `tmpInTarget, `tmpOut, `tmpOutStart,
               `tmpOutSize, `dStage, `spec
      ensures Valid(env) && dStage == GetBlockHeader && spec == old(spec)
      ensures (tmpIn == old(tmpIn) || fresh(tmpIn)) && (tmpOutBuffer == old(tmpOutBuffer) || fresh(tmpOutBuffer))
    {
      hide EnvOk, Shape, FrameOk, NoHistory, Valid, StageOk, BuffersOk, BlocksOk;
      OpenInit(env);
      PrepareFrame();
      EnterBlockHead(env);
    }

    lemma NoHistoryFields()
      requires NoHistory()
      ensures dict == null && dictSize == 0
    {
    }

    lemma FrameParameters()
      requires FrameOk()
      ensures IsBlockSize(maxBlockSize) && KB64 <= maxBlockSize == frame.maxBlock
      ensures info == FrameInfo(frame.linked, frame.blockSum, frame.contentSum, frame.contentSize)
      ensures frameRemainingSize == frame.remaining
    {
    }

    lemma EmptyHistory(start: nat)
      requires NoHistory()
      ensures HistoryOk(false, [], start)
    {
    }

    // The end mark: on to the suffix.
    method EnterSuffix(env: Env)
      requires EnvOk(env) && Shape() && FrameOk() && BuffersOk()
      modifies `dStage, `spec
      ensures Valid(env) && dStage == GetSuffix && spec == EndMark(At(Skip(0)), frame)
    {
      hide EnvOk, Shape, FrameOk, BuffersOk, EndMark, Valid, BlocksOk;
      spec := EndMark(At(Skip(0)), frame);
      dStage := GetSuffix;
      CloseSuffix(env);
    }

    // An uncompressed block of this size.
    method EnterRaw(env: Env, size: nat)
      requires EnvOk(env) && Shape() && FrameOk() && BuffersOk() && BlocksOk(false)
      modifies `tmpInTarget, `blockChecksum, `dStage, `spec, `raw
      ensures Valid(env) && dStage == CopyDirect
      ensures spec == if size == 0 then AfterRaw(At(Skip(0)), frame, []) else At(Raw(frame, [], size))
    {
      hide EnvOk, Shape, BuffersOk, EndMark, Valid, BlocksOk, AfterRaw, FrameOk, StageOk;
      FrameParameters();
      tmpInTarget := size;
      if info.blockSum { blockChecksum := []; }
      raw := [];
      spec := if size == 0 then AfterRaw(At(Skip(0)), frame, []) else At(Raw(frame, [], size));
      dStage := CopyDirect;
      AtRawStage(env);
      CloseBlocks(env);
    }

    lemma AtRawStage(env: Env)
      requires Shape() && dStage == CopyDirect && AtRaw()
      ensures StageOk(env)
    {
      hide AtRaw;
    }

    // A compressed block of this size.
    method EnterBlock(env: Env, size: nat)
      requires EnvOk(env) && Shape() && FrameOk() && BuffersOk() && BlocksOk(false) && 0 < size <= maxBlockSize
      modifies `tmpInTarget, `dStage, `spec
      ensures Valid(env) && dStage == GetCBlock && spec == At(Reading(Block(frame), size + frame.SumSize(), []))
    {
      hide EnvOk, Shape, BuffersOk, EndMark, Valid, BlocksOk, FrameOk;
      FrameParameters();
      tmpInTarget := size + if info.blockSum then 4 else 0;
      spec := At(Reading(Block(frame), tmpInTarget, []));
      dStage := GetCBlock;
      CloseBlocks(env);
    }

    // The block header proper.
    method DecodeBlockHeader(env: Env, h: nat, stop: bool) returns (flow: Flow)
      requires EnvOk(env) && Shape() && FrameOk() && BuffersOk() && BlocksOk(false)
      modifies `tmpInTarget, `dStage, `blockChecksum, `spec, `raw
      ensures !flow.Err? ==>
                && Valid(env) && spec == BlockHeadDone(old(At(Skip(0))), frame, h)
                && (InBlocks() || dStage == GetSuffix) && dStage != FlushOut && dStage != Init
                && (flow.Stop? ==> stop && flow.hint > 0 && dStage == GetCBlock)
      ensures flow.Err? ==> BlockHeadDone(old(At(Skip(0))), frame, h) == old(At(Failed(flow.error)))
    {
      hide EnvOk, Shape, BuffersOk, EndMark, Valid, BlocksOk, FrameOk, AfterRaw, StageOk;
      FrameParameters();
      var nextCBlockSize := h % 0x8000_0000;
      flow := Go;
      if h == 0 {
        EnterSuffix(env);
      } else if nextCBlockSize > maxBlockSize {
        flow := Err(MaxBlockSizeInvalid);
      } else if h >= 0x8000_0000 {
        EnterRaw(env, nextCBlockSize);
      } else {
        EnterBlock(env, nextCBlockSize);
        if stop { flow := Stop(4 + tmpInTarget); }
      }
    }

    // dstage_getBlockHeader
    method GetBlockHeaderStep(env: Env, src: seq<byte>, srcPtr0: nat, dstFull: bool) returns (flow: Flow, srcPtr: nat)
      requires Valid(env) && dStage == GetBlockHeader && srcPtr0 <= |src|
      modifies `tmpInSize, `tmpInTarget, `dStage, `blockChecksum, `spec, `raw
      ensures !flow.Err? ==>
                && Valid(env) && srcPtr0 <= srcPtr <= |src| && spec == FeedAll(env, old(spec), src[srcPtr0..srcPtr])
                && (InBlocks() || dStage == GetSuffix) && dStage != FlushOut && dStage != Init
                && (flow.Go? ==> srcPtr > srcPtr0 || dStage == StoreBlockHeader)
                && (flow.Stop? ==> flow.hint > 0 && srcPtr > srcPtr0 && dStage == GetCBlock)
                && (flow.Stop? ==> dstFull || srcPtr == |src|)
      ensures flow.Err? ==> Fails(env, old(spec), src[srcPtr0..], old(frames), flow.error)
    {
      hide FeedAll, Shape, AtStoredHeader, AtRaw, AtRawSum, AtBlock, AtStoredBlock, AtFlush, AtEndMark, AtStoredSuffix,
           AtSkipSize, AtStoredSkipSize, AtSkip, BuffersOk, HistoryOk, EndMark, BlockHeadDone, LE32, FrameOk;
      srcPtr := srcPtr0;
      if |src| - srcPtr >= 4 {
        srcPtr := srcPtr + 4;
        BlockHeadFed(env, At(Reading(BlockHead(frame), 4, [])), src[srcPtr0..srcPtr], frame);
        flow := DecodeBlockHeader(env, LE32(src[srcPtr0..srcPtr]), dstFull || srcPtr == |src|);
        if flow.Err? { RefusedHere(env, old(spec), src, srcPtr0, srcPtr, old(frames), flow.error); }
      } else {
        tmpInSize := 0;
        dStage := StoreBlockHeader;
        NothingFed(env, spec, src, srcPtr);
        StoreNothing();
        flow := Go;
      }
    }

    lemma StoreNothing()
      requires tmpInSize == 0 && FrameOk() && BuffersOk() && AtBlockHead()
      ensures AtStoredBlockHead()
    {
      assert tmpIn[..0] == [];
    }

    // dstage_storeBlockHeader
    method StoreBlockHeaderStep(env: Env, src: seq<byte>, srcPtr0: nat, dstFull: bool) returns (flow: Flow, srcPtr: nat)
      requires Valid(env) && dStage == StoreBlockHeader && srcPtr0 <= |src|
      modifies `tmpInSize, `tmpInTarget, `dStage, `blockChecksum, `spec, `raw, tmpIn
      ensures !flow.Err? ==>
                && Valid(env) && srcPtr0 <= srcPtr <= |src| && spec == FeedAll(env, old(spec), src[srcPtr0..srcPtr])
                && (InBlocks() || dStage == GetSuffix) && dStage != FlushOut && dStage != Init
                && (srcPtr0 < |src| ==> srcPtr > srcPtr0) && (flow.Go? ==> srcPtr > srcPtr0)
                && (flow.Stop? ==> flow.hint > 0 && (dStage == GetCBlock || dStage == StoreBlockHeader))
                && (flow.Stop? ==> dstFull || srcPtr == |src|)
      ensures flow.Err? ==> Fails(env, old(spec), src[srcPtr0..], old(frames), flow.error)
    {
      hide FeedAll, AtStoredHeader, AtRaw, AtRawSum, AtBlock, AtStoredBlock, AtFlush, AtEndMark, AtStoredSuffix,
           AtSkipSize, AtStoredSkipSize, AtSkip, BuffersOk, HistoryOk, EndMark, BlockHeadDone, LE32, FrameOk;
      ghost var got := tmpIn[..tmpInSize];
      srcPtr := Collect(tmpIn, 4, src, srcPtr0);
      BlockHeadStored(env, spec, got, src[srcPtr0..srcPtr], frame);
      if tmpInSize < 4 {
        spec := FeedAll(env, spec, src[srcPtr0..srcPtr]);
        return Stop(4 - tmpInSize), srcPtr;
      }
      flow := DecodeBlockHeader(env, LE32(tmpIn[..4]), dstFull || srcPtr == |src|);
      if flow.Err? { RefusedHere(env, old(spec), src, srcPtr0, srcPtr, old(frames), flow.error); }
    }

    // -------------------------------------------------------------------
    // Handing bytes to the caller
    // -------------------------------------------------------------------

    // Write into the caller's buffer; a dictionary there is not touched.
    method Deliver(dst: array<byte>, at: nat, hi: nat, x: seq<byte>, ghost withinTmp: bool, ghost h: seq<byte>)
      requires at + |x| <= hi <= dst.Length && dst != tmpOutBuffer && HistoryOk(withinTmp, h, tmpOutStart)
      requires dict == dst ==> dictOff + dictSize <= at || hi <= dictOff
      modifies dst
      ensures dst[at..at + |x|] == x && dst[..at] == old(dst[..at]) && dst[hi..] == old(dst[hi..])
      ensures HistoryOk(withinTmp, h, tmpOutStart)
    {
      hide Window, RoomFor;
      ghost var was := dst[..];
      PutBytes(dst, at, x);
      TailKept(dst[..], was, at + |x|, hi);
      if dict == dst && dictOff + dictSize <= dst.Length { SliceKept(dst[..], was, dictOff, dictSize, at, hi); }
    }

    // Bytes that go to the caller count towards the content checksum, if it is
    // kept, and towards the announced size, if there is one.
    method Account(x: seq<byte>)
      requires FrameOk() && BuffersOk()
      modifies `xxh, `frameRemainingSize, `frame
      ensures frame == old(frame).Take(x) && FrameOk() && BuffersOk()
    {
      if info.contentSum && !skipChecksum { xxh := xxh + x; }
      if info.contentSize != 0 { frameRemainingSize := (frameRemainingSize - |x|) % 0x1_0000_0000_0000_0000; }
      frame := frame.Take(x);
    }

    // History management after `size` bytes went to the caller's buffer.
    method KeepHistory(dst: array<byte>, lo: nat, at: nat, size: nat, withinTmp: bool, ghost h: seq<byte>)
      requires Shape() && FrameOk() && BuffersOk() && dst != tmpOutBuffer && dst != header && dst != tmpIn
      requires lo <= at && at + size <= dst.Length
      requires frame.linked ==>
                 && HistoryOk(withinTmp, h, tmpOutStart) && IsSuffix(dst[lo..at], Given(withinTmp, h, tmpOutStart))
                 && Hands(withinTmp, h, tmpOutStart, dst[at..at + size], frame.content)
      requires !frame.linked ==> NoHistory() && tmpOut == 0
      modifies `dict, `dictOff, `dictSize, tmpOutBuffer
      ensures Shape()
      ensures frame.linked ==>
                var start := if withinTmp then tmpOutStart + size else tmpOutStart;
                && HistoryOk(withinTmp, frame.content, start)
                && IsSuffix(dst[lo..at + size], Given(withinTmp, frame.content, start))
      ensures !frame.linked ==> NoHistory() && tmpOut == 0
      ensures frame.linked ==> dict == tmpOutBuffer || (dict == dst && dictOff + dictSize == at + size)
      ensures !frame.linked ==> tmpOutBuffer[..] == old(tmpOutBuffer[..])
      ensures old(InPlace(dst, at)) ==> InPlace(dst, at + size)
    {
      hide FlushOk, DictShows, IsSuffix, IsBlockSize;
      FrameParameters();
      if info.linked {
        SuffixGrows(dst[lo..at], Given(withinTmp, h, tmpOutStart), dst[at..at + size]);
        assert dst[lo..at + size] == dst[lo..at] + dst[at..at + size];
        UpdateDict(dst, at, size, lo, withinTmp, h, frame.content);
      }
    }

    // -------------------------------------------------------------------
    // Uncompressed blocks
    // -------------------------------------------------------------------

    // Bytes for the caller, in the state of blocks.
    method Hand(dst: array<byte>, lo: nat, at: nat, hi: nat, x: seq<byte>, ghost flush: bool)
      requires BlocksOk(flush) && CallBuffer(dst, lo, at, hi) && Ends(dst, lo, at, flush) && at + |x| <= hi
      requires info.linked == frame.linked
      modifies dst
      ensures dst[at..at + |x|] == x && dst[..at] == old(dst[..at]) && dst[hi..] == old(dst[hi..])
      ensures BlocksOk(flush) && Ends(dst, lo, at, flush)
    {
      hide HistoryOk, IsSuffix;
      ghost var was := dst[..];
      if info.linked {
        Deliver(dst, at, hi, x, flush, frame.content);
      } else {
        PutBytes(dst, at, x);
        TailKept(dst[..], was, at + |x|, hi);
      }
      assert dst[lo..at] == dst[..at][lo..] && was[lo..at] == was[..at][lo..];
    }

    // Bytes of a block have reached the caller: checksum, size and history.
    method Settle(dst: array<byte>, lo: nat, at: nat, hi: nat, x: seq<byte>)
      requires Shape() && FrameOk() && BuffersOk() && BlocksOk(false) && CallBuffer(dst, lo, at, hi)
      requires at + |x| <= hi && Ends(dst, lo, at, false) && dst[at..at + |x|] == x
      modifies tmpOutBuffer, `dict, `dictOff, `dictSize, `xxh, `frameRemainingSize, `frame, `delivered
      ensures Shape() && FrameOk() && BuffersOk() && BlocksOk(false) && frame == old(frame).Take(x)
      ensures CallBuffer(dst, lo, at + |x|, hi) && Ends(dst, lo, at + |x|, false)
      ensures delivered == old(delivered) + x
      ensures old(InPlace(dst, at)) ==> InPlace(dst, at + |x|)
    {
      hide HistoryOk, IsSuffix, Shape, BuffersOk, FrameOk, InPlace;
      ghost var h := frame.content;
      Account(x);
      KeepHistory(dst, lo, at, |x|, false, h);
      delivered := delivered + x;
    }

    // Copy bytes of an uncompressed block to the caller.
    method PassOn(dst: array<byte>, lo: nat, dstPtr: nat, hi: nat, x: seq<byte>)
      requires Shape() && FrameOk() && BuffersOk() && BlocksOk(false) && CallBuffer(dst, lo, dstPtr, hi)
      requires dstPtr + |x| <= hi && Ends(dst, lo, dstPtr, false)
      modifies dst, tmpOutBuffer, `dict, `dictOff, `dictSize, `xxh, `frameRemainingSize, `frame, `blockChecksum,
               `delivered
      ensures Shape() && FrameOk() && BuffersOk() && BlocksOk(false) && frame == old(frame).Take(x)
      ensures CallBuffer(dst, lo, dstPtr + |x|, hi) && Ends(dst, lo, dstPtr + |x|, false)
      ensures Gave(old(delivered), delivered, old(dst[..]), dst[..], dstPtr, dstPtr + |x|, hi)
      ensures delivered == old(delivered) + x && (old(InPlace(dst, dstPtr)) ==> InPlace(dst, dstPtr + |x|))
      ensures frame.blockSum && !skipChecksum ==> blockChecksum == old(blockChecksum) + x
    {
      hide BlocksOk, Ends, Shape, BuffersOk, FrameOk, InPlace;
      FrameParameters();
      if !skipChecksum && info.blockSum { blockChecksum := blockChecksum + x; }
      Hand(dst, lo, dstPtr, hi, x, false);
      Settle(dst, lo, dstPtr, hi, x);
    }

    // On to the checksum of an uncompressed block.
    method EnterRawSum(env: Env)
      requires EnvOk(env) && Shape() && FrameOk() && BuffersOk() && BlocksOk(false)
      requires !skipChecksum ==> blockChecksum == raw
      modifies `tmpInSize, `dStage, `spec
      ensures Valid(env) && dStage == GetBlockChecksum && spec == At(Reading(RawSum(frame, raw), 4, []))
    {
      hide EnvOk, FrameOk, BuffersOk, BlocksOk, Valid;
      tmpInSize := 0;
      dStage := GetBlockChecksum;
      spec := At(Reading(RawSum(frame, raw), 4, []));
      assert header[..0] == [];
      CloseBlocks(env);
    }

    // An uncompressed block goes on with the next call.
    method StayRaw(env: Env, left: nat)
      requires EnvOk(env) && Shape() && FrameOk() && BuffersOk() && BlocksOk(false) && dStage == CopyDirect && left > 0
      requires frame.blockSum && !skipChecksum ==> blockChecksum == raw
      modifies `tmpInTarget, `spec
      ensures Valid(env) && spec == At(Raw(frame, raw, left))
    {
      hide EnvOk, Shape, FrameOk, BuffersOk, BlocksOk, Valid;
      tmpInTarget := left;
      spec := At(Raw(frame, raw, left));
      CloseBlocks(env);
    }

    // All of the block passed on, or `left` bytes of it still to come.
    method NextAfterRaw(env: Env, left: nat) returns (flow: Flow)
      requires EnvOk(env) && Shape() && FrameOk() && BuffersOk() && BlocksOk(false) && dStage == CopyDirect
      requires frame.blockSum && !skipChecksum ==> blockChecksum == raw
      requires spec == RawAt(skipChecksum, delivered, frames, torn, frame, raw, left)
      modifies `tmpInTarget, `tmpInSize, `dStage, `spec
      ensures Valid(env) && spec == old(spec)
      ensures if left == 0 then flow.Go? && (dStage == GetBlockHeader || dStage == GetBlockChecksum)
              else flow.Stop? && flow.hint > 0 && dStage == CopyDirect
    {
      hide Valid, Shape, FrameOk, BuffersOk, BlocksOk, EnvOk;
      FrameParameters();
      if left > 0 {
        StayRaw(env, left);
        flow := Stop(left + (if info.blockSum then 4 else 0) + 4);
      } else {
        if info.blockSum { EnterRawSum(env); } else { EnterBlockHead(env); }
        flow := Go;
      }
    }

    lemma OpenRaw(env: Env)
      requires Valid(env) && dStage == CopyDirect
      ensures spec == RawAt(skipChecksum, delivered, frames, torn, frame, raw, tmpInTarget)
      ensures frame.blockSum && !skipChecksum ==> blockChecksum == raw
    {
      hide Shape, FrameOk, BuffersOk, BlocksOk, EnvOk;
    }

    lemma OpenCall(dst: array<byte>, lo: nat, dstPtr: nat, hi: nat)
      requires CallOk(dst, lo, dstPtr, hi) && InBlocks() && dStage != Init
      ensures CallBuffer(dst, lo, dstPtr, hi) && lo <= dstPtr <= hi <= dst.Length
      ensures Ends(dst, lo, dstPtr, dStage == FlushOut)
      ensures dst != header && dst != tmpIn && dst != tmpOutBuffer
    {
    }

    lemma CloseCall(dst: array<byte>, lo: nat, dstPtr: nat, hi: nat)
      requires CallBuffer(dst, lo, dstPtr, hi) && InBlocks() && dStage != Init
      requires Ends(dst, lo, dstPtr, dStage == FlushOut)
      ensures CallOk(dst, lo, dstPtr, hi)
    {
    }

    // Pass on a chunk of the block; the machine follows.
    method PassRaw(env: Env, dst: array<byte>, lo: nat, dstPtr: nat, hi: nat, x: seq<byte>)
      requires Shape() && FrameOk() && BuffersOk() && BlocksOk(false) && CallBuffer(dst, lo, dstPtr, hi)
      requires dstPtr + |x| <= hi && Ends(dst, lo, dstPtr, false) && |x| <= tmpInTarget
      requires spec == RawAt(skipChecksum, delivered, frames, torn, frame, raw, tmpInTarget)
      requires frame.blockSum && !skipChecksum ==> blockChecksum == raw
      modifies dst, tmpOutBuffer, `dict, `dictOff, `dictSize, `xxh, `frameRemainingSize, `frame, `blockChecksum,
               `delivered, `spec, `raw
      ensures Shape() && FrameOk() && BuffersOk() && BlocksOk(false)
      ensures CallBuffer(dst, lo, dstPtr + |x|, hi) && Ends(dst, lo, dstPtr + |x|, false)
      ensures Gave(old(delivered), delivered, old(dst[..]), dst[..], dstPtr, dstPtr + |x|, hi)
      ensures spec == FeedAll(env, old(spec), x) ==
              RawAt(skipChecksum, delivered, frames, torn, frame, raw, tmpInTarget - |x|)
      ensures frame.blockSum && !skipChecksum ==> blockChecksum == raw
      ensures old(InPlace(dst, dstPtr)) ==> InPlace(dst, dstPtr + |x|)
    {
      hide Shape, FrameOk, BuffersOk, BlocksOk, Ends, CallBuffer, FeedAll, RawAt, Gave, InPlace;
      RawFed(env, skipChecksum, delivered, frames, torn, frame, raw, tmpInTarget, x);
      spec := FeedAll(env, spec, x);
      raw := raw + x;
      PassOn(dst, lo, dstPtr, hi, x);
    }

    // dstage_copyDirect
    method CopyDirectStep(env: Env, src: seq<byte>, srcPtr0: nat, dst: array<byte>, lo: nat, dstPtr0: nat, hi: nat)
      returns (flow: Flow, srcPtr: nat, dstPtr: nat)
      requires Valid(env) && dStage == CopyDirect && srcPtr0 <= |src| && CallOk(dst, lo, dstPtr0, hi)
      modifies dst, tmpOutBuffer, `dict, `dictOff, `dictSize, `xxh, `frameRemainingSize, `frame, `blockChecksum,
               `delivered, `tmpInTarget, `tmpInSize, `dStage, `spec, `raw
      ensures flow.Go? || (flow.Stop? && flow.hint > 0)
      ensures Valid(env) && srcPtr0 <= srcPtr <= |src| && spec == FeedAll(env, old(spec), src[srcPtr0..srcPtr])
      ensures CallOk(dst, lo, dstPtr, hi) && dstPtr0 <= dstPtr
      ensures dStage == GetBlockHeader || dStage == GetBlockChecksum || dStage == CopyDirect
      ensures Gave(old(delivered), delivered, old(dst[..]), dst[..], dstPtr0, dstPtr, hi)
      ensures srcPtr0 < |src| && dstPtr0 < hi ==> srcPtr > srcPtr0 || dStage != CopyDirect
      ensures if flow.Go? then dStage == GetBlockHeader || dStage == GetBlockChecksum
              else dStage == CopyDirect && (srcPtr == |src| || dstPtr == hi)
      ensures old(InPlace(dst, dstPtr0)) ==> InPlace(dst, dstPtr)
    {
      hide Valid, Shape, FrameOk, BuffersOk, BlocksOk, Ends, CallBuffer, FeedAll, EnvOk, RawAt, CallOk, StageOk, Gave,
           InPlace;
      OpenBlocks(env);
      OpenRaw(env);
      OpenCall(dst, lo, dstPtr0, hi);
      var sizeToCopy := Smallest(tmpInTarget, |src| - srcPtr0, hi - dstPtr0);
      srcPtr, dstPtr := srcPtr0 + sizeToCopy, dstPtr0 + sizeToCopy;
      PassRaw(env, dst, lo, dstPtr0, hi, src[srcPtr0..srcPtr]);
      flow := NextAfterRaw(env, tmpInTarget - sizeToCopy);
      CloseCall(dst, lo, dstPtr, hi);
    }

    // Facts of the buffers' shape that keep one write from touching another.
    lemma Apart()
      requires Shape()
      ensures header.Length == 19 && header != tmpIn && header != tmpOutBuffer && tmpIn != tmpOutBuffer
      ensures dict != header && dict != tmpIn
    {
    }

    lemma OpenRawSum(env: Env)
      requires Valid(env) && dStage == GetBlockChecksum
      ensures tmpInSize < 4 <= header.Length && spec == At(Reading(RawSum(frame, raw), 4, header[..tmpInSize]))
      ensures !skipChecksum ==> blockChecksum == raw
    {
      hide FrameOk, BuffersOk, BlocksOk, EnvOk;
    }

    // More of the checksum field is stored.
    method StayRawSum(env: Env)
      requires EnvOk(env) && Shape() && FrameOk() && BuffersOk() && BlocksOk(false) && dStage == GetBlockChecksum
      requires tmpInSize < 4 <= header.Length && (!skipChecksum ==> blockChecksum == raw)
      modifies `spec
      ensures Valid(env) && spec == At(Reading(RawSum(frame, raw), 4, header[..tmpInSize]))
    {
      hide EnvOk, Shape, FrameOk, BuffersOk, BlocksOk, Valid;
      spec := At(Reading(RawSum(frame, raw), 4, header[..tmpInSize]));
      CloseBlocks(env);
    }

    // dstage_getBlockChecksum
    method BlockChecksumStep(env: Env, src: seq<byte>, srcPtr0: nat) returns (flow: Flow, srcPtr: nat)
      requires Valid(env) && dStage == GetBlockChecksum && srcPtr0 <= |src|
      modifies header, `tmpInSize, `dStage, `spec
      ensures !flow.Err? ==>
                && Valid(env) && srcPtr0 <= srcPtr <= |src| && spec == FeedAll(env, old(spec), src[srcPtr0..srcPtr])
                && (dStage == GetBlockHeader || dStage == GetBlockChecksum)
                && (srcPtr0 < |src| ==> srcPtr > srcPtr0) && (flow.Go? ==> srcPtr > srcPtr0)
                && (flow.Stop? ==> flow.hint > 0 && srcPtr == |src|)
      ensures flow.Err? ==> Fails(env, old(spec), src[srcPtr0..], old(frames), flow.error)
    {
      hide Valid, Shape, FrameOk, BuffersOk, BlocksOk, FeedAll, EnvOk, StageOk, LE32;
      OpenBlocks(env);
      OpenRawSum(env);
      Apart();
      ghost var got := header[..tmpInSize];
      var crc;
      if |src| - srcPtr0 >= 4 && tmpInSize == 0 {
        srcPtr := srcPtr0 + 4;
        crc := LE32(src[srcPtr0..srcPtr]);
        assert got + src[srcPtr0..srcPtr] == src[srcPtr0..srcPtr];
        RawSumFed(env, spec, frame, raw, got, src[srcPtr0..srcPtr]);
      } else {
        srcPtr := Collect(header, 4, src, srcPtr0);
        RawSumFed(env, spec, frame, raw, got, src[srcPtr0..srcPtr]);
        if tmpInSize < 4 {
          StayRawSum(env);
          return Stop(1), srcPtr;
        }
        crc := LE32(header[..4]);
      }
      if !skipChecksum && crc != env.xxh(blockChecksum) {
        RefusedHere(env, old(spec), src, srcPtr0, srcPtr, old(frames), BlockChecksumInvalid);
        return Err(BlockChecksumInvalid), srcPtr;
      }
      EnterBlockHead(env);
      flow := Go;
    }

    // -------------------------------------------------------------------
    // Compressed blocks
    // -------------------------------------------------------------------

    // The dictionary as the block decoder is given it: cut to its last 64 KB
    // if its size would not fit an int.
    function DictText(): seq<byte>
      requires dict != null ==> dictOff + dictSize <= dict.Length
      reads this, dict
    {
      if dict == null then []
      else if dictSize > 0x4000_0000 then dict[dictOff + dictSize - KB64..dictOff + dictSize]
      else dict[dictOff..dictOff + dictSize]
    }

    // Where it lies as seen from a destination.
    function LayoutFor(to: array<byte>, at: nat): Layout
      reads `dict, `dictOff, `dictSize
    {
      if dict == to && dictOff + dictSize == at then Layout.Behind else Layout.Apart
    }

    // LZ4_decompress_safe_usingDict on a block: it may write anywhere in the
    // room it is given, but the text decoded stands at the front.
    method DecodeUsingDict(data: seq<byte>, to: array<byte>, at: nat, cap: nat) returns (ok: bool, n: nat)
      requires at + cap <= to.Length
      requires if dict == null then dictSize == 0 else dictOff + dictSize <= dict.Length
      requires dict == to ==> dictOff + dictSize <= at || at + cap <= dictOff
      modifies to
      ensures to[..at] == old(to[..at]) && to[at + cap..] == old(to[at + cap..])
      ensures var x := DecodeBlock(LayoutFor(to, at), data, old(DictText()), cap);
              && ok == x.Some? && (ok ==> n == |x.value| <= cap && to[at..at + n] == x.value)
    {
      hide DecodeBlock;
      var off, size := dictOff, dictSize;
      if dict != null && dictSize > 0x4000_0000 { off, size := dictOff + dictSize - KB64, KB64; }
      assert DictText() == Decoder.DictText(dict, off, size);
      var result := Decoder.DecompressSafeUsingDict(data, to, at, cap, dict, off, size);
      ok, n := result >= 0, if result >= 0 then result else 0;
    }

    // It shows the decoder the history the format asks for.
    lemma HistoryAtHand()
      requires FrameOk() && BlocksOk(false)
      ensures dict != null ==> dictOff + dictSize <= dict.Length
      ensures Window(DictText()) == frame.History()
    {
      hide IsBlockSize, Window;
      if dict == null {
        assert frame.linked ==> frame.content == [];
        EmptyWindow();
      } else {
        var r := dict[dictOff..dictOff + dictSize];
        if dictSize > 0x4000_0000 {
          assert dict[dictOff + dictSize - KB64..dictOff + dictSize] == r[|r| - KB64..];
          WindowTrim(r, KB64, []);
          assert r[|r| - KB64..] + [] == r[|r| - KB64..] && r + [] == r;
        }
      }
    }

    // Decode where the caller's buffer has room for any block.
    method DecodeDirect(env: Env, data: seq<byte>, dst: array<byte>, lo: nat, dstPtr0: nat, hi: nat)
      returns (ok: bool, dstPtr: nat)
      requires EnvOk(env) && Shape() && FrameOk() && BuffersOk() && BlocksOk(false) && CallBuffer(dst, lo, dstPtr0, hi)
      requires dstPtr0 + maxBlockSize <= hi && Ends(dst, lo, dstPtr0, false)
      modifies dst, tmpOutBuffer, `dict, `dictOff, `dictSize, `xxh, `frameRemainingSize, `frame, `delivered, `dStage,
               `spec, `torn
      ensures var x := DecodeBlock(old(LayoutFor(dst, dstPtr0)), data, old(frame).History(), old(frame).maxBlock);
              && ok == x.Some?
              && (ok ==>
                    && torn == old(torn) + Tears(data, old(frame))
                    && Valid(env) && dStage == GetBlockHeader && frame == old(frame).Take(x.value)
                    && (old(InPlace(dst, dstPtr0)) ==> InPlace(dst, dstPtr))
                    && CallBuffer(dst, lo, dstPtr, hi) && Ends(dst, lo, dstPtr, false)
                    && delivered == old(delivered) + x.value && spec == At(Reading(BlockHead(frame), 4, []))
                    && Gave(old(delivered), delivered, old(dst[..]), dst[..], dstPtr0, dstPtr, hi))
    {
      hide Valid, Shape, FrameOk, BuffersOk, BlocksOk, Ends, Window, EnvOk, Gave, DecodeBlock, Tears, InPlace;
      FrameParameters();
      HistoryAtHand();
      Apart();
      ghost var x := DecodeBlock(LayoutFor(dst, dstPtr0), data, frame.History(), maxBlockSize);
      ghost var was := dst[..];
      var n;
      dstPtr := dstPtr0;
      ok, n := DecodeToCaller(data, dst, lo, dstPtr0, hi);
      if !ok { return; }
      torn := torn + Tears(data, frame);
      dstPtr := dstPtr0 + n;
      Settle(dst, lo, dstPtr0, hi, dst[dstPtr0..dstPtr]);
      EnterBlockHead(env);
      Given1(old(delivered), x.value, was, dst[..], dstPtr0, dstPtr, hi);
    }

    // The block decoder at work in the caller's buffer; the dictionary and the
    // end of the history stay.
    method DecodeToCaller(data: seq<byte>, dst: array<byte>, lo: nat, at: nat, hi: nat) returns (ok: bool, n: nat)
      requires FrameOk() && BlocksOk(false) && CallBuffer(dst, lo, at, hi) && Ends(dst, lo, at, false)
      requires at + maxBlockSize <= hi && (dict != null ==> dictOff + dictSize <= dict.Length)
      requires Window(DictText()) == frame.History()
      modifies dst
      ensures BlocksOk(false) && Ends(dst, lo, at, false)
      ensures dst[..at] == old(dst[..at]) && dst[hi..] == old(dst[hi..])
      ensures var x := DecodeBlock(LayoutFor(dst, at), data, frame.History(), maxBlockSize);
              && ok == x.Some? && (ok ==> n == |x.value| <= maxBlockSize && dst[at..at + n] == x.value)
    {
      hide Window, RoomFor, FrameOk, IsSuffix, DecodeBlock;
      ghost var was := dst[..];
      NullIsEmpty();
      WindowDecides(LayoutFor(dst, at), data, DictText(), maxBlockSize);
      ok, n := DecodeUsingDict(data, dst, at, maxBlockSize);
      TailKept(dst[..], was, at + maxBlockSize, hi);
      assert dst[lo..at] == dst[..at][lo..] && was[lo..at] == was[..at][lo..];
      if dict == dst { SliceKept(dst[..], was, dictOff, dictSize, at, hi); }
    }

    // Room for the block behind the dictionary, or behind room for it.
    ghost predicate TmpPlaced()
      reads `frame, `tmpOut, `tmpOutBuffer, `dict, `dictSize
    {
      && tmpOut <= 2 * KB64
      && (if frame.linked then
            && (if |frame.content| < KB64 then tmpOut == |frame.content| else tmpOut >= KB64)
            && (dict == tmpOutBuffer ==> tmpOut == dictSize)
          else tmpOut == 0)
    }

    method PlaceTmpOut()
      requires Shape() && FrameOk() && BuffersOk() && BlocksOk(false)
      modifies tmpOutBuffer, `dictSize, `tmpOut
      ensures BlocksOk(false) && TmpPlaced() && (dict == tmpOutBuffer || dictSize == old(dictSize))
    {
      hide IsBlockSize, Window, Shape;
      FrameParameters();
      if info.linked {
        NoDict(false, frame.content);
        if dict == tmpOutBuffer {
          if dictSize > 2 * KB64 { KeepWindow(); }
          tmpOut := dictSize;
        } else {
          tmpOut := if dictSize < KB64 then dictSize else KB64;
        }
        PlacedSize();
      }
    }

    // Cut the dictionary in tmpOutBuffer to its last 64 KB.
    method KeepWindow()
      requires dict == tmpOutBuffer && dictSize > 2 * KB64 && DictShows(frame.content)
      modifies tmpOutBuffer, `dictSize
      ensures DictShows(frame.content) && dictSize == KB64
    {
      hide Window;
      ghost var r := tmpOutBuffer[0..dictSize];
      MemCpy(tmpOutBuffer, 0, tmpOutBuffer, dictSize - KB64, KB64);
      dictSize := KB64;
      assert tmpOutBuffer[0..dictSize] == r[|r| - KB64..];
      WindowTrim(r, KB64, []);
      assert r[|r| - KB64..] + [] == r[|r| - KB64..] && r + [] == r;
    }

    lemma PlacedSize()
      requires DictShows(frame.content)
      ensures if |frame.content| < KB64 then dictSize == |frame.content| else dictSize >= KB64
    {
      if dict != null { assert |dict[dictOff..dictOff + dictSize]| == dictSize; }
    }

    // Decode into tmpOutBuffer; the block waits there to be flushed.
    method DecodeIntoTmp(env: Env, data: seq<byte>) returns (ok: bool)
      requires EnvOk(env) && Shape() && FrameOk() && BuffersOk() && BlocksOk(false)
      modifies tmpOutBuffer, `dictSize, `tmpOut, `tmpOutSize, `tmpOutStart, `xxh, `frameRemainingSize, `frame, `dStage,
               `spec, `torn
      ensures dict == tmpOutBuffer || dictSize == old(dictSize)
      ensures var x := DecodeBlock(TmpLayout(), data, old(frame).History(), old(frame).maxBlock);
              && ok == x.Some?
              && (ok ==>
                    && torn == old(torn) + Tears(data, old(frame))
                    && Valid(env) && dStage == FlushOut && frame == old(frame).Take(x.value)
                    && tmpOutStart == 0 && tmpOutSize == |x.value|
                    && spec ==
                       Machine(skipChecksum, delivered + x.value, frames, torn, Reading(BlockHead(frame), 4, [])))
    {
      hide Valid, Shape, FrameOk, BuffersOk, BlocksOk, TmpPlaced, EnvOk, Window, StageOk, HistoryOk, DecodeBlock, Tears,
           Frame.History, Frame.Take;
      FrameParameters();
      ghost var x := DecodeBlock(TmpLayout(), data, frame.History(), maxBlockSize);
      ok := DecodePlaced(data);
      if ok { AcceptTmp(env, data, x.value); }
    }

    // The block in tmpOut counts as read.
    method AcceptTmp(env: Env, ghost data: seq<byte>, ghost x: seq<byte>)
      requires EnvOk(env) && Shape() && FrameOk() && BuffersOk() && tmpOutStart == 0 && tmpOutSize == |x|
      requires tmpOut + tmpOutSize <= tmpOutBuffer.Length && tmpOutBuffer[tmpOut..tmpOut + tmpOutSize] == x
      requires if frame.linked then HistoryOk(true, frame.content + x, 0) else NoHistory() && tmpOut == 0
      modifies `xxh, `frameRemainingSize, `frame, `dStage, `spec, `torn
      ensures torn == old(torn) + Tears(data, old(frame))
      ensures Valid(env) && dStage == FlushOut && frame == old(frame).Take(x)
      ensures spec == Machine(skipChecksum, delivered + x, frames, torn, Reading(BlockHead(frame), 4, []))
    {
      hide Valid, Shape, FrameOk, BuffersOk, EnvOk, StageOk, HistoryOk, Tears, Frame.History, Frame.Take;
      torn := torn + Tears(data, frame);
      TakeAdds(frame, x);
      Account(tmpOutBuffer[tmpOut..tmpOut + tmpOutSize]);
      EnterFlush(env, x);
    }

    // Find the place for the block and decode it there.
    method DecodePlaced(data: seq<byte>) returns (ok: bool)
      requires Shape() && FrameOk() && BuffersOk() && BlocksOk(false)
      modifies tmpOutBuffer, `dictSize, `tmpOut, `tmpOutSize, `tmpOutStart
      ensures dict == tmpOutBuffer || dictSize == old(dictSize)
      ensures var x := DecodeBlock(TmpLayout(), data, frame.History(), maxBlockSize);
              && ok == x.Some?
              && (ok ==>
                    && tmpOutSize == |x.value| && tmpOutStart == 0 && tmpOut + tmpOutSize <= tmpOutBuffer.Length
                    && tmpOutBuffer[tmpOut..tmpOut + tmpOutSize] == x.value
                    && (if frame.linked then HistoryOk(true, frame.content + x.value, 0)
                        else NoHistory() && tmpOut == 0))
    {
      hide Shape, FrameOk, BuffersOk, BlocksOk, TmpPlaced, Window, HistoryOk, DecodeBlock, Frame.History;
      PrepareTmp();
      ok := DecodeBehind(data);
    }

    // A block in tmpOutBuffer is placed behind a dictionary that lies there.
    function TmpLayout(): Layout
      reads `dict, `tmpOutBuffer
    {
      if dict == tmpOutBuffer then Layout.Behind else Layout.Apart
    }

    // The place for the block, with the history to decode it.
    method PrepareTmp()
      requires Shape() && FrameOk() && BuffersOk() && BlocksOk(false)
      modifies tmpOutBuffer, `dictSize, `tmpOut
      ensures BlocksOk(false) && TmpPlaced() && (dict == tmpOutBuffer || dictSize == old(dictSize))
      ensures tmpOut + maxBlockSize <= tmpOutBuffer.Length && (dict != null ==> dictOff + dictSize <= dict.Length)
      ensures Window(DictText()) == frame.History()
    {
      hide Shape, FrameOk, BuffersOk, BlocksOk, TmpPlaced, Window;
      PlaceTmpOut();
      RoomInTmp();
      HistoryAtHand();
    }

    lemma RoomInTmp()
      requires Shape() && FrameOk() && BuffersOk() && TmpPlaced()
      ensures tmpOut + maxBlockSize <= tmpOutBuffer.Length
    {
      hide IsBlockSize;
    }

    // The decoded block stands at tmpOut, behind its window or room for it.
    method DecodeBehind(data: seq<byte>) returns (ok: bool)
      requires BlocksOk(false) && TmpPlaced() && (dict != null ==> dictOff + dictSize <= dict.Length)
      requires Window(DictText()) == frame.History()
      requires tmpOut + maxBlockSize <= tmpOutBuffer.Length
      modifies tmpOutBuffer, `tmpOutSize, `tmpOutStart
      ensures var x := DecodeBlock(TmpLayout(), data, frame.History(), maxBlockSize);
              && ok == x.Some?
              && (ok ==>
                    && tmpOutSize == |x.value| && tmpOutStart == 0 && tmpOut + tmpOutSize <= tmpOutBuffer.Length
                    && tmpOutBuffer[tmpOut..tmpOut + tmpOutSize] == x.value
                    && (if frame.linked then HistoryOk(true, frame.content + x.value, 0)
                        else NoHistory() && tmpOut == 0))
    {
      hide Window, RoomFor, FlushOk, DecodeBlock;
      ghost var was := tmpOutBuffer[..];
      NullIsEmpty();
      DictInTmp();
      WindowDecides(TmpLayout(), data, DictText(), maxBlockSize);
      var n;
      ok, n := DecodeUsingDict(data, tmpOutBuffer, tmpOut, maxBlockSize);
      if !ok { return; }
      tmpOutSize, tmpOutStart := n, 0;
      if frame.linked { DecodedBehind(was, tmpOutBuffer[tmpOut..tmpOut + n]); }
    }

    lemma NullIsEmpty()
      requires BlocksOk(false)
      ensures dict == null ==> dictSize == 0
    {
    }

    lemma DictInTmp()
      requires BlocksOk(false) && TmpPlaced()
      ensures dict == tmpOutBuffer ==> dictOff + dictSize == tmpOut
      ensures LayoutFor(tmpOutBuffer, tmpOut) == TmpLayout()
    {
    }

    lemma DecodedBehind(was: seq<byte>, x: seq<byte>)
      requires frame.linked && TmpPlaced() && tmpOutSize == |x| && tmpOut + |x| <= tmpOutBuffer.Length
      requires tmpOutBuffer[tmpOut..tmpOut + |x|] == x && |was| == tmpOutBuffer.Length
      requires tmpOutBuffer[..tmpOut] == was[..tmpOut]
      requires if dict == tmpOutBuffer then
               dictOff == 0 && dictSize <= |was| && Window(was[0..dictSize]) == Window(frame.content)
               else DictShows(frame.content)
      ensures FlushOk(frame.content + x, 0)
    {
      hide Window, RoomFor;
      var h := frame.content + x;
      assert h[|h| - |x|..] == x && h[..|h| - |x| + 0] == frame.content;
      RoomReady(frame.content, x, tmpOut);
      if dict == tmpOutBuffer {
        assert tmpOutBuffer[..tmpOut + |x|] == tmpOutBuffer[..tmpOut] + x;
        assert was[0..dictSize] == was[..tmpOut];
        WindowExtend(tmpOutBuffer[..tmpOut], frame.content, x);
      }
    }

    // On to flushing tmpOut.
    method EnterFlush(env: Env, ghost x: seq<byte>)
      requires EnvOk(env) && Shape() && FrameOk() && BuffersOk()
      requires tmpOutStart == 0 && tmpOutSize == |x| && tmpOut + |x| <= tmpOutBuffer.Length
      requires tmpOutBuffer[tmpOut..tmpOut + |x|] == x
      requires if frame.linked then HistoryOk(true, frame.content, 0) else NoHistory() && tmpOut == 0
      modifies `dStage, `spec
      ensures Valid(env) && dStage == FlushOut
      ensures spec == Machine(skipChecksum, delivered + x, frames, torn, Reading(BlockHead(frame), 4, []))
    {
      hide EnvOk, FrameOk, BuffersOk, Valid, HistoryOk, StageOk;
      spec := Machine(skipChecksum, delivered + x, frames, torn, Reading(BlockHead(frame), 4, []));
      dStage := FlushOut;
      AtFlushStage(env);
      CloseBlocks(env);
    }

    // Is there room for any block, and no dictionary directly in front of
    // tmpOut?
    predicate Direct(dstPtr: nat, hi: nat)
      reads `maxBlockSize, `dict, `dictSize, `tmpOut, `tmpOutBuffer
    {
      hi - dstPtr >= maxBlockSize && !(dict != null && dict == tmpOutBuffer && dictSize == tmpOut)
    }

    // Where the next block is going to be decoded, as seen from its history.
    ghost function LayoutNow(dst: array<byte>, dstPtr: nat, hi: nat): Layout
      reads `maxBlockSize, `dict, `dictOff, `dictSize, `tmpOut, `tmpOutBuffer
    {
      if Direct(dstPtr, hi) then LayoutFor(dst, dstPtr) else TmpLayout()
    }

    // With the dictionary in place a torn block is decoded behind its history
    // exactly if there is room for any block.
    lemma LayoutInPlace(dst: array<byte>, dstPtr: nat, hi: nat, data: seq<byte>)
      requires FrameOk() && BlocksOk(false) && InPlace(dst, dstPtr) && dst != tmpOutBuffer
      requires Torn(data, frame.History(), frame.maxBlock)
      ensures LayoutNow(dst, dstPtr, hi) == Layout.Apart <==> dstPtr + frame.maxBlock > hi
    {
      hide Torn, IsBlockSize;
      if dict == null {
        EmptyWindow();
        assert frame.History() == [];
        NoHistoryNotTorn(data, frame.maxBlock);
      }
    }

    // Decode a block where there is room for it.
    method DecodeHere(env: Env, data: seq<byte>, dst: array<byte>, lo: nat, dstPtr0: nat, hi: nat)
      returns (ok: bool, dstPtr: nat)
      requires EnvOk(env) && Shape() && FrameOk() && BuffersOk() && BlocksOk(false) && CallBuffer(dst, lo, dstPtr0, hi)
      requires Ends(dst, lo, dstPtr0, false)
      modifies dst, tmpOutBuffer, `dict, `dictOff, `dictSize, `tmpOut, `tmpOutSize, `tmpOutStart, `xxh,
               `frameRemainingSize, `frame, `delivered, `dStage, `spec, `torn
      ensures var x := DecodeBlock(old(LayoutNow(dst, dstPtr0, hi)), data, old(frame).History(), old(frame).maxBlock);
              && ok == x.Some?
              && (ok ==>
                    && Valid(env) && CallOk(dst, lo, dstPtr, hi) && (dStage == GetBlockHeader || dStage == FlushOut)
                    && frame == old(frame).Take(x.value) && torn == old(torn) + Tears(data, old(frame))
                    && spec == Machine(skipChecksum, old(delivered) + x.value, frames, torn,
                                       Reading(BlockHead(frame), 4, []))
                    && Gave(old(delivered), delivered, old(dst[..]), dst[..], dstPtr0, dstPtr, hi)
                    && (old(InPlace(dst, dstPtr0)) ==> InPlace(dst, dstPtr)))
    {
      hide Valid, Shape, FrameOk, BuffersOk, BlocksOk, Ends, EnvOk, Gave, StageOk, CallOk, IsSuffix, DecodeBlock, Tears,
           Frame.History, Frame.Take, LayoutFor, TmpLayout;
      FrameParameters();
      dstPtr := dstPtr0;
      ghost var f := frame;
      if Direct(dstPtr, hi) {
        ok, dstPtr := DecodeDirect(env, data, dst, lo, dstPtr, hi);
      } else {
        OpenEnds(dst, lo, dstPtr);
        ghost var x := DecodeBlock(TmpLayout(), data, f.History(), f.maxBlock);
        ok := DecodeIntoTmp(env, data);
        GaveNothing(delivered, dst[..], dstPtr, hi);
        if ok { EndsBefore(dst, lo, dstPtr, hi, f, x.value); }
      }
      if ok { CloseCall(dst, lo, dstPtr, hi); }
    }

    // A block is complete: check it, then decode it.
    method DecodeSelected(env: Env, s: seq<byte>, dst: array<byte>, lo: nat, dstPtr0: nat, hi: nat)
      returns (flow: Flow, dstPtr: nat)
      requires EnvOk(env) && Shape() && FrameOk() && BuffersOk() && BlocksOk(false) && CallBuffer(dst, lo, dstPtr0, hi)
      requires |s| >= frame.SumSize() && Ends(dst, lo, dstPtr0, false)
      modifies dst, tmpOutBuffer, `dict, `dictOff, `dictSize, `tmpOut, `tmpOutSize, `tmpOutStart, `xxh,
               `frameRemainingSize, `frame, `delivered, `dStage, `spec, `torn, `apart
      ensures flow.Go? ==>
                && Valid(env) && CallOk(dst, lo, dstPtr, hi) && (dStage == GetBlockHeader || dStage == FlushOut)
                && spec == BlockDone(env, old(At(Skip(0))), old(frame), s)
                && Gave(old(delivered), delivered, old(dst[..]), dst[..], dstPtr0, dstPtr, hi)
                && (old(InPlace(dst, dstPtr0)) ==> InPlace(dst, dstPtr))
      // failure is the format's, or that of a torn block apart from its history
      ensures var m := BlockDone(env, old(At(Skip(0))), old(frame), s);
              && (flow.Err? && !apart ==> m.stage == Failed(flow.error))
              && (apart ==> flow == Err(DecompressionFailed))
              && (apart <==> m.torn > old(torn) && old(LayoutNow(dst, dstPtr0, hi)) == Layout.Apart)
      ensures !flow.Stop?
    {
      hide Valid, Shape, FrameOk, BuffersOk, BlocksOk, Ends, EnvOk, Gave, LE32, CallOk, CallBuffer, DecodeBlock, Torn,
           Frame.History, Frame.Take, InPlace, LayoutNow;
      FrameParameters();
      NoneApart();
      ghost var f, layout := frame, LayoutNow(dst, dstPtr0, hi);
      var n := |s| - if info.blockSum then 4 else 0;
      if info.blockSum && LE32(s[n..]) != env.xxh(s[..n]) { return Err(BlockChecksumInvalid), dstPtr0; }
      LayoutsDiffer(s[..n], f.History(), f.maxBlock);
      AnyLayout(layout, s[..n], f.History(), f.maxBlock);
      var ok;
      ok, dstPtr := DecodeHere(env, s[..n], dst, lo, dstPtr0, hi);
      apart := !ok && Torn(s[..n], f.History(), f.maxBlock);
      flow := if ok then Go else Err(DecompressionFailed);
    }

    // The block s ends with src[p..q]: what decoding it says about the machine
    // that reads these bytes.
    method DecodeAll(env: Env, ghost got: seq<byte>, ghost src: seq<byte>, ghost p: nat, ghost q: nat, s: seq<byte>,
                     dst: array<byte>, lo: nat, dstPtr0: nat, hi: nat)
      returns (flow: Flow, dstPtr: nat)
      requires EnvOk(env) && Shape() && FrameOk() && BuffersOk() && BlocksOk(false) && CallBuffer(dst, lo, dstPtr0, hi)
      requires Ends(dst, lo, dstPtr0, false) && p < q <= |src| && s == got + src[p..q] && |got| < |s|
      requires |s| > frame.SumSize() && spec == At(Reading(Block(frame), |s|, got))
      modifies dst, tmpOutBuffer, `dict, `dictOff, `dictSize, `tmpOut, `tmpOutSize, `tmpOutStart, `xxh,
               `frameRemainingSize, `frame, `delivered, `dStage, `spec, `torn, `apart
      ensures flow.Go? ==>
                && Valid(env) && CallOk(dst, lo, dstPtr, hi) && (dStage == GetBlockHeader || dStage == FlushOut)
                && spec == FeedAll(env, old(spec), src[p..q])
                && Gave(old(delivered), delivered, old(dst[..]), dst[..], dstPtr0, dstPtr, hi)
                && (spec.torn > old(spec).torn ==> old(LayoutNow(dst, dstPtr0, hi)) == Layout.Behind)
                && Roomy(env, old(spec), src[p..q], old(Room(dst, dstPtr0, hi)))
                && (old(InPlace(dst, dstPtr0)) ==> InPlace(dst, dstPtr))
      ensures flow.Err? ==>
                if apart then
                  && flow.error == DecompressionFailed && old(LayoutNow(dst, dstPtr0, hi)) == Layout.Apart
                  && Tore(env, old(spec), src[p..], old(frames), old(Room(dst, dstPtr0, hi)))
                else Fails(env, old(spec), src[p..], old(frames), flow.error)
      ensures !flow.Stop?
    {
      hide Valid, Shape, FrameOk, BuffersOk, BlocksOk, Ends, EnvOk, Gave, CallOk, FeedAll, BlockDone, InPlace,
           LayoutNow;
      ghost var m, f, room := spec, frame, Room(dst, dstPtr0, hi);
      BlockFed(env, m, f, got, src[p..q]);
      OutcomeInPlace(env, m, s, dst, lo, dstPtr0, hi);
      flow, dstPtr := DecodeSelected(env, s, dst, lo, dstPtr0, hi);
      if flow.Go? {
        BlockRoomy(env, m, f, got, src[p..q], room);
      } else if apart {
        BlockTore(env, m, f, got, src, p, q, m.frames, room);
      } else {
        RefusedHere(env, m, src, p, q, m.frames, flow.error);
      }
    }

    // With the dictionary in place, room decides about a torn block.
    lemma OutcomeInPlace(env: Env, m: Machine, s: seq<byte>, dst: array<byte>, lo: nat, dstPtr: nat, hi: nat)
      requires FrameOk() && BlocksOk(false) && CallBuffer(dst, lo, dstPtr, hi) && |s| >= frame.SumSize()
      requires m.out == delivered
      ensures BlockDone(env, At(Skip(0)), frame, s).torn > torn && Room(dst, dstPtr, hi).Some? ==>
                (LayoutNow(dst, dstPtr, hi) == Layout.Apart <==>
                 |m.out| + frame.maxBlock > Room(dst, dstPtr, hi).value)
      ensures BlockDone(env, At(Skip(0)), frame, s).frames == frames
    {
      hide FrameOk, BlocksOk, LayoutNow, Torn, DecodeBlock, LE32, Frame.History, Frame.Take;
      var data := s[..|s| - frame.SumSize()];
      if Torn(data, frame.History(), frame.maxBlock) && InPlace(dst, dstPtr) {
        LayoutInPlace(dst, dstPtr, hi, data);
      }
    }

    lemma NoneApart()
      requires Shape()
      ensures !apart
    {
    }

    lemma OpenEnds(dst: array<byte>, lo: nat, dstPtr: nat)
      requires lo <= dstPtr <= dst.Length && Ends(dst, lo, dstPtr, false)
      ensures frame.linked ==> IsSuffix(dst[lo..dstPtr], frame.content)
    {
    }

    // The block that waits in tmpOut is not with the caller yet.
    lemma EndsBefore(dst: array<byte>, lo: nat, dstPtr: nat, hi: nat, f: Frame, x: seq<byte>)
      requires lo <= dstPtr <= dst.Length && frame == f.Take(x) && tmpOutStart == 0 && tmpOutSize == |x|
      requires f.linked ==> IsSuffix(dst[lo..dstPtr], f.content)
      ensures Ends(dst, lo, dstPtr, true)
    {
      hide IsSuffix;
      assert (f.content + x)[..|f.content + x| - |x| + 0] == f.content;
    }

    // The block goes on being stored.
    method StayStoring(env: Env)
      requires EnvOk(env) && Shape() && FrameOk() && BuffersOk() && BlocksOk(false)
      requires BlockSizeOk() && tmpInSize < tmpInTarget <= tmpIn.Length
      modifies `dStage, `spec
      ensures Valid(env) && dStage == StoreCBlock && spec == At(Reading(Block(frame), tmpInTarget, tmpIn[..tmpInSize]))
    {
      hide EnvOk, Shape, FrameOk, BuffersOk, BlocksOk, Valid, BlockSizeOk;
      spec := At(Reading(Block(frame), tmpInTarget, tmpIn[..tmpInSize]));
      dStage := StoreCBlock;
      CloseBlocks(env);
    }

    lemma OpenBlock(env: Env)
      requires Valid(env) && (dStage == GetCBlock || dStage == StoreCBlock)
      ensures BlockSizeOk() && frame.SumSize() < tmpInTarget <= tmpIn.Length
      ensures dStage == GetCBlock ==> spec == At(Reading(Block(frame), tmpInTarget, []))
      ensures dStage == StoreCBlock ==>
                tmpInSize < tmpInTarget && spec == At(Reading(Block(frame), tmpInTarget, tmpIn[..tmpInSize]))
    {
      hide Shape, BlocksOk, EnvOk, IsBlockSize;
    }

    // dstage_getCBlock
    method GetCBlockStep(env: Env, src: seq<byte>, srcPtr0: nat, dst: array<byte>, lo: nat, dstPtr0: nat, hi: nat)
      returns (flow: Flow, srcPtr: nat, dstPtr: nat)
      requires Valid(env) && dStage == GetCBlock && srcPtr0 <= |src| && CallOk(dst, lo, dstPtr0, hi)
      modifies dst, tmpOutBuffer, `dict, `dictOff, `dictSize, `tmpOut, `tmpOutSize, `tmpOutStart, `tmpInSize, `xxh,
               `frameRemainingSize, `frame, `delivered, `dStage, `spec, `torn, `apart
      ensures flow.Go? ==>
                && Valid(env) && CallOk(dst, lo, dstPtr, hi) && srcPtr0 <= srcPtr <= |src|
                && spec == FeedAll(env, old(spec), src[srcPtr0..srcPtr])
                && Gave(old(delivered), delivered, old(dst[..]), dst[..], dstPtr0, dstPtr, hi)
                && (dStage == StoreCBlock || (srcPtr > srcPtr0 && (dStage == GetBlockHeader || dStage == FlushOut)))
                && (spec.torn > old(spec).torn ==> old(LayoutNow(dst, dstPtr0, hi)) == Layout.Behind)
                && Roomy(env, old(spec), src[srcPtr0..srcPtr], old(Room(dst, dstPtr0, hi)))
                && (old(InPlace(dst, dstPtr0)) ==> InPlace(dst, dstPtr))
      ensures flow.Err? ==>
                if apart then
                  && flow.error == DecompressionFailed && old(LayoutNow(dst, dstPtr0, hi)) == Layout.Apart
                  && Tore(env, old(spec), src[srcPtr0..], old(frames), old(Room(dst, dstPtr0, hi)))
                else Fails(env, old(spec), src[srcPtr0..], old(frames), flow.error)
      ensures !flow.Stop?
    {
      hide Valid, Shape, FrameOk, BuffersOk, BlocksOk, Ends, EnvOk, Gave, StageOk, CallOk, BlockSizeOk, FeedAll,
           BlockDone, CallBuffer, InPlace, LayoutNow;
      OpenBlocks(env);
      OpenBlock(env);
      OpenCall(dst, lo, dstPtr0, hi);
      srcPtr, dstPtr := srcPtr0, dstPtr0;
      if |src| - srcPtr0 < tmpInTarget {
        tmpInSize := 0;
        assert tmpIn[..0] == [];
        StayStoring(env);
        NothingFed(env, spec, src, srcPtr);
        QuietIsRoomy(env, spec, src[srcPtr..srcPtr], Room(dst, dstPtr, hi));
        GaveNothing(delivered, dst[..], dstPtr, hi);
        CloseCall(dst, lo, dstPtr, hi);
        return Go, srcPtr, dstPtr;
      }
      srcPtr := srcPtr0 + tmpInTarget;
      assert [] + src[srcPtr0..srcPtr] == src[srcPtr0..srcPtr];
      flow, dstPtr := DecodeAll(env, [], src, srcPtr0, srcPtr, src[srcPtr0..srcPtr], dst, lo, dstPtr0, hi);
    }

    // dstage_storeCBlock
    method StoreCBlockStep(env: Env, src: seq<byte>, srcPtr0: nat, dst: array<byte>, lo: nat, dstPtr0: nat, hi: nat)
      returns (flow: Flow, srcPtr: nat, dstPtr: nat)
      requires Valid(env) && dStage == StoreCBlock && srcPtr0 <= |src| && CallOk(dst, lo, dstPtr0, hi)
      modifies dst, tmpIn, tmpOutBuffer, `dict, `dictOff, `dictSize, `tmpOut, `tmpOutSize, `tmpOutStart, `tmpInSize,
               `xxh, `frameRemainingSize, `frame, `delivered, `dStage, `spec, `torn, `apart
      ensures !flow.Err? ==>
                && Valid(env) && CallOk(dst, lo, dstPtr, hi) && srcPtr0 <= srcPtr <= |src|
                && spec == FeedAll(env, old(spec), src[srcPtr0..srcPtr])
                && Gave(old(delivered), delivered, old(dst[..]), dst[..], dstPtr0, dstPtr, hi)
                && (dStage == StoreCBlock || dStage == GetBlockHeader || dStage == FlushOut)
                && (srcPtr0 < |src| ==> srcPtr > srcPtr0) && (flow.Go? ==> srcPtr > srcPtr0)
                && (flow.Stop? ==> flow.hint > 0 && srcPtr == |src|)
                && (spec.torn > old(spec).torn ==> old(LayoutNow(dst, dstPtr0, hi)) == Layout.Behind)
                && Roomy(env, old(spec), src[srcPtr0..srcPtr], old(Room(dst, dstPtr0, hi)))
                && (old(InPlace(dst, dstPtr0)) ==> InPlace(dst, dstPtr))
      ensures flow.Err? ==>
                if apart then
                  && flow.error == DecompressionFailed && old(LayoutNow(dst, dstPtr0, hi)) == Layout.Apart
                  && Tore(env, old(spec), src[srcPtr0..], old(frames), old(Room(dst, dstPtr0, hi)))
                else Fails(env, old(spec), src[srcPtr0..], old(frames), flow.error)
    {
      hide Valid, Shape, FrameOk, BuffersOk, BlocksOk, Ends, EnvOk, Gave, StageOk, CallOk, BlockSizeOk, FeedAll,
           BlockDone, CallBuffer, InPlace, LayoutNow;
      OpenBlocks(env);
      OpenBlock(env);
      OpenCall(dst, lo, dstPtr0, hi);
      Apart();
      dstPtr := dstPtr0;
      ghost var got := tmpIn[..tmpInSize];
      srcPtr := Collect(tmpIn, tmpInTarget, src, srcPtr0);
      if tmpInSize < tmpInTarget {
        BlockFed(env, spec, frame, got, src[srcPtr0..srcPtr]);
        QuietIsRoomy(env, spec, src[srcPtr0..srcPtr], Room(dst, dstPtr, hi));
        StayStoring(env);
        GaveNothing(delivered, dst[..], dstPtr, hi);
        CloseCall(dst, lo, dstPtr, hi);
        return Stop(tmpInTarget - tmpInSize + (if info.blockSum then 4 else 0) + 4), srcPtr, dstPtr;
      }
      flow, dstPtr := DecodeAll(env, got, src, srcPtr0, srcPtr, tmpIn[..tmpInTarget], dst, lo, dstPtr0, hi);
    }

    // -------------------------------------------------------------------
    // Flushing
    // -------------------------------------------------------------------

    lemma OpenFlush(env: Env)
      requires Valid(env) && dStage == FlushOut
      ensures tmpOutStart <= tmpOutSize && tmpOut + tmpOutSize <= tmpOutBuffer.Length
      ensures spec == Machine(skipChecksum, delivered + Pending(), frames, torn, Reading(BlockHead(frame), 4, []))
    {
      hide Shape, FrameOk, BuffersOk, BlocksOk, EnvOk, Pending;
    }

    // The next bytes to flush are those of the history that follow what the
    // caller has.
    lemma PendingIsHistory(n: nat)
      requires FlushOk(frame.content, tmpOutStart) && tmpOutStart + n <= tmpOutSize
      ensures Hands(true, frame.content, tmpOutStart,
                    tmpOutBuffer[tmpOut + tmpOutStart..tmpOut + tmpOutStart + n], frame.content)
    {
      hide Window, RoomFor;
      var h := frame.content;
      var x := tmpOutBuffer[tmpOut + tmpOutStart..tmpOut + tmpOutStart + n];
      var block := tmpOutBuffer[tmpOut..tmpOut + tmpOutSize];
      SliceOfSlice(tmpOutBuffer[..], tmpOut, tmpOutSize, tmpOutStart, n);
      EndSlice(h, tmpOutSize, tmpOutStart, n);
      assert block[tmpOutStart..tmpOutStart + n] == x;
    }

    // A block that is flushed completely has become history.
    lemma FlushDone()
      requires BlocksOk(true) && (frame.linked ==> tmpOutStart == tmpOutSize)
      ensures BlocksOk(false)
    {
      hide Window, RoomFor;
      if frame.linked {
        var h := frame.content;
        assert FlushOk(h, tmpOutStart);
        assert h[..|h| - tmpOutSize + tmpOutStart] == h;
        if dict == tmpOutBuffer { assert tmpOutBuffer[0..dictSize] == tmpOutBuffer[..tmpOut + tmpOutSize]; }
      }
    }

    // The history after n more bytes of tmpOut are with the caller.
    method KeepFlushed(dst: array<byte>, lo: nat, at: nat, hi: nat, n: nat)
      requires Shape() && FrameOk() && BuffersOk() && BlocksOk(true) && CallBuffer(dst, lo, at, hi)
      requires Ends(dst, lo, at, true)
      requires at + n <= hi && tmpOutStart + n <= tmpOutSize && tmpOut + tmpOutSize <= tmpOutBuffer.Length
      requires dst[at..at + n] == tmpOutBuffer[tmpOut + tmpOutStart..tmpOut + tmpOutStart + n]
      modifies tmpOutBuffer, `dict, `dictOff, `dictSize, `tmpOutStart
      ensures Shape() && BlocksOk(true) && CallBuffer(dst, lo, at + n, hi) && Ends(dst, lo, at + n, true)
      ensures old(InPlace(dst, at)) ==> InPlace(dst, at + n)
      ensures tmpOutStart == old(tmpOutStart) + n
      ensures tmpOutBuffer[tmpOut..tmpOut + tmpOutSize] == old(tmpOutBuffer[tmpOut..tmpOut + tmpOutSize])
    {
      hide Shape, FrameOk, BuffersOk, HistoryOk, IsSuffix, Given, Hands, InPlace;
      FrameParameters();
      if info.linked { FlushIsHistory(n); BlockInTmp(); }
      KeepHistory(dst, lo, at, n, true, frame.content);
      tmpOutStart := tmpOutStart + n;
      if info.linked { BlockInTmp(); }
    }

    // What is pending afterwards is what was pending without these n bytes.
    method KeepPending(dst: array<byte>, lo: nat, at: nat, hi: nat, n: nat)
      requires Shape() && FrameOk() && BuffersOk() && BlocksOk(true) && CallBuffer(dst, lo, at, hi)
      requires Ends(dst, lo, at, true)
      requires at + n <= hi && tmpOutStart + n <= tmpOutSize && tmpOut + tmpOutSize <= tmpOutBuffer.Length
      requires dst[at..at + n] == tmpOutBuffer[tmpOut + tmpOutStart..tmpOut + tmpOutStart + n]
      modifies tmpOutBuffer, `dict, `dictOff, `dictSize, `tmpOutStart
      ensures Shape() && BlocksOk(true) && CallBuffer(dst, lo, at + n, hi) && Ends(dst, lo, at + n, true)
      ensures old(InPlace(dst, at)) ==> InPlace(dst, at + n)
      ensures tmpOutStart == old(tmpOutStart) + n <= tmpOutSize && tmpOut + tmpOutSize <= tmpOutBuffer.Length
      ensures dst[at..at + n] + Pending() == old(Pending())
    {
      hide Shape, FrameOk, BuffersOk, BlocksOk, Ends, Pending, InPlace;
      ghost var tmp := tmpOutBuffer[..];
      PendingBytes();
      FrameParameters();
      assert dst[at..at + n] == tmp[tmpOut + tmpOutStart..tmpOut + tmpOutStart + n];
      KeepFlushed(dst, lo, at, hi, n);
      assert tmpOutBuffer[..][tmpOut..tmpOut + tmpOutSize] == tmp[tmpOut..tmpOut + tmpOutSize];
      PendingBytes();
      FlushSplit(tmp, tmpOutBuffer[..], tmpOut, tmpOutSize, tmpOutStart - n, n);
    }

    // Flush n bytes: to the caller, and in the history.
    method FlushSome(dst: array<byte>, lo: nat, at: nat, hi: nat, n: nat)
      requires Shape() && FrameOk() && BuffersOk() && BlocksOk(true) && CallBuffer(dst, lo, at, hi)
      requires Ends(dst, lo, at, true)
      requires at + n <= hi && tmpOutStart + n <= tmpOutSize && tmpOut + tmpOutSize <= tmpOutBuffer.Length
      modifies dst, tmpOutBuffer, `dict, `dictOff, `dictSize, `tmpOutStart, `delivered
      ensures Shape() && BlocksOk(true) && CallBuffer(dst, lo, at + n, hi) && Ends(dst, lo, at + n, true)
      ensures old(InPlace(dst, at)) ==> InPlace(dst, at + n)
      ensures tmpOutStart == old(tmpOutStart) + n
      ensures tmpOutStart <= tmpOutSize && tmpOut + tmpOutSize <= tmpOutBuffer.Length
      ensures delivered + Pending() == old(delivered + Pending())
      ensures Gave(old(delivered), delivered, old(dst[..]), dst[..], at, at + n, hi)
    {
      hide Shape, FrameOk, BuffersOk, BlocksOk, Ends, Gave, Pending, InPlace;
      FrameParameters();
      ghost var d0, p0 := delivered, Pending();
      var x := tmpOutBuffer[tmpOut + tmpOutStart..tmpOut + tmpOutStart + n];
      ghost var was := dst[..];
      Hand(dst, lo, at, hi, x, true);
      Given1(delivered, x, was, dst[..], at, at + n, hi);
      KeepPending(dst, lo, at, hi, n);
      delivered := delivered + x;
      assert d0 + x + Pending() == d0 + p0;
    }

    lemma PendingBytes()
      requires tmpOutStart <= tmpOutSize && tmpOut + tmpOutSize <= tmpOutBuffer.Length
      ensures Pending() == tmpOutBuffer[..][tmpOut + tmpOutStart..tmpOut + tmpOutSize]
    {
    }

    lemma FlushIsHistory(n: nat)
      requires HistoryOk(true, frame.content, tmpOutStart) && tmpOutStart + n <= tmpOutSize
      ensures Hands(true, frame.content, tmpOutStart,
                    tmpOutBuffer[tmpOut + tmpOutStart..tmpOut + tmpOutStart + n], frame.content)
    {
      PendingIsHistory(n);
    }

    lemma BlockInTmp()
      requires HistoryOk(true, frame.content, tmpOutStart)
      ensures tmpOutSize <= |frame.content| && tmpOut + tmpOutSize <= tmpOutBuffer.Length
      ensures tmpOutBuffer[tmpOut..tmpOut + tmpOutSize] == frame.content[|frame.content| - tmpOutSize..]
    {
      hide Window, RoomFor, DictShows;
    }

    // Part of the block waits for the next call.
    method StayFlushing(env: Env)
      requires EnvOk(env) && Shape() && FrameOk() && BuffersOk() && BlocksOk(true) && dStage == FlushOut
      requires tmpOutStart <= tmpOutSize && tmpOut + tmpOutSize <= tmpOutBuffer.Length
      modifies `spec
      ensures Valid(env)
      ensures spec == Machine(skipChecksum, delivered + Pending(), frames, torn, Reading(BlockHead(frame), 4, []))
    {
      hide EnvOk, Shape, FrameOk, BuffersOk, BlocksOk, Valid, Pending;
      spec := Machine(skipChecksum, delivered + Pending(), frames, torn, Reading(BlockHead(frame), 4, []));
      CloseBlocks(env);
    }

    // dstage_flushOut
    method FlushOutStep(env: Env, dst: array<byte>, lo: nat, dstPtr0: nat, hi: nat) returns (flow: Flow, dstPtr: nat)
      requires Valid(env) && dStage == FlushOut && CallOk(dst, lo, dstPtr0, hi)
      modifies dst, tmpOutBuffer, `dict, `dictOff, `dictSize, `tmpOutStart, `delivered, `dStage, `spec
      ensures Valid(env) && CallOk(dst, lo, dstPtr, hi) && spec == old(spec)
      ensures Gave(old(delivered), delivered, old(dst[..]), dst[..], dstPtr0, dstPtr, hi)
      ensures (flow.Go? && dStage == GetBlockHeader)
              || (flow.Stop? && flow.hint > 0 && dStage == FlushOut && dstPtr == hi)
      ensures old(InPlace(dst, dstPtr0)) ==> InPlace(dst, dstPtr)
    {
      hide Valid, Shape, FrameOk, BuffersOk, BlocksOk, Ends, EnvOk, Gave, StageOk, CallOk, CallBuffer, InPlace,
           Pending;
      OpenBlocks(env);
      OpenFlush(env);
      OpenCall(dst, lo, dstPtr0, hi);
      var sizeToCopy := Smallest(tmpOutSize - tmpOutStart, hi - dstPtr0, hi - dstPtr0);
      FlushSome(dst, lo, dstPtr0, hi, sizeToCopy);
      dstPtr := dstPtr0 + sizeToCopy;
      flow := AfterFlush(env, dst, lo, dstPtr, hi);
    }

    // On to the next block, or to the rest of this one in another call.
    method AfterFlush(env: Env, dst: array<byte>, lo: nat, dstPtr: nat, hi: nat) returns (flow: Flow)
      requires EnvOk(env) && Shape() && FrameOk() && BuffersOk() && BlocksOk(true) && dStage == FlushOut
      requires CallBuffer(dst, lo, dstPtr, hi) && lo <= dstPtr <= dst.Length && Ends(dst, lo, dstPtr, true)
      requires tmpOutStart <= tmpOutSize && tmpOut + tmpOutSize <= tmpOutBuffer.Length
      modifies `dStage, `spec
      ensures Valid(env) && CallOk(dst, lo, dstPtr, hi)
      ensures spec == Machine(skipChecksum, delivered + old(Pending()), frames, torn, Reading(BlockHead(frame), 4, []))
      ensures if tmpOutStart == tmpOutSize then flow.Go? && dStage == GetBlockHeader
              else flow.Stop? && flow.hint > 0 && dStage == FlushOut
    {
      hide Valid, Shape, FrameOk, BuffersOk, BlocksOk, Ends, EnvOk, StageOk, CallOk, CallBuffer, Pending;
      if tmpOutStart == tmpOutSize {
        FlushDone();
        EndsDone(dst, lo, dstPtr);
        NothingPending();
        EnterBlockHead(env);
        flow := Go;
      } else {
        StayFlushing(env);
        flow := Stop(4);
      }
      CloseCall(dst, lo, dstPtr, hi);
    }

    lemma NothingPending()
      requires tmpOutStart == tmpOutSize && tmpOut + tmpOutSize <= tmpOutBuffer.Length
      ensures delivered + Pending() == delivered
    {
    }

    lemma EndsDone(dst: array<byte>, lo: nat, dstPtr: nat)
      requires lo <= dstPtr <= dst.Length && Ends(dst, lo, dstPtr, true) && tmpOutStart == tmpOutSize && BlocksOk(true)
      ensures Ends(dst, lo, dstPtr, false)
    {
      hide Window, RoomFor, IsSuffix;
      if frame.linked {
        var h := frame.content;
        assert FlushOk(h, tmpOutStart);
        assert h[..|h| - tmpOutSize + tmpOutStart] == h;
      }
    }

    // -------------------------------------------------------------------
    // The end of a frame
    // -------------------------------------------------------------------

    // The frame is complete: ready for another.
    method Finish(env: Env)
      requires EnvOk(env) && Shape()
      modifies `dStage, `dict, `dictSize, `skipChecksum, `frameRemainingSize, `frames, `spec
      ensures Valid(env) && dStage == GetFrameHeader && !skipChecksum && frames == old(frames) + 1
      ensures spec == Machine(false, delivered, frames, torn, Reading(Magic, 4, []))
    {
      hide EnvOk, Valid, IsBlockSize;
      ResetFields();
      frames := frames + 1;
      spec := Machine(false, delivered, frames, torn, Reading(Magic, 4, []));
      CloseHeader(env);
    }

    lemma OpenSuffix(env: Env)
      requires Valid(env) && (dStage == GetSuffix || dStage == StoreSuffix)
      ensures EnvOk(env) && Shape() && FrameOk() && BuffersOk()
      ensures dStage == GetSuffix ==> spec == EndMark(At(Skip(0)), frame)
      ensures dStage == StoreSuffix ==>
                frame.contentSum && tmpInSize < 4 && spec == At(Reading(Suffix(frame), 4, tmpIn[..tmpInSize]))
      ensures 4 <= tmpIn.Length && (frame.contentSum && !skipChecksum ==> xxh == frame.content)
    {
      hide Shape, FrameOk, BlocksOk, EnvOk, EndMark;
    }

    // The suffix goes on being stored.
    method StaySuffix(env: Env)
      requires EnvOk(env) && Shape() && FrameOk() && BuffersOk() && frame.contentSum && tmpInSize < 4 <= tmpIn.Length
      modifies `dStage, `spec
      ensures Valid(env) && dStage == StoreSuffix && spec == At(Reading(Suffix(frame), 4, tmpIn[..tmpInSize]))
    {
      hide EnvOk, Shape, FrameOk, BuffersOk, Valid;
      spec := At(Reading(Suffix(frame), 4, tmpIn[..tmpInSize]));
      dStage := StoreSuffix;
      CloseSuffix(env);
    }

    // dstage_getSuffix
    method GetSuffixStep(env: Env, src: seq<byte>, srcPtr0: nat) returns (flow: Flow, srcPtr: nat)
      requires Valid(env) && dStage == GetSuffix && srcPtr0 <= |src|
      modifies `tmpInSize, `dStage, `dict, `dictSize, `skipChecksum, `frameRemainingSize, `frames, `spec
      ensures !flow.Err? ==>
                && Valid(env) && srcPtr0 <= srcPtr <= |src| && spec == FeedAll(env, old(spec), src[srcPtr0..srcPtr])
                && (flow.Go? ==> dStage == StoreSuffix && frames == old(frames))
                && (flow.Go? ==> dict == old(dict) && dictSize == old(dictSize))
                && (flow.Stop? ==> flow.hint == 0 && dStage == GetFrameHeader && frames == old(frames) + 1)
      ensures flow.Err? ==> Fails(env, old(spec), src[srcPtr0..], old(frames), flow.error)
    {
      hide Valid, Shape, FrameOk, BuffersOk, FeedAll, EnvOk, StageOk, LE32;
      OpenSuffix(env);
      FrameParameters();
      srcPtr := srcPtr0;
      NothingFed(env, spec, src, srcPtr);
      if frameRemainingSize != 0 {
        FailedStays(env, spec, src[srcPtr0..]);
        FailsAtEnd(env, spec, src[srcPtr0..], frames, FrameSizeWrong);
        return Err(FrameSizeWrong), srcPtr;
      }
      if !info.contentSum {
        Finish(env);
        return Stop(0), srcPtr;
      }
      if |src| - srcPtr < 4 {
        tmpInSize := 0;
        assert tmpIn[..0] == [];
        StaySuffix(env);
        return Go, srcPtr;
      }
      srcPtr := srcPtr + 4;
      assert [] + src[srcPtr0..srcPtr] == src[srcPtr0..srcPtr];
      SuffixFed(env, spec, frame, [], src[srcPtr0..srcPtr]);
      if !skipChecksum && LE32(src[srcPtr0..srcPtr]) != env.xxh(xxh) {
        RefusedHere(env, spec, src, srcPtr0, srcPtr, frames, ContentChecksumInvalid);
        return Err(ContentChecksumInvalid), srcPtr;
      }
      Finish(env);
      flow := Stop(0);
    }

    // dstage_storeSuffix
    method StoreSuffixStep(env: Env, src: seq<byte>, srcPtr0: nat) returns (flow: Flow, srcPtr: nat)
      requires Valid(env) && dStage == StoreSuffix && srcPtr0 <= |src|
      modifies tmpIn, `tmpInSize, `dStage, `dict, `dictSize, `skipChecksum, `frameRemainingSize, `frames, `spec
      ensures flow.Stop? || flow.Err?
      ensures flow.Stop? ==>
                && Valid(env) && srcPtr0 <= srcPtr <= |src| && spec == FeedAll(env, old(spec), src[srcPtr0..srcPtr])
                && (if flow.hint == 0 then dStage == GetFrameHeader && srcPtr > srcPtr0 && frames == old(frames) + 1
                    else dStage == StoreSuffix && frames == old(frames) && srcPtr == |src|)
                && (srcPtr0 < |src| ==> srcPtr > srcPtr0)
      ensures flow.Err? ==> Fails(env, old(spec), src[srcPtr0..], old(frames), flow.error)
    {
      hide Valid, Shape, FrameOk, BuffersOk, FeedAll, EnvOk, StageOk, LE32;
      OpenSuffix(env);
      FrameParameters();
      ghost var got := tmpIn[..tmpInSize];
      srcPtr := Collect(tmpIn, 4, src, srcPtr0);
      SuffixFed(env, spec, frame, got, src[srcPtr0..srcPtr]);
      if tmpInSize < 4 {
        StaySuffix(env);
        return Stop(4 - tmpInSize), srcPtr;
      }
      if !skipChecksum && LE32(tmpIn[..4]) != env.xxh(xxh) {
        RefusedHere(env, spec, src, srcPtr0, srcPtr, frames, ContentChecksumInvalid);
        return Err(ContentChecksumInvalid), srcPtr;
      }
      Finish(env);
      flow := Stop(0);
    }

    // -------------------------------------------------------------------
    // Skippable frames
    // -------------------------------------------------------------------

    lemma OpenSkip(env: Env)
      requires Valid(env) && (dStage == GetSFrameSize || dStage == StoreSFrameSize || dStage == SkipSkippable)
      ensures EnvOk(env) && Shape() && header.Length == 19
      ensures dStage == GetSFrameSize ==> spec == At(Reading(SkipSize, 4, []))
      ensures dStage == StoreSFrameSize ==>
                4 <= tmpInSize < 8 == tmpInTarget && spec == At(Reading(SkipSize, 4, header[4..tmpInSize]))
      ensures dStage == SkipSkippable ==> spec == if tmpInTarget == 0 then At(Skip(0)).End() else At(Skip(tmpInTarget))
    {
      hide IsBlockSize, EnvOk;
    }

    lemma CloseSkip(env: Env)
      requires dStage == GetSFrameSize || dStage == StoreSFrameSize || dStage == SkipSkippable
      requires EnvOk(env) && Shape() && StageOk(env)
      ensures Valid(env)
    {
      hide Shape, StageOk, FrameOk, BuffersOk, BlocksOk, NoHistory, EnvOk;
    }

    // n bytes to skip.
    method EnterSkip(env: Env, n: nat)
      requires EnvOk(env) && Shape()
      modifies `info, `tmpInTarget, `dStage, `spec
      ensures Valid(env) && dStage == SkipSkippable
      ensures spec == if n == 0 then At(Skip(0)).End() else At(Skip(n))
    {
      hide EnvOk, Shape, Valid;
      info := info.(contentSize := n);
      tmpInTarget := n;
      dStage := SkipSkippable;
      spec := if n == 0 then At(Skip(0)).End() else At(Skip(n));
      CloseSkip(env);
    }

    method StaySkipSize(env: Env)
      requires EnvOk(env) && Shape() && 4 <= tmpInSize < 8 == tmpInTarget && header.Length == 19
      modifies `dStage, `spec
      ensures Valid(env) && dStage == StoreSFrameSize && spec == At(Reading(SkipSize, 4, header[4..tmpInSize]))
    {
      hide EnvOk, Shape, Valid;
      spec := At(Reading(SkipSize, 4, header[4..tmpInSize]));
      dStage := StoreSFrameSize;
      CloseSkip(env);
    }

    // dstage_getSFrameSize
    method GetSFrameSizeStep(env: Env, src: seq<byte>, srcPtr0: nat) returns (srcPtr: nat)
      requires Valid(env) && dStage == GetSFrameSize && srcPtr0 <= |src|
      modifies `tmpInSize, `tmpInTarget, `info, `dStage, `spec
      ensures Valid(env) && srcPtr0 <= srcPtr <= |src| && spec == FeedAll(env, old(spec), src[srcPtr0..srcPtr])
      ensures (dStage == SkipSkippable && srcPtr > srcPtr0) || dStage == StoreSFrameSize
    {
      hide Valid, Shape, FeedAll, EnvOk, StageOk, LE32;
      OpenSkip(env);
      srcPtr := srcPtr0;
      if |src| - srcPtr >= 4 {
        srcPtr := srcPtr + 4;
        assert [] + src[srcPtr0..srcPtr] == src[srcPtr0..srcPtr];
        SkipSizeFed(env, spec, [], src[srcPtr0..srcPtr]);
        EnterSkip(env, LE32(src[srcPtr0..srcPtr]));
      } else {
        tmpInSize, tmpInTarget := 4, 8;
        assert header[4..4] == [];
        NothingFed(env, spec, src, srcPtr);
        StaySkipSize(env);
      }
    }

    // dstage_storeSFrameSize
    method StoreSFrameSizeStep(env: Env, src: seq<byte>, srcPtr0: nat) returns (flow: Flow, srcPtr: nat)
      requires Valid(env) && dStage == StoreSFrameSize && srcPtr0 <= |src|
      modifies header, `tmpInSize, `tmpInTarget, `info, `dStage, `spec
      ensures Valid(env) && srcPtr0 <= srcPtr <= |src| && spec == FeedAll(env, old(spec), src[srcPtr0..srcPtr])
      ensures (flow.Go? && dStage == SkipSkippable && srcPtr > srcPtr0)
              || (flow.Stop? && flow.hint > 0 && dStage == StoreSFrameSize && srcPtr == |src|)
      ensures srcPtr0 < |src| ==> srcPtr > srcPtr0
    {
      hide Valid, Shape, FeedAll, EnvOk, StageOk, LE32;
      OpenSkip(env);
      ghost var got := header[4..tmpInSize];
      ghost var all := header[..tmpInSize];
      srcPtr := Collect(header, 8, src, srcPtr0);
      ghost var x := src[srcPtr0..srcPtr];
      assert header[4..tmpInSize] == got + x by {
        assert got == all[4..];
        assert header[4..tmpInSize] == (all + x)[4..];
      }
      SkipSizeFed(env, spec, got, x);
      if tmpInSize < 8 {
        StaySkipSize(env);
        return Stop(8 - tmpInSize), srcPtr;
      }
      EnterSkip(env, LE32(header[4..8]));
      flow := Go;
    }

    // dstage_skipSkippable
    method SkipStep(env: Env, src: seq<byte>, srcPtr0: nat) returns (hint: nat, srcPtr: nat)
      requires Valid(env) && dStage == SkipSkippable && srcPtr0 <= |src|
      modifies `tmpInTarget, `dStage, `dict, `dictSize, `skipChecksum, `frameRemainingSize, `frames, `spec
      ensures Valid(env) && srcPtr0 <= srcPtr <= |src| && spec == FeedAll(env, old(spec), src[srcPtr0..srcPtr])
      ensures if hint == 0 then dStage == GetFrameHeader && frames == old(frames) + 1
              else dStage == SkipSkippable && tmpInTarget == hint && frames == old(frames) && srcPtr == |src|
      ensures srcPtr0 < |src| ==> srcPtr > srcPtr0 || hint == 0
      ensures hint == 0 && old(tmpInTarget) > 0 ==> srcPtr > srcPtr0
    {
      hide Valid, Shape, FeedAll, EnvOk;
      OpenSkip(env);
      var skipSize := Smallest(tmpInTarget, |src| - srcPtr0, |src| - srcPtr0);
      srcPtr := srcPtr0 + skipSize;
      if tmpInTarget > 0 { FeedSkip(env, spec, src[srcPtr0..srcPtr]); } else { NothingFed(env, spec, src, srcPtr0); }
      tmpInTarget := tmpInTarget - skipSize;
      hint := tmpInTarget;
      if hint != 0 {
        spec := At(Skip(tmpInTarget));
        CloseSkip(env);
      } else {
        Finish(env);
      }
    }

    // -------------------------------------------------------------------
    // One stage
    // -------------------------------------------------------------------

    // Between calls no stage is half done.
    predicate AtRest()
      reads `dStage, `tmpInTarget
    {
      dStage != GetSuffix && (dStage == SkipSkippable ==> tmpInTarget > 0)
    }

    // A stage that ends the frame, or one that only the same call may start.
    predicate Unrested(flow: Flow)
      reads `dStage, `tmpInTarget
    {
      (flow.Stop? && flow.hint == 0) || (flow.Go? && !AtRest())
    }

    lemma CallOutside(env: Env, dst: array<byte>, lo: nat, dstPtr: nat, hi: nat)
      requires Valid(env) && (!InBlocks() || dStage == Init) && lo <= dstPtr <= hi <= dst.Length
      requires dst != header && dst != tmpIn && dst != tmpOutBuffer
      requires dStage == GetFrameHeader || dStage == StoreFrameHeader || dStage == Init ==> dstPtr == lo
      ensures CallOk(dst, lo, dstPtr, hi)
    {
      hide Shape, FrameOk, BuffersOk, BlocksOk, EnvOk, StageOk;
    }

    lemma CallBounds(dst: array<byte>, lo: nat, dstPtr: nat, hi: nat)
      requires CallOk(dst, lo, dstPtr, hi)
      ensures lo <= dstPtr <= hi <= dst.Length && dst != header && dst != tmpIn && dst != tmpOutBuffer
      ensures dStage == GetFrameHeader || dStage == StoreFrameHeader || dStage == Init ==> dstPtr == lo
    {
    }

    // The stages of the header of a frame.
    method HeaderStages(env: Env, src: seq<byte>, srcPtr0: nat, dst: array<byte>, lo: nat, dstPtr: nat, hi: nat)
      returns (flow: Flow, srcPtr: nat)
      requires Valid(env) && srcPtr0 <= |src| && CallOk(dst, lo, dstPtr, hi)
      requires dStage == GetFrameHeader || dStage == StoreFrameHeader || dStage == Init
      modifies this, header
      ensures !flow.Err? ==>
                && Valid(env) && srcPtr0 <= srcPtr <= |src| && spec == FeedAll(env, old(spec), src[srcPtr0..srcPtr])
                && CallOk(dst, lo, dstPtr, hi) && delivered == old(delivered) && frames == old(frames)
                && torn == old(torn) && Room(dst, dstPtr, hi) == old(Room(dst, dstPtr, hi))
      ensures Allocated()
      ensures (tmpIn == old(tmpIn) || fresh(tmpIn)) && (tmpOutBuffer == old(tmpOutBuffer) || fresh(tmpOutBuffer))
      ensures flow.Go? ==> srcPtr > srcPtr0 || Rank(dStage) < Rank(old(dStage))
      ensures flow.Stop? ==> AtRest() && flow.hint > 0 && !InBlocks() && srcPtr == |src|
      ensures Unrested(flow) ==> srcPtr > srcPtr0 || !old(AtRest())
      ensures flow.Err? ==> !apart && Fails(env, old(spec), src[srcPtr0..], old(frames), flow.error)
    {
      hide Valid, CallOk, FeedAll, Allocated;
      CallBounds(dst, lo, dstPtr, hi);
      SpecTorn(env);
      ValidAllocated(env);
      if dStage == GetFrameHeader {
        flow, srcPtr := GetFrameHeaderStep(env, src, srcPtr0);
        if !flow.Err? { CallOutside(env, dst, lo, dstPtr, hi); }
      } else if dStage == StoreFrameHeader {
        flow, srcPtr := StoreFrameHeaderStep(env, src, srcPtr0);
        if !flow.Err? { CallOutside(env, dst, lo, dstPtr, hi); }
      } else {
        OpenInit(env);
        NoHistoryFields();
        InitStep(env);
        ValidAllocated(env);
        flow, srcPtr := Go, srcPtr0;
        NothingFed(env, spec, src, srcPtr);
        CallAfterInit(dst, lo, hi);
      }
    }

    lemma CallAfterInit(dst: array<byte>, lo: nat, hi: nat)
      requires dStage == GetBlockHeader && dict == null && lo <= hi <= dst.Length
      requires dst != header && dst != tmpIn && dst != tmpOutBuffer
      ensures CallOk(dst, lo, lo, hi)
    {
    }

    // The stages that look for the next block.
    method BlockHeadStages(env: Env, src: seq<byte>, srcPtr0: nat, dst: array<byte>, lo: nat, dstPtr: nat, hi: nat)
      returns (flow: Flow, srcPtr: nat)
      requires Valid(env) && srcPtr0 <= |src| && CallOk(dst, lo, dstPtr, hi)
      requires dStage == GetBlockHeader || dStage == StoreBlockHeader || dStage == GetBlockChecksum
      modifies header, tmpIn, `tmpInSize, `tmpInTarget, `dStage, `blockChecksum, `spec, `raw
      ensures !flow.Err? ==>
                && Valid(env) && srcPtr0 <= srcPtr <= |src| && spec == FeedAll(env, old(spec), src[srcPtr0..srcPtr])
                && CallOk(dst, lo, dstPtr, hi)
      ensures flow.Go? ==> srcPtr > srcPtr0 || Rank(dStage) < Rank(old(dStage))
      ensures flow.Stop? ==> AtRest() && flow.hint > 0 && (srcPtr == |src| || dstPtr == hi)
      ensures Unrested(flow) ==> srcPtr > srcPtr0 || !old(AtRest())
      ensures flow.Err? ==> !apart && Fails(env, old(spec), src[srcPtr0..], old(frames), flow.error)
    {
      hide Valid, CallOk, FeedAll, Ends, CallBuffer, Shape;
      SpecTorn(env);
      OpenCall(dst, lo, dstPtr, hi);
      OpenBlocks(env);
      Apart();
      if dStage == GetBlockHeader {
        flow, srcPtr := GetBlockHeaderStep(env, src, srcPtr0, dstPtr == hi);
      } else if dStage == StoreBlockHeader {
        flow, srcPtr := StoreBlockHeaderStep(env, src, srcPtr0, dstPtr == hi);
      } else {
        flow, srcPtr := BlockChecksumStep(env, src, srcPtr0);
      }
      if !flow.Err? {
        if InBlocks() { CloseCall(dst, lo, dstPtr, hi); } else { CallOutside(env, dst, lo, dstPtr, hi); }
      }
    }

    // The stages that hand bytes to the caller.
    method DataStages(env: Env, src: seq<byte>, srcPtr0: nat, dst: array<byte>, lo: nat, dstPtr0: nat, hi: nat)
      returns (flow: Flow, srcPtr: nat, dstPtr: nat)
      requires Valid(env) && srcPtr0 <= |src| && CallOk(dst, lo, dstPtr0, hi)
      requires dStage == CopyDirect || dStage == GetCBlock || dStage == StoreCBlock || dStage == FlushOut
      modifies dst, tmpIn, tmpOutBuffer, `dict, `dictOff, `dictSize, `tmpOut, `tmpOutSize, `tmpOutStart, `tmpInSize,
               `tmpInTarget, `xxh, `frameRemainingSize, `frame, `blockChecksum, `delivered, `dStage, `spec, `raw, `torn,
               `apart
      ensures !flow.Err? ==>
                && Valid(env) && srcPtr0 <= srcPtr <= |src| && spec == FeedAll(env, old(spec), src[srcPtr0..srcPtr])
                && CallOk(dst, lo, dstPtr, hi)
                && Gave(old(delivered), delivered, old(dst[..]), dst[..], dstPtr0, dstPtr, hi)
                && Roomy(env, old(spec), src[srcPtr0..srcPtr], old(Room(dst, dstPtr0, hi)))
                && (old(InPlace(dst, dstPtr0)) ==> InPlace(dst, dstPtr))
      ensures flow.Go? ==> srcPtr > srcPtr0 || Rank(dStage) < Rank(old(dStage))
      ensures flow.Stop? ==>
                AtRest() && flow.hint > 0 && (srcPtr == |src| || dstPtr == hi)
      ensures Unrested(flow) ==> srcPtr > srcPtr0 || !old(AtRest())
      ensures flow.Err? ==>
                if apart then
                  && flow.error == DecompressionFailed
                  && Tore(env, old(spec), src[srcPtr0..], old(frames), old(Room(dst, dstPtr0, hi)))
                else Fails(env, old(spec), src[srcPtr0..], old(frames), flow.error)
    {
      hide Valid, CallOk, FeedAll, Gave, InPlace, Roomy, Tore;
      CallBounds(dst, lo, dstPtr0, hi);
      SpecTorn(env);
      ghost var room := Room(dst, dstPtr0, hi);
      if dStage == CopyDirect {
        flow, srcPtr, dstPtr := CopyDirectStep(env, src, srcPtr0, dst, lo, dstPtr0, hi);
        SpecTorn(env);
        QuietIsRoomy(env, old(spec), src[srcPtr0..srcPtr], room);
      } else if dStage == GetCBlock {
        flow, srcPtr, dstPtr := GetCBlockStep(env, src, srcPtr0, dst, lo, dstPtr0, hi);
      } else if dStage == StoreCBlock {
        flow, srcPtr, dstPtr := StoreCBlockStep(env, src, srcPtr0, dst, lo, dstPtr0, hi);
      } else {
        flow, dstPtr := FlushOutStep(env, dst, lo, dstPtr0, hi);
        srcPtr := srcPtr0;
        NothingFed(env, spec, src, srcPtr);
        QuietIsRoomy(env, spec, src[srcPtr..srcPtr], room);
      }
    }

    // The stages after the last block, and those of skippable frames.
    method TailStages(env: Env, src: seq<byte>, srcPtr0: nat, dst: array<byte>, lo: nat, dstPtr: nat, hi: nat)
      returns (flow: Flow, srcPtr: nat)
      requires Valid(env) && srcPtr0 <= |src| && CallOk(dst, lo, dstPtr, hi)
      requires !InBlocks() && dStage != GetFrameHeader && dStage != StoreFrameHeader
      modifies header, tmpIn, `tmpInSize, `tmpInTarget, `info, `dStage, `dict, `dictSize, `skipChecksum,
               `frameRemainingSize, `frames, `spec
      ensures !flow.Err? ==>
                Valid(env) && srcPtr0 <= srcPtr <= |src| && spec == FeedAll(env, old(spec), src[srcPtr0..srcPtr])
      ensures flow.Go? ==> Room(dst, dstPtr, hi) == old(Room(dst, dstPtr, hi))
      ensures flow.Go? ==> CallOk(dst, lo, dstPtr, hi) && (srcPtr > srcPtr0 || Rank(dStage) < Rank(old(dStage)))
      ensures !flow.Err? ==> frames == old(frames) + if flow == Stop(0) then 1 else 0
      ensures flow.Stop? ==>
                && AtRest() && !InBlocks() && (flow.hint == 0 ==> dStage == GetFrameHeader)
                && (flow.hint == 0 || srcPtr == |src|)
      ensures Unrested(flow) ==> srcPtr > srcPtr0 || !old(AtRest())
      ensures flow.Err? ==> !apart && Fails(env, old(spec), src[srcPtr0..], old(frames), flow.error)
    {
      hide Valid, CallOk, FeedAll;
      CallBounds(dst, lo, dstPtr, hi);
      SpecTorn(env);
      if dStage == GetSuffix {
        flow, srcPtr := GetSuffixStep(env, src, srcPtr0);
      } else if dStage == StoreSuffix {
        flow, srcPtr := StoreSuffixStep(env, src, srcPtr0);
      } else if dStage == GetSFrameSize {
        srcPtr := GetSFrameSizeStep(env, src, srcPtr0);
        flow := Go;
      } else if dStage == StoreSFrameSize {
        flow, srcPtr := StoreSFrameSizeStep(env, src, srcPtr0);
      } else {
        var hint;
        hint, srcPtr := SkipStep(env, src, srcPtr0);
        flow := Stop(hint);
      }
      if flow.Go? { CallOutside(env, dst, lo, dstPtr, hi); }
    }

    // -------------------------------------------------------------------
    // One call
    // -------------------------------------------------------------------

    // One stage of the machine, whichever it is.
    method Stage1(env: Env, src: seq<byte>, srcPtr0: nat, dst: array<byte>, lo: nat, dstPtr0: nat, hi: nat)
      returns (flow: Flow, srcPtr: nat, dstPtr: nat)
      requires Valid(env) && srcPtr0 <= |src| && CallOk(dst, lo, dstPtr0, hi)
      modifies this, header, tmpIn, tmpOutBuffer, dst
      ensures !flow.Err? ==>
                && Valid(env) && srcPtr0 <= srcPtr <= |src| && spec == FeedAll(env, old(spec), src[srcPtr0..srcPtr])
                && Gave(old(delivered), delivered, old(dst[..]), dst[..], dstPtr0, dstPtr, hi)
                && (flow.Go? || InBlocks() ==> CallOk(dst, lo, dstPtr, hi))
                && Roomy(env, old(spec), src[srcPtr0..srcPtr], old(Room(dst, dstPtr0, hi)))
      ensures flow.Go? && old(Room(dst, dstPtr0, hi)).Some? ==>
                Room(dst, dstPtr, hi) == old(Room(dst, dstPtr0, hi))
      ensures Allocated()
      ensures (tmpIn == old(tmpIn) || fresh(tmpIn)) && (tmpOutBuffer == old(tmpOutBuffer) || fresh(tmpOutBuffer))
      ensures flow.Go? ==> srcPtr > srcPtr0 || Rank(dStage) < Rank(old(dStage))
      ensures !flow.Err? ==> frames == old(frames) + if flow == Stop(0) then 1 else 0
      ensures flow.Stop? ==>
                && AtRest() && (flow.hint == 0 ==> dStage == GetFrameHeader)
                && (flow.hint == 0 || srcPtr == |src| || dstPtr == hi)
      ensures Unrested(flow) ==> srcPtr > srcPtr0 || !old(AtRest())
      ensures flow.Err? ==>
                if apart then
                  && flow.error == DecompressionFailed
                  && Tore(env, old(spec), src[srcPtr0..], old(frames), old(Room(dst, dstPtr0, hi)))
                else Fails(env, old(spec), src[srcPtr0..], old(frames), flow.error)
    {
      hide Valid, CallOk, FeedAll, Gave, Allocated, InPlace, Roomy, Tore;
      CallBounds(dst, lo, dstPtr0, hi);
      ValidAllocated(env);
      SpecTorn(env);
      ghost var m, room, d0, was, t0 := spec, Room(dst, dstPtr0, hi), delivered, dst[..], torn;
      GaveNothing(delivered, dst[..], dstPtr0, hi);
      dstPtr := dstPtr0;
      if dStage == GetFrameHeader || dStage == StoreFrameHeader || dStage == Init {
        flow, srcPtr := HeaderStages(env, src, srcPtr0, dst, lo, dstPtr0, hi);
      } else if dStage == GetBlockHeader || dStage == StoreBlockHeader || dStage == GetBlockChecksum {
        flow, srcPtr := BlockHeadStages(env, src, srcPtr0, dst, lo, dstPtr0, hi);
      } else if dStage == CopyDirect || dStage == GetCBlock || dStage == StoreCBlock || dStage == FlushOut {
        flow, srcPtr, dstPtr := DataStages(env, src, srcPtr0, dst, lo, dstPtr0, hi);
        if !flow.Err? { SameRoom(d0, was, dst, dstPtr0, dstPtr, hi, room); }
        return;
      } else {
        flow, srcPtr := TailStages(env, src, srcPtr0, dst, lo, dstPtr0, hi);
      }
      if !flow.Err? {
        SpecTorn(env);
        QuietIsRoomy(env, m, src[srcPtr0..srcPtr], room);
      }
    }

    // The machine has met the torn blocks the context has.
    lemma SpecTorn(env: Env)
      requires Valid(env)
      ensures spec.torn == torn && !apart
    {
      hide FrameOk, BuffersOk, BlocksOk, NoHistory, EnvOk, FeedAll, EndMark, IsBlockSize, Pending;
      if dStage == StoreFrameHeader { HeaderIsQuiet(env, At(Reading(Magic, 4, [])), header[..tmpInSize], tmpInTarget); }
      if dStage == GetSuffix { EndMarkIsQuiet(At(Skip(0)), frame); }
    }

    // What comes out takes from the room there is.
    lemma SameRoom(d0: seq<byte>, was: seq<byte>, dst: array<byte>, a: nat, b: nat, hi: nat, room: Option<nat>)
      requires Gave(d0, delivered, was, dst[..], a, b, hi) && (room.Some? ==> room.value == |d0| + (hi - a))
      requires room.Some? ==> InPlace(dst, b)
      ensures room.Some? ==> Room(dst, b, hi) == room
    {
      hide InPlace;
    }

    // Keep the end of the dictionary in tmpOutBuffer: the caller may reuse its
    // buffer before the next call.
    method KeepDict(ghost h: seq<byte>)
      requires dict != null && dict != tmpOutBuffer && DictShows(h) && tmpOutBuffer.Length >= KB64
      modifies tmpOutBuffer, `dict, `dictOff, `dictSize, `tmpOut
      ensures DictShows(h) && dict == tmpOutBuffer
    {
      hide Window;
      ghost var r := dict[dictOff..dictOff + dictSize];
      var newDictSize := if dictSize < KB64 then dictSize else KB64;
      MemCpy(tmpOutBuffer, 0, dict, dictOff + dictSize - newDictSize, newDictSize);
      dict := tmpOutBuffer;
      dictOff := 0;
      dictSize := newDictSize;
      tmpOut := newDictSize;
      assert tmpOutBuffer[0..dictSize] == r[|r| - newDictSize..];
      WindowTrim(r, newDictSize, []);
      assert r[|r| - newDictSize..] + [] == r[|r| - newDictSize..] && r + [] == r;
    }

    method PreserveHistory(env: Env, stableDst: bool)
      requires Valid(env)
      modifies tmpOutBuffer, `dict, `dictOff, `dictSize, `tmpOut
      ensures Valid(env)
      ensures !stableDst && InBlocks() ==> dict == null || dict == tmpOutBuffer
    {
      hide Valid, Shape, FrameOk, BuffersOk, EnvOk, HistoryOk, NoHistory;
      if !InBlocks() || dStage == Init {
        if InBlocks() { OpenInit(env); NoHistoryFields(); }
        return;
      }
      OpenBlocks(env);
      FrameParameters();
      if info.linked && dict != null && dict != tmpOutBuffer && !stableDst {
        if dStage == FlushOut { PreserveFlush(env); } else { PreserveDict(env); }
      } else if !info.linked {
        NoHistoryIndependent();
      }
    }

    lemma NoHistoryIndependent()
      requires BlocksOk(dStage == FlushOut) && !frame.linked
      ensures dict == null
    {
    }

    // While a block waits in tmpOut, the dictionary goes in front of it.
    method PreserveFlush(env: Env)
      requires EnvOk(env) && Shape() && FrameOk() && BuffersOk() && AtFlush() && BlocksOk(true)
      requires dStage == FlushOut && frame.linked && dict != null && dict != tmpOutBuffer
      modifies tmpOutBuffer, `dict, `dictOff, `dictSize
      ensures Valid(env) && dict == tmpOutBuffer
    {
      hide Valid, FrameOk, BuffersOk, EnvOk, FlushOk, IsBlockSize, StageOk, Pending;
      SavePending();
      AtFlushStage(env);
      CloseBlocks(env);
    }

    lemma AtFlushStage(env: Env)
      requires header.Length == 19 && dStage == FlushOut && AtFlush()
      ensures StageOk(env)
    {
      hide AtFlush;
    }

    method SavePending()
      requires FlushOk(frame.content, tmpOutStart) && dict != null && dict != tmpOutBuffer
      requires tmpOutStart <= tmpOutSize && tmpOut + tmpOutSize <= tmpOutBuffer.Length
      modifies tmpOutBuffer, `dict, `dictOff, `dictSize
      ensures FlushOk(frame.content, tmpOutStart) && dict == tmpOutBuffer && Pending() == old(Pending())
    {
      hide FlushOk;
      BlockInTmp();
      SliceOfSlice(tmpOutBuffer[..], tmpOut, tmpOutSize, tmpOutStart, tmpOutSize - tmpOutStart);
      SaveBeforeTmpOut(frame.content, 0);
      BlockInTmp();
      SliceOfSlice(tmpOutBuffer[..], tmpOut, tmpOutSize, tmpOutStart, tmpOutSize - tmpOutStart);
    }

    method PreserveDict(env: Env)
      requires EnvOk(env) && Shape() && FrameOk() && BuffersOk() && StageOk(env) && BlocksOk(false)
      requires InBlocks() && dStage != Init && dStage != FlushOut && frame.linked && dict != null
      requires dict != tmpOutBuffer
      modifies tmpOutBuffer, `dict, `dictOff, `dictSize, `tmpOut
      ensures Valid(env) && dict == tmpOutBuffer
    {
      hide Valid, FrameOk, BuffersOk, EnvOk, DictShows, IsBlockSize;
      TmpIsLarge();
      KeepDict(frame.content);
      CloseBlocks(env);
    }

    lemma TmpIsLarge()
      requires Shape() && FrameOk() && BuffersOk() && frame.linked
      ensures tmpOutBuffer.Length >= 3 * KB64
    {
      hide IsBlockSize;
      FrameParameters();
    }

    // The option to skip checksums holds for the rest of the frame.
    method SetSkip(env: Env, skip: bool)
      requires Valid(env) && AtRest()
      modifies `skipChecksum, `spec
      ensures Valid(env) && skipChecksum == (old(skipChecksum) || skip) && spec == old(spec).(skip := skipChecksum)
    {
      hide AtRest, StageOk, Shape, FrameOk, BlocksOk, NoHistory, EnvOk;
      SameSkip(env);
      if skip && !skipChecksum {
        Opened(env);
        TurnSkipOn(env);
      }
    }

    method TurnSkipOn(env: Env)
      requires header.Length == 19 && StageOk(env) && AtRest()
      modifies `skipChecksum, `spec
      ensures StageOk(env) && skipChecksum && spec == old(spec).(skip := true)
    {
      hide FeedAll, EndMark, HeaderPart, Frame.SumSize;
      if dStage == StoreFrameHeader { SkipCommutes(env, At(Reading(Magic, 4, [])), header[..tmpInSize], tmpInTarget); }
      skipChecksum := true;
      spec := spec.(skip := true);
    }

    lemma Opened(env: Env)
      requires Valid(env)
      ensures EnvOk(env) && Shape() && header.Length == 19 && StageOk(env)
      ensures InFrame() ==> FrameOk()
      ensures InFrame() && dStage != Init ==> BuffersOk()
      ensures InBlocks() && dStage != Init ==> BlocksOk(dStage == FlushOut)
      ensures dStage == GetFrameHeader || dStage == StoreFrameHeader || dStage == Init ==> NoHistory()
      ensures dStage == GetFrameHeader || dStage == StoreFrameHeader ==> frameRemainingSize == 0
    {
      hide StageOk, FrameOk, BuffersOk, BlocksOk, NoHistory, EnvOk, IsBlockSize;
    }

    lemma SameSkip(env: Env)
      requires Valid(env) && AtRest()
      ensures spec.skip == skipChecksum
    {
      hide FrameOk, BuffersOk, BlocksOk, NoHistory, EnvOk, FeedAll, EndMark, IsBlockSize;
      if dStage == StoreFrameHeader { SkipCommutes(env, At(Reading(Magic, 4, [])), header[..tmpInSize], tmpInTarget); }
    }

    // LZ4F_decompress.  A hint of zero means that a frame is complete.
    method Decompress(env: Env, src: seq<byte>, dst: array<byte>, lo: nat, hi: nat, stableDst: bool,
                      skipChecksums: bool)
      returns (flow: Flow, consumed: nat, produced: nat)
      requires Valid(env) && AtRest() && lo <= hi <= dst.Length
      requires dst != header && dst != tmpIn && dst != tmpOutBuffer
      requires InBlocks() && dict == dst ==> dictOff + dictSize <= lo || hi <= dictOff
      modifies this, header, tmpIn, tmpOutBuffer, dst
      ensures flow.Stop? || flow.Err?
      ensures var start := old(spec).(skip := old(skipChecksum) || skipChecksums);
              && (flow.Stop? ==>
                    && Valid(env) && AtRest() && consumed <= |src| && spec == FeedAll(env, start, src[..consumed])
                    && Gave(old(delivered), delivered, old(dst[..]), dst[..], lo, lo + produced, hi)
                    && Roomy(env, start, src[..consumed], old(Room(dst, lo, hi))))
              // failure is the format's, or that of a torn block apart from its history
              && (flow.Err? ==>
                    if apart then
                      && flow.error == DecompressionFailed
                      && Tore(env, start, src, old(frames), old(Room(dst, lo, hi)))
                    else Fails(env, start, src, old(frames), flow.error))
      // a call goes on as long as it can
      ensures flow.Stop? ==> flow.hint == 0 || consumed == |src| || lo + produced == hi
      ensures flow.Stop? ==> frames == old(frames) + if flow.hint == 0 then 1 else 0
      ensures flow.Stop? ==> (flow.hint == 0 ==> dStage == GetFrameHeader && consumed > 0)
      ensures flow.Stop? && src != [] && lo < hi ==> consumed > 0 || produced > 0 || flow.hint == 0
      ensures flow.Stop? && !stableDst ==> Repr() == {this, header, tmpIn, tmpOutBuffer} && dst !in Repr()
      ensures Allocated()
      ensures (tmpIn == old(tmpIn) || fresh(tmpIn)) && (tmpOutBuffer == old(tmpOutBuffer) || fresh(tmpOutBuffer))
    {
      hide Valid, CallOk, FeedAll, Gave, Allocated, InPlace, Roomy, Tore, Fails;
      ghost var room := Room(dst, lo, hi);
      SetSkip(env, skipChecksums);
      ghost var start, d0, s0 := spec, delivered, dst[..];
      var srcPtr: nat, dstPtr: nat := 0, lo;
      CallStarts(env, dst, lo, hi);
      GaveNothing(d0, s0, lo, hi);
      NothingFed(env, start, src, 0);
      FedSoFar(env, start, src, 0, 0);
      QuietIsRoomy(env, start, src[..0], room);
      flow := Go;
      while flow.Go?
        invariant srcPtr <= |src| && lo <= dstPtr <= hi
        invariant Valid(env) && spec == FeedAll(env, start, src[..srcPtr]) && !flow.Err?
        invariant Gave(d0, delivered, s0, dst[..], lo, dstPtr, hi)
        invariant flow.Go? ==> CallOk(dst, lo, dstPtr, hi)
        invariant Roomy(env, start, src[..srcPtr], room)
        invariant flow.Go? && room.Some? ==> Room(dst, dstPtr, hi) == room
        invariant frames == old(frames) + if flow == Stop(0) then 1 else 0
        invariant Unrested(flow) ==> srcPtr > 0
        invariant flow.Stop? ==>
                    && AtRest() && (flow.hint == 0 ==> dStage == GetFrameHeader)
                    && (flow.hint == 0 || srcPtr == |src| || dstPtr == hi)
        invariant (tmpIn == old(tmpIn) || fresh(tmpIn)) && (tmpOutBuffer == old(tmpOutBuffer) || fresh(tmpOutBuffer))
        decreases flow.Go?, |src| - srcPtr, Rank(dStage)
      {
        ghost var p, q, d1, s1, r := srcPtr, dstPtr, delivered, dst[..], Room(dst, dstPtr, hi);
        flow, srcPtr, dstPtr := Stage1(env, src, srcPtr, dst, lo, dstPtr, hi);
        if flow.Err? {
          if apart { LaterRoom(env, start, src, p, old(frames), room, r); }
          else { FailsLater(env, start, src, p, old(frames), flow.error); }
          return flow, 0, 0;
        }
        FedSoFar(env, start, src, p, srcPtr);
        MoreRoom(env, start, src, p, srcPtr, room, r);
        GaveMore(d0, d1, delivered, s0, s1, dst[..], lo, q, dstPtr, hi);
        GaveBounds(d1, delivered, s1, dst[..], q, dstPtr, hi);
      }
      consumed, produced := srcPtr, dstPtr - lo;
      DstApart(env, dst);
      PreserveHistory(env, stableDst);
      ValidAllocated(env);
    }

    lemma CallStarts(env: Env, dst: array<byte>, lo: nat, hi: nat)
      requires Valid(env) && lo <= hi <= dst.Length && dst != header && dst != tmpIn && dst != tmpOutBuffer
      requires InBlocks() && dict == dst ==> dictOff + dictSize <= lo || hi <= dictOff
      ensures CallOk(dst, lo, lo, hi)
    {
      hide Shape, FrameOk, BuffersOk, BlocksOk, EnvOk, StageOk, Given;
      assert dst[lo..lo] == [];
    }

    lemma DstApart(env: Env, dst: array<byte>)
      requires Valid(env)
      ensures dict != header && dict != tmpIn
    {
      hide FrameOk, BuffersOk, BlocksOk, EnvOk, StageOk, IsBlockSize;
    }
  }

  // Of a part with the room of the whole, or any.
  lemma MoreRoom(env: Env, m: Machine, s: seq<byte>, p: nat, q: nat, room: Option<nat>, r: Option<nat>)
    requires p <= q <= |s| && (room.Some? ==> r == room)
    requires Roomy(env, m, s[..p], room) && Roomy(env, FeedAll(env, m, s[..p]), s[p..q], r)
    ensures Roomy(env, m, s[..q], room)
  {
    hide FeedAll, TearsAt, Cramped;
    RoomyMore(env, m, s, p, q, room);
  }

  lemma LaterRoom(env: Env, m: Machine, s: seq<byte>, p: nat, frames: nat, room: Option<nat>, r: Option<nat>)
    requires p <= |s| && (room.Some? ==> r == room) && Tore(env, FeedAll(env, m, s[..p]), s[p..], frames, r)
    ensures Tore(env, m, s, frames, room)
  {
    hide FeedAll, TearsAt, Cramped;
    ToreLater(env, m, s, p, frames, r);
  }

  lemma GaveBounds(d0: seq<byte>, d1: seq<byte>, was: seq<byte>, now: seq<byte>, a: nat, b: nat, hi: nat)
    requires Gave(d0, d1, was, now, a, b, hi)
    ensures a <= b <= hi
  {
  }

  lemma FedSoFar(env: Env, m: Machine, src: seq<byte>, p: nat, q: nat)
    requires p <= q <= |src|
    ensures FeedAll(env, m, src[..q]) == FeedAll(env, FeedAll(env, m, src[..p]), src[p..q])
    ensures FeedAll(env, m, src[..0]) == m
  {
    assert src[..q] == src[..p] + src[p..q];
    FeedAppend(env, m, src[..p], src[p..q]);
  }

  lemma FedRest(env: Env, m: Machine, src: seq<byte>, p: nat)
    requires p <= |src|
    ensures FeedAll(env, m, src) == FeedAll(env, FeedAll(env, m, src[..p]), src[p..])
  {
    assert src == src[..p] + src[p..];
    FeedAppend(env, m, src[..p], src[p..]);
  }

  // While a header is collected, the checksum option changes nothing else.
  lemma SkipCommutes(env: Env, m: Machine, t: seq<byte>, target: nat)
    requires m.stage == Reading(Magic, 4, []) && HeaderPart(t, target) && |t| < target
    ensures FeedAll(env, m.(skip := true), t) == FeedAll(env, m, t).(skip := true)
    ensures FeedAll(env, m, t).skip == m.skip
  {
    hide Feed, Skippable, FlagError, HeadDone;
    var m' := m.(skip := true);
    if |t| < 4 {
      FeedField(env, m, t);
      FeedField(env, m', t);
    } else if |t| < 7 {
      HeaderFed(env, m, t);
      HeaderFed(env, m', t);
    } else {
      HeaderFedLong(env, m, t);
      HeaderFedLong(env, m', t);
    }
  }

  lemma HeaderIsQuiet(env: Env, m: Machine, t: seq<byte>, target: nat)
    requires m.stage == Reading(Magic, 4, []) && HeaderPart(t, target) && |t| < target
    ensures FeedAll(env, m, t).torn == m.torn
  {
    hide FeedAll, Skippable, FlagError, HeadDone;
    if |t| < 4 { FeedField(env, m, t); } else if |t| < 7 { HeaderFed(env, m, t); } else { HeaderFedLong(env, m, t); }
  }

  lemma EndMarkIsQuiet(m: Machine, f: Frame)
    ensures EndMark(m, f).torn == m.torn
  {
  }

  // Stages that can follow one another without reading anything.
  function Rank(s: DStage): nat {
    match s
    case Init | CopyDirect | GetCBlock | FlushOut | GetSuffix | GetSFrameSize => 2
    case GetFrameHeader | GetBlockHeader => 1
    case _ => 0
  }

  lemma SuffixFed(env: Env, m: Machine, f: Frame, got: seq<byte>, x: seq<byte>)
    requires m.stage == Reading(Suffix(f), 4, got) && |got| < 4 && |got| + |x| <= 4
    ensures FeedAll(env, m, x) ==
            if |got + x| < 4 then m.(stage := Reading(Suffix(f), 4, got + x))
            else if !m.skip && LE32(got + x) != env.xxh(f.content) then m.Fail(ContentChecksumInvalid)
            else m.End()
  {
    hide FeedAll, LE32;
    FeedField(env, m, x);
  }

  lemma SkipSizeFed(env: Env, m: Machine, got: seq<byte>, x: seq<byte>)
    requires m.stage == Reading(SkipSize, 4, got) && |got| < 4 && |got| + |x| <= 4
    ensures FeedAll(env, m, x) ==
            if |got + x| < 4 then m.(stage := Reading(SkipSize, 4, got + x))
            else if LE32(got + x) == 0 then m.End() else m.(stage := Skip(LE32(got + x)))
  {
    hide FeedAll, LE32;
    FeedField(env, m, x);
  }

  // What was pending is what is handed over and what stays pending.
  lemma FlushSplit(was: seq<byte>, now: seq<byte>, at: nat, size: nat, start: nat, n: nat)
    requires start + n <= size && at + size <= |was| == |now| && now[at..at + size] == was[at..at + size]
    ensures was[at + start..at + start + n] + now[at + (start + n)..at + size] == was[at + start..at + size]
  {
    SliceOfSlice(was, at, size, start + n, size - (start + n));
    SliceOfSlice(now, at, size, start + n, size - (start + n));
    assert was[at + start..at + size] == was[at + start..at + start + n] + was[at + (start + n)..at + size];
  }

  lemma EndSlice(h: seq<byte>, size: nat, start: nat, n: nat)
    requires size <= |h| && start + n <= size
    ensures h[..|h| - size + start] + h[|h| - size..][start..start + n] == h[..|h| - size + (start + n)]
  {
  }

  lemma BlockFed(env: Env, m: Machine, f: Frame, got: seq<byte>, x: seq<byte>)
    requires m.stage.Reading? && m.stage.what == Block(f) && m.stage.got == got && f.SumSize() < m.stage.need
    requires |got| < m.stage.need && |got| + |x| <= m.stage.need
    ensures FeedAll(env, m, x) ==
            if |got + x| < m.stage.need then m.(stage := Reading(Block(f), m.stage.need, got + x))
            else BlockDone(env, m.(stage := Skip(0)), f, got + x)
  {
    hide FeedAll, LE32, Frame.Take, Frame.History;
    FeedField(env, m, x);
  }

  // Only the last byte of a block can complete it as a torn one.
  lemma BlockTears(env: Env, m: Machine, f: Frame, got: seq<byte>, x: seq<byte>)
    requires m.stage.Reading? && m.stage.what == Block(f) && m.stage.got == got && f.SumSize() < m.stage.need
    requires |got| < m.stage.need && |got| + |x| <= m.stage.need
    ensures forall q: nat :: 0 < q <= |x| && TearsAt(env, m, x, q) ==>
                               q == |x| && |got| + |x| == m.stage.need && FeedAll(env, m, x).torn > m.torn
    ensures x != [] && FeedAll(env, m, x).torn > m.torn ==> TearsAt(env, m, x, |x|)
    ensures x != [] ==>
              var m1 := FeedAll(env, m, x[..|x| - 1]); m1.out == m.out && m1.stage.Reading? && m1.stage.what == Block(f)
  {
    hide FeedAll, BlockDone;
    forall q: nat | q < |x|
      ensures FeedAll(env, m, x[..q]) == m.(stage := Reading(Block(f), m.stage.need, got + x[..q]))
    {
      BlockFed(env, m, f, got, x[..q]);
    }
    BlockFed(env, m, f, got, x);
    assert x[..|x|] == x;
  }

  // What the outcome of a block says about torn blocks.
  lemma BlockRoomy(env: Env, m: Machine, f: Frame, got: seq<byte>, x: seq<byte>, room: Option<nat>)
    requires m.stage.Reading? && m.stage.what == Block(f) && m.stage.got == got && f.SumSize() < m.stage.need
    requires |got| < m.stage.need && |got| + |x| <= m.stage.need
    requires FeedAll(env, m, x).torn > m.torn && room.Some? ==> |m.out| + f.maxBlock <= room.value
    ensures Roomy(env, m, x, room)
  {
    hide FeedAll, TearsAt;
    BlockTears(env, m, f, got, x);
    if room.Some? {
      forall q: nat | 0 < q <= |x| && TearsAt(env, m, x, q)
        ensures !Cramped(FeedAll(env, m, x[..q - 1]), room.value)
      {
      }
    }
  }

  lemma BlockTore(env: Env, m: Machine, f: Frame, got: seq<byte>, src: seq<byte>, p: nat, q: nat, frames: nat,
                  room: Option<nat>)
    requires m.stage.Reading? && m.stage.what == Block(f) && m.stage.got == got && f.SumSize() < m.stage.need
    requires p < q <= |src| && |got| < m.stage.need && |got| + (q - p) <= m.stage.need
    requires FeedAll(env, m, src[p..q]).torn > m.torn && FeedAll(env, m, src[p..q]).frames == frames
    requires room.Some? ==> |m.out| + f.maxBlock > room.value
    ensures Tore(env, m, src[p..], frames, room)
  {
    hide FeedAll, TearsAt;
    var x := src[p..q];
    BlockTears(env, m, f, got, x);
    assert src[p..|src|] == src[p..] && src[p..][..q - p] == x && x[..|x|] == x;
    assert src[p..][..q - p - 1] == x[..|x| - 1];
    assert TearsAt(env, m, src[p..], q - p) by { SameTear(env, m, src[p..], x, q - p); }
  }

  lemma SameTear(env: Env, m: Machine, s: seq<byte>, x: seq<byte>, q: nat)
    requires 0 < q == |x| <= |s| && s[..q] == x && TearsAt(env, m, x, q)
    ensures TearsAt(env, m, s, q)
  {
    hide FeedAll;
    assert s[..q - 1] == x[..q - 1] && x[..q] == x;
  }

  lemma TakeAdds(f: Frame, x: seq<byte>)
    ensures f.Take(x).content == f.content + x && f.Take(x).linked == f.linked
  {
  }

  lemma RoomReady(h: seq<byte>, x: seq<byte>, room: nat)
    requires if |h| < KB64 then room == |h| else room >= KB64
    ensures RoomFor(h + x, |x|, room)
  {
  }

  lemma EmptyWindow()
    ensures Window([]) == []
  {
  }

  lemma Given1(d: seq<byte>, x: seq<byte>, was: seq<byte>, now: seq<byte>, a: nat, b: nat, hi: nat)
    requires a <= b <= hi <= |now| == |was| && now[..a] == was[..a] && now[hi..] == was[hi..] && now[a..b] == x
    ensures Gave(d, d + x, was, now, a, b, hi)
  {
  }

  lemma RawSumFed(env: Env, m: Machine, f: Frame, block: seq<byte>, got: seq<byte>, x: seq<byte>)
    requires m.stage == Reading(RawSum(f, block), 4, got) && |got| < 4 && |got| + |x| <= 4
    ensures FeedAll(env, m, x) ==
            if |got + x| < 4 then m.(stage := Reading(RawSum(f, block), 4, got + x))
            else if !m.skip && LE32(got + x) != env.xxh(block) then m.Fail(BlockChecksumInvalid)
            else m.Next(f)
  {
    hide FeedAll, LE32;
    FeedField(env, m, x);
  }

  // Where the machine is with `left` bytes of an uncompressed block to come.
  function RawAt(skip: bool, out: seq<byte>, frames: nat, torn: nat, f: Frame, block: seq<byte>, left: nat): Machine {
    if left == 0 then AfterRaw(Machine(skip, out, frames, torn, Skip(0)), f, block)
    else Machine(skip, out, frames, torn, Raw(f, block, left))
  }

  lemma RawFed(env: Env, skip: bool, out: seq<byte>, frames: nat, torn: nat, f: Frame, block: seq<byte>, left: nat,
               x: seq<byte>)
    requires |x| <= left
    ensures FeedAll(env, RawAt(skip, out, frames, torn, f, block, left), x) ==
            RawAt(skip, out + x, frames, torn, f.Take(x), block + x, left - |x|)
  {
    if |x| == 0 {
      TakeNothing(f);
      assert out + x == out && block + x == block;
      assert x == [];
    } else {
      hide FeedAll;
      FeedRaw(env, RawAt(skip, out, frames, torn, f, block, left), x);
    }
  }

  lemma SuffixGrows(b: seq<byte>, g: seq<byte>, x: seq<byte>)
    requires IsSuffix(b, g)
    ensures IsSuffix(b + x, g + x)
  {
    assert (g + x)[|g + x| - |b + x|..] == g[|g| - |b|..] + x;
  }

  // Buffers that need no reallocation were made for blocks at least as large.
  lemma EnoughBuffer(tmpInLength: nat, max: nat, maxBlock: nat, linked: bool)
    requires max == 0 || (tmpInLength >= 4 && IsBlockSize(tmpInLength - 4)
                          && (max == tmpInLength - 4 || max == tmpInLength - 4 + 2 * KB64))
    requires IsBlockSize(maxBlock)
    ensures maxBlock + (if linked then 2 * KB64 else 0) <= max ==> maxBlock + 4 <= tmpInLength
  {
  }

  lemma BlockHeadFed(env: Env, m: Machine, x: seq<byte>, f: Frame)
    requires m.stage == Reading(BlockHead(f), 4, []) && |x| == 4
    ensures FeedAll(env, m, x) == BlockHeadDone(m.(stage := Skip(0)), f, LE32(x))
  {
    hide FeedAll, LE32;
    FeedField(env, m, x);
    assert [] + x == x;
  }

  lemma BlockHeadStored(env: Env, m: Machine, got: seq<byte>, x: seq<byte>, f: Frame)
    requires m.stage == Reading(BlockHead(f), 4, got) && |got| < 4 && |got| + |x| <= 4
    ensures FeedAll(env, m, x) == if |got + x| < 4 then m.(stage := Reading(BlockHead(f), 4, got + x))
                                  else BlockHeadDone(m.(stage := Skip(0)), f, LE32(got + x))
  {
    hide FeedAll, LE32;
    FeedField(env, m, x);
  }

  // A failure within the source is the failure of the whole.
  lemma RefusedHere(env: Env, m: Machine, src: seq<byte>, p: nat, q: nat, frames: nat, e: Error)
    requires p <= q <= |src| && FeedAll(env, m, src[p..q]).frames == frames
    requires FeedAll(env, m, src[p..q]).stage == Failed(e)
    ensures Fails(env, m, src[p..], frames, e)
  {
    hide FeedAll;
    assert src[p..][..q - p] == src[p..q];
  }

  lemma NothingFed(env: Env, m: Machine, src: seq<byte>, p: nat)
    requires p <= |src|
    ensures FeedAll(env, m, src[p..p]) == m
  {
  }

  lemma LongEnough(b: seq<byte>, h: seq<byte>, x: seq<byte>)
    requires IsSuffix(b, h) && |b| + |x| >= KB64
    ensures Window(b + x) == Window(h + x)
  {
    hide Window;
    var g := h[..|h| - |b|];
    assert h + x == g + (b + x);
    WindowLong(g, b + x);
  }
}
