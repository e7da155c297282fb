// LZ4F_compressBegin, _compressUpdate, _flush and _compressEnd: the buffering
// frame compressor.
module FrameCompressor {
  import opened Arithmetic
  import opened BlockAcceptance
  import opened BlockFormat
  import opened Dictionaries
  import opened Emit
  import opened FastCompressor
  import opened HcMid
  import HcMatchFinder
  import HcStreaming
  import HighCompression
  import opened FrameFormat
  import opened FrameHistory
  import opened FrameText
  import opened Buffers

  // What compression takes from elsewhere: the environment that will decode and
  // the hash functions of the block compressors.
  datatype Coder = Coder(env: Env, hash16: HashFn, hash32: HashFn, hcHashes: Hashes)

  // Nothing but the range of the sums and the hashes.
  ghost predicate CoderOk(c: Coder) {
    EnvOk(c.env) && HashInto(c.hash16, TABLE_SIZE) && HashInto(c.hash32, TABLE_SIZE) && HashesOk(c.hcHashes)
  }

  // The block decodes to x in the frame, wherever the reader keeps its history.
  ghost predicate ReadsAs(f: Frame, block: seq<byte>, x: seq<byte>) {
    DecodeBlock(Behind, block, f.History(), f.maxBlock) == Some(x) && !Torn(block, f.History(), f.maxBlock)
  }

  // A strict block behind the end of what the frame holds.
  lemma StrictReads(f: Frame, block: seq<byte>, d: seq<byte>, x: seq<byte>)
    requires StrictBehind(block, d, x) && 0 < |x| <= f.maxBlock
    requires if f.linked then EndsWith(f.content, d) else d == []
    ensures ReadsAs(f, block, x)
  {
    hide StrictBehind, DecodeBlock, Torn, Window;
    if f.linked {
      var h := f.content;
      assert h == h[..|h| - |d|] + d;
      StrictWiden(block, h[..|h| - |d|], d, x);
      StrictAccepted(Behind, block, h, x, f.maxBlock);
      StrictAccepted(Apart, block, h, x, f.maxBlock);
      WindowDecides(Behind, block, h, f.maxBlock);
      WindowDecides(Apart, block, h, f.maxBlock);
    } else {
      StrictAccepted(Behind, block, [], x, f.maxBlock);
      StrictAccepted(Apart, block, [], x, f.maxBlock);
    }
    LayoutsDiffer(block, f.History(), f.maxBlock);
  }

  // A run is compressed if there is room for what it takes.
  ghost predicate Shrunk(src: seq<byte>, cap: nat, body: Option<seq<byte>>) {
    IsRun(src, 0) && cap >= RunBound(|src|) ==> body.Some? && |body.value| <= RunBound(|src|)
  }

  // The allocation that is tmpBuff; the caller's memory is elsewhere.
  const TMP := 0

  ghost predicate InTmp(p: Place) {
    p.Place? && p.space == TMP
  }

  // What was compressed last, d at p, stands directly in front of tmpIn if it
  // lies in tmpBuff.
  ghost predicate Stands(d: seq<byte>, p: Place, buf: seq<byte>, tmpIn: nat) {
    InTmp(p) && d != [] ==> p.at + |d| == tmpIn <= |buf| && buf[p.at..p.at + |d|] == d
  }

  // An external dictionary in tmpBuff means that what was compressed last lies
  // elsewhere; the dictionary stands until something is buffered, when the next
  // block will not refer to it any more.
  ghost predicate FarStands(far: seq<byte>, farAt: Place, nearAt: Place, buf: seq<byte>, tmpInSize: nat) {
    InTmp(farAt) && far != [] ==>
      && nearAt.Place? && nearAt.space != TMP
      && (tmpInSize == 0 ==> farAt.at + |far| <= |buf| && buf[farAt.at..farAt.at + |far|] == far)
  }

  lemma FarWhileBuffering(far: seq<byte>, farAt: Place, nearAt: Place, was: seq<byte>, size: nat, now: seq<byte>,
                          size': nat)
    requires FarStands(far, farAt, nearAt, was, size) && size' > 0
    ensures FarStands(far, farAt, nearAt, now, size')
  {
  }

  // After a block from tmpIn no external dictionary lies in tmpBuff.
  lemma FarAfterTmp(d0: seq<byte>, q0: Place, s0: seq<byte>, p0: Place, d1: seq<byte>, q1: Place, buf: seq<byte>,
                    tmpIn: nat, tmpInSize: nat)
    requires Stands(s0, p0, buf, tmpIn) && FarStands(d0, q0, p0, buf, tmpInSize)
    requires Leaves(d0, q0, s0, p0, Place(TMP, tmpIn), d1, q1)
    ensures d1 != [] ==> !InTmp(q1)
  {
  }

  // After a block from the source the one that lies there stands.
  lemma FarAfterSrc(d0: seq<byte>, q0: Place, s0: seq<byte>, p0: Place, at: Place, p1: Place, d1: seq<byte>, q1: Place,
                    buf: seq<byte>, tmpIn: nat)
    requires Stands(s0, p0, buf, tmpIn) && FarStands(d0, q0, p0, buf, 0)
    requires Leaves(d0, q0, s0, p0, at, d1, q1) && p1.Place? && p1.space != TMP
    ensures FarStands(d1, q1, p1, buf, 0)
  {
    hide EndsWith;
    if d1 != [] && InTmp(q1) {
      if p0.Plus(|s0|) == at {
        EndStands(d0, q0, d1, q1, buf);
      } else {
        EndStands(s0, p0, d1, q1, buf);
      }
    }
  }

  lemma EndStands(d0: seq<byte>, q0: Place, d1: seq<byte>, q1: Place, buf: seq<byte>)
    requires Remains(d0, q0, d1, q1) && d1 != [] && InTmp(q1)
    requires InTmp(q0) && d0 != [] ==> q0.at + |d0| <= |buf| && buf[q0.at..q0.at + |d0|] == d0
    ensures q1.at + |d1| <= |buf| && buf[q1.at..q1.at + |d1|] == d1
  {
    SliceOfSlice(buf, q0.at, |d0|, |d0| - |d1|, |d1|);
  }

  lemma EndOfBoth(d0: seq<byte>, x: seq<byte>, d1: seq<byte>, k: nat)
    requires EndsWith(d0 + x, d1) && |d1| == |x| + k
    ensures k <= |d0| && d1 == d0[|d0| - k..] + x
  {
  }

  lemma SliceGrows(buf: seq<byte>, at: nat, k: nat, x: seq<byte>, e: seq<byte>)
    requires k <= at && at + |x| <= |buf| && buf[at..at + |x|] == x && buf[at - k..at] == e
    ensures buf[at - k..at - k + |e + x|] == e + x
  {
    assert buf[at - k..at + |x|] == buf[at - k..at] + buf[at..at + |x|];
  }

  // It still does after a block from tmpIn.
  lemma StandsMore(d0: seq<byte>, p0: Place, x: seq<byte>, d1: seq<byte>, p1: Place, buf: seq<byte>, tmpIn: nat)
    requires Stands(d0, p0, buf, tmpIn) && Continues(d0, p0, x, Place(TMP, tmpIn), d1, p1)
    requires tmpIn + |x| <= |buf| && buf[tmpIn..tmpIn + |x|] == x && x != []
    ensures Stands(d1, p1, buf, tmpIn + |x|)
  {
    hide EndsWith;
    var k := |d1| - |x|;
    EndOfBoth(d0, x, d1, k);
    var e := d0[|d0| - k..];
    assert p1 == Place(TMP, tmpIn - k);
    assert buf[tmpIn - k..tmpIn] == e by {
      if k > 0 { SliceOfSlice(buf, tmpIn - |d0|, |d0|, |d0| - k, k); }
    }
    SliceGrows(buf, tmpIn, k, x, e);
  }

  // A dictionary in the caller's memory needs nothing of tmpBuff.
  lemma StandsElsewhere(d0: seq<byte>, p0: Place, x: seq<byte>, at: Place, d1: seq<byte>, p1: Place)
    requires Continues(d0, p0, x, at, d1, p1) && at.Place? && at.space != TMP
    ensures p1.Place? && p1.space != TMP
  {
  }

  lemma StandsKept(d: seq<byte>, p: Place, was: seq<byte>, now: seq<byte>, tmpIn: nat, n: nat)
    requires Stands(d, p, was, tmpIn) && tmpIn <= n <= |now| == |was| && now[..n] == was[..n]
    ensures Stands(d, p, now, tmpIn)
  {
    if InTmp(p) && d != [] { TakeSlice(now, was, n, p.at, |d|); }
  }

  datatype WriteError = CompressionStateUninitialized | DstMaxSizeTooSmall | WrongFrameSize
  datatype Outcome = Written(size: nat) | Failure(error: WriteError)

  // The largest output for n bytes in blocks, with `overhead` for each.
  function BlocksBound(n: nat, blockSize: nat, overhead: nat, flush: bool): nat
    requires blockSize > 0
  {
    var nbFullBlocks := n / blockSize;
    var lastBlockSize := if flush then n % blockSize else 0;
    overhead * (nbFullBlocks + if lastBlockSize > 0 then 1 else 0) + blockSize * nbFullBlocks + lastBlockSize
  }

  // LZ4F_compressBound_internal
  function CompressBoundInternal(srcSize: nat, p: Prefs, alreadyBuffered: nat): nat {
    var flush := p.autoFlush || srcSize == 0;
    var blockSize := BlockSize(p.blockSizeID);
    var bufferedSize := if alreadyBuffered < blockSize - 1 then alreadyBuffered else blockSize - 1;
    var frameEnd := 4 + if p.contentSum then 4 else 0;
    BlocksBound(srcSize + bufferedSize, blockSize, 4 + (if p.blockSum then 4 else 0), flush) + frameEnd
  }

  // The room that writing n bytes in blocks takes, the last block only if
  // everything is flushed.
  function BlocksRoom(n: nat, blockSize: nat, overhead: nat, flush: bool): nat
    requires blockSize > 0
  {
    if n >= blockSize then overhead + blockSize + BlocksRoom(n - blockSize, blockSize, overhead, flush)
    else if flush && n > 0 then overhead + n else 0
  }

  lemma {:induction false} BlocksRoomClosed(n: nat, blockSize: nat, overhead: nat, flush: bool)
    requires blockSize > 0
    ensures BlocksRoom(n, blockSize, overhead, flush) == BlocksBound(n, blockSize, overhead, flush)
    decreases n
  {
    if n >= blockSize {
      BlocksRoomClosed(n - blockSize, blockSize, overhead, flush);
      DivStep(n, blockSize);
      var q := n / blockSize;
      var e := if (if flush then n % blockSize else 0) > 0 then 1 else 0;
      MulStep(overhead, q + e);
      MulStep(blockSize, q);
    } else {
      DivSmall(n, blockSize);
    }
  }

  // The bound covers what is written and leaves room for the end of the frame.
  lemma BoundCovers(srcSize: nat, p: Prefs, buffered: nat)
    requires buffered < BlockSize(p.blockSizeID)
    ensures CompressBoundInternal(srcSize, p, buffered)
         >= 4 + BlocksRoom(srcSize + buffered, BlockSize(p.blockSizeID), 4 + (if p.blockSum then 4 else 0), p.autoFlush)
  {
    hide BlocksRoom, BlocksBound, BlockSize;
    var b, o := BlockSize(p.blockSizeID), 4 + if p.blockSum then 4 else 0;
    BlocksRoomClosed(srcSize + buffered, b, o, p.autoFlush);
    FlushBound(srcSize + buffered, b, o);
  }

  // Flushing never lowers the bound.
  lemma FlushBound(n: nat, b: nat, o: nat)
    requires b > 0
    ensures BlocksBound(n, b, o, true) >= BlocksBound(n, b, o, false)
  {
    MulStep(o, n / b + 1);
  }

  // LZ4F_cctx.  The hash state stands for the bytes it has absorbed; `lz4` and
  // `hc` are the two contexts of which one is in use.  The ghost fields are
  // everything written for the current frame, everything taken in for it, and the
  // frame as a reader of that text sees it.
  class Context {
    var prefs: Prefs
    var cStage: nat
    var maxBlockSize: nat
    var maxBufferSize: nat
    var tmpBuff: array<byte>
    var tmpIn: nat
    var tmpInSize: nat
    var totalInSize: nat
    var xxh: seq<byte>
    var lz4: Stream
    var hc: HcMatchFinder.Context
    ghost var text: seq<byte>
    ghost var input: seq<byte>
    ghost var frame: Frame

    ghost predicate Shape()
      reads `tmpBuff, `lz4, `maxBufferSize, lz4, lz4.hashTable, `hc, hc, hc.hashTable, hc.chainTable
    {
      && lz4.Valid() && maxBufferSize == tmpBuff.Length && hc.Usable() && TablesApart()
      && lz4.hashTable != hc.hashTable && lz4.hashTable != hc.chainTable
    }

    // No table is the buffer.
    ghost predicate TablesApart()
      reads `tmpBuff, `lz4, `hc
    {
      && lz4.hashTable as object != tmpBuff && hc.hashTable as object != tmpBuff
      && hc.chainTable as object != tmpBuff
    }

    // A buffer that is none of ours.
    ghost predicate Clear(dst: array<byte>)
      reads `tmpBuff, `lz4, `hc
    {
      && dst != tmpBuff && dst as object != lz4.hashTable
      && dst as object != hc.hashTable && dst as object != hc.chainTable
    }

    // The text written so far opens a frame, and its reader stands between
    // two blocks.
    ghost predicate Reads(env: Env)
      reads `text, `frame
    {
      ReadsAfter(env, text, frame)
    }

    // The frame is the one the preferences ask for.
    ghost predicate Params()
      reads `prefs, `frame, `maxBlockSize
    {
      ParamsOf(prefs, maxBlockSize, frame)
    }

    // What the next block may refer to.
    function Dict(): seq<byte>
      reads `prefs, `lz4, lz4`dictionary, `hc, hc`prefix, hc`prefixPlace, hc`dict
    {
      if prefs.level < 2 then lz4.dictionary else hc.Text()
    }

    // Its last segment, and where that lies.
    function Near(): seq<byte>
      reads `prefs, `lz4, lz4`dictionary, `hc, hc`prefix
    {
      if prefs.level < 2 then lz4.dictionary else hc.prefix
    }

    function NearAt(): Place
      reads `prefs, `lz4, lz4`dictPlace, `hc, hc`prefixPlace
    {
      if prefs.level < 2 then lz4.dictPlace else hc.prefixPlace
    }

    // The external dictionary in front of it, which only LZ4 HC has.
    function Far(): seq<byte>
      reads `prefs, `hc, hc`prefixPlace, hc`dict
    {
      if prefs.level < 2 || hc.prefixPlace.Null? then [] else hc.dict
    }

    function FarAt(): Place
      reads `prefs, `hc, hc`dictPlace
    {
      if prefs.level < 2 then Null else hc.dictPlace
    }

    // The dictionary ends what has been compressed, and as far as it lies in
    // tmpBuff it stands there.
    ghost predicate DictFor(h: seq<byte>)
      reads `prefs, `lz4, lz4`dictionary, lz4`dictPlace, `hc, hc`prefix, hc`prefixPlace, hc`dict, hc`dictPlace,
            `tmpBuff, `tmpIn, `tmpInSize, tmpBuff
    {
      && EndsWith(h, Dict()) && Stands(Near(), NearAt(), tmpBuff[..], tmpIn)
      && FarStands(Far(), FarAt(), NearAt(), tmpBuff[..], tmpInSize) && (tmpIn > 0 ==> NearAt().Place?)
    }

    ghost predicate DictOk(c: Coder)
      reads `prefs, `lz4, lz4`dictionary, lz4`dictPlace, lz4`tableType, `hc, hc, hc.hashTable, hc.chainTable,
            `tmpBuff, `tmpIn, `tmpInSize, `frame, tmpBuff
    {
      DictFor(frame.content) && Streams(c)
    }

    // The context in use is fit for going on as a stream.
    ghost predicate Streams(c: Coder)
      reads `prefs, `lz4, lz4`tableType, `hc, hc, hc.hashTable, hc.chainTable
    {
      if prefs.level < 2 then lz4.tableType != ByU16 else HighCompression.Sound(hc, c.hcHashes)
    }

    // tmpBuff is large enough for what the preferences need.
    ghost predicate SizeOk()
      reads `prefs, `tmpIn, `tmpInSize, `maxBlockSize, `maxBufferSize
    {
      && (!prefs.autoFlush ==> maxBufferSize >= maxBlockSize + if prefs.linked then 2 * KB64 else 0)
      && (prefs.autoFlush ==> tmpInSize == 0)
      && (prefs.linked ==> maxBufferSize >= KB64) && (!prefs.linked ==> tmpIn == 0)
    }

    // The next block fits behind tmpIn.
    ghost predicate RoomOk()
      reads `prefs, `tmpIn, `maxBlockSize, `maxBufferSize
    {
      !prefs.autoFlush ==> tmpIn + maxBlockSize <= maxBufferSize
    }

    // What is taken in is either written or buffered.
    ghost predicate Buffered()
      reads `tmpIn, `tmpInSize, `maxBlockSize, `tmpBuff, `frame, `input, tmpBuff
    {
      && tmpInSize <= maxBlockSize && tmpIn + tmpInSize <= tmpBuff.Length
      && frame.content + tmpBuff[tmpIn..tmpIn + tmpInSize] == input
    }

    // In the middle of a frame, but for the room behind tmpIn.
    ghost predicate Core(c: Coder)
      reads `prefs, `cStage, `maxBlockSize, `maxBufferSize, `tmpBuff, `tmpIn, `tmpInSize, `lz4,
            `text, `input, `frame, `hc, tmpBuff, lz4, lz4.hashTable, hc, hc.hashTable, hc.chainTable
    {
      && CoderOk(c) && cStage == 1 && Shape() && Reads(c.env) && Params() && SizeOk() && Buffered()
      && (prefs.linked ==> DictOk(c))
    }

    // The checksum and the size count have seen all input.
    ghost predicate Counted()
      reads `prefs, `xxh, `totalInSize, `input
    {
      (prefs.contentSum ==> xxh == input) && (prefs.contentSize != 0 ==> totalInSize == |input|)
    }

    // In the middle of a frame, between calls.
    ghost predicate Valid(c: Coder)
      reads this, tmpBuff, lz4, lz4.hashTable, hc, hc.hashTable, hc.chainTable
    {
      Core(c) && RoomOk() && Counted() && tmpInSize < maxBlockSize
    }

    ghost function Objects(): set<object>
      reads this, lz4, hc
    {
      {this, tmpBuff, lz4, lz4.hashTable, hc, hc.hashTable, hc.chainTable}
    }

    // LZ4F_createCompressionContext
    constructor ()
      ensures cStage == 0 && Shape() && tmpBuff.Length == 0 && fresh(Objects() - {this})
    {
      prefs := Prefs(true, false, false, 0, 0, 4, 0, false, false);
      cStage, maxBlockSize, maxBufferSize, tmpIn, tmpInSize, totalInSize := 0, 0, 0, 0, 0, 0;
      tmpBuff := new byte[0];
      xxh := [];
      lz4 := new Stream();
      hc := new HcMatchFinder.Context();
      text, input := [], [];
    }

    // A level and a size of which it is known what LZ4 HC does to runs.
    predicate KnownHC(n: nat)
      reads `prefs, `hc, hc`favorDecSpeed
    {
      HighCompression.Plain(prefs.level, n, hc.favorDecSpeed)
    }

    // LZ4F_compressBlock and LZ4F_compressBlockHC: an independent block, by a
    // context that is reset and used again.
    method CompressAlone(c: Coder, src: seq<byte>, at: Place, cap: nat) returns (body: Option<seq<byte>>)
      requires CoderOk(c) && Shape() && 0 < |src| <= MAX_INPUT_SIZE && at.Place?
      modifies lz4, lz4.hashTable, hc, hc.hashTable, hc.chainTable
      ensures Shape()
      ensures body.Some? ==> 0 < |body.value| <= cap && StrictBehind(body.value, [], src)
      ensures prefs.level < 2 || old(KnownHC(|src|)) ==> Shrunk(src, cap, body)
    {
      hide StrictBlock, StrictBehind, EnvOk, HashesOk, IsRun;
      var dst := new byte[cap];
      var n;
      if prefs.level < 2 {
        n := lz4.CompressFastReset(src, dst, Acceleration(), c.hash16, c.hash32);
      } else {
        n := HighCompression.CompressHCFastReset(hc, src, at, dst, prefs.level, c.hcHashes);
        StrictAlone(dst[..n], src);
      }
      body := if n == 0 then None else Some(dst[..n]);
    }

    function Acceleration(): int
      reads `prefs
    {
      if prefs.level < 0 then -prefs.level + 1 else 1
    }

    // LZ4F_compressBlock_continue and LZ4F_compressBlockHC_continue: a block that
    // may refer to the dictionary, which ends with the source afterwards.
    method CompressLinked(c: Coder, src: seq<byte>, at: Place, cap: nat) returns (body: Option<seq<byte>>)
      requires CoderOk(c) && Shape() && Streams(c) && 0 < |src| <= MAX_INPUT_SIZE && at.Place? && cap > 0
      modifies lz4, lz4.hashTable, hc, hc.hashTable, hc.chainTable
      ensures Shape() && Streams(c)
      ensures body.Some? ==> 0 < |body.value| <= cap && StrictBehind(body.value, old(Dict()), src)
      ensures Moved(old(Dict()), old(Near()), old(NearAt()), old(Far()), old(FarAt()), src, at)
      ensures prefs.level < 2 ==> Shrunk(src, cap, body)
    {
      hide StrictBehind, EnvOk, HashesOk, Continues, Leaves, IsRun;
      ghost var d0, s0, p0, far, farAt, dict := Dict(), Near(), NearAt(), Far(), FarAt(), hc.dict;
      var dst := new byte[cap];
      var n;
      if prefs.level < 2 {
        n := lz4.CompressFastContinue(src, at, dst, Acceleration(), c.hash32);
        NothingLeaves(far, farAt, s0, p0, at, FarAt());
        EndsOneSegment(d0, p0, src, at, Near(), NearAt());
      } else {
        n := HcStreaming.CompressHCContinue(hc, c.hcHashes, src, at, dst);
        LeavesAnyway(dict, farAt, s0, p0, at, Far(), FarAt());
      }
      body := if n == 0 then None else Some(dst[..n]);
    }

    // The dictionary after a block: its text, and the segments.
    ghost predicate Moved(d0: seq<byte>, s0: seq<byte>, p0: Place, far: seq<byte>, farAt: Place, src: seq<byte>,
                          at: Place)
      reads `prefs, `lz4, lz4`dictionary, lz4`dictPlace, `hc, hc`prefix, hc`prefixPlace, hc`dict, hc`dictPlace
    {
      && EndsWith(d0 + src, Dict()) && Continues(s0, p0, src, at, Near(), NearAt())
      && Leaves(far, farAt, s0, p0, at, Far(), FarAt())
    }

    // The block compressor in use is known to shrink runs.
    predicate Effective(n: nat)
      reads `prefs, `hc, hc`favorDecSpeed
    {
      prefs.level < 2 || (!prefs.linked && KnownHC(n))
    }

    // One block through the block compressor in use, if it gets any smaller.
    method CompressBlock(c: Coder, src: seq<byte>, at: Place, cap: nat) returns (body: Option<seq<byte>>)
      requires CoderOk(c) && Shape() && Params() && (prefs.linked ==> DictOk(c)) && 0 < |src| <= maxBlockSize
      requires at.Place? && cap > 0
      modifies lz4, lz4.hashTable, hc, hc.hashTable, hc.chainTable
      ensures Shape()
      ensures body.Some? ==> 0 < |body.value| <= cap && ReadsAs(frame, body.value, src)
      ensures prefs.linked ==>
                Streams(c) && Moved(old(Dict()), old(Near()), old(NearAt()), old(Far()), old(FarAt()), src, at)
      ensures old(Effective(|src|)) ==> Shrunk(src, cap, body)
    {
      hide StrictBehind, CoderOk, Moved, ReadsAs, EndsWith, Stands, Shape, Shrunk;
      BlockIsSmall();
      ghost var d := if prefs.linked then Dict() else [];
      if prefs.linked {
        body := CompressLinked(c, src, at, cap);
      } else {
        body := CompressAlone(c, src, at, cap);
      }
      if body.Some? { StrictReads(frame, body.value, d, src); }
    }

    lemma BlockIsSmall()
      requires Params()
      ensures maxBlockSize == frame.maxBlock <= MAX_INPUT_SIZE && frame.linked == prefs.linked
    {
    }

    // Lay out a block: header, body, checksum.
    method PutBlock(env: Env, dst: array<byte>, at: nat, h: nat, body: seq<byte>) returns (n: nat)
      requires EnvOk(env) && h < 0x1_0000_0000 && frame.blockSum == prefs.blockSum
      requires at + 4 + |body| + (if prefs.blockSum then 4 else 0) <= dst.Length
      modifies dst
      ensures n == 4 + |body| + (if prefs.blockSum then 4 else 0)
      ensures dst[at..at + n] == LE32Bytes(h) + (body + Sum(env, frame, body))
      ensures dst[..at] == old(dst[..at]) && dst[at + n..] == old(dst[at + n..])
    {
      hide LE32Bytes;
      ghost var was := dst[..];
      PutBytes(dst, at, LE32Bytes(h));
      TailKept(dst[..], was, at + 4, at + 4 + |body|);
      PutBehind(dst, at, 4, body);
      n := 4 + |body|;
      ghost var front := dst[at..at + n];
      if prefs.blockSum {
        TailKept(dst[..], was, at + n, at + n + 4);
        PutBehind(dst, at, n, LE32Bytes(env.xxh(body)));
        n := n + 4;
      } else {
        assert front == front + [];
      }
    }

    // LZ4F_makeBlock: a block of its own size or smaller, compressed or stored.
    method MakeBlock(c: Coder, src: seq<byte>, srcAt: Place, dst: array<byte>, at: nat) returns (n: nat)
      requires CoderOk(c) && Shape() && Reads(c.env) && Params() && (prefs.linked ==> DictOk(c))
      requires 0 < |src| <= maxBlockSize
      requires srcAt.Place?
      requires at + 4 + |src| + (if prefs.blockSum then 4 else 0) <= dst.Length
      requires Clear(dst)
      modifies lz4, lz4.hashTable, hc, hc.hashTable, hc.chainTable, dst,
               `text, `frame
      ensures Shape() && Reads(c.env) && Params() && frame == old(frame).Take(src)
      ensures prefs.linked ==>
                Streams(c) && Moved(old(Dict()), old(Near()), old(NearAt()), old(Far()), old(FarAt()), src, srcAt)
      ensures n <= 4 + |src| + (if prefs.blockSum then 4 else 0) && at + n <= dst.Length
      // a run is not stored as it is
      ensures old(Effective(|src|)) && IsRun(src, 0) ==> n <= 4 + RunBound(|src|) + (if prefs.blockSum then 4 else 0)
      ensures Grew(old(text), text, old(dst[..]), dst[..], at, at + n)
    {
      hide ReadsAfter, ReadsAs, ParamsOf, DictOk, EnvOk, Shape, Frame.Take, LE32Bytes, Moved, Streams, IsRun;
      RunIsLong(src, 0);
      FrameFacts();
      var dstCapacity := if |src| > 1 then |src| - 1 else 1;
      var body := CompressBlock(c, src, srcAt, dstCapacity);
      if body.None? || |body.value| >= |src| {
        n := PutBlock(c.env, dst, at, 0x8000_0000 + |src|, src);
        RawWritten(c.env, src);
      } else {
        n := PutBlock(c.env, dst, at, |body.value|, body.value);
        BlockWritten(c.env, body.value, src);
      }
      ParamsTake(prefs, maxBlockSize, frame, src);
      text := text + dst[at..at + n];
      frame := frame.Take(src);
    }

    lemma FrameFacts()
      requires Params()
      ensures frame.maxBlock == maxBlockSize && KB64 <= maxBlockSize < 0x8000_0000
      ensures frame.linked == prefs.linked && frame.blockSum == prefs.blockSum && frame.contentSum == prefs.contentSum
    {
    }

    lemma BlockWritten(env: Env, body: seq<byte>, x: seq<byte>)
      requires Reads(env) && EnvOk(env) && 0 < |body| <= frame.maxBlock < 0x8000_0000
      requires ReadsAs(frame, body, x)
      ensures var s := LE32Bytes(|body|) + (body + Sum(env, frame, body)); ReadsAfter(env, text + s, frame.Take(x))
    {
      hide FeedAll, LE32Bytes, Frame.History, DecodeBlock, Torn;
      BlockRead(env, FeedAll(env, START, text), frame, body, x);
      var s := LE32Bytes(|body|) + (body + Sum(env, frame, body));
      FeedAppend(env, START, text, s);
    }

    lemma RawWritten(env: Env, x: seq<byte>)
      requires Reads(env) && EnvOk(env) && 0 < |x| <= frame.maxBlock < 0x8000_0000
      ensures var s := LE32Bytes(0x8000_0000 + |x|) + (x + Sum(env, frame, x)); ReadsAfter(env, text + s, frame.Take(x))
    {
      hide FeedAll, LE32Bytes;
      RawRead(env, FeedAll(env, START, text), frame, x);
      var s := LE32Bytes(0x8000_0000 + |x|) + (x + Sum(env, frame, x));
      FeedAppend(env, START, text, s);
    }

    lemma OpenCore(c: Coder)
      requires Core(c)
      ensures CoderOk(c) && cStage == 1 && Shape() && Reads(c.env) && Params() && SizeOk() && Buffered()
      ensures prefs.linked ==> DictOk(c)
    {
      hide CoderOk, Shape, ReadsAfter, ParamsOf, SizeOk, Buffered, DictOk;
    }

    lemma CloseCore(c: Coder)
      requires CoderOk(c) && cStage == 1 && Shape() && Reads(c.env) && Params() && SizeOk() && Buffered()
      requires prefs.linked ==> DictOk(c)
      ensures Core(c)
    {
      hide CoderOk, Shape, ReadsAfter, ParamsOf, SizeOk, Buffered, DictOk;
    }

    lemma ShapeFacts()
      requires Shape()
      ensures maxBufferSize == tmpBuff.Length && TablesApart()
    {
    }

    // LZ4_saveDict, LZ4_saveDictHC: the last 64 KB of what was compressed last
    // move to the front of tmpBuff.
    method SaveDict(c: Coder, ghost h: seq<byte>) returns (n: nat)
      requires EndsWith(h, Dict()) && tmpBuff.Length >= KB64 && Shape() && Streams(c) && NearAt().Place?
      modifies tmpBuff, lz4, hc
      ensures Shape() && Streams(c)
      ensures n <= KB64 && EndsWith(h, Dict()) && NearAt() == Place(TMP, 0) && Far() == []
      ensures |Near()| == n && tmpBuff[0..n] == Near()
    {
      hide EndsWith;
      ghost var d := Dict();
      var saved := Last(Near(), KB64);
      n := |saved|;
      PutBytes(tmpBuff, 0, saved);
      if prefs.level < 2 {
        lz4.dictionary, lz4.dictPlace := saved, Place(TMP, 0);
      } else {
        HcStreaming.SaveDict(hc, c.hcHashes, Place(TMP, 0));
      }
      EndsWithTwice(h, d, Dict());
    }

    // LZ4F_localSaveDict: keep or shorten the dictionary at the front of tmpBuff.
    method LocalSaveDict(c: Coder)
      requires Core(c) && prefs.linked && tmpInSize == 0 && NearAt().Place?
      modifies tmpBuff, lz4, hc, `tmpIn
      ensures Core(c) && tmpIn <= KB64
    {
      hide CoderOk, Shape, ReadsAfter, ParamsOf, EndsWith, Streams;
      OpenCore(c);
      ShapeFacts();
      assert tmpBuff[tmpIn..tmpIn] == [];
      tmpIn := SaveDict(c, frame.content);
      assert tmpBuff[tmpIn..tmpIn] == [];
      CloseCore(c);
    }

    lemma BufferedIs()
      requires Buffered()
      ensures tmpInSize <= maxBlockSize && tmpIn + tmpInSize <= tmpBuff.Length
      ensures frame.content + tmpBuff[tmpIn..tmpIn + tmpInSize] == input
    {
    }

    lemma NothingBuffered()
      requires tmpInSize == 0 && tmpIn <= tmpBuff.Length && frame.content == input
      ensures Buffered()
    {
      assert tmpBuff[tmpIn..tmpIn] == [];
    }

    // The dictionary once what was buffered has become a block.
    lemma DictAfterTmp(h: seq<byte>, d: seq<byte>, s: seq<byte>, p: Place, far: seq<byte>, farAt: Place, x: seq<byte>)
      requires x != [] && tmpIn + tmpInSize <= tmpBuff.Length && x == tmpBuff[tmpIn..tmpIn + tmpInSize]
      requires EndsWith(h, d) && Stands(s, p, tmpBuff[..], tmpIn) && FarStands(far, farAt, p, tmpBuff[..], tmpInSize)
      requires Moved(d, s, p, far, farAt, x, Place(TMP, tmpIn))
      ensures EndsWith(h + x, Dict()) && Stands(Near(), NearAt(), tmpBuff[..], tmpIn + tmpInSize)
      ensures FarStands(Far(), FarAt(), NearAt(), tmpBuff[..], 0) && NearAt().Place?
    {
      hide Stands, EndsWith, Continues, Leaves;
      EndsAfter(h, d, x, Dict());
      StandsMore(s, p, x, Near(), NearAt(), tmpBuff[..], tmpIn);
      FarAfterTmp(far, farAt, s, p, Far(), FarAt(), tmpBuff[..], tmpIn, tmpInSize);
      PlaceAfter(s, p, x, Place(TMP, tmpIn), Near(), NearAt());
    }

    // The dictionary once a part of the source has become a block.
    lemma DictAfterSrc(h: seq<byte>, d: seq<byte>, s: seq<byte>, p: Place, far: seq<byte>, farAt: Place, x: seq<byte>,
                       at: Place)
      requires EndsWith(h, d) && Stands(s, p, tmpBuff[..], tmpIn) && FarStands(far, farAt, p, tmpBuff[..], 0)
      requires Moved(d, s, p, far, farAt, x, at) && at.Place? && at.space != TMP
      ensures EndsWith(h + x, Dict()) && Stands(Near(), NearAt(), tmpBuff[..], tmpIn) && DictElsewhere()
      ensures FarStands(Far(), FarAt(), NearAt(), tmpBuff[..], 0)
    {
      hide EndsWith, Continues, Leaves, FarStands;
      EndsAfter(h, d, x, Dict());
      StandsElsewhere(s, p, x, at, Near(), NearAt());
      FarAfterSrc(far, farAt, s, p, at, NearAt(), Far(), FarAt(), tmpBuff[..], tmpIn);
    }

    // Write what is buffered as a block.
    method EmitTmp(c: Coder, dst: array<byte>, at: nat) returns (n: nat)
      requires Core(c) && 0 < tmpInSize && Clear(dst)
      requires at + 4 + tmpInSize + (if prefs.blockSum then 4 else 0) <= dst.Length
      modifies lz4, lz4.hashTable, hc, hc.hashTable, hc.chainTable, dst,
               `text, `frame, `tmpIn, `tmpInSize
      ensures Core(c) && tmpInSize == 0 && (!prefs.linked ==> tmpIn == old(tmpIn))
      ensures n <= 4 + old(tmpInSize) + (if prefs.blockSum then 4 else 0)
      ensures Grew(old(text), text, old(dst[..]), dst[..], at, at + n)
    {
      hide CoderOk, Shape, ReadsAfter, ParamsOf, Grew, Buffered, Stands, FarStands, EndsWith, Moved, EnvOk, Streams;
      OpenCore(c);
      FrameFacts();
      ShapeFacts();
      ghost var h, d, s, p, far, farAt := frame.content, Dict(), Near(), NearAt(), Far(), FarAt();
      BufferedIs();
      var x := tmpBuff[tmpIn..tmpIn + tmpInSize];
      n := MakeBlock(c, x, Place(TMP, tmpIn), dst, at);
      if prefs.linked {
        DictAfterTmp(h, d, s, p, far, farAt, x);
        tmpIn := tmpIn + tmpInSize;
      }
      tmpInSize := 0;
      NothingBuffered();
      CloseCore(c);
    }

    // Write a part of the source as a block.
    method EmitSrc(c: Coder, x: seq<byte>, srcAt: Place, dst: array<byte>, at: nat) returns (n: nat)
      requires srcAt.Place? && srcAt.space != TMP
      requires Core(c) && tmpInSize == 0 && 0 < |x| <= maxBlockSize && Clear(dst)
      requires at + 4 + |x| + (if prefs.blockSum then 4 else 0) <= dst.Length
      modifies lz4, lz4.hashTable, hc, hc.hashTable, hc.chainTable, dst,
               `text, `frame, `input
      ensures Core(c) && input == old(input) + x
      ensures prefs.linked ==> DictElsewhere()
      ensures n <= 4 + |x| + (if prefs.blockSum then 4 else 0)
      ensures Grew(old(text), text, old(dst[..]), dst[..], at, at + n)
    {
      hide CoderOk, Shape, ReadsAfter, ParamsOf, Grew, Buffered, Stands, FarStands, EndsWith, Moved, Streams;
      OpenCore(c);
      FrameFacts();
      ShapeFacts();
      BufferedIs();
      ghost var h, d, s, p, far, farAt := frame.content, Dict(), Near(), NearAt(), Far(), FarAt();
      assert h + tmpBuff[tmpIn..tmpIn] == h;
      n := MakeBlock(c, x, srcAt, dst, at);
      input := input + x;
      NothingBuffered();
      if prefs.linked { DictAfterSrc(h, d, s, p, far, farAt, x, srcAt); }
      CloseCore(c);
    }

    // The dictionary lies in the caller's memory.
    ghost predicate DictElsewhere()
      reads `prefs, `lz4, lz4`dictPlace, `hc, hc`prefixPlace
    {
      NearAt().Place? && NearAt().space != TMP
    }

    // -------------------------------------------------------------------
    // The calls
    // -------------------------------------------------------------------

    // The buffer for what the preferences need, kept if it is large enough.
    method AllocateTmp(requiredBuffSize: nat)
      requires Shape()
      modifies `tmpBuff, `maxBufferSize
      ensures Shape() && maxBufferSize >= requiredBuffSize && (tmpBuff == old(tmpBuff) || fresh(tmpBuff))
    {
      if maxBufferSize < requiredBuffSize {
        tmpBuff := new byte[requiredBuffSize];
        maxBufferSize := requiredBuffSize;
      }
    }

    method ResetFields(p: Prefs)
      modifies `prefs, `maxBlockSize, `tmpIn, `tmpInSize, `xxh, `totalInSize, `cStage
      ensures prefs == p.(blockSizeID := if p.blockSizeID == 0 then 4 else p.blockSizeID)
      ensures maxBlockSize == BlockSize(prefs.blockSizeID) && tmpIn == 0 && tmpInSize == 0 && xxh == []
      ensures (prefs.contentSize != 0 ==> totalInSize == 0) && cStage == 1
    {
      prefs := p;
      if prefs.blockSizeID == 0 { prefs := prefs.(blockSizeID := 4); }
      maxBlockSize := BlockSize(prefs.blockSizeID);
      tmpIn, tmpInSize, xxh := 0, 0, [];
      if prefs.contentSize != 0 { totalInSize := 0; }
      cStage := 1;
    }

    // The state of a frame that begins.
    method OpenFrame(c: Coder, p: Prefs)
      requires Shape() && HashesOk(c.hcHashes)
      modifies this, lz4, lz4.hashTable, hc, hc.hashTable, hc.chainTable
      ensures Shape() && (tmpBuff == old(tmpBuff) || fresh(tmpBuff)) && lz4 == old(lz4) && hc == old(hc)
      ensures prefs == p.(blockSizeID := if p.blockSizeID == 0 then 4 else p.blockSizeID)
      ensures maxBlockSize == BlockSize(prefs.blockSizeID) && tmpIn == 0 && tmpInSize == 0 && xxh == []
      ensures (prefs.contentSize != 0 ==> totalInSize == 0) && cStage == 1
      ensures prefs.linked ==> NoDict() && Streams(c)
      ensures maxBufferSize >= if prefs.autoFlush then (if prefs.linked then KB64 else 0)
                               else maxBlockSize + if prefs.linked then 2 * KB64 else 0
    {
      hide Shape, BlockSize, NoDict, Streams, HashesOk;
      ResetFields(p);
      AllocateTmp(if p.autoFlush then (if p.linked then KB64 else 0)
                  else maxBlockSize + if p.linked then 2 * KB64 else 0);
      if p.linked { StartLinked(c); }
      if p.level >= 2 { FavorDecompressionSpeed(c, p.favorDecSpeed); }
    }

    // LZ4_favorDecompressionSpeed
    method FavorDecompressionSpeed(c: Coder, favor: bool)
      modifies hc`favorDecSpeed
      ensures old(Shape()) ==> Shape()
      ensures old(Streams(c)) ==> Streams(c)
      ensures old(NoDict()) ==> NoDict()
    {
      hide HighCompression.InText;
      hc.favorDecSpeed := favor;
    }

    // Nothing to refer to, anywhere.
    ghost predicate NoDict()
      reads `prefs, `lz4, lz4`dictionary, `hc, hc`prefix, hc`prefixPlace, hc`dict
    {
      Dict() == [] && Near() == [] && Far() == []
    }

    // LZ4F_compressBegin
    method CompressBegin(c: Coder, p: Prefs, dst: array<byte>, lo: nat, hi: nat) returns (r: Outcome)
      requires CoderOk(c) && Shape() && lo <= hi <= dst.Length && dst != tmpBuff && p.dictID < 0x1_0000_0000
      requires p.blockSizeID == 0 || 4 <= p.blockSizeID <= 7
      requires Clear(dst)
      modifies this, lz4, lz4.hashTable, hc, hc.hashTable, hc.chainTable, dst
      ensures r == Failure(DstMaxSizeTooSmall) <==> hi - lo < 19
      ensures r.Written? ==>
                && Valid(c) && input == [] && lo + r.size <= hi
                && Grew([], text, old(dst[..]), dst[..], lo, lo + r.size)
                && prefs == p.(blockSizeID := if p.blockSizeID == 0 then 4 else p.blockSizeID)
      ensures r.Failure? ==> r.error == DstMaxSizeTooSmall
      ensures (tmpBuff == old(tmpBuff) || fresh(tmpBuff)) && lz4 == old(lz4) && hc == old(hc)
    {
      hide CoderOk, HeaderText, ReadsAfter, Shape, BlockSize, Valid, Grew, PrefsFrame, NoDict, EnvOk, Streams, HashesOk;
      ShapeFacts();
      if hi - lo < 19 { return Failure(DstMaxSizeTooSmall); }
      HashesFact(c);
      OpenFrame(c, p);
      var n := PutHeader(c.env, dst, lo);
      input := [];
      NothingYet(c);
      r := Written(n);
    }

    // LZ4F_initStream, for linked blocks: no dictionary yet.
    method StartLinked(c: Coder)
      requires Shape() && HashesOk(c.hcHashes)
      modifies lz4, lz4.hashTable, hc, hc.hashTable, hc.chainTable
      ensures Shape() && NoDict() && Streams(c)
    {
      if prefs.level < 2 { lz4.ResetFast(); } else { hc.ResetFast(prefs.level); }
    }

    lemma HashesFact(c: Coder)
      requires CoderOk(c)
      ensures HashesOk(c.hcHashes)
    {
    }

    method PutHeader(env: Env, dst: array<byte>, lo: nat) returns (n: nat)
      requires PrefsOk(prefs) && lo + 19 <= dst.Length
      modifies dst, `frame, `text
      ensures n <= 19 && frame == PrefsFrame(prefs) && Reads(env) && Grew([], text, old(dst[..]), dst[..], lo, lo + n)
    {
      hide HeaderText, ReadsAfter, PrefsFrame;
      HeaderParses(env, prefs);
      var header := HeaderText(env, prefs);
      PutBytes(dst, lo, header);
      frame, text := PrefsFrame(prefs), header;
      HeaderOpens(env, prefs);
      assert [] + header == header;
      n := |header|;
    }

    lemma NothingYet(c: Coder)
      requires CoderOk(c) && Shape() && cStage == 1 && PrefsOk(prefs) && frame == PrefsFrame(prefs) && Reads(c.env)
      requires maxBlockSize == BlockSize(prefs.blockSizeID) && tmpIn == 0 && tmpInSize == 0 && xxh == []
      requires prefs.linked ==> NoDict() && Streams(c)
      requires (prefs.contentSize != 0 ==> totalInSize == 0) && input == []
      requires maxBufferSize >= if prefs.autoFlush then (if prefs.linked then KB64 else 0)
                                else maxBlockSize + if prefs.linked then 2 * KB64 else 0
      ensures Valid(c)
    {
      hide CoderOk, ReadsAfter, Streams;
      assert [] + tmpBuff[0..0] == [];
    }

    // Copy behind what is buffered; a dictionary before it stays.
    method AppendTmp(x: seq<byte>)
      requires tmpIn + tmpInSize + |x| <= tmpBuff.Length
      requires prefs.linked ==> Stands(Near(), NearAt(), tmpBuff[..], tmpIn)
      modifies tmpBuff
      ensures tmpBuff[tmpIn..tmpIn + tmpInSize + |x|] == old(tmpBuff[tmpIn..tmpIn + tmpInSize]) + x
      ensures prefs.linked ==> Stands(Near(), NearAt(), tmpBuff[..], tmpIn)
    {
      hide Stands;
      ghost var was := tmpBuff[..];
      PutBytes(tmpBuff, tmpIn + tmpInSize, x);
      ghost var n := tmpIn + tmpInSize;
      TakeSlice(tmpBuff[..], was, n, tmpIn, tmpInSize);
      assert tmpBuff[tmpIn..n + |x|] == tmpBuff[tmpIn..n] + tmpBuff[n..n + |x|];
      if prefs.linked { StandsKept(Near(), NearAt(), was, tmpBuff[..], tmpIn, n); }
    }

    // Bytes that do not complete a block are buffered.
    method Buffer(c: Coder, x: seq<byte>)
      requires Core(c) && tmpInSize + |x| <= maxBlockSize && tmpIn + tmpInSize + |x| <= tmpBuff.Length
      requires !prefs.autoFlush && tmpInSize + |x| > 0
      modifies tmpBuff, `tmpInSize, `input
      ensures Core(c) && tmpInSize == old(tmpInSize) + |x| && input == old(input) + x
    {
      hide CoderOk, Shape, ReadsAfter, ParamsOf, EndsWith, Streams, Stands, FarStands;
      OpenCore(c);
      ShapeFacts();
      ghost var buffered := tmpBuff[tmpIn..tmpIn + tmpInSize];
      ghost var was, size := tmpBuff[..], tmpInSize;
      AppendTmp(x);
      assert frame.content + (buffered + x) == input + x;
      tmpInSize := tmpInSize + |x|;
      input := input + x;
      if prefs.linked { FarWhileBuffering(Far(), FarAt(), NearAt(), was, size, tmpBuff[..], tmpInSize); }
      CloseCore(c);
    }

    // Keep tmpIn within limits.
    method KeepWithinLimits(c: Coder)
      requires Core(c) && (tmpInSize == 0 || RoomOk())
      modifies tmpBuff, lz4, hc, `tmpIn
      ensures Core(c) && RoomOk()
    {
      hide CoderOk, Shape, ReadsAfter, ParamsOf, EndsWith, Buffered, Streams;
      OpenCore(c);
      FrameFacts();
      if !prefs.autoFlush && tmpIn + maxBlockSize > maxBufferSize { LocalSaveDict(c); }
    }

    // The room that blocks still to be written may take.
    ghost function Need(left: nat): nat
      reads `prefs, `maxBlockSize
    {
      if maxBlockSize == 0 then 0
      else BlocksRoom(left, maxBlockSize, 4 + (if prefs.blockSum then 4 else 0), prefs.autoFlush)
    }

    lemma NeedBlock(left: nat)
      requires left >= maxBlockSize > 0
      ensures Need(left) == 4 + (if prefs.blockSum then 4 else 0) + maxBlockSize + Need(left - maxBlockSize)
    {
    }

    lemma NeedRest(left: nat)
      requires 0 < left < maxBlockSize && prefs.autoFlush
      ensures Need(left) == 4 + (if prefs.blockSum then 4 else 0) + left && Need(0) == 0
    {
    }

    // First part of an update: complete the block that is being buffered.
    method CompleteTmp(c: Coder, src: seq<byte>, dst: array<byte>, dstPtr0: nat, hi: nat)
      returns (srcPtr: nat, dstPtr: nat)
      requires Core(c) && RoomOk() && tmpInSize < maxBlockSize && Clear(dst)
      requires hi <= dst.Length && dstPtr0 + Need(tmpInSize + |src|) <= hi
      modifies lz4, lz4.hashTable, hc, hc.hashTable, hc.chainTable, dst, tmpBuff,
               `text, `frame, `tmpIn, `tmpInSize, `input
      ensures Core(c) && srcPtr <= |src| && input == old(input) + src[..srcPtr] && tmpInSize < maxBlockSize
      ensures (tmpInSize == 0 || (srcPtr == |src| && RoomOk())) && dstPtr + Need(tmpInSize + |src| - srcPtr) <= hi
      ensures Grew(old(text), text, old(dst[..]), dst[..], dstPtr0, dstPtr)
      ensures old(tmpInSize) == 0 ==> srcPtr == 0
    {
      hide CoderOk, ReadsAfter, Core, Grew, BlocksRoom, Need;
      srcPtr, dstPtr := 0, dstPtr0;
      CoreFacts(c);
      GrewNot(text, dst[..], dstPtr0);
      if tmpInSize > 0 {
        var sizeToCopy := maxBlockSize - tmpInSize;
        if sizeToCopy > |src| {
          Buffer(c, src);
          srcPtr := |src|;
          assert src[..srcPtr] == src;
        } else {
          NeedBlock(tmpInSize + |src|);
          Buffer(c, src[..sizeToCopy]);
          srcPtr := sizeToCopy;
          var n := EmitTmp(c, dst, dstPtr);
          dstPtr := dstPtr + n;
        }
      }
    }

    lemma CoreFacts(c: Coder)
      requires Core(c)
      ensures cStage == 1 && maxBufferSize == tmpBuff.Length && TablesApart()
      ensures tmpInSize <= maxBlockSize
      ensures KB64 <= maxBlockSize == BlockSize(prefs.blockSizeID) && (prefs.autoFlush ==> tmpInSize == 0)
      ensures frame.content + tmpBuff[tmpIn..tmpIn + tmpInSize] == input
    {
      hide CoderOk, ReadsAfter, DictOk;
    }

    // Second part: full blocks straight from the source, and with auto-flush
    // what is left of it.
    method EmitFull(c: Coder, src: seq<byte>, srcAt: Place, srcPtr0: nat, dst: array<byte>, dstPtr0: nat, hi: nat)
      returns (srcPtr: nat, dstPtr: nat, emitted: bool)
      requires srcAt.Place? && srcAt.space != TMP
      requires Core(c) && tmpInSize == 0 && srcPtr0 <= |src| && Clear(dst)
      requires hi <= dst.Length && dstPtr0 + Need(|src| - srcPtr0) <= hi
      modifies lz4, lz4.hashTable, hc, hc.hashTable, hc.chainTable, dst,
               `text, `frame, `input
      ensures Core(c) && srcPtr0 <= srcPtr <= |src| && input == old(input) + src[srcPtr0..srcPtr]
      ensures dstPtr + Need(|src| - srcPtr) <= hi && |src| - srcPtr < maxBlockSize
      ensures (prefs.autoFlush ==> srcPtr == |src|)
      ensures Grew(old(text), text, old(dst[..]), dst[..], dstPtr0, dstPtr)
      ensures emitted && prefs.linked ==> DictElsewhere()
      ensures !emitted ==> srcPtr == srcPtr0
    {
      hide CoderOk, ReadsAfter, Core, Grew, BlocksRoom, Need;
      srcPtr, dstPtr, emitted := srcPtr0, dstPtr0, false;
      CoreFacts(c);
      ghost var t0, s0, i0 := text, dst[..], input;
      GrewNot(text, dst[..], dstPtr0);
      assert i0 + src[srcPtr..srcPtr] == i0;
      while |src| - srcPtr >= maxBlockSize || (prefs.autoFlush && srcPtr < |src|)
        invariant Core(c) && srcPtr0 <= srcPtr <= |src| && input == i0 + src[srcPtr0..srcPtr]
        invariant dstPtr + Need(|src| - srcPtr) <= hi
        invariant Grew(t0, text, s0, dst[..], dstPtr0, dstPtr)
        invariant emitted && prefs.linked ==> DictElsewhere()
        invariant !emitted ==> srcPtr == srcPtr0
        decreases |src| - srcPtr
      {
        var size := if |src| - srcPtr >= maxBlockSize then maxBlockSize else |src| - srcPtr;
        if size == maxBlockSize { NeedBlock(|src| - srcPtr); } else { NeedRest(|src| - srcPtr); }
        ghost var t1, s1 := text, dst[..];
        var n := EmitSrc(c, src[srcPtr..srcPtr + size], srcAt.Plus(srcPtr), dst, dstPtr);
        GrewMore(t0, t1, text, s0, s1, dst[..], dstPtr0, dstPtr, dstPtr + n);
        assert src[srcPtr0..srcPtr] + src[srcPtr..srcPtr + size] == src[srcPtr0..srcPtr + size];
        assert i0 + src[srcPtr0..srcPtr] + src[srcPtr..srcPtr + size] == i0 + src[srcPtr0..srcPtr + size];
        srcPtr, dstPtr, emitted := srcPtr + size, dstPtr + n, true;
      }
    }

    // Third part: the dictionary and the rest of the source move to tmpBuff.
    method SettleTmp(c: Coder, emitted: bool, stableSrc: bool)
      requires Core(c) && (tmpInSize == 0 || RoomOk()) && (emitted ==> tmpInSize == 0)
      requires emitted && prefs.linked ==> DictElsewhere()
      modifies tmpBuff, lz4, hc, `tmpIn
      ensures Core(c) && RoomOk()
    {
      hide CoderOk, ReadsAfter, Core, EndsWith;
      if prefs.linked && emitted {
        if stableSrc { DropTmp(c); } else { LocalSaveDict(c); }
      }
      KeepWithinLimits(c);
    }

    // The source is stable: the dictionary stays there and tmpBuff is free.
    method DropTmp(c: Coder)
      requires Core(c) && prefs.linked && tmpInSize == 0 && DictElsewhere()
      modifies `tmpIn
      ensures Core(c)
    {
      hide CoderOk, Shape, ReadsAfter, ParamsOf, EndsWith;
      OpenCore(c);
      assert tmpBuff[tmpIn..tmpIn] == [];
      tmpIn := 0;
      assert tmpBuff[tmpIn..tmpIn] == [];
      CloseCore(c);
    }

    // The first two parts together.
    method TakeIn(c: Coder, src: seq<byte>, srcAt: Place, dst: array<byte>, lo: nat, hi: nat)
      returns (srcPtr: nat, dstPtr: nat, emitted: bool)
      requires srcAt.Place? && srcAt.space != TMP
      requires Core(c) && RoomOk() && tmpInSize < maxBlockSize && Clear(dst)
      requires hi <= dst.Length && lo + Need(tmpInSize + |src|) <= hi
      modifies lz4, lz4.hashTable, hc, hc.hashTable, hc.chainTable, dst, tmpBuff,
               `text, `frame, `tmpIn, `tmpInSize, `input
      ensures Core(c) && srcPtr <= |src| && lo <= dstPtr <= hi && input == old(input) + src[..srcPtr]
      ensures (tmpInSize == 0 && |src| - srcPtr < maxBlockSize)
              || (srcPtr == |src| && RoomOk() && tmpInSize < maxBlockSize)
      ensures (emitted ==> tmpInSize == 0) && (emitted && prefs.linked ==> DictElsewhere())
      ensures prefs.autoFlush ==> srcPtr == |src|
      ensures Grew(old(text), text, old(dst[..]), dst[..], lo, dstPtr)
    {
      hide CoderOk, ReadsAfter, Core, Grew, BlocksRoom, Need;
      ghost var t0, s0, i0 := text, dst[..], input;
      CoreFacts(c);
      srcPtr, dstPtr := CompleteTmp(c, src, dst, lo, hi);
      emitted := false;
      GrewBounds(t0, text, s0, dst[..], lo, dstPtr);
      if tmpInSize == 0 {
        ghost var t1, s1, p, q := text, dst[..], srcPtr, dstPtr;
        srcPtr, dstPtr, emitted := EmitFull(c, src, srcAt, srcPtr, dst, dstPtr, hi);
        GrewMore(t0, t1, text, s0, s1, dst[..], lo, q, dstPtr);
        GrewBounds(t1, text, s1, dst[..], q, dstPtr);
        assert i0 + src[..p] + src[p..srcPtr] == i0 + src[..srcPtr];
      }
    }

    method Count(src: seq<byte>)
      requires (prefs.contentSum ==> xxh + src == input) && (prefs.contentSize != 0 ==> totalInSize + |src| == |input|)
      modifies `xxh, `totalInSize
      ensures Counted()
    {
      if prefs.contentSum { xxh := xxh + src; }
      totalInSize := totalInSize + |src|;
    }

    lemma BoundIsEnough(c: Coder, n: nat)
      requires Core(c) && tmpInSize < maxBlockSize
      ensures Need(tmpInSize + n) + 4 <= CompressBoundInternal(n, prefs, tmpInSize)
    {
      hide CoderOk, ReadsAfter, DictOk, BlocksRoom, CompressBoundInternal;
      BoundCovers(n, prefs, tmpInSize);
    }

    // LZ4F_compressUpdate, of a source that lies at srcAt in the caller's memory.
    method CompressUpdate(c: Coder, src: seq<byte>, srcAt: Place, dst: array<byte>, lo: nat, hi: nat, stableSrc: bool)
      returns (r: Outcome)
      requires srcAt.Place? && srcAt.space != TMP
      requires cStage == 1 ==> Valid(c)
      requires lo <= hi <= dst.Length && Clear(dst)
      modifies this, lz4, lz4.hashTable, hc, hc.hashTable, hc.chainTable, dst, tmpBuff
      ensures r == Failure(CompressionStateUninitialized) <==> old(cStage) != 1
      ensures r == Failure(DstMaxSizeTooSmall) <==>
                old(cStage) == 1 && hi - lo < CompressBoundInternal(|src|, old(prefs), old(tmpInSize))
      ensures r.Failure? ==> r.error != WrongFrameSize
      ensures r.Written? ==>
                && Valid(c) && input == old(input) + src && prefs == old(prefs)
                && r.size <= CompressBoundInternal(|src|, old(prefs), old(tmpInSize))
                && Grew(old(text), text, old(dst[..]), dst[..], lo, lo + r.size)
      ensures tmpBuff == old(tmpBuff) && lz4 == old(lz4) && hc == old(hc)
    {
      hide CoderOk, ReadsAfter, Core, Grew, BlocksRoom, Need, CompressBoundInternal;
      if cStage != 1 { return Failure(CompressionStateUninitialized); }
      var bound := CompressBoundInternal(|src|, prefs, tmpInSize);
      if hi - lo < bound { return Failure(DstMaxSizeTooSmall); }
      ghost var i0 := input;
      BoundIsEnough(c, |src|);
      var srcPtr, dstPtr, emitted := TakeIn(c, src, srcAt, dst, lo, lo + bound);
      SettleTmp(c, emitted, stableSrc);
      CoreFacts(c);
      if srcPtr < |src| { Buffer(c, src[srcPtr..]); }
      assert i0 + src[..srcPtr] + src[srcPtr..] == i0 + src;
      assert srcPtr == |src| ==> src[..srcPtr] == src;
      Count(src);
      r := Written(dstPtr - lo);
    }

    // LZ4F_flush
    method Flush(c: Coder, dst: array<byte>, lo: nat, hi: nat) returns (r: Outcome)
      requires cStage == 1 ==> Valid(c)
      requires lo <= hi <= dst.Length && Clear(dst)
      modifies this, lz4, lz4.hashTable, hc, hc.hashTable, hc.chainTable, dst, tmpBuff
      ensures r.Failure? <==> old(tmpInSize) > 0 && (old(cStage) != 1 || hi - lo < old(tmpInSize) + 8)
      ensures r.Failure? ==> r.error == if old(cStage) != 1 then CompressionStateUninitialized else DstMaxSizeTooSmall
      ensures old(cStage) == 1 && r.Written? ==>
                && Valid(c) && tmpInSize == 0 && input == old(input) && prefs == old(prefs) && lo + r.size <= hi
                && r.size <= (if old(tmpInSize) == 0 then 0 else old(tmpInSize) + 8)
                && Grew(old(text), text, old(dst[..]), dst[..], lo, lo + r.size)
      ensures tmpBuff == old(tmpBuff) && lz4 == old(lz4) && hc == old(hc) && cStage == old(cStage)
    {
      hide CoderOk, ReadsAfter, Core, Grew;
      if tmpInSize == 0 {
        GrewNot(text, dst[..], lo);
        return Written(0);
      }
      if cStage != 1 { return Failure(CompressionStateUninitialized); }
      if hi - lo < tmpInSize + 8 { return Failure(DstMaxSizeTooSmall); }
      CoreFacts(c);
      var n := EmitTmp(c, dst, lo);
      KeepWithinLimits(c);
      r := Written(n);
    }

    lemma SumFits(c: Coder)
      requires Core(c)
      ensures c.env.xxh(xxh) < 0x1_0000_0000
    {
      hide HashesOk;
    }

    // The end mark completes the frame if the announced size is right.
    lemma EndWritten(c: Coder, crc: seq<byte>)
      requires CoderOk(c) && Reads(c.env) && Params() && Buffered() && tmpInSize == 0 && Counted()
      requires prefs.contentSize != 0 ==> prefs.contentSize == totalInSize
      requires crc == if prefs.contentSum then LE32Bytes(c.env.xxh(xxh)) else []
      ensures var s := text + (LE32Bytes(0) + crc);
              FeedAll(c.env, START, s) == Machine(false, input, 1, 0, Reading(Magic, 4, []))
    {
      hide EnvOk, FeedAll, LE32Bytes, HashInto;
      BufferedIs();
      assert frame.content + tmpBuff[tmpIn..tmpIn] == frame.content;
      var m := FeedAll(c.env, START, text);
      EndRead(c.env, m, frame);
      FeedAppend(c.env, START, text, LE32Bytes(0) + crc);
    }

    // The end mark, the content checksum and the final check.
    method PutEnd(c: Coder, dst: array<byte>, dstPtr: nat, hi: nat, flushed: nat) returns (r: Outcome, n: nat)
      requires Valid(c) && tmpInSize == 0 && dstPtr <= hi <= dst.Length
      requires Clear(dst)
      modifies dst, `cStage, `text
      ensures r.Written? ==>
                && FeedAll(c.env, START, text) == Machine(false, input, 1, 0, Reading(Magic, 4, []))
                && text != [] && dstPtr + n <= hi && cStage == 0 && r.size == flushed + n
                && Grew(old(text), text, old(dst[..]), dst[..], dstPtr, dstPtr + n)
      ensures r == Failure(WrongFrameSize) ==> prefs.contentSize != 0 && prefs.contentSize != |input|
      ensures r.Written? ==> prefs.contentSize == 0 || prefs.contentSize == |input|
      ensures hi - dstPtr >= 8 ==> r != Failure(DstMaxSizeTooSmall)
      ensures r != Failure(CompressionStateUninitialized)
    {
      hide CoderOk, ReadsAfter, Grew, Shape, DictFor, Core, ParamsOf, LE32Bytes;
      n := if prefs.contentSum then 8 else 4;
      if hi - dstPtr < n { return Failure(DstMaxSizeTooSmall), 0; }
      OpenCore(c);
      SumFits(c);
      var s := LE32Bytes(0) + if prefs.contentSum then LE32Bytes(c.env.xxh(xxh)) else [];
      ghost var was := dst[..];
      PutBytes(dst, dstPtr, s);
      if prefs.contentSize != 0 && prefs.contentSize != totalInSize {
        cStage := 0;
        return Failure(WrongFrameSize), n;
      }
      EndWritten(c, s[4..]);
      assert s == LE32Bytes(0) + s[4..];
      cStage := 0;
      GrewBy(text, was, dst[..], dstPtr, dstPtr + n);
      text := text + dst[dstPtr..dstPtr + n];
      r := Written(flushed + n);
    }

    // LZ4F_compressEnd: on success the text written is one frame that reads
    // back as the input.
    method CompressEnd(c: Coder, dst: array<byte>, lo: nat, hi: nat) returns (r: Outcome)
      requires cStage == 1 && Valid(c)
      requires lo <= hi <= dst.Length && Clear(dst)
      requires |input| < 0x1_0000_0000_0000_0000
      modifies this, lz4, lz4.hashTable, hc, hc.hashTable, hc.chainTable, dst, tmpBuff
      ensures r.Written? ==>
                && FeedAll(c.env, START, text) == Machine(false, input, 1, 0, Reading(Magic, 4, []))
                && text != [] && input == old(input) && lo + r.size <= hi && cStage == 0 && Shape()
                && Grew(old(text), text, old(dst[..]), dst[..], lo, lo + r.size)
      ensures r == Failure(WrongFrameSize) ==> old(prefs).contentSize != 0 && old(prefs).contentSize != |old(input)|
      ensures r.Written? ==> old(prefs).contentSize == 0 || old(prefs).contentSize == |old(input)|
      ensures hi - lo >= old(tmpInSize) + 16 ==> r != Failure(DstMaxSizeTooSmall)
      ensures r != Failure(CompressionStateUninitialized)
      ensures tmpBuff == old(tmpBuff) && lz4 == old(lz4) && hc == old(hc)
    {
      hide CoderOk, ReadsAfter, Grew, Shape, DictFor, Core, FeedAll, ParamsOf, SizeOk, RoomOk, Buffered, Counted;
      ghost var t0, s0 := text, dst[..];
      r := Flush(c, dst, lo, hi);
      if r.Failure? { return; }
      var n;
      ghost var t1, s1, p := text, dst[..], lo + r.size;
      OpenCore(c);
      r, n := PutEnd(c, dst, lo + r.size, hi, r.size);
      if r.Written? { GrewMore(t0, t1, text, s0, s1, dst[..], lo, p, p + n); }
    }
  }

  lemma GrewBy(t: seq<byte>, was: seq<byte>, now: seq<byte>, a: nat, b: nat)
    requires a <= b <= |now| == |was| && now[..a] == was[..a] && now[b..] == was[b..]
    ensures Grew(t, t + now[a..b], was, now, a, b)
  {
  }

  lemma TakeSlice(now: seq<byte>, was: seq<byte>, n: nat, off: nat, size: nat)
    requires n <= |now| == |was| && now[..n] == was[..n] && off + size <= n
    ensures now[off..off + size] == was[off..off + size]
  {
    assert now[off..off + size] == now[..n][off..off + size] && was[off..off + size] == was[..n][off..off + size];
  }

  lemma HeaderOpens(env: Env, p: Prefs)
    requires PrefsOk(p)
    ensures ReadsAfter(env, HeaderText(env, p), PrefsFrame(p))
  {
    hide FeedAll, HeaderText;
    HeaderParses(env, p);
    HeaderRead(env, START, p);
  }

  // The dictionary after a block still ends what has been compressed.
  lemma EndsAfter(h: seq<byte>, d0: seq<byte>, x: seq<byte>, d1: seq<byte>)
    requires EndsWith(h, d0) && EndsWith(d0 + x, d1)
    ensures EndsWith(h + x, d1)
  {
    hide EndsWith;
    EndsWithMore(h, d0, x);
    EndsWithTwice(h + x, d0 + x, d1);
  }

  lemma PlaceAfter(s: seq<byte>, p: Place, x: seq<byte>, at: Place, s1: seq<byte>, p1: Place)
    requires Continues(s, p, x, at, s1, p1) && at.Place?
    ensures p1.Place?
  {
  }

  lemma EndsOneSegment(d0: seq<byte>, p0: Place, x: seq<byte>, at: Place, d1: seq<byte>, p1: Place)
    requires Continues(d0, p0, x, at, d1, p1)
    ensures EndsWith(d0 + x, d1)
  {
  }

  // In front of no prefix there is nothing to be left.
  lemma LeavesAnyway(dict: seq<byte>, farAt: Place, s0: seq<byte>, p0: Place, at: Place, d1: seq<byte>, q1: Place)
    requires Leaves(dict, farAt, s0, p0, at, d1, q1) && at.Place?
    ensures Leaves(if p0.Null? then [] else dict, farAt, s0, p0, at, d1, q1)
  {
  }

  lemma NothingLeaves(far: seq<byte>, farAt: Place, s0: seq<byte>, p0: Place, at: Place, q1: Place)
    ensures Leaves(far, farAt, s0, p0, at, [], q1)
  {
  }

  ghost predicate ParamsOf(p: Prefs, maxBlockSize: nat, f: Frame) {
    && PrefsOk(p) && maxBlockSize == f.maxBlock == BlockSize(p.blockSizeID)
    && f.linked == p.linked && f.blockSum == p.blockSum && f.contentSum == p.contentSum
    && f.contentSize == p.contentSize
    && f.remaining == if p.contentSize != 0 then (p.contentSize - |f.content|) % 0x1_0000_0000_0000_0000 else 0
  }

  lemma ParamsTake(p: Prefs, maxBlockSize: nat, f: Frame, x: seq<byte>)
    requires ParamsOf(p, maxBlockSize, f)
    ensures ParamsOf(p, maxBlockSize, f.Take(x))
  {
  }

  // The text grew by what was written from a to b, and nothing else changed.
  ghost predicate Grew(t0: seq<byte>, t1: seq<byte>, was: seq<byte>, now: seq<byte>, a: nat, b: nat) {
    a <= b <= |now| == |was| && now[..a] == was[..a] && now[b..] == was[b..] && t1 == t0 + now[a..b]
  }

  lemma GrewMore(t0: seq<byte>, t1: seq<byte>, t2: seq<byte>, s0: seq<byte>, s1: seq<byte>, s2: seq<byte>, a: nat,
                 b: nat, c: nat)
    requires Grew(t0, t1, s0, s1, a, b) && Grew(t1, t2, s1, s2, b, c)
    ensures Grew(t0, t2, s0, s2, a, c)
  {
    assert s2[..a] == s2[..b][..a] && s1[..a] == s1[..b][..a];
    assert s2[a..b] == s2[..b][a..] && s1[a..b] == s1[..b][a..];
    assert s2[a..c] == s2[a..b] + s2[b..c];
    TailKept(s1, s0, b, c);
  }

  lemma GrewBounds(t0: seq<byte>, t1: seq<byte>, was: seq<byte>, now: seq<byte>, a: nat, b: nat)
    requires Grew(t0, t1, was, now, a, b)
    ensures a <= b <= |now|
  {
  }

  lemma GrewNot(t: seq<byte>, s: seq<byte>, a: nat)
    requires a <= |s|
    ensures Grew(t, t, s, s, a, a)
  {
    assert t + s[a..a] == t;
  }

  // The state of the reader of a text, as a predicate of values.
  ghost predicate ReadsAfter(env: Env, text: seq<byte>, f: Frame) {
    var m := FeedAll(env, START, text);
    text != [] && AtBlocks(m, f) && m.frames == 0 && m.torn == 0 && m.out == f.content
  }
}
