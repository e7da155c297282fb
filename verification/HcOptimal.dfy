// LZ4HC_compress_optimal: a shortest-path parse over a table of prices, read
// back by reversing the chosen path in place.
module HcOptimal {
  import opened BlockFormat
  import opened Emit
  import opened HcMatchFinder
  import opened HcCompressor

  const LZ4_OPT_NUM := 4096
  const TRAILING_LITERALS := 3

  // The cheapest way found to reach a position: its last step is a literal
  // (mlen 1) or a match of mlen bytes ending there.
  datatype Optimal = Optimal(price: int, off: nat, mlen: nat, litlen: nat)

  function LiteralsPrice(litlen: nat): int {
    litlen + if litlen >= RUN_MASK then 1 + (litlen - RUN_MASK) / 255 else 0
  }

  function SequencePrice(litlen: nat, mlen: nat): int
    requires mlen >= MINMATCH
  {
    1 + 2 + LiteralsPrice(litlen) + if mlen >= ML_MASK + MINMATCH then 1 + (mlen - (ML_MASK + MINMATCH)) / 255 else 0
  }

  // ---------------------------------------------------------------------
  // Paths
  // ---------------------------------------------------------------------

  datatype Step = Step(len: nat, off: nat)

  // One byte left as a literal, or a match that may be written.
  ghost predicate StepOk(src: seq<byte>, p: nat, s: Step) {
    if s.len == 1 then p < |src| else Fits(src, p, s.len, s.off)
  }

  function Total(steps: seq<Step>): nat {
    if steps == [] then 0 else steps[0].len + Total(steps[1..])
  }

  // Steps laid end to end from p.
  ghost predicate StepsOk(src: seq<byte>, p: nat, steps: seq<Step>)
    decreases |steps|
  {
    steps == [] || (StepOk(src, p, steps[0]) && StepsOk(src, p + steps[0].len, steps[1..]))
  }

  lemma {:induction false} StepsAppend(src: seq<byte>, p: nat, steps: seq<Step>, s: Step)
    ensures Total(steps + [s]) == Total(steps) + s.len
    ensures StepsOk(src, p, steps) && StepOk(src, p + Total(steps), s) ==> StepsOk(src, p, steps + [s])
    decreases |steps|
  {
    hide StepOk;
    if steps == [] {
      assert steps + [s] == [s];
    } else {
      assert (steps + [s])[1..] == steps[1..] + [s];
      StepsAppend(src, p + steps[0].len, steps[1..], s);
    }
  }

  // ---------------------------------------------------------------------
  // The table
  // ---------------------------------------------------------------------

  // The last step to `pos`, counted from ip, is one that may be taken.
  ghost predicate EntryOk(src: seq<byte>, ip: nat, pos: nat, e: Optimal) {
    e.mlen == 1 || (MINMATCH <= e.mlen <= pos && Fits(src, ip + pos - e.mlen, e.mlen, e.off))
  }

  // Every position up to hi is reached by a step from an earlier one.
  ghost predicate TableOk(src: seq<byte>, ip: nat, opt: seq<Optimal>, hi: nat) {
    && |opt| == LZ4_OPT_NUM + TRAILING_LITERALS && hi < |opt| && opt[0].mlen == 1
    && forall k {:trigger opt[k]} :: 0 <= k <= hi ==> EntryOk(src, ip, k, opt[k])
  }

  lemma TableSet(src: seq<byte>, ip: nat, opt: seq<Optimal>, hi: nat, pos: nat, e: Optimal)
    requires TableOk(src, ip, opt, hi) && 0 < pos < |opt| && pos <= hi + 1 && EntryOk(src, ip, pos, e)
    ensures TableOk(src, ip, opt[pos := e], if pos > hi then pos else hi)
  {
  }

  // ---------------------------------------------------------------------
  // The reversal
  // ---------------------------------------------------------------------

  // The path to pos, following the table backwards.
  function Back(opt: seq<Optimal>, pos: nat): seq<Step>
    requires pos < |opt|
  {
    if pos == 0 || opt[pos].mlen == 0 || opt[pos].mlen > pos then []
    else Back(opt, pos - opt[pos].mlen) + [Step(opt[pos].mlen, opt[pos].off)]
  }

  // The path from pos, following the table forwards until `last` is reached.
  function Forward(opt: seq<Optimal>, pos: nat, last: nat): seq<Step>
    decreases last - pos
  {
    if pos >= last || pos >= |opt| || opt[pos].mlen == 0 then []
    else [Step(opt[pos].mlen, opt[pos].off)] + Forward(opt, pos + opt[pos].mlen, last)
  }

  lemma {:induction false} ForwardFrame(a: seq<Optimal>, b: seq<Optimal>, pos: nat, last: nat)
    requires |a| == |b| && forall k :: pos <= k < |a| ==> a[k] == b[k]
    ensures Forward(a, pos, last) == Forward(b, pos, last)
    decreases last - pos
  {
    if pos < last && pos < |a| && a[pos].mlen > 0 { ForwardFrame(a, b, pos + a[pos].mlen, last); }
  }

  lemma {:induction false} BackOk(src: seq<byte>, ip: nat, opt: seq<Optimal>, hi: nat, pos: nat)
    requires TableOk(src, ip, opt, hi) && pos <= hi && ip + pos <= |src|
    ensures StepsOk(src, ip, Back(opt, pos)) && Total(Back(opt, pos)) == pos
    decreases pos
  {
    hide Fits;
    if pos > 0 {
      var e := opt[pos];
      assert EntryOk(src, ip, pos, e);
      BackOk(src, ip, opt, hi, pos - e.mlen);
      StepsAppend(src, ip, Back(opt, pos - e.mlen), Step(e.mlen, e.off));
    }
  }

  // From the end to the beginning each entry receives the step that leaves
  // it: read forwards, the table now holds the path it held backwards.
  method ReversePath(opt: array<Optimal>, ghost src: seq<byte>, ghost ip: nat, cur: nat, bestLen: nat, bestOff: nat,
                     ghost last: nat)
    requires TableOk(src, ip, opt[..], cur) && cur < last && bestLen > 0 && last <= cur + bestLen
    modifies opt
    ensures Forward(opt[..], 0, last) == Back(old(opt[..]), cur) + [Step(bestLen, bestOff)]
  {
    hide EntryOk, Back, Forward;
    ghost var opt0 := opt[..];
    PathEnds(opt0, cur + bestLen, last);
    ghost var path := Back(opt0, cur) + [Step(bestLen, bestOff)];
    var candidate: nat, selectedLen, selectedOff := cur, bestLen, bestOff;
    while true
      invariant candidate <= cur && selectedLen > 0
      invariant forall k :: 0 <= k <= candidate ==> opt[k] == opt0[k]
      invariant Back(opt0, candidate)
                + ([Step(selectedLen, selectedOff)] + Forward(opt[..], candidate + selectedLen, last)) == path
      decreases candidate
    {
      ghost var before := opt[..];
      var nextLen, nextOff := opt[candidate].mlen, opt[candidate].off;
      EntryStep(src, ip, opt0, cur, candidate);
      opt[candidate] := opt[candidate].(mlen := selectedLen, off := selectedOff);
      ForwardFrame(before, opt[..], candidate + selectedLen, last);
      ForwardStep(opt[..], candidate, last);
      BackStep(opt0, candidate);
      if nextLen > candidate { break; }
      selectedLen, selectedOff := nextLen, nextOff;
      candidate := candidate - nextLen;
      assert Back(opt0, candidate) + [Step(nextLen, nextOff)] + Forward(opt[..], candidate + nextLen, last)
          == Back(opt0, candidate) + ([Step(nextLen, nextOff)] + Forward(opt[..], candidate + nextLen, last));
    }
  }

  lemma PathEnds(opt: seq<Optimal>, pos: nat, last: nat)
    requires pos >= last
    ensures Forward(opt, pos, last) == []
  {
  }

  lemma ForwardStep(opt: seq<Optimal>, pos: nat, last: nat)
    requires pos < last && pos < |opt| && opt[pos].mlen > 0
    ensures Forward(opt, pos, last) == [Step(opt[pos].mlen, opt[pos].off)] + Forward(opt, pos + opt[pos].mlen, last)
  {
  }

  lemma BackStep(opt: seq<Optimal>, pos: nat)
    requires pos < |opt| && opt[pos].mlen > 0
    ensures Back(opt, pos) == if pos == 0 || opt[pos].mlen > pos then []
                              else Back(opt, pos - opt[pos].mlen) + [Step(opt[pos].mlen, opt[pos].off)]
  {
  }

  lemma EntryStep(src: seq<byte>, ip: nat, opt: seq<Optimal>, hi: nat, pos: nat)
    requires TableOk(src, ip, opt, hi) && pos <= hi
    ensures opt[pos].mlen > 0 && (opt[pos].mlen > pos <==> pos == 0)
  {
    assert EntryOk(src, ip, pos, opt[pos]);
  }

  // ---------------------------------------------------------------------
  // Filling the table
  // ---------------------------------------------------------------------

  // LZ4HC_FindLongerMatch; length 0 when there is none.
  method FindLongerMatch(ctx: Context, hash: Hash4, src: seq<byte>, ip: nat, minLen: nat, nbSearches: nat,
                         favorDecSpeed: bool)
    returns (len: nat, off: nat)
    requires ctx.Valid(hash, src) && ctx.Filed() <= ip && ip + MFLIMIT <= |src|
    requires 0 < minLen && ip + minLen + LASTLITERALS <= |src|
    modifies ctx`nextToUpdate, ctx.hashTable, ctx.chainTable
    ensures ctx.Valid(hash, src) && ctx.Filed() == ip
    ensures len != 0 ==> Fits(src, ip, len, off)
    ensures ctx.exact && nbSearches > 0 && !favorDecSpeed && IsRun(src, 0) ==>
              && (ip == 0 ==> len == 0) && (ip == 1 && minLen < |src| - 6 ==> Placed(ip, len, off) == RunMatch(src))
  {
    hide Context.Valid, MatchRange, NearestTried, IsRun;
    var md, left := InsertAndGetWiderMatch(ctx, hash, src, ip, ip, |src| - LASTLITERALS, minLen, nbSearches, true, true,
                                           favorDecSpeed);
    if ctx.exact && nbSearches > 0 && !favorDecSpeed && ip <= 1 && IsRun(src, 0) {
      RunBest(hash, src, ip, minLen, md);
      RunIsLong(src, 0);
    }
    if md.len <= minLen { return 0, 0; }
    len, off := md.len, md.off;
    if favorDecSpeed && 18 < len <= 36 {
      TruncateOk(src, Placed(ip, len, off), 18);
      len := 18;
    }
  }

  // Literals after the last match position.
  method SetTrailing(opt: array<Optimal>, ghost src: seq<byte>, ghost ip: nat, last: nat)
    requires TableOk(src, ip, opt[..], last) && 0 < last < LZ4_OPT_NUM
    modifies opt
    ensures TableOk(src, ip, opt[..], last + TRAILING_LITERALS)
  {
    hide TableOk;
    TableShape(src, ip, opt, last);
    for addLit := 1 to TRAILING_LITERALS + 1
      invariant TableOk(src, ip, opt[..], last + addLit - 1)
    {
      var e := Optimal(opt[last].price + LiteralsPrice(addLit), 0, 1, addLit);
      TableSet(src, ip, opt[..], last + addLit - 1, last + addLit, e);
      ghost var before := opt[..];
      opt[last + addLit] := e;
      assert opt[..] == before[last + addLit := e];
    }
  }

  lemma TableShape(src: seq<byte>, ip: nat, opt: array<Optimal>, hi: nat)
    requires TableOk(src, ip, opt[..], hi)
    ensures opt.Length == LZ4_OPT_NUM + TRAILING_LITERALS && hi < opt.Length
  {
  }

  // The table after the first match.
  method StartTable(opt: array<Optimal>, ghost src: seq<byte>, ghost ip: nat, llen: nat, len: nat, off: nat)
    requires opt.Length == LZ4_OPT_NUM + TRAILING_LITERALS
    requires Fits(src, ip, len, off) && len < LZ4_OPT_NUM
    modifies opt
    ensures TableOk(src, ip, opt[..], len + TRAILING_LITERALS)
  {
    hide MatchRange, Fits;
    OkBounds(src, Placed(ip, len, off));
    for rPos := 0 to MINMATCH
      invariant rPos > 0 ==> TableOk(src, ip, opt[..], rPos - 1)
    {
      opt[rPos] := Optimal(LiteralsPrice(llen + rPos), 0, 1, llen + rPos);
    }
    for mlen := MINMATCH to len + 1
      invariant TableOk(src, ip, opt[..], mlen - 1)
    {
      TruncateOk(src, Placed(ip, len, off), mlen);
      ghost var before := opt[..];
      var e := Optimal(SequencePrice(llen, mlen), off, mlen, llen);
      TableSet(src, ip, opt[..], mlen - 1, mlen, e);
      opt[mlen] := e;
      assert opt[..] == before[mlen := e];
    }
    SetTrailing(opt, src, ip, len);
  }

  // Literals before the match found at cur.
  method SetLiterals(opt: array<Optimal>, ghost src: seq<byte>, ghost ip: nat, cur: nat, ghost last: nat)
    requires TableOk(src, ip, opt[..], last + TRAILING_LITERALS) && 0 < cur < last
    modifies opt
    ensures TableOk(src, ip, opt[..], last + TRAILING_LITERALS)
  {
    hide TableOk;
    TableShape(src, ip, opt, last + TRAILING_LITERALS);
    var baseLitlen := opt[cur].litlen;
    for litlen := 1 to MINMATCH
      invariant TableOk(src, ip, opt[..], last + TRAILING_LITERALS)
    {
      var price := opt[cur].price - LiteralsPrice(baseLitlen) + LiteralsPrice(baseLitlen + litlen);
      var pos := cur + litlen;
      if price < opt[pos].price {
        ghost var before := opt[..];
        var e := Optimal(price, 0, 1, baseLitlen + litlen);
        TableSet(src, ip, opt[..], last + TRAILING_LITERALS, pos, e);
        opt[pos] := e;
        assert opt[..] == before[pos := e];
      }
    }
  }

  function Max(a: nat, b: nat): nat { if a < b then b else a }

  // Every prefix of the match found at cur.
  method SetMatches(opt: array<Optimal>, ghost src: seq<byte>, ghost ip: nat, cur: nat, last0: nat, len: nat, off: nat,
                    favorDecSpeed: bool)
    returns (last: nat)
    requires TableOk(src, ip, opt[..], last0 + TRAILING_LITERALS) && 0 < cur < last0 < LZ4_OPT_NUM
    requires Fits(src, ip + cur, len, off) && cur + len < LZ4_OPT_NUM
    modifies opt
    ensures last == last0 || last == cur + len > last0
    ensures TableOk(src, ip, opt[..], last)
  {
    hide TableOk, Fits;
    OkBounds(src, Placed(ip + cur, len, off));
    TableShape(src, ip, opt, last0 + TRAILING_LITERALS);
    last := last0;
    ghost var hi: nat := last0 + TRAILING_LITERALS;
    for ml := MINMATCH to len + 1
      invariant hi == Max(last0 + TRAILING_LITERALS, cur + ml - 1) && TableOk(src, ip, opt[..], hi)
      invariant if ml == len + 1 && cur + len > last0 + TRAILING_LITERALS then last == cur + len
                else last == last0 || (ml == len + 1 && last == cur + len > last0)
    {
      var pos := cur + ml;
      var ll, price;
      if opt[cur].mlen == 1 {
        ll := opt[cur].litlen;
        price := (if cur > ll then opt[cur - ll].price else 0) + SequencePrice(ll, ml);
      } else {
        ll := 0;
        price := opt[cur].price + SequencePrice(0, ml);
      }
      if pos > last + TRAILING_LITERALS || price <= opt[pos].price - (if favorDecSpeed then 1 else 0) {
        if ml == len && last < pos { last := pos; }
        TruncateOk(src, Placed(ip + cur, len, off), ml);
        ghost var before := opt[..];
        var e := Optimal(price, off, ml, ll);
        TableSet(src, ip, opt[..], hi, pos, e);
        opt[pos] := e;
        assert opt[..] == before[pos := e];
      }
      hi := Max(hi, pos);
    }
    TableLower(src, ip, opt[..], hi, last);
  }

  lemma TableLower(src: seq<byte>, ip: nat, opt: seq<Optimal>, hi: nat, lo: nat)
    requires TableOk(src, ip, opt, hi) && lo <= hi
    ensures TableOk(src, ip, opt, lo)
  {
  }

  // Whether a search at cur can pay off.
  predicate WorthSearching(opt: array<Optimal>, cur: nat, fullUpdate: bool)
    requires cur + MINMATCH < opt.Length
    reads opt
  {
    if fullUpdate then
      !(opt[cur + 1].price <= opt[cur].price && opt[cur + MINMATCH].price < opt[cur].price + 3)
    else
      !(opt[cur + 1].price <= opt[cur].price)
  }

  // Search from every position on the way to the last one reached.  The path
  // ends with a step of bestLen from cur.
  method Explore(ctx: Context, hash: Hash4, src: seq<byte>, opt: array<Optimal>, ip: nat, first: nat, nbSearches: nat,
                 sufficientLen: nat, fullUpdate: bool, favorDecSpeed: bool)
    returns (cur: nat, last: nat, bestLen: nat, bestOff: nat)
    requires ctx.Valid(hash, src) && ctx.Filed() <= ip
    requires ctx.hashTable as object != opt && ctx.chainTable as object != opt
    requires TableOk(src, ip, opt[..], first + TRAILING_LITERALS) && 0 < first < LZ4_OPT_NUM
    requires ip + first + LASTLITERALS <= |src|
    modifies opt, ctx`nextToUpdate, ctx.hashTable, ctx.chainTable
    ensures ctx.Valid(hash, src) && ctx.Filed() <= ip + last
    ensures TableOk(src, ip, opt[..], cur) && cur < last <= cur + bestLen && ip + cur <= |src|
    ensures StepOk(src, ip + cur, Step(bestLen, bestOff)) && last < LZ4_OPT_NUM
  {
    hide ChainOk, Fits, TableOk;
    last := first;
    cur := 1;
    while cur < last
      invariant ctx.Valid(hash, src) && ctx.Filed() <= ip + cur && 0 < cur
      invariant TableOk(src, ip, opt[..], last + TRAILING_LITERALS) && cur <= last < LZ4_OPT_NUM
      invariant ip + last + LASTLITERALS <= |src|
      decreases LZ4_OPT_NUM - cur
    {
      if ip + cur > |src| - MFLIMIT { break; }
      TableShape(src, ip, opt, last + TRAILING_LITERALS);
      if WorthSearching(opt, cur, fullUpdate) {
        var len, off := FindLongerMatch(ctx, hash, src, ip + cur, if fullUpdate then MINMATCH - 1 else last - cur,
                                        nbSearches, favorDecSpeed);
        if len != 0 {
          OkBounds(src, Placed(ip + cur, len, off));
          if len > sufficientLen || len + cur >= LZ4_OPT_NUM {
            TableLower(src, ip, opt[..], last + TRAILING_LITERALS, cur);
            return cur, cur + 1, len, off;
          }
          SetLiterals(opt, src, ip, cur, last);
          last := SetMatches(opt, src, ip, cur, last, len, off, favorDecSpeed);
          SetTrailing(opt, src, ip, last);
        }
      }
      cur := cur + 1;
    }
    TableShape(src, ip, opt, last + TRAILING_LITERALS);
    bestLen, bestOff := opt[last].mlen, opt[last].off;
    LastStep(src, ip, opt[..], last);
    TableLower(src, ip, opt[..], last + TRAILING_LITERALS, last - bestLen);
    cur := last - bestLen;
  }

  lemma LastStep(src: seq<byte>, ip: nat, opt: seq<Optimal>, last: nat)
    requires TableOk(src, ip, opt, last + TRAILING_LITERALS) && 0 < last && ip + last + LASTLITERALS <= |src|
    ensures 0 < opt[last].mlen <= last
    ensures StepOk(src, ip + last - opt[last].mlen, Step(opt[last].mlen, opt[last].off))
  {
    assert EntryOk(src, ip, last, opt[last]);
  }

  // ---------------------------------------------------------------------
  // Writing the path
  // ---------------------------------------------------------------------

  // Write the matches of the path in order, skipping its literals.
  method WritePath(d: OutputDirective, src: seq<byte>, ghost start: nat, dst: array<byte>, opt: array<Optimal>,
                   ghost ss0: seq<Sequence>, anchor0: nat, op0: nat, ip0: nat, last: nat)
    returns (err: bool, m: Placed, anchor: nat, op: nat, ip: nat, ghost ss: seq<Sequence>)
    requires SequencesDone(d, src, start, dst, ss0, anchor0, op0) && anchor0 <= ip0
    requires opt as object != dst && last <= opt.Length
    requires StepsOk(src, ip0, Forward(opt[..], 0, last)) && last <= Total(Forward(opt[..], 0, last))
    modifies dst
    ensures SequencesDone(d, src, start, dst, ss, anchor, op)
    ensures err ==> d != NotLimited && m.Ok(src) && anchor <= m.pos
    ensures !err ==> anchor <= ip && ip == ip0 + Total(Forward(opt[..], 0, last))
  {
    hide SequencesDone, Fits;
    err, m, anchor, op, ip, ss := false, Placed(0, 0, 0), anchor0, op0, ip0, ss0;
    var rPos: nat := 0;
    ghost var end := Total(Forward(opt[..], 0, last));
    while rPos < last
      invariant SequencesDone(d, src, start, dst, ss, anchor, op) && anchor <= ip == ip0 + rPos
      invariant StepsOk(src, ip, Forward(opt[..], rPos, last))
      invariant rPos + Total(Forward(opt[..], rPos, last)) == end
      decreases last - rPos
    {
      var ml, offset := opt[rPos].mlen, opt[rPos].off;
      if ml == 1 { ip, rPos := ip + 1, rPos + 1; continue; }
      rPos := rPos + ml;
      m := Placed(ip, ml, offset);
      OkBounds(src, m);
      err, op, ss := WriteMatch(d, src, start, dst, ss, anchor, op, m);
      if err { return; }
      ip := ip + ml;
      anchor := ip;
    }
  }

  // ---------------------------------------------------------------------
  // The parser
  // ---------------------------------------------------------------------

  // One round of the main loop: a byte skipped, a long match written at once,
  // or a path found and written.
  method Round(ctx: Context, hash: Hash4, d: OutputDirective, src: seq<byte>, ghost start: nat, dst: array<byte>,
               opt: array<Optimal>, ghost ss0: seq<Sequence>, anchor0: nat, op0: nat, ip0: nat, nbSearches: nat,
               sufficientLen: nat, fullUpdate: bool, favorDecSpeed: bool)
    returns (err: bool, m: Placed, anchor: nat, op: nat, ip: nat, ghost ss: seq<Sequence>)
    requires ctx.Valid(hash, src) && ctx.Filed() <= ip0 && ip0 + MFLIMIT <= |src|
    requires ctx.hashTable as object != dst && ctx.chainTable as object != dst && opt as object != dst
    requires ctx.hashTable as object != opt && ctx.chainTable as object != opt
    requires opt.Length == LZ4_OPT_NUM + TRAILING_LITERALS && sufficientLen < LZ4_OPT_NUM
    requires SequencesDone(d, src, start, dst, ss0, anchor0, op0) && anchor0 <= ip0
    modifies dst, opt, ctx`nextToUpdate, ctx.hashTable, ctx.chainTable
    ensures ctx.Valid(hash, src) && SequencesDone(d, src, start, dst, ss, anchor, op)
    ensures err ==> d != NotLimited && m.Ok(src) && anchor <= m.pos
    ensures !err ==> anchor <= ip && ip0 < ip && ctx.Filed() <= ip
    // a run is found from its second byte on, and written at once if it is long
    ensures ctx.exact && nbSearches > 0 && !favorDecSpeed && IsRun(src, 0) && sufficientLen < |src| - 6 ==>
              && (ip0 == 0 ==> !err && ip == 1 && anchor == anchor0 && op == op0)
              && (ip0 == 1 && anchor0 == 0 ==>
                    Wrote(d, src, dst.Length, err, 0, op0, RunMatch(src), op)
                    && (!err ==> ip == anchor == RunMatch(src).End()))
  {
    hide SequencesDone, Fits, ChainOk, TableOk, StepOk, Forward, Back, IsRun, Wrote;
    err, m, anchor, op, ip, ss := false, Placed(0, 0, 0), anchor0, op0, ip0, ss0;
    var len, off := FindLongerMatch(ctx, hash, src, ip, MINMATCH - 1, nbSearches, favorDecSpeed);
    if len == 0 { ip := ip + 1; return; }
    OkBounds(src, Placed(ip, len, off));
    if len > sufficientLen {
      m := Placed(ip, len, off);
      err, op, ss := WriteMatch(d, src, start, dst, ss, anchor, op, m);
      if err { return; }
      ip := ip + len;
      anchor := ip;
      return;
    }
    StartTable(opt, src, ip, ip - anchor, len, off);
    var cur, last, bestLen, bestOff :=
      Explore(ctx, hash, src, opt, ip, len, nbSearches, sufficientLen, fullUpdate, favorDecSpeed);
    BackOk(src, ip, opt[..], cur, cur);
    StepsAppend(src, ip, Back(opt[..], cur), Step(bestLen, bestOff));
    ReversePath(opt, src, ip, cur, bestLen, bestOff, last);
    err, m, anchor, op, ip, ss := WritePath(d, src, start, dst, opt, ss, anchor, op, ip, last);
  }

  // The parser on a source that is one byte over and over.
  ghost predicate OnRun(src: seq<byte>, cap: nat, err: bool, anchor: nat, ip: nat, op: nat) {
    if err then cap < RunBound(|src|)
    else
      || (ip <= 1 && anchor == 0 && op == 0)
      || (ip == anchor && anchor + LASTLITERALS == |src| && op + 6 <= RunBound(|src|))
  }

  lemma RunEnds(src: seq<byte>, cap: nat, err: bool, anchor: nat, ip: nat, op: nat)
    requires IsRun(src, 0) && OnRun(src, cap, err, anchor, ip, op) && (err || ip > |src| - MFLIMIT)
    ensures !err ==> anchor + LASTLITERALS == |src| && op + 6 <= RunBound(|src|) && |Extension(5)| == 0
    ensures err ==> cap < RunBound(|src|)
  {
  }

  // LZ4HC_compress_optimal on a source that begins at `start`, behind the
  // external dictionary and the prefix.
  method CompressOptimal(ctx: Context, hash: Hash4, src: seq<byte>, start: nat, dst: array<byte>, d: OutputDirective,
                         nbSearches: nat, sufficientLen0: nat, fullUpdate: bool, favorDecSpeed: bool)
    returns (result: nat, consumed: nat)
    requires ctx.Valid(hash, src) && ctx.Filed() <= start < |src|
    requires ctx.hashTable as object != dst && ctx.chainTable as object != dst
    requires dst.Length >= 1
    requires d == NotLimited ==> dst.Length >= CompressBound(|src| - start)
    modifies dst, ctx`nextToUpdate, ctx.hashTable, ctx.chainTable
    ensures ctx.Valid(hash, src)
    ensures result <= dst.Length && start + consumed <= |src|
    ensures result > 0 ==> BlockOf(dst[..result], src[..start], src[start..start + consumed])
    ensures result > 0 && d != FillOutput ==> start + consumed == |src|
    ensures result > 0 && start + consumed < |src| ==> result >= dst.Length - 1
    ensures result == 0 ==> d == LimitedOutput
    ensures result > 0 ==> result <= CompressBound(consumed)
    // (a run so long that it is written at once)
    ensures ctx.exact && start == 0 && d != FillOutput && nbSearches > 0 && !favorDecSpeed
            && |src| > LZ4_OPT_NUM + 5 ==>
              RunsShrink(src, dst.Length, result)
  {
    hide BlockOf, SequencesDone, Fits, Context.Valid, IsRun, Wrote, RunMatch, Extension;
    result, consumed := 0, 0;
    var opt := new Optimal[LZ4_OPT_NUM + TRAILING_LITERALS];
    var sufficientLen := if sufficientLen0 >= LZ4_OPT_NUM then LZ4_OPT_NUM - 1 else sufficientLen0;
    var anchor: nat, op: nat, ip: nat := start, 0, start;
    ghost var ss: seq<Sequence> := [];
    NothingDone(d, src, start, dst);
    var err, m := false, Placed(0, 0, 0);
    ghost var run := ctx.exact && start == 0 && d != FillOutput && nbSearches > 0 && !favorDecSpeed
                     && |src| > LZ4_OPT_NUM + 5 && IsRun(src, 0);
    while !err && ip <= |src| - MFLIMIT
      invariant ctx.Valid(hash, src) && SequencesDone(d, src, start, dst, ss, anchor, op)
      invariant err ==> d != NotLimited && m.Ok(src) && anchor <= m.pos
      invariant !err ==> anchor <= ip && ctx.Filed() <= ip
      invariant run ==> OnRun(src, dst.Length, err, anchor, ip, op)
      decreases !err, |src| - ip
    {
      ghost var ip0 := ip;
      err, m, anchor, op, ip, ss :=
        Round(ctx, hash, d, src, start, dst, opt, ss, anchor, op, ip, nbSearches, sufficientLen, fullUpdate,
              favorDecSpeed);
      if run && ip0 == 1 { RunWritten(d, src, dst.Length, err, op); }
    }
    if run { RunEnds(src, dst.Length, err, anchor, ip, op); }
    if err {
      if d != FillOutput { return 0, 0; }
      op, anchor, ss := WriteLastSequence(src, start, dst, ss, anchor, op, m);
    }
    var ok, end, taken := LastLiteralsSegment(d, src, start, dst, ss, anchor, op);
    if !ok { return 0, 0; }
    return end, taken;
  }
}
