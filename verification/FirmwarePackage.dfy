// The firmware package: walking the archive, finding the partition of each
// entry, and streaming plain and compressed images to the device, or only
// checking that all of this would work.
module FirmwarePackage {
  import opened BlockFormat
  import opened Buffers
  import opened FrameFormat
  import opened Flashing
  import opened FrameStreaming
  import opened FrameText

  // ---------------------------------------------------------------------
  // The frame decoder, as the pump sees it
  // ---------------------------------------------------------------------

  // A call of the streaming decoder, and its answer.
  datatype Call = Call(src: seq<byte>, room: nat)
  datatype Reply = Rejected | Accepted(consumed: nat, data: seq<byte>, hint: nat)

  // A decoder answers by the calls it has had since its last reset; `pending`
  // is what it holds back after them.
  datatype Decoder = Decoder(reply: (seq<Call>, Call) -> Reply, pending: seq<Call> -> nat)

  ghost predicate DecoderOk(d: Decoder) {
    forall h, c {:trigger d.reply(h, c)} :: ReplyOk(d, h, c, d.reply(h, c))
  }

  // Nothing beyond what was offered; a call that takes nothing and gives
  // something leaves less behind.
  ghost predicate ReplyOk(d: Decoder, h: seq<Call>, c: Call, r: Reply) {
    r.Accepted? ==>
      && r.consumed <= |c.src| && |r.data| <= c.room
      && (r.consumed == 0 && r.data != [] ==> d.pending(h + [c]) < d.pending(h))
  }

  // How decoding an entry ends: at the end of a frame, at the end of the
  // entry, or badly.
  datatype Ending = AtFrameEnd | AtEntryEnd | Failing
  datatype Pumped = Pumped(chunks: seq<seq<byte>>, ending: Ending)

  function Behind(chunks: seq<seq<byte>>, p: Pumped): Pumped {
    Pumped(chunks + p.chunks, p.ending)
  }

  function IfAny(data: seq<byte>): seq<seq<byte>> {
    if data == [] then [] else [data]
  }

  // What the loop over a compressed entry gives: `buf` has been read but not
  // decoded, `rest` has not been read.
  ghost function Pump(d: Decoder, h: seq<Call>, buf: seq<byte>, rest: seq<byte>, inSize: nat, outSize: nat): Pumped
    requires DecoderOk(d) && 0 < inSize
    decreases |buf| + |rest|, |rest|, d.pending(h)
  {
    if buf == [] then
      if rest == [] then Pumped([], AtEntryEnd)
      else Pump(d, h, rest[..Smaller(inSize, |rest|)], rest[Smaller(inSize, |rest|)..], inSize, outSize)
    else
      var c := Call(buf, outSize);
      match d.reply(h, c)
      case Rejected => Pumped([], Failing)
      case Accepted(consumed, data, hint) =>
        assert ReplyOk(d, h, c, d.reply(h, c));
        if consumed == 0 && data == [] && hint != 0 then
          if |buf| >= inSize || rest == [] then Pumped([], Failing)
          else
            var n := Smaller(inSize - |buf|, |rest|);
            Pump(d, h + [c], buf + rest[..n], rest[n..], inSize, outSize)
        else if hint == 0 then Pumped(IfAny(data), AtFrameEnd)
        else Behind(IfAny(data), Pump(d, h + [c], buf[consumed..], rest, inSize, outSize))
  }

  // The number of bytes in the pieces.
  function Total(chunks: seq<seq<byte>>): nat {
    if chunks == [] then 0 else Total(chunks[..|chunks| - 1]) + |chunks[|chunks| - 1]|
  }

  // ---------------------------------------------------------------------
  // The archive
  // ---------------------------------------------------------------------

  type Name = seq<byte>

  // What is read off a header, a name, a PIT or a compressed image, as
  // functions of the bytes.
  datatype Tools = Tools(
    checksumValid: seq<byte> -> bool,
    sizeField: seq<byte> -> Option<nat>,
    headerName: seq<byte> -> Name,
    longName: seq<byte> -> Name,
    paxPath: (seq<byte>, Name) -> Name,
    partition: Name -> Option<nat>,
    isLz4: Name -> bool,
    contentSize: seq<byte> -> Option<U64>,
    decoder: Decoder)

  datatype ExitCode = Success | Firmware | Pit | Protocol

  // An entry that goes to a partition: the size announced and the pieces sent.
  datatype Item = Item(id: nat, size: nat, image: seq<seq<byte>>)

  datatype Outcome = Accepts(items: seq<Item>) | Refuses(code: ExitCode)

  function After(items: seq<Item>, o: Outcome): Outcome {
    if o.Accepts? then Accepts(items + o.items) else o
  }

  const MIB := 1048576

  function InSize(n: nat): nat { if n > 1024 * MIB then 8 * MIB else MIB }
  function OutSize(n: nat): nat { if n > 1024 * MIB then 16 * MIB else 4 * MIB }

  function HeaderPart(data: seq<byte>): seq<byte> { data[..Smaller(1024, |data|)] }

  // What a compressed entry holds, if it can be sent.
  ghost function Lz4Image(t: Tools, data: seq<byte>): Option<(nat, seq<seq<byte>>)>
    requires DecoderOk(t.decoder)
  {
    match t.contentSize(HeaderPart(data))
    case None => None
    case Some(announced) =>
      var p := Pump(t.decoder, [], [], data, InSize(|data|), OutSize(|data|));
      if p.ending == Failing then None
      else if announced == 0 then
        if p.ending == AtFrameEnd && Total(p.chunks) < 0x1_0000_0000_0000_0000 then
          Some((Total(p.chunks), p.chunks))
        else
          None
      else if Total(p.chunks) == announced then Some((announced, p.chunks))
      else None
  }

  function Padding(size: nat): nat { (512 - size % 512) % 512 }

  // What is sent for an entry of this name with these bytes, if anything can.
  ghost function EntryImage(t: Tools, name: Name, data: seq<byte>): Option<(nat, seq<seq<byte>>)>
    requires DecoderOk(t.decoder)
  {
    if t.isLz4(name) then Lz4Image(t, data) else Some((|data|, Pieces(data)))
  }

  // Where the walker is, the names that earlier headers announced, and the
  // partitions that have had their entry.
  datatype Cursor = Cursor(pos: nat, long: Name, pax: Name, used: set<nat>)

  // What one header leads to: the end, or going on with or without an item.
  datatype Step = Halt(outcome: Outcome) | Pass(next: Cursor) | Take(item: Item, next: Cursor)

  // A name announced by an earlier header is used up by the next header of
  // whatever kind.
  ghost function OneHeader(t: Tools, content: seq<byte>, contentEnd: nat, allowUnknown: bool, c: Cursor): (s: Step)
    requires DecoderOk(t.decoder) && c.pos + 512 <= contentEnd <= |content|
    ensures !s.Halt? ==> s.next.pos >= c.pos + 512 && (s.next.pos - c.pos) % 512 == 0
    ensures s.Halt? && s.outcome.Accepts? ==> s.outcome.items == []
  {
    var header := content[c.pos..c.pos + 512];
    if AllZeros(header) then Halt(Accepts([]))
    else if !t.checksumValid(header) || t.sizeField(header) == None then Halt(Refuses(Firmware))
    else
      var size := t.sizeField(header).value;
      var name := if c.long != [] then c.long else if c.pax != [] then c.pax else t.headerName(header);
      var pax := if c.long != [] then c.pax else [];
      var start := c.pos + 512;
      if size > contentEnd - start then Halt(Refuses(Firmware))
      else
        var data := content[start..start + size];
        var next := Cursor(start + size + Padding(size), [], pax, c.used);
        PaddedIsAligned(size);
        ByKind(t, header[156] as int, name, data, next, allowUnknown)
  }

  ghost function ByKind(t: Tools, kind: int, name: Name, data: seq<byte>, next: Cursor, allowUnknown: bool): (s: Step)
    requires DecoderOk(t.decoder)
    ensures if s.Halt? then s.outcome.Refuses? else s.next.pos == next.pos
  {
    if kind == 'L' as int then
      if |data| > MIB then Halt(Refuses(Firmware)) else Pass(next.(long := t.longName(data)))
    else if kind == 'x' as int || kind == 'g' as int then
      if |data| > MIB then Halt(Refuses(Firmware)) else Pass(next.(pax := t.paxPath(data, next.pax)))
    else if kind != 0 && kind != '0' as int then Pass(next)
    else if name == [] then Halt(Refuses(Firmware))
    else
      match t.partition(name)
      case None => if allowUnknown then Pass(next) else Halt(Refuses(Pit))
      case Some(id) =>
        if id in next.used then Halt(Refuses(Pit))
        else
          match EntryImage(t, name, data)
          case None => Halt(Refuses(Firmware))
          case Some(image) => Take(Item(id, image.0, image.1), next.(used := next.used + {id}))
  }

  lemma PaddedIsAligned(size: nat)
    ensures (size + Padding(size)) % 512 == 0
  {
  }

  // The archive from a cursor on.
  ghost function Walk(t: Tools, content: seq<byte>, contentEnd: nat, allowUnknown: bool, c: Cursor): Outcome
    requires DecoderOk(t.decoder) && contentEnd <= |content|
    decreases contentEnd - c.pos
  {
    if c.pos + 512 > contentEnd then Accepts([])
    else
      match OneHeader(t, content, contentEnd, allowUnknown, c)
      case Halt(outcome) => outcome
      case Pass(next) => Walk(t, content, contentEnd, allowUnknown, next)
      case Take(item, next) => After([item], Walk(t, content, contentEnd, allowUnknown, next))
  }

  ghost function Archive(t: Tools, content: seq<byte>, contentEnd: nat, allowUnknown: bool): Outcome
    requires DecoderOk(t.decoder) && contentEnd <= |content|
  {
    if contentEnd < 512 then Refuses(Firmware) else Walk(t, content, contentEnd, allowUnknown, Cursor(0, [], [], {}))
  }

  predicate AllZeros(header: seq<byte>) {
    forall i :: 0 <= i < |header| ==> header[i] == 0
  }

  // ---------------------------------------------------------------------
  // process_lz4_streaming
  // ---------------------------------------------------------------------

  // What remains to be decoded: the part of the buffer in use and the part of
  // the entry that has not been read.  `whole` is what decoding the entry
  // gives, `chunks` what it has given so far.
  ghost predicate Going(whole: Pumped, chunks: seq<seq<byte>>, d: Decoder, h: seq<Call>, buf: seq<byte>,
                        rest: seq<byte>,
                        inSize: nat, outSize: nat)
  {
    DecoderOk(d) && 0 < inSize && |buf| <= inSize && whole == Behind(chunks, Pump(d, h, buf, rest, inSize, outSize))
  }

  lemma Started(d: Decoder, rest: seq<byte>, inSize: nat, outSize: nat)
    requires DecoderOk(d) && 0 < inSize
    ensures Going(Pump(d, [], [], rest, inSize, outSize), [], d, [], [], rest, inSize, outSize)
  {
  }

  lemma ReadOn(whole: Pumped, chunks: seq<seq<byte>>, d: Decoder, h: seq<Call>, rest: seq<byte>, n: nat, inSize: nat,
               outSize: nat)
    requires Going(whole, chunks, d, h, [], rest, inSize, outSize) && rest != [] && n == Smaller(inSize, |rest|)
    ensures Going(whole, chunks, d, h, rest[..n], rest[n..], inSize, outSize)
  {
  }

  // One call of the decoder and what follows from its answer.
  lemma OneAnswer(whole: Pumped, chunks: seq<seq<byte>>, d: Decoder, h: seq<Call>, buf: seq<byte>, rest: seq<byte>,
                  inSize: nat, outSize: nat)
    requires Going(whole, chunks, d, h, buf, rest, inSize, outSize) && buf != []
    ensures var c := Call(buf, outSize); var r := d.reply(h, c);
            && ReplyOk(d, h, c, r)
            && (r.Rejected? ==> whole.ending == Failing)
            && (r.Accepted? && !Stuck(r) ==> chunks + IfAny(r.data) <= whole.chunks)
            && (r.Accepted? && Stuck(r) ==>
                  if |buf| >= inSize || rest == [] then whole.ending == Failing
                  else
                    var n := Smaller(inSize - |buf|, |rest|);
                    Going(whole, chunks, d, h + [c], buf + rest[..n], rest[n..], inSize, outSize))
            && (r.Accepted? && !Stuck(r) && r.hint == 0 ==> whole == Pumped(chunks + IfAny(r.data), AtFrameEnd))
            && (r.Accepted? && !Stuck(r) && r.hint != 0 ==>
                  Going(whole, chunks + IfAny(r.data), d, h + [c], buf[r.consumed..], rest, inSize, outSize))
  {
    var c := Call(buf, outSize);
    var r := d.reply(h, c);
    if r.Accepted? && !Stuck(r) && r.hint != 0 {
      var p := Pump(d, h + [c], buf[r.consumed..], rest, inSize, outSize);
      assert chunks + (IfAny(r.data) + p.chunks) == chunks + IfAny(r.data) + p.chunks;
    }
  }

  predicate Stuck(r: Reply)
    requires r.Accepted?
  {
    r.consumed == 0 && r.data == [] && r.hint != 0
  }

  lemma EntrySpent(whole: Pumped, chunks: seq<seq<byte>>, d: Decoder, h: seq<Call>, inSize: nat, outSize: nat)
    requires Going(whole, chunks, d, h, [], [], inSize, outSize)
    ensures whole == Pumped(chunks, AtEntryEnd)
  {
    assert chunks + [] == chunks;
  }

  lemma OneMoreTotal(chunks: seq<seq<byte>>, data: seq<byte>)
    ensures Total(chunks + IfAny(data)) == Total(chunks) + |data|
  {
    if data == [] { assert chunks + [] == chunks; } else { assert (chunks + [data])[..|chunks|] == chunks; }
  }

  lemma {:induction false} TotalOfMore(a: seq<seq<byte>>, b: seq<seq<byte>>)
    ensures Total(a + b) == Total(a) + Total(b)
  {
    if b == [] {
      assert a + b == a;
    } else {
      TotalOfMore(a, b[..|b| - 1]);
      assert (a + b)[..|a + b| - 1] == a + b[..|b| - 1];
    }
  }

  lemma TotalOfPart(a: seq<seq<byte>>, all: seq<seq<byte>>)
    requires a <= all
    ensures Total(a) <= Total(all)
  {
    TotalOfMore(a, all[|a|..]);
    assert a + all[|a|..] == all;
  }

  lemma NoTotal()
    ensures Total([]) == 0
  {
  }

  // file.read into a buffer, of bytes that are there.
  method ReadInto(stream: Stream, buf: array<byte>, at: nat, n: nat)
    requires stream.pos + n <= |stream.content| && at + n <= buf.Length
    modifies stream, buf
    ensures stream.pos == old(stream.pos) + n
    ensures buf[..at + n] == old(buf[..at]) + stream.content[old(stream.pos)..stream.pos]
  {
    var x := stream.Read(n);
    PutBytes(buf, at, x);
  }

  // The buffer has to be filled up: what is in use moves to its front.
  method FillUp(stream: Stream, inBuf: array<byte>, srcOffset: nat, srcSize: nat, remaining: nat) returns (read: nat)
    requires srcOffset + srcSize <= inBuf.Length && 0 < srcSize && stream.pos + remaining <= |stream.content|
    modifies stream, inBuf
    ensures read == Smaller(inBuf.Length - srcSize, remaining) && stream.pos == old(stream.pos) + read
    ensures inBuf[..srcSize + read] ==
            old(inBuf[srcOffset..srcOffset + srcSize]) + stream.content[old(stream.pos)..stream.pos]
  {
    ghost var inUse := inBuf[srcOffset..srcOffset + srcSize];
    if srcOffset != 0 { PutBytes(inBuf, 0, inBuf[srcOffset..srcOffset + srcSize]); }
    assert inBuf[..srcSize] == inUse;
    var space := inBuf.Length - srcSize;
    read := Smaller(space, remaining);
    ReadInto(stream, inBuf, srcSize, read);
  }

  // Where the loops stand: the part of the buffer in use, and the bytes of the
  // entry not read yet.
  ghost predicate Standing(stream: Stream, inBuf: array<byte>, srcOffset: nat, srcSize: nat, remaining: nat,
                           entryEnd: nat)
    reads stream
  {
    srcOffset + srcSize <= inBuf.Length && stream.pos + remaining == entryEnd <= |stream.content|
  }

  ghost predicate Decoding(whole: Pumped, chunks: seq<seq<byte>>, d: Decoder, h: seq<Call>, stream: Stream,
                           inBuf: array<byte>,
                           srcOffset: nat, srcSize: nat, remaining: nat, entryEnd: nat, outSize: nat)
    requires Standing(stream, inBuf, srcOffset, srcSize, remaining, entryEnd)
    reads stream, inBuf
  {
    Going(whole, chunks, d, h, inBuf[srcOffset..srcOffset + srcSize], stream.content[stream.pos..entryEnd],
          inBuf.Length, outSize)
  }

  // One call of the decoder in an inner loop, and filling up the buffer if the
  // call got nowhere.
  method DecodeSome(d: Decoder, ghost whole: Pumped, ghost chunks: seq<seq<byte>>, h: seq<Call>, stream: Stream,
                    inBuf: array<byte>, srcOffset0: nat, srcSize0: nat, remaining0: nat, ghost entryEnd: nat,
                    outSize: nat)
    returns (ok: bool, stuck: bool, hint: nat, data: seq<byte>, srcOffset: nat, srcSize: nat, remaining: nat,
             h': seq<Call>)
    requires Standing(stream, inBuf, srcOffset0, srcSize0, remaining0, entryEnd) && 0 < srcSize0
    requires Decoding(whole, chunks, d, h, stream, inBuf, srcOffset0, srcSize0, remaining0, entryEnd, outSize)
    modifies stream, inBuf
    ensures !ok ==> whole.ending == Failing
    ensures ok ==>
              && Standing(stream, inBuf, srcOffset, srcSize, remaining, entryEnd) && (stuck ==> data == [] && hint != 0)
              && (data != [] ==> chunks + IfAny(data) <= whole.chunks) && remaining <= remaining0
              && (hint == 0 ==> whole == Pumped(chunks + IfAny(data), AtFrameEnd))
              && (hint != 0 ==>
                    && Decoding(whole, chunks + IfAny(data), d, h', stream, inBuf, srcOffset, srcSize, remaining,
                                entryEnd, outSize)
                    && (srcSize + remaining < srcSize0 + remaining0 || (srcSize + remaining == srcSize0 + remaining0
                          && (remaining < remaining0 || (remaining == remaining0 && d.pending(h') < d.pending(h))))))
  {
    hide Pump, Going;
    ghost var buf, rest := inBuf[srcOffset0..srcOffset0 + srcSize0], stream.content[stream.pos..entryEnd];
    OneAnswer(whole, chunks, d, h, buf, rest, inBuf.Length, outSize);
    stuck, hint, data, srcOffset, srcSize, remaining := false, 0, [], srcOffset0, srcSize0, remaining0;
    var c := Call(inBuf[srcOffset..srcOffset + srcSize], outSize);
    var r := d.reply(h, c);
    h' := h + [c];
    if r.Rejected? { return false, stuck, hint, data, srcOffset, srcSize, remaining, h'; }
    ok, hint, data := true, r.hint, r.data;
    if r.consumed == 0 && r.data == [] && r.hint != 0 {
      stuck := true;
      if remaining == 0 || srcSize == inBuf.Length {
        return false, stuck, hint, data, srcOffset, srcSize, remaining, h';
      }
      ghost var at := stream.pos;
      var read := FillUp(stream, inBuf, srcOffset, srcSize, remaining);
      assert rest[..read] == stream.content[at..stream.pos] && rest[read..] == stream.content[stream.pos..entryEnd];
      srcOffset, srcSize, remaining := 0, srcSize + read, remaining - read;
      assert inBuf[0..srcSize] == inBuf[..srcSize];
      assert chunks + [] == chunks;
      return;
    }
    srcOffset, srcSize := srcOffset + r.consumed, srcSize - r.consumed;
    assert buf[r.consumed..] == inBuf[srcOffset..srcOffset + srcSize];
  }

  // The outer loops read when the buffer has been used up.
  method ReadMore(d: Decoder, ghost whole: Pumped, ghost chunks: seq<seq<byte>>, ghost h: seq<Call>, stream: Stream,
                  inBuf: array<byte>, remaining0: nat, ghost entryEnd: nat, ghost outSize: nat)
    returns (srcSize: nat, remaining: nat)
    requires 0 < remaining0 && 0 < inBuf.Length && Standing(stream, inBuf, 0, 0, remaining0, entryEnd)
    requires Going(whole, chunks, d, h, [], stream.content[stream.pos..entryEnd], inBuf.Length, outSize)
    modifies stream, inBuf
    ensures Standing(stream, inBuf, 0, srcSize, remaining, entryEnd) && remaining < remaining0
    ensures Decoding(whole, chunks, d, h, stream, inBuf, 0, srcSize, remaining, entryEnd, outSize)
  {
    hide Pump, Going;
    ghost var rest, at := stream.content[stream.pos..entryEnd], stream.pos;
    srcSize := Smaller(inBuf.Length, remaining0);
    ReadOn(whole, chunks, d, h, rest, srcSize, inBuf.Length, outSize);
    ReadInto(stream, inBuf, 0, srcSize);
    remaining := remaining0 - srcSize;
    assert inBuf[0..0 + srcSize] == rest[..srcSize];
    assert rest[srcSize..] == stream.content[stream.pos..entryEnd];
  }

  // The scan that finds the size of an image whose frame does not tell it.
  method ScanSize(d: Decoder, stream: Stream, inBuf: array<byte>, compressed: nat, outSize: nat)
    returns (ok: bool, size: nat)
    requires DecoderOk(d) && 0 < inBuf.Length && stream.pos + compressed <= |stream.content|
    modifies stream, inBuf
    ensures var entry := old(stream.content[stream.pos..stream.pos + compressed]);
            var whole := Pump(d, [], [], entry, inBuf.Length, outSize);
            && (ok <==> whole.ending == AtFrameEnd && Total(whole.chunks) < 0x1_0000_0000_0000_0000)
            && (ok ==> size == Total(whole.chunks) && stream.pos == old(stream.pos))
  {
    hide Pump, Going, Total;
    var scanStart := stream.pos;
    ghost var entryEnd := scanStart + compressed;
    ghost var whole := Pump(d, [], [], stream.content[scanStart..entryEnd], inBuf.Length, outSize);
    Started(d, stream.content[scanStart..entryEnd], inBuf.Length, outSize);
    ghost var chunks: seq<seq<byte>> := [];
    NoTotal();
    var h: seq<Call> := [];
    var remaining: nat, srcOffset: nat, srcSize: nat, frameEnded := compressed, 0, 0, false;
    ok, size := true, 0;
    while !frameEnded && remaining > 0
      invariant !frameEnded ==> Standing(stream, inBuf, srcOffset, srcSize, remaining, entryEnd)
      invariant size == Total(chunks) < 0x1_0000_0000_0000_0000
      invariant frameEnded ==> whole == Pumped(chunks, AtFrameEnd)
      invariant !frameEnded ==>
                  && srcSize == 0
                  && Going(whole, chunks, d, h, [], stream.content[stream.pos..entryEnd], inBuf.Length, outSize)
      decreases remaining, !frameEnded
    {
      ghost var left := remaining;
      srcSize, remaining := ReadMore(d, whole, chunks, h, stream, inBuf, remaining, entryEnd, outSize);
      srcOffset := 0;
      while srcSize > 0 && !frameEnded
        invariant remaining < left
        invariant size == Total(chunks) < 0x1_0000_0000_0000_0000
        invariant frameEnded ==> whole == Pumped(chunks, AtFrameEnd)
        invariant !frameEnded ==>
                    && Standing(stream, inBuf, srcOffset, srcSize, remaining, entryEnd)
                    && Decoding(whole, chunks, d, h, stream, inBuf, srcOffset, srcSize, remaining, entryEnd, outSize)
        decreases !frameEnded, srcSize + remaining, remaining, d.pending(h)
      {
        var more, stuck, hint, data;
        more, stuck, hint, data, srcOffset, srcSize, remaining, h :=
          DecodeSome(d, whole, chunks, h, stream, inBuf, srcOffset, srcSize, remaining, entryEnd, outSize);
        if !more { return false, 0; }
        OneMoreTotal(chunks, data);
        chunks := chunks + IfAny(data);
        if size + |data| >= 0x1_0000_0000_0000_0000 {
          TotalOfPart(chunks, whole.chunks);
          return false, 0;
        }
        size := size + |data|;
        frameEnded := hint == 0;
      }
      assert !frameEnded ==> inBuf[srcOffset..srcOffset + srcSize] == [];
    }
    if !frameEnded {
      assert stream.content[stream.pos..entryEnd] == [];
      EntrySpent(whole, chunks, d, h, inBuf.Length, outSize);
      return false, 0;
    }
    stream.Seek(scanStart);
  }

  // Hand a decoded piece to the device, in a flash run.
  method SendPiece(device: UsbDevice, doFlash: bool, data: seq<byte>, chunkIndex0: nat, ghost chunks: seq<seq<byte>>,
                   ghost log1: seq<Event>)
    returns (ok: bool, chunkIndex: nat)
    requires device.Valid() && chunkIndex0 == if doFlash then |chunks| % 0x1_0000_0000 else 0
    requires device.log == if doFlash then log1 + Chunks(chunks) else log1
    modifies device`calls, device`wire, device`maxChunkBytes, device`log
    ensures ok ==>
              && device.Valid() && device.log == (if doFlash then log1 + Chunks(chunks + IfAny(data)) else log1)
              && chunkIndex == if doFlash then |chunks + IfAny(data)| % 0x1_0000_0000 else 0
    ensures !doFlash || Cooperative(device.world) ==> ok
    ensures !doFlash ==> unchanged(device)
  {
    ok, chunkIndex := true, chunkIndex0;
    if data == [] { assert chunks + IfAny(data) == chunks; }
    if data != [] && doFlash {
      MoreChunks(log1, chunks, data);
      ok := device.SendFilePartChunk(data, chunkIndex);
      chunkIndex := (chunkIndex + 1) % 0x1_0000_0000;
    }
  }

  // The main loop: decode the entry and send what comes out.
  method PumpOut(d: Decoder, stream: Stream, inBuf: array<byte>, compressed: nat, outSize: nat, device: UsbDevice,
                 doFlash: bool)
    returns (ok: bool, total: nat)
    requires DecoderOk(d) && 0 < inBuf.Length && stream.pos + compressed <= |stream.content| && device.Valid()
    modifies stream, inBuf, device`calls, device`wire, device`maxChunkBytes, device`log
    ensures var entry := old(stream.content[stream.pos..stream.pos + compressed]);
            var whole := Pump(d, [], [], entry, inBuf.Length, outSize);
            && (ok ==>
                  && whole.ending != Failing && total == Total(whole.chunks) && device.Valid()
                  && device.log == if doFlash then old(device.log) + Chunks(whole.chunks) else old(device.log))
            && ((!doFlash || Cooperative(device.world)) && whole.ending != Failing ==> ok)
    ensures !doFlash ==> unchanged(device)
  {
    hide Pump, Going, Total, Chunks, Cooperative, UsbDevice.Valid;
    ghost var log1, entryEnd := device.log, stream.pos + compressed;
    ghost var whole := Pump(d, [], [], stream.content[stream.pos..entryEnd], inBuf.Length, outSize);
    Started(d, stream.content[stream.pos..entryEnd], inBuf.Length, outSize);
    ghost var chunks: seq<seq<byte>> := [];
    NoTotal();
    NoChunks(log1);
    var h: seq<Call> := [];
    var remaining: nat, srcOffset: nat, srcSize: nat, chunkIndex: nat, hint := compressed, 0, 0, 0, 4;
    ok, total := true, 0;
    while hint != 0 && remaining > 0
      invariant !doFlash ==> unchanged(device)
      invariant device.Valid() && total == Total(chunks)
      invariant chunkIndex == (if doFlash then |chunks| % 0x1_0000_0000 else 0)
      invariant device.log == if doFlash then log1 + Chunks(chunks) else log1
      invariant hint == 0 ==> whole == Pumped(chunks, AtFrameEnd)
      invariant hint != 0 ==>
                  && srcSize == 0 && Standing(stream, inBuf, srcOffset, srcSize, remaining, entryEnd)
                  && Going(whole, chunks, d, h, [], stream.content[stream.pos..entryEnd], inBuf.Length, outSize)
      decreases remaining, hint != 0
    {
      ghost var left := remaining;
      srcSize, remaining := ReadMore(d, whole, chunks, h, stream, inBuf, remaining, entryEnd, outSize);
      srcOffset := 0;
      while srcSize > 0 && hint != 0
        invariant !doFlash ==> unchanged(device)
        invariant device.Valid() && total == Total(chunks)
        invariant chunkIndex == (if doFlash then |chunks| % 0x1_0000_0000 else 0)
        invariant device.log == if doFlash then log1 + Chunks(chunks) else log1
        invariant remaining < left && (hint == 0 ==> whole == Pumped(chunks, AtFrameEnd))
        invariant hint != 0 ==>
                    && Standing(stream, inBuf, srcOffset, srcSize, remaining, entryEnd)
                    && Decoding(whole, chunks, d, h, stream, inBuf, srcOffset, srcSize, remaining, entryEnd, outSize)
        decreases hint != 0, srcSize + remaining, remaining, d.pending(h)
      {
        var stuck, data;
        ok, stuck, hint, data, srcOffset, srcSize, remaining, h :=
          DecodeSome(d, whole, chunks, h, stream, inBuf, srcOffset, srcSize, remaining, entryEnd, outSize);
        if !ok { return false, total; }
        ok, chunkIndex := SendPiece(device, doFlash, data, chunkIndex, chunks, log1);
        if !ok { return false, total; }
        OneMoreTotal(chunks, data);
        chunks := chunks + IfAny(data);
        total := total + |data|;
      }
      assert hint != 0 ==> inBuf[srcOffset..srcOffset + srcSize] == [];
    }
    if hint != 0 {
      assert stream.content[stream.pos..entryEnd] == [];
      EntrySpent(whole, chunks, d, h, inBuf.Length, outSize);
    }
  }

  // What an entry adds to the log of a flash run before its end.
  function ImageEvents(size: nat, image: seq<seq<byte>>): seq<Event> {
    [FileSize(size)] + Chunks(image)
  }

  // process_lz4_streaming
  method ProcessLz4Streaming(t: Tools, stream: Stream, compressed: nat, device: UsbDevice, doFlash: bool)
    returns (ok: bool)
    requires DecoderOk(t.decoder) && stream.pos + compressed <= |stream.content| && device.Valid()
    requires (doFlash ==> !device.legacy)
    modifies stream, device`calls, device`wire, device`maxChunkBytes, device`log
    ensures var image := Lz4Image(t, old(stream.content[stream.pos..stream.pos + compressed]));
            && (ok ==>
                  && image.Some? && device.Valid() && stream.pos == old(stream.pos) + compressed
                  && device.log == old(device.log) + if doFlash then ImageEvents(image.value.0, image.value.1) else [])
            && ((!doFlash || Cooperative(device.world)) && image.Some? ==> ok)
    ensures !doFlash ==> unchanged(device)
  {
    hide Pump, Total, Chunks, Cooperative, UsbDevice.Valid;
    var entryStart := stream.pos;
    ghost var data, log0 := stream.content[entryStart..entryStart + compressed], device.log;
    var inSize, outSize := InSize(compressed), OutSize(compressed);
    var inBuf := new byte[inSize];
    var headerReadSize := Smaller(1024, compressed);
    var headerBuf := stream.Read(headerReadSize);
    assert headerBuf == HeaderPart(data);
    stream.Seek(entryStart);
    var frameInfo := t.contentSize(headerBuf);
    if frameInfo == None { return false; }
    var uncompressedSize: nat := frameInfo.value;
    if uncompressedSize == 0 {
      ok, uncompressedSize := ScanSize(t.decoder, stream, inBuf, compressed, outSize);
      if !ok { return false; }
    }
    ghost var image := Lz4Image(t, data);
    if doFlash {
      ok := device.SendFilePartHeader(uncompressedSize);
      if !ok { return; }
    }
    ghost var log1 := device.log;
    var total;
    ok, total := PumpOut(t.decoder, stream, inBuf, compressed, outSize, device, doFlash);
    if !ok { return; }
    stream.Seek(entryStart);
    stream.Seek(stream.pos + compressed);
    if uncompressedSize != 0 && total != uncompressedSize { return false; }
    ghost var whole := Pump(t.decoder, [], [], data, inSize, outSize);
    assert doFlash ==>
             log0 + [FileSize(uncompressedSize)] + Chunks(whole.chunks) ==
             log0 + ImageEvents(uncompressedSize, whole.chunks);
    assert log0 + [] == log0;
  }

  // ---------------------------------------------------------------------
  // process_tar_file
  // ---------------------------------------------------------------------

  // How a run treats an entry: it only checks, or sends over Thor, or over the
  // legacy protocol in packets of this size.
  datatype Mode = Check | OverThor | OverLegacy(packet: nat)

  function ModeOf(device: UsbDevice, doFlash: bool): Mode {
    if !doFlash then Check else if !device.legacy then OverThor else OverLegacy(device.packetSize)
  }

  // What sending an entry leaves in the log: over Thor its events; over the
  // legacy protocol the device has finished with a file of its size and holds
  // its bytes, padded to whole packets.
  ghost predicate Sent(mode: Mode, item: Item, before: seq<Event>, after: seq<Event>) {
    match mode
    case Check => true
    case OverThor => after == before + (ImageEvents(item.size, item.image) + [EndFile(item.id)])
    case OverLegacy(packet) =>
      packet > 0 && Progress(after, before, packet, Finished(item.size), Padded(Joined(item.image), packet))
  }

  // The log went from `before` to `after` by these entries and nothing else.
  ghost predicate SentAll(mode: Mode, items: seq<Item>, before: seq<Event>, after: seq<Event>)
    decreases |items|
  {
    if items == [] then mode == Check || after == before
    else
      exists between {:trigger Sent(mode, items[|items| - 1], between, after)} ::
        SentAll(mode, items[..|items| - 1], before, between) && Sent(mode, items[|items| - 1], between, after)
  }

  lemma NothingSent(mode: Mode, log: seq<Event>)
    ensures SentAll(mode, [], log, log)
  {
  }

  lemma OneMoreSent(mode: Mode, items: seq<Item>, item: Item, before: seq<Event>, between: seq<Event>,
                    after: seq<Event>)
    requires SentAll(mode, items, before, between) && Sent(mode, item, between, after)
    ensures SentAll(mode, items + [item], before, after)
  {
    hide Sent;
    var all := items + [item];
    assert all[..|all| - 1] == items && all[|all| - 1] == item;
  }

  // Over Thor that is the list of their events.
  lemma {:induction false} SentAreEvents(items: seq<Item>, before: seq<Event>, after: seq<Event>)
    requires SentAll(OverThor, items, before, after)
    ensures after == before + Events(items)
    decreases |items|
  {
    hide ImageEvents;
    if items != [] {
      var front, item := items[..|items| - 1], items[|items| - 1];
      var between :| SentAll(OverThor, front, before, between) && Sent(OverThor, item, between, after);
      SentAreEvents(front, before, between);
      var own := ImageEvents(item.size, item.image) + [EndFile(item.id)];
      assert before + Events(front) + own == before + (Events(front) + own);
    }
  }

  lemma PacketSize(device: UsbDevice)
    requires device.Valid()
    ensures device.packetSize > 0
  {
    hide Data;
  }

  // What a flash run over Thor sends for some entries.
  function Events(items: seq<Item>): seq<Event> {
    if items == [] then []
    else
      var item := items[|items| - 1];
      Events(items[..|items| - 1]) + (ImageEvents(item.size, item.image) + [EndFile(item.id)])
  }

  // One entry that belongs to a partition, with its padding and its end.
  method ProcessEntry(t: Tools, stream: Stream, name: Name, size: nat, id: nat, device: UsbDevice, doFlash: bool)
    returns (code: ExitCode)
    requires DecoderOk(t.decoder) && stream.pos + size <= |stream.content| && size < 0x1_0000_0000_0000_0000
    requires device.Valid()
    modifies stream, device`calls, device`wire, device`maxChunkBytes, device`log
    ensures var image := EntryImage(t, name, old(stream.content[stream.pos..stream.pos + size]));
            && (code == Success ==>
                  && device.Valid() && stream.pos == old(stream.pos) + size + Padding(size) && image.Some?
                  && Sent(ModeOf(device, doFlash), Item(id, image.value.0, image.value.1), old(device.log), device.log))
            && (!doFlash ==> unchanged(device) && code == if image.Some? then Success else Firmware)
            && (doFlash && !device.legacy && Cooperative(device.world) && image.Some? ==> code == Success)
  {
    hide Lz4Image, Chunks, Pieces, Cooperative, UsbDevice.Valid, Run, Data, Padded, Progress;
    ghost var log0 := device.log;
    ghost var data := stream.content[stream.pos..stream.pos + size];
    PacketSize(device);
    PiecesTotal(data);
    var ok;
    if t.isLz4(name) {
      if device.legacy && doFlash { return Protocol; }
      ok := ProcessLz4Streaming(t, stream, size, device, doFlash);
      if !ok { return if doFlash then Protocol else Firmware; }
    } else if doFlash {
      ok := device.FlashPartitionStream(stream, size);
      if !ok { return Protocol; }
    } else {
      stream.Seek(stream.pos + size);
    }
    ghost var log1 := device.log;
    stream.Seek(stream.pos + Padding(size));
    if doFlash {
      ok := device.EndFileTransfer(id);
      if !ok { return Protocol; }
    }
    code := Success;
  }

  // How a header went: the exit code, whether the walk is over, and where it
  // goes on.
  datatype Went = Went(code: ExitCode, last: bool, cursor: Cursor)

  predicate Refused(s: Step) { s.Halt? && s.outcome.Refuses? }

  // A header went as it should: `before` and `after` are the logs around it.
  ghost predicate WentWell(w: Went, step: Step, mode: Mode, before: seq<Event>, after: seq<Event>) {
    && !Refused(step) && (w.last <==> step.Halt?) && (!step.Halt? ==> w.cursor == step.next)
    && (if step.Take? then Sent(mode, step.item, before, after) else mode == Check || after == before)
  }

  // The entry behind a header, by its kind and its partition.
  method ProcessKind(t: Tools, stream: Stream, kind: int, name: Name, size: nat, next: Cursor, device: UsbDevice,
                     doFlash: bool,
                     allowUnknown: bool)
    returns (w: Went)
    requires DecoderOk(t.decoder) && device.Valid() && stream.pos + size <= |stream.content| < 0x8000_0000_0000_0000
    requires next.pos == stream.pos + size + Padding(size)
    modifies stream, device`calls, device`wire, device`maxChunkBytes, device`log
    ensures var step := ByKind(t, kind, name, old(stream.content[stream.pos..stream.pos + size]), next, allowUnknown);
            && (!doFlash ==> unchanged(device) && w.code == if Refused(step) then step.outcome.code else Success)
            && (doFlash && !device.legacy && Cooperative(device.world) ==> (w.code == Success <==> !Refused(step)))
            && (w.code == Success ==>
                  && device.Valid() && WentWell(w, step, ModeOf(device, doFlash), old(device.log), device.log)
                  && (!w.last ==> stream.pos == w.cursor.pos))
  {
    hide EntryImage, Chunks, Cooperative, UsbDevice.Valid;
    ghost var log0 := device.log;
    assert log0 + [] == log0;
    if kind == 'L' as int || kind == 'x' as int || kind == 'g' as int {
      if size > MIB { return Went(Firmware, true, next); }
      var data := stream.Read(size);
      stream.Seek(stream.pos + Padding(size));
      return Went(Success, false,
                  if kind == 'L' as int then next.(long := t.longName(data))
                      else next.(pax := t.paxPath(data, next.pax)));
    }
    if kind != 0 && kind != '0' as int {
      stream.Seek(stream.pos + size);
      stream.Seek(stream.pos + Padding(size));
      return Went(Success, false, next);
    }
    if name == [] { return Went(Firmware, true, next); }
    var partition := t.partition(name);
    if partition == None {
      if !allowUnknown { return Went(Pit, true, next); }
      stream.Seek(stream.pos + size);
      stream.Seek(stream.pos + Padding(size));
      return Went(Success, false, next);
    }
    var id := partition.value;
    if id in next.used { return Went(Pit, true, next); }
    var code := ProcessEntry(t, stream, name, size, id, device, doFlash);
    w := Went(code, false, next.(used := next.used + {id}));
  }

  // One header and its entry.
  method ProcessHeader(t: Tools, stream: Stream, contentEnd: nat, device: UsbDevice, doFlash: bool, allowUnknown: bool,
                       c: Cursor)
    returns (w: Went)
    requires DecoderOk(t.decoder) && device.Valid() && c.pos == stream.pos
    requires c.pos + 512 <= contentEnd <= |stream.content|
    requires |stream.content| < 0x8000_0000_0000_0000
    modifies stream, device`calls, device`wire, device`maxChunkBytes, device`log
    ensures var step := OneHeader(t, stream.content, contentEnd, allowUnknown, c);
            && (!doFlash ==> unchanged(device) && w.code == if Refused(step) then step.outcome.code else Success)
            && (doFlash && !device.legacy && Cooperative(device.world) ==> (w.code == Success <==> !Refused(step)))
            && (w.code == Success ==>
                  && device.Valid() && WentWell(w, step, ModeOf(device, doFlash), old(device.log), device.log)
                  && (!w.last ==> stream.pos == w.cursor.pos))
  {
    hide ByKind, Chunks, Cooperative, UsbDevice.Valid, AllZeros;
    var header := stream.Read(512);
    if AllZeros(header) {
      assert device.log + [] == device.log;
      return Went(Success, true, c);
    }
    if !t.checksumValid(header) { return Went(Firmware, true, c); }
    var sizeField := t.sizeField(header);
    if sizeField == None { return Went(Firmware, true, c); }
    var size := sizeField.value;
    var name, pax := t.headerName(header), c.pax;
    if c.long != [] { name := c.long; } else if c.pax != [] { name, pax := c.pax, []; }
    var dataStart := stream.pos;
    if size > contentEnd - dataStart { return Went(Firmware, true, c); }
    PaddedIsAligned(size);
    var next := Cursor(dataStart + size + Padding(size), [], pax, c.used);
    w := ProcessKind(t, stream, header[156] as int, name, size, next, device, doFlash, allowUnknown);
  }

  lemma Onward(done: seq<Item>, t: Tools, content: seq<byte>, contentEnd: nat, allowUnknown: bool, c: Cursor)
    requires DecoderOk(t.decoder) && c.pos + 512 <= contentEnd <= |content|
    ensures var step := OneHeader(t, content, contentEnd, allowUnknown, c);
            var all := After(done, Walk(t, content, contentEnd, allowUnknown, c));
            && (step.Halt? ==> all == After(done, step.outcome))
            && (step.Pass? ==> all == After(done, Walk(t, content, contentEnd, allowUnknown, step.next)))
            && (step.Take? ==> all == After(done + [step.item], Walk(t, content, contentEnd, allowUnknown, step.next)))
  {
    hide OneHeader;
    var step := OneHeader(t, content, contentEnd, allowUnknown, c);
    if step.Take? {
      var o := Walk(t, content, contentEnd, allowUnknown, step.next);
      if o.Accepts? { assert done + ([step.item] + o.items) == done + [step.item] + o.items; }
    }
  }

  lemma NothingAfter(done: seq<Item>)
    ensures After(done, Accepts([])) == Accepts(done)
  {
    assert done + [] == done;
  }

  lemma WalkEnds(done: seq<Item>, t: Tools, content: seq<byte>, contentEnd: nat, allowUnknown: bool, c: Cursor)
    requires DecoderOk(t.decoder) && contentEnd <= |content| && c.pos + 512 > contentEnd
    ensures After(done, Walk(t, content, contentEnd, allowUnknown, c)) == Accepts(done)
  {
    NothingAfter(done);
  }

  // process_tar_file, after the MD5 check has told where the content ends.
  method ProcessTarFile(t: Tools, stream: Stream, contentEnd: nat, device: UsbDevice, doFlash: bool, allowUnknown: bool)
    returns (code: ExitCode)
    requires DecoderOk(t.decoder) && device.Valid() && contentEnd <= |stream.content| < 0x8000_0000_0000_0000
    modifies stream, device`calls, device`wire, device`maxChunkBytes, device`log
    ensures var archive := Archive(t, stream.content, contentEnd, allowUnknown);
            && (!doFlash ==> unchanged(device) && code == if archive.Refuses? then archive.code else Success)
            && (doFlash && !device.legacy && Cooperative(device.world) ==> (code == Success <==> archive.Accepts?))
            && (code == Success ==>
                  && archive.Accepts? && device.Valid()
                  && SentAll(ModeOf(device, doFlash), archive.items, old(device.log), device.log)
                  && (doFlash && !device.legacy ==> device.log == old(device.log) + Events(archive.items)))
  {
    hide Walk, OneHeader, Cooperative, UsbDevice.Valid, Events, ImageEvents, SentAll, Sent;
    ghost var mode := ModeOf(device, doFlash);
    stream.Seek(0);
    if contentEnd < 512 { return Firmware; }
    ghost var log0, items: seq<Item> := device.log, [];
    ghost var archive := Archive(t, stream.content, contentEnd, allowUnknown);
    var c := Cursor(0, [], [], {});
    NothingSent(mode, log0);
    var last := false;
    while !last && stream.pos + 512 <= contentEnd
      invariant device.Valid() && c.pos % 512 == 0
      invariant !doFlash ==> unchanged(device)
      invariant SentAll(mode, items, log0, device.log)
      invariant !last ==>
                  c.pos == stream.pos && archive == After(items, Walk(t, stream.content, contentEnd, allowUnknown, c))
      invariant last ==> archive == Accepts(items)
      decreases contentEnd - c.pos, !last
    {
      NothingAfter(items);
      ghost var step := OneHeader(t, stream.content, contentEnd, allowUnknown, c);
      Onward(items, t, stream.content, contentEnd, allowUnknown, c);
      ghost var log1 := device.log;
      var w := ProcessHeader(t, stream, contentEnd, device, doFlash, allowUnknown, c);
      if w.code != Success { return w.code; }
      if step.Take? {
        OneMoreSent(mode, items, step.item, log0, log1, device.log);
        items := items + [step.item];
      }
      last := w.last;
      if !last { c := w.cursor; }
    }
    if !last { WalkEnds(items, t, stream.content, contentEnd, allowUnknown, c); }
    if mode == OverThor { SentAreEvents(items, log0, device.log); }
    code := Success;
  }

  // ---------------------------------------------------------------------
  // The Thor protocol as the device follows it
  // ---------------------------------------------------------------------

  // `done` are the partitions that have had their image.
  datatype Thor =
    | Waiting(done: seq<nat>)
    | Taking(done: seq<nat>, size: nat, got: nat, next: nat)
    | Confused

  // An image is announced with its size, comes in pieces with consecutive
  // indices that add up to the size, and is ended with a partition that has
  // not had one.
  function ThorAccept(d: Thor, e: Event): Thor {
    match e
    case FileSize(total) => if d.Waiting? then Taking(d.done, total, 0, 0) else Confused
    case Chunk(index, data) =>
      if d.Taking? && index == d.next && data != [] && d.got + |data| <= d.size then
        Taking(d.done, d.size, d.got + |data|, (index + 1) % 0x1_0000_0000)
      else Confused
    case EndFile(id) => if d.Taking? && d.got == d.size && id !in d.done then Waiting(d.done + [id]) else Confused
    case _ => Confused
  }

  function ThorRun(log: seq<Event>): Thor {
    if log == [] then Waiting([]) else ThorAccept(ThorRun(log[..|log| - 1]), log[|log| - 1])
  }

  function Ids(items: seq<Item>): (ids: seq<nat>)
    ensures |ids| == |items| && forall i :: 0 <= i < |ids| ==> ids[i] == items[i].id
  {
    seq(|items|, i requires 0 <= i < |items| => items[i].id)
  }

  ghost predicate Distinct(ids: seq<nat>) {
    forall i, j :: 0 <= i < j < |ids| ==> ids[i] != ids[j]
  }

  ghost predicate Solid(image: seq<seq<byte>>) {
    forall i :: 0 <= i < |image| ==> image[i] != []
  }

  ghost predicate Sendable(items: seq<Item>) {
    forall i :: 0 <= i < |items| ==> Solid(items[i].image) && Total(items[i].image) == items[i].size
  }

  lemma ThorMore(log: seq<Event>, e: Event)
    ensures ThorRun(log + [e]) == ThorAccept(ThorRun(log), e)
  {
    assert (log + [e])[..|log|] == log;
  }

  lemma {:induction false} ChunksAccepted(log: seq<Event>, done: seq<nat>, size: nat, image: seq<seq<byte>>)
    requires ThorRun(log) == Taking(done, size, 0, 0) && Solid(image) && Total(image) <= size
    ensures ThorRun(log + Chunks(image)) == Taking(done, size, Total(image), |image| % 0x1_0000_0000)
    decreases |image|
  {
    if image == [] {
      NoChunks(log);
    } else {
      var front, x := image[..|image| - 1], image[|image| - 1];
      ChunksAccepted(log, done, size, front);
      assert front + [x] == image;
      MoreChunks(log, front, x);
      ThorMore(log + Chunks(front), Chunk(|front| % 0x1_0000_0000, x));
    }
  }

  // What a flash run sends is what the device expects.
  lemma {:induction false} EventsAccepted(items: seq<Item>)
    requires Sendable(items) && Distinct(Ids(items))
    ensures ThorRun(Events(items)) == Waiting(Ids(items))
    decreases |items|
  {
    hide Chunks, Total, ThorRun, Solid, ImageEvents;
    NoThor();
    if items == [] { return; }
    var front, item := items[..|items| - 1], items[|items| - 1];
    assert Ids(front) == Ids(items)[..|front|];
    EventsAccepted(front);
    ItemAccepted(Events(front), Ids(front), item);
    assert Ids(front) + [item.id] == Ids(items);
  }

  lemma ItemAccepted(log: seq<Event>, done: seq<nat>, item: Item)
    requires ThorRun(log) == Waiting(done) && item.id !in done && Solid(item.image) && Total(item.image) == item.size
    ensures ThorRun(log + (ImageEvents(item.size, item.image) + [EndFile(item.id)])) == Waiting(done + [item.id])
  {
    hide Chunks, Total, ThorRun, Solid;
    ThorMore(log, FileSize(item.size));
    ChunksAccepted(log + [FileSize(item.size)], done, item.size, item.image);
    ThorMore(log + [FileSize(item.size)] + Chunks(item.image), EndFile(item.id));
    assert log + [FileSize(item.size)] + Chunks(item.image) + [EndFile(item.id)]
        == log + (ImageEvents(item.size, item.image) + [EndFile(item.id)]);
  }

  lemma NoThor()
    ensures ThorRun([]) == Waiting([])
  {
  }

  lemma {:induction false} PumpedIsSolid(d: Decoder, h: seq<Call>, buf: seq<byte>, rest: seq<byte>, inSize: nat,
                                         outSize: nat)
    requires DecoderOk(d) && 0 < inSize
    ensures Solid(Pump(d, h, buf, rest, inSize, outSize).chunks)
    decreases |buf| + |rest|, |rest|, d.pending(h)
  {
    if buf == [] {
      if rest != [] {
        PumpedIsSolid(d, h, rest[..Smaller(inSize, |rest|)], rest[Smaller(inSize, |rest|)..], inSize, outSize);
      }
      return;
    }
    var c := Call(buf, outSize);
    var r := d.reply(h, c);
    assert ReplyOk(d, h, c, r);
    if r.Accepted? && Stuck(r) && |buf| < inSize && rest != [] {
      var n := Smaller(inSize - |buf|, |rest|);
      PumpedIsSolid(d, h + [c], buf + rest[..n], rest[n..], inSize, outSize);
    } else if r.Accepted? && !Stuck(r) && r.hint != 0 {
      PumpedIsSolid(d, h + [c], buf[r.consumed..], rest, inSize, outSize);
    }
  }

  lemma {:induction false} PiecesTotal(file: seq<byte>)
    ensures Total(Pieces(file)) == |file| && Joined(Pieces(file)) == file
    decreases |file|
  {
    if |file| > THOR_CHUNK {
      var x, rest := file[..THOR_CHUNK], file[THOR_CHUNK..];
      PiecesTotal(rest);
      TotalOfMore([x], Pieces(rest));
      JoinedOfMore([x], Pieces(rest));
      OnePiece(x);
      assert x + rest == file;
    } else if file != [] {
      OnePiece(file);
    }
  }

  lemma OnePiece(x: seq<byte>)
    ensures Total([x]) == |x| && Joined([x]) == x
  {
    assert [x][..0] == [];
  }

  lemma {:induction false} JoinedOfMore(a: seq<seq<byte>>, b: seq<seq<byte>>)
    ensures Joined(a + b) == Joined(a) + Joined(b)
    decreases |b|
  {
    if b == [] {
      assert a + b == a;
    } else {
      JoinedOfMore(a, b[..|b| - 1]);
      assert (a + b)[..|a + b| - 1] == a + b[..|b| - 1];
    }
  }

  lemma ImageIsSendable(t: Tools, name: Name, data: seq<byte>)
    requires DecoderOk(t.decoder) && EntryImage(t, name, data).Some?
    ensures var image := EntryImage(t, name, data).value; Solid(image.1) && Total(image.1) == image.0
  {
    PiecesTotal(data);
    PumpedIsSolid(t.decoder, [], [], data, InSize(|data|), OutSize(|data|));
  }

  // No partition gets two images, and every image has the announced size.
  lemma {:induction false} WalkIsSendable(t: Tools, content: seq<byte>, contentEnd: nat, allowUnknown: bool, c: Cursor)
    requires DecoderOk(t.decoder) && contentEnd <= |content|
    requires Walk(t, content, contentEnd, allowUnknown, c).Accepts?
    ensures var items := Walk(t, content, contentEnd, allowUnknown, c).items;
            Sendable(items) && Distinct(Ids(items)) && forall i :: 0 <= i < |items| ==> items[i].id !in c.used
    decreases contentEnd - c.pos
  {
    hide OneHeader, Solid, Total;
    if c.pos + 512 > contentEnd { return; }
    var step := OneHeader(t, content, contentEnd, allowUnknown, c);
    HeaderIsSendable(t, content, contentEnd, allowUnknown, c);
    if step.Halt? { return; }
    WalkIsSendable(t, content, contentEnd, allowUnknown, step.next);
  }

  lemma HeaderIsSendable(t: Tools, content: seq<byte>, contentEnd: nat, allowUnknown: bool, c: Cursor)
    requires DecoderOk(t.decoder) && c.pos + 512 <= contentEnd <= |content|
    ensures var step := OneHeader(t, content, contentEnd, allowUnknown, c);
            && (step.Pass? ==> step.next.used == c.used)
            && (step.Take? ==>
                  && step.next.used == c.used + {step.item.id} && step.item.id !in c.used
                  && Solid(step.item.image) && Total(step.item.image) == step.item.size)
  {
    hide EntryImage, Solid, Total, AllZeros;
    var size := t.sizeField(content[c.pos..c.pos + 512]);
    if size.Some? && size.value <= contentEnd - (c.pos + 512) {
      var data := content[c.pos + 512..c.pos + 512 + size.value];
      forall name | EntryImage(t, name, data).Some?
        ensures var image := EntryImage(t, name, data).value; Solid(image.1) && Total(image.1) == image.0
      {
        ImageIsSendable(t, name, data);
      }
    }
  }

  // ---------------------------------------------------------------------
  // What the decoder makes of a compressed image
  // ---------------------------------------------------------------------

  // A call and the answer it got.
  datatype Exchange = Exchange(call: Call, reply: Reply)

  // The bytes taken and given over some calls.
  function Taken(tr: seq<Exchange>): seq<byte> {
    if tr == [] then []
    else
      var x := tr[|tr| - 1];
      Taken(tr[..|tr| - 1])
      + if x.reply.Accepted? && x.reply.consumed <= |x.call.src| then x.call.src[..x.reply.consumed] else []
  }

  function Given(tr: seq<Exchange>): seq<byte> {
    if tr == [] then []
    else
      var x := tr[|tr| - 1];
      Given(tr[..|tr| - 1]) + if x.reply.Accepted? then x.reply.data else []
  }

  lemma OneMoreExchange(tr: seq<Exchange>, c: Call, r: Reply)
    requires r.Accepted? && r.consumed <= |c.src|
    ensures Taken(tr + [Exchange(c, r)]) == Taken(tr) + c.src[..r.consumed]
    ensures Given(tr + [Exchange(c, r)]) == Given(tr) + r.data
  {
    assert (tr + [Exchange(c, r)])[..|tr|] == tr;
  }

  // All went well so far, and no frame is complete.
  ghost predicate Clean(env: Env, tr: seq<Exchange>) {
    var m := FeedAll(env, START, Taken(tr));
    Given(tr) <= m.out && m.frames == 0 && !m.stage.Failed?
  }

  // An answer that fits what the calls before it have brought: it gives a
  // beginning of what the bytes taken so far stand for, and all of it when it
  // says that a frame is complete; it rejects no text that is well-formed so
  // far unless a block of it is torn; it is never stuck.
  ghost predicate Faithful(env: Env, tr: seq<Exchange>, c: Call, r: Reply) {
    var tr' := tr + [Exchange(c, r)];
    var m := FeedAll(env, START, Taken(tr'));
    && (r.Rejected? ==> Corrupt(env, Taken(tr) + c.src) || Unsettled(env, Taken(tr) + c.src))
    && (r.Accepted? ==> r.consumed <= |c.src| && |r.data| <= c.room)
    && (r.Accepted? && r.hint != 0 ==> Clean(env, tr') && !Stuck(r))
    && (r.Accepted? && r.hint == 0 ==>
          r.consumed > 0 && m.frames == 1 && m.stage == Reading(Magic, 4, []) && Given(tr') == m.out)
  }

  // What happened in some calls of a decoder.
  function Transcript(d: Decoder, h: seq<Call>): seq<Exchange> {
    if h == [] then []
    else
      var front, c := h[..|h| - 1], h[|h| - 1];
      Transcript(d, front) + [Exchange(c, d.reply(front, c))]
  }

  // What is asked of the decoder the pump talks to: faithful answers to calls
  // that offer bytes and room.  The frame decoder gives them: see FrameSession.
  ghost predicate Decodes(d: Decoder, env: Env) {
    DecoderOk(d) && forall h, c {:trigger d.reply(h, c)} :: FaithfulAfter(d, env, h, c)
  }

  ghost predicate FaithfulAfter(d: Decoder, env: Env, h: seq<Call>, c: Call) {
    var tr := Transcript(d, h);
    Clean(env, tr) && c.src != [] && c.room > 0 ==> Faithful(env, tr, c, d.reply(h, c))
  }

  lemma OneMoreCall(d: Decoder, h: seq<Call>, c: Call)
    requires DecoderOk(d) && d.reply(h, c).Accepted?
    ensures var r := d.reply(h, c); var tr, tr' := Transcript(d, h), Transcript(d, h + [c]);
            && r.consumed <= |c.src| && tr' == tr + [Exchange(c, r)]
            && Taken(tr') == Taken(tr) + c.src[..r.consumed] && Given(tr') == Given(tr) + r.data
  {
    hide Taken, Given;
    assert (h + [c])[..|h|] == h;
    assert ReplyOk(d, h, c, d.reply(h, c));
    OneMoreExchange(Transcript(d, h), c, d.reply(h, c));
  }

  // What the pump sends is what the entry decodes to.
  ghost predicate Delivers(env: Env, p: Pumped, before: seq<byte>, data: seq<byte>, n: nat) {
    && Decoded(env, data, p.ending != Failing, n, before + Joined(p.chunks))
    && (p.ending != Failing ==> (p.ending == AtFrameEnd <==> FeedAll(env, START, data).frames > 0))
  }

  // The entry is what was taken, what is in the buffer, and the rest.
  ghost predicate SoFar(env: Env, tr: seq<Exchange>, buf: seq<byte>, rest: seq<byte>, data: seq<byte>) {
    Taken(tr) + buf + rest == data && Clean(env, tr)
  }

  lemma MovedOn(env: Env, tr: seq<Exchange>, buf: seq<byte>, rest: seq<byte>, data: seq<byte>, k: nat)
    requires SoFar(env, tr, buf, rest, data) && k <= |rest|
    ensures SoFar(env, tr, buf + rest[..k], rest[k..], data)
  {
    hide FeedAll, Taken, Given, Clean;
    assert Taken(tr) + (buf + rest[..k]) + rest[k..] == Taken(tr) + buf + rest;
  }

  lemma TakenRest(tr: seq<Exchange>, c: Call, r: Reply, rest: seq<byte>)
    requires r.Accepted? && r.consumed <= |c.src|
    ensures Taken(tr + [Exchange(c, r)]) + c.src[r.consumed..] + rest == Taken(tr) + c.src + rest
  {
    hide Taken, Given;
    OneMoreExchange(tr, c, r);
    assert c.src[..r.consumed] + c.src[r.consumed..] == c.src;
  }

  lemma CallWent(env: Env, tr: seq<Exchange>, c: Call, r: Reply, rest: seq<byte>, data: seq<byte>)
    requires SoFar(env, tr, c.src, rest, data) && Faithful(env, tr, c, r) && r.Accepted? && r.hint != 0
    ensures r.consumed <= |c.src| && SoFar(env, tr + [Exchange(c, r)], c.src[r.consumed..], rest, data)
    ensures Given(tr + [Exchange(c, r)]) == Given(tr) + r.data && !Stuck(r)
  {
    hide FeedAll, Taken, Given, Clean;
    OneMoreExchange(tr, c, r);
    TakenRest(tr, c, r, rest);
  }

  lemma FrameDone(env: Env, tr: seq<Exchange>, c: Call, r: Reply, rest: seq<byte>, data: seq<byte>) returns (n: nat)
    requires SoFar(env, tr, c.src, rest, data) && Faithful(env, tr, c, r) && r.Accepted? && r.hint == 0
    ensures Delivers(env, Pumped(IfAny(r.data), AtFrameEnd), Given(tr), data, n)
  {
    hide FeedAll, Taken, Given, Joined, Decoded, Clean;
    OneMoreExchange(tr, c, r);
    TakenRest(tr, c, r, rest);
    var tr' := tr + [Exchange(c, r)];
    n := |Taken(tr')|;
    assert data[..n] == Taken(tr') && data[..|data|] == data;
    NothingJoined();
    JoinedIfAny(r.data, []);
    assert IfAny(r.data) + [] == IfAny(r.data) && r.data + [] == r.data;
    HowItEnded(env, data, n, Given(tr'));
    FramesGrowAlong(env, data, n, |data|);
  }

  lemma CallRejected(env: Env, tr: seq<Exchange>, c: Call, r: Reply, rest: seq<byte>, data: seq<byte>)
    requires SoFar(env, tr, c.src, rest, data) && Faithful(env, tr, c, r) && r.Rejected?
    ensures Delivers(env, Pumped([], Failing), Given(tr), data, 0)
  {
    hide FeedAll, Taken, Given, Joined, Clean, Unsettled;
    var t := Taken(tr) + c.src;
    FeedAppend(env, START, t, rest);
    if FeedAll(env, START, t).stage.Failed? { FailedStays(env, FeedAll(env, START, t), rest); }
    if Unsettled(env, t) { UnsettledStays(env, t, rest); }
  }

  lemma UnsettledStays(env: Env, t: seq<byte>, rest: seq<byte>)
    requires Unsettled(env, t)
    ensures Unsettled(env, t + rest)
  {
    hide FeedAll;
    var p: nat :| p <= |t| && FeedAll(env, START, t[..p]).torn > 0 && FeedAll(env, START, t[..p]).frames == 0;
    assert (t + rest)[..p] == t[..p];
  }

  lemma DeliversMore(env: Env, p: Pumped, before: seq<byte>, x: seq<byte>, data: seq<byte>, n: nat)
    requires Delivers(env, p, before + x, data, n)
    ensures Delivers(env, Behind(IfAny(x), p), before, data, n)
  {
    hide FeedAll, Joined, Decoded;
    JoinedIfAny(x, p.chunks);
    assert before + (x + Joined(p.chunks)) == before + x + Joined(p.chunks);
  }

  lemma EntryDone(env: Env, tr: seq<Exchange>, data: seq<byte>)
    requires SoFar(env, tr, [], [], data)
    ensures Delivers(env, Pumped([], AtEntryEnd), Given(tr), data, |data|)
  {
    hide FeedAll, Taken, Given, Joined, Decoded;
    NothingJoined();
    assert Taken(tr) + [] + [] == Taken(tr) && Given(tr) + [] == Given(tr) && data[..|data|] == data;
    HowItEnded(env, data, |data|, Given(tr));
  }

  lemma {:induction false} PumpDelivers(d: Decoder, env: Env, h: seq<Call>, buf: seq<byte>, rest: seq<byte>,
                                        data: seq<byte>,
                                        inSize: nat, outSize: nat)
    returns (n: nat)
    requires Decodes(d, env) && 0 < inSize && 0 < outSize && SoFar(env, Transcript(d, h), buf, rest, data)
    ensures Delivers(env, Pump(d, h, buf, rest, inSize, outSize), Given(Transcript(d, h)), data, n)
    decreases |buf| + |rest|, |rest|, d.pending(h)
  {
    hide FeedAll, Taken, Given, SoFar, Faithful, IfAny, Delivers, Clean, Transcript;
    var c, tr := Call(buf, outSize), Transcript(d, h);
    var r := d.reply(h, c);
    if buf == [] {
      if rest == [] { EntryDone(env, tr, data); return |data|; }
      var k := Smaller(inSize, |rest|);
      MovedOn(env, tr, buf, rest, data, k);
      assert buf + rest[..k] == rest[..k];
      n := PumpDelivers(d, env, h, rest[..k], rest[k..], data, inSize, outSize);
      return;
    }
    CleanSoFar(env, tr, buf, rest, data);
    assert FaithfulAfter(d, env, h, c);
    if r.Rejected? {
      CallRejected(env, tr, c, r, rest, data);
      n := 0;
    } else {
      assert ReplyOk(d, h, c, r);
      if r.hint == 0 {
        n := FrameDone(env, tr, c, r, rest, data);
      } else {
        CallWent(env, tr, c, r, rest, data);
        OneMoreCall(d, h, c);
        n := PumpDelivers(d, env, h + [c], buf[r.consumed..], rest, data, inSize, outSize);
        DeliversMore(env, Pump(d, h + [c], buf[r.consumed..], rest, inSize, outSize), Given(tr), r.data, data, n);
      }
    }
  }

  lemma CleanSoFar(env: Env, tr: seq<Exchange>, buf: seq<byte>, rest: seq<byte>, data: seq<byte>)
    requires SoFar(env, tr, buf, rest, data)
    ensures Clean(env, tr)
  {
  }

  lemma JoinedIfAny(data: seq<byte>, chunks: seq<seq<byte>>)
    ensures Joined(IfAny(data) + chunks) == data + Joined(chunks)
  {
    if data == [] {
      assert IfAny(data) + chunks == chunks;
    } else {
      OnePiece(data);
      JoinedOfMore([data], chunks);
    }
  }

  // The image of a compressed entry has the size announced for it and is what
  // the entry decodes to; only when the frame itself tells the size may its
  // end be missing.
  lemma Lz4ImageDecodes(t: Tools, env: Env, data: seq<byte>) returns (n: nat)
    requires Decodes(t.decoder, env) && Lz4Image(t, data).Some?
    ensures var image := Lz4Image(t, data).value;
            && |Joined(image.1)| == image.0 && Decoded(env, data, true, n, Joined(image.1))
            && (FeedAll(env, START, data).frames == 0 ==>
                  t.contentSize(HeaderPart(data)) == Some(image.0) && 0 < image.0)
  {
    hide FeedAll, Pump, Total, Joined, Decoded;
    var p := Pump(t.decoder, [], [], data, InSize(|data|), OutSize(|data|));
    StartSoFar(env, data);
    n := PumpDelivers(t.decoder, env, [], [], data, data, InSize(|data|), OutSize(|data|));
    TotalIsLength(p.chunks);
    assert [] + Joined(p.chunks) == Joined(p.chunks);
  }

  // Every entry that is a frame is accepted, if its header tells no size or
  // the right one.
  lemma FramesAreAccepted(t: Tools, env: Env, data: seq<byte>)
    requires Decodes(t.decoder, env) && IsFrame(env, data) && !Unsettled(env, data)
    requires t.contentSize(HeaderPart(data)).Some?
    requires var size := |FeedAll(env, START, data).out|;
             size < 0x1_0000_0000_0000_0000
             && (t.contentSize(HeaderPart(data)) == Some(0) || t.contentSize(HeaderPart(data)) == Some(size))
    ensures Lz4Image(t, data).Some? && Joined(Lz4Image(t, data).value.1) == FeedAll(env, START, data).out
  {
    hide FeedAll, Pump, Total, Joined;
    var p := Pump(t.decoder, [], [], data, InSize(|data|), OutSize(|data|));
    StartSoFar(env, data);
    var n := PumpDelivers(t.decoder, env, [], [], data, data, InSize(|data|), OutSize(|data|));
    FrameIsDecoded(env, data, p.ending != Failing, n, [] + Joined(p.chunks));
    TotalIsLength(p.chunks);
    assert [] + Joined(p.chunks) == Joined(p.chunks) && data[..|data|] == data;
  }

  lemma StartSoFar(env: Env, data: seq<byte>)
    ensures SoFar(env, [], [], data, data) && Given([]) == []
  {
    assert [] + [] + data == data;
  }

  lemma {:induction false} TotalIsLength(chunks: seq<seq<byte>>)
    ensures |Joined(chunks)| == Total(chunks)
  {
    if chunks != [] { TotalIsLength(chunks[..|chunks| - 1]); }
  }

  // A check-only run followed by a flash run over Thor.
  method CheckThenFlash(t: Tools, stream: Stream, contentEnd: nat, device: UsbDevice, allowUnknown: bool)
    returns (checked: ExitCode, flashed: ExitCode)
    requires DecoderOk(t.decoder) && device.Valid() && !device.legacy
    requires contentEnd <= |stream.content| < 0x8000_0000_0000_0000
    modifies stream, device`calls, device`wire, device`maxChunkBytes, device`log
    ensures flashed == Success ==> checked == Success
    ensures Cooperative(device.world) && checked == Success ==> flashed == Success
    ensures flashed == Success ==>
              exists items ::
                && device.log == old(device.log) + Events(items) && ThorRun(Events(items)) == Waiting(Ids(items))
                && Archive(t, stream.content, contentEnd, allowUnknown) == Accepts(items) && Distinct(Ids(items))
  {
    hide Walk, Cooperative, UsbDevice.Valid, Events;
    checked := ProcessTarFile(t, stream, contentEnd, device, false, allowUnknown);
    flashed := ProcessTarFile(t, stream, contentEnd, device, true, allowUnknown);
    if flashed == Success {
      ghost var items := Archive(t, stream.content, contentEnd, allowUnknown).items;
      WalkIsSendable(t, stream.content, contentEnd, allowUnknown, Cursor(0, [], [], {}));
      EventsAccepted(items);
    }
  }
}
