// Writing an image to a device: the retrying bulk writer; the parts, their
// acknowledgements and the sequences of the legacy protocol; the chunks of the
// Thor protocol.
module Flashing {
  import opened Arithmetic
  import opened BlockFormat
  import opened Buffers

  // One bulk transfer as libusb reports it; ERR_NONE is success.
  datatype Transfer = Transfer(err: int, actual: nat)

  const ERR_NONE := 0
  const ERR_NO_DEVICE := -4
  const ERR_TIMEOUT := -7
  const ERR_PIPE := -9
  const USB_RETRY_COUNT := 5
  // Packet size times packets per sequence, in both protocol versions.
  const SEQUENCE_BYTES: nat := 31457280
  const THOR_CHUNK: nat := 1048576

  // What the other end does, by the number of calls made so far: transfers
  // outwards, replies to commands, and acknowledgements of parts.
  datatype World = World(transfer: nat -> Transfer, command: nat -> bool, ack: (nat, seq<Event>) -> Option<nat>)

  // What the device has been asked to do.
  datatype Event =
    | RequestFile
    | RequestSequence(aligned: nat)
    | Part(index: nat, data: seq<byte>)
    | EndSequence(size: nat, last: bool)
    | ResetCount
    | FileSize(total: nat)
    | Chunk(index: nat, data: seq<byte>)
    | EndFile(id: nat)

  function Payload(e: Event): seq<byte> {
    if e.Part? || e.Chunk? then e.data else []
  }

  // The bytes of the parts and chunks, in order.
  function Data(log: seq<Event>): seq<byte> {
    if log == [] then []
    else
      Data(log[..|log| - 1]) + Payload(log[|log| - 1])
  }

  // ---------------------------------------------------------------------
  // The protocol as the device follows it
  // ---------------------------------------------------------------------

  // `next` is the index of the next part, `size` the size reported so far.
  datatype Device =
    | Idle
    | Ready(next: nat, size: nat)
    | Receiving(next: nat, size: nat, left: nat, aligned: nat)
    | Complete(size: nat)
    | Finished(size: nat)
    | Refused

  // A sequence is 30 MiB, and only the last may be shorter.  Parts have the
  // packet size and consecutive indices; a sequence ends when all its parts are
  // there, with a size that needs all of them.
  function Accept(d: Device, e: Event, packet: nat): Device {
    match e
    case RequestFile => if d.Idle? then Ready(0, 0) else Refused
    case RequestSequence(aligned) =>
      if d.Ready? && packet > 0 && 0 < aligned <= 31457280 && aligned % packet == 0 then
        Receiving(d.next, d.size, aligned / packet, aligned)
      else Refused
    case Part(index, data) =>
      if d.Receiving? && d.left > 0 && index == d.next && |data| == packet then
        Receiving((d.next + 1) % 0x1_0000_0000, d.size, d.left - 1, d.aligned)
      else Refused
    case EndSequence(size, last) =>
      if d.Receiving? && d.left == 0 && d.aligned < size + packet && size <= d.aligned
         && (last || size == 31457280) then
        if last then Complete(d.size + size) else Ready(d.next, d.size + size)
      else Refused
    case ResetCount => if d.Complete? then Finished(d.size) else Refused
    case _ => Refused
  }

  function Run(log: seq<Event>, packet: nat): Device {
    if log == [] then Idle else Accept(Run(log[..|log| - 1], packet), log[|log| - 1], packet)
  }

  function Zeros(n: nat): (z: seq<byte>)
    ensures |z| == n && forall i :: 0 <= i < n ==> z[i] == 0
  {
    seq(n, _ => 0)
  }

  // A file filled up with zeros to whole packets.
  function Padded(file: seq<byte>, packet: nat): seq<byte>
    requires packet > 0
  {
    file + Zeros((packet - |file| % packet) % packet)
  }

  // ---------------------------------------------------------------------
  // A run of transfers
  // ---------------------------------------------------------------------

  // Of the k transfers from call c on, those that reported an error or moved
  // nothing.
  function Hitches(w: World, c: nat, k: nat): nat {
    if k == 0 then 0
    else Hitches(w, c, k - 1) + if w.transfer(c + k - 1).err != 0 || w.transfer(c + k - 1).actual == 0 then 1 else 0
  }

  // One of them was a broken pipe or timed out.
  predicate Slowed(w: World, c: nat, k: nat) {
    k > 0 && (Slowed(w, c, k - 1) || w.transfer(c + k - 1).err == -9 || w.transfer(c + k - 1).err == -7)
  }

  // The last of them found the device gone.
  predicate Gone(w: World, c: nat, k: nat) {
    k > 0 && w.transfer(c + k - 1).err == -4
  }

  // The bytes of n that k transfers move, at most `chunk` at a time, and 16 KB
  // once one was slowed down.
  function Moved(w: World, c: nat, k: nat, n: nat, chunk: nat): (m: nat)
    ensures m <= n
  {
    if k == 0 then 0
    else
      var before := Moved(w, c, k - 1, n, chunk);
      var most := if Slowed(w, c, k - 1) then 16384 else chunk;
      before + Smaller(w.transfer(c + k - 1).actual, Smaller(most, n - before))
  }

  // After k transfers there is a reason for another one.
  predicate GoesOn(w: World, c: nat, k: nat, n: nat, chunk: nat) {
    Moved(w, c, k, n, chunk) < n && !Gone(w, c, k) && Hitches(w, c, k) < 5
  }

  lemma NoTransfer(w: World, c: nat, n: nat, chunk: nat)
    ensures Hitches(w, c, 0) == 0 && !Slowed(w, c, 0) && !Gone(w, c, 0) && Moved(w, c, 0, n, chunk) == 0
  {
  }

  lemma OneTransfer(w: World, c: nat, k: nat, n: nat, chunk: nat)
    ensures var t := w.transfer(c + k);
            && Hitches(w, c, k + 1) == Hitches(w, c, k) + (if t.err != 0 || t.actual == 0 then 1 else 0)
            && (Slowed(w, c, k + 1) <==> Slowed(w, c, k) || t.err == -9 || t.err == -7)
            && (Gone(w, c, k + 1) <==> t.err == -4)
            && Moved(w, c, k + 1, n, chunk) ==
               Moved(w, c, k, n, chunk)
               + Smaller(t.actual, Smaller(if Slowed(w, c, k) then 16384 else chunk, n - Moved(w, c, k, n, chunk)))
  {
  }

  lemma WireMore(wire: seq<byte>, data: seq<byte>, offset: nat, n: nat, actual: nat)
    requires offset + n <= |data| && actual <= n
    ensures wire + data[..offset] + data[offset..offset + n][..actual] == wire + data[..offset + actual]
  {
    assert data[..offset] + data[offset..offset + n][..actual] == data[..offset + actual];
  }

  // At most four transfers go wrong in all, and nothing else does.
  ghost predicate Cooperative(w: World) {
    && (forall c, k {:trigger Hitches(w, c, k)} :: Hitches(w, c, k) <= 4)
    && (forall n {:trigger w.transfer(n)} :: w.transfer(n).err != -4)
    && (forall n {:trigger w.command(n)} :: w.command(n))
    && (forall n, log: seq<Event> {:trigger w.ack(n, log)} ::
          log != [] && log[|log| - 1].Part? ==> w.ack(n, log) == Some(log[|log| - 1].index))
  }

  lemma RightAck(w: World, n: nat, log: seq<Event>, e: Event)
    requires log != [] && log[|log| - 1] == e && e.Part?
    ensures Cooperative(w) ==> w.ack(n, log) == Some(e.index)
  {
  }

  lemma Patience(w: World, c: nat, k: nat)
    ensures Cooperative(w) ==> !Gone(w, c, k) && Hitches(w, c, k) <= 4
  {
    hide Hitches;
  }

  // An image in the pieces in which Thor sends a file.
  function Pieces(file: seq<byte>): (image: seq<seq<byte>>)
    ensures forall i :: 0 <= i < |image| ==> 0 < |image[i]| <= THOR_CHUNK
    decreases |file|
  {
    if file == [] then []
    else if |file| <= THOR_CHUNK then [file]
    else [file[..THOR_CHUNK]] + Pieces(file[THOR_CHUNK..])
  }

  // They are the mebibytes of the file, one after the other.
  lemma {:induction false} PieceIs(file: seq<byte>, i: nat)
    ensures i < |Pieces(file)| <==> 1048576 * i < |file|
    ensures i < |Pieces(file)| ==> Pieces(file)[i] == file[1048576 * i..Smaller(1048576 * (i + 1), |file|)]
    decreases i
  {
    if i > 0 && |file| > 1048576 {
      var rest := file[1048576..];
      PieceIs(rest, i - 1);
      if 1048576 * i < |file| {
        var end := Smaller(1048576 * i, |rest|);
        assert rest[1048576 * (i - 1)..end] == file[1048576 * i..1048576 + end];
      }
    }
  }

  // The pieces of an image with their indices.
  function Chunks(image: seq<seq<byte>>): (events: seq<Event>)
    ensures |events| == |image|
  {
    seq(|image|, i requires 0 <= i < |image| => Chunk(i % 0x1_0000_0000, image[i]))
  }

  // A file that is read from front to back.
  class Stream {
    const content: seq<byte>
    var pos: nat

    constructor (content: seq<byte>)
      ensures this.content == content && pos == 0
    {
      this.content := content;
      pos := 0;
    }

    // Up to n bytes; fewer at the end of the file.
    method Read(n: nat) returns (x: seq<byte>)
      requires pos <= |content|
      modifies this
      ensures pos == old(pos) + |x| <= |content| && x == content[old(pos)..pos]
      ensures |x| == if n <= |content| - old(pos) then n else |content| - old(pos)
    {
      var k := if n <= |content| - pos then n else |content| - pos;
      x := content[pos..pos + k];
      pos := pos + k;
    }

    // Positions behind the end of the file are allowed.
    method Seek(to: nat)
      modifies this
      ensures pos == to
    {
      pos := to;
    }
  }

  class UsbDevice {
    var maxChunkBytes: nat
    const packetSize: nat
    const sequenceCount: nat
    const legacy: bool
    const maxPacket: nat
    const supportsZlp: bool
    const world: World
    var calls: nat
    // Everything that went over the wire, and the commands and parts so far.
    var wire: seq<byte>
    var log: seq<Event>

    // After odin_begin_session, for either protocol version.
    ghost predicate Valid()
      reads this
    {
      && ((packetSize == 131072 && sequenceCount == 240) || (packetSize == 1048576 && sequenceCount == 30))
      && maxChunkBytes > 0 && wire == Data(log)
    }

    constructor (legacy: bool, newProtocol: bool, maxPacket: nat, supportsZlp: bool, world: World)
      ensures Valid() && log == [] && this.world == world && this.legacy == legacy
    {
      packetSize := if newProtocol then 1048576 else 131072;
      sequenceCount := if newProtocol then 30 else 240;
      maxChunkBytes, calls, wire, log := 1048576, 0, [], [];
      this.legacy, this.maxPacket, this.supportsZlp, this.world := legacy, maxPacket, supportsZlp, world;
    }

    // libusb_bulk_transfer outwards: what is said to have gone over went over.
    method BulkTransfer(x: seq<byte>) returns (err: int, actual: nat)
      modifies `calls, `wire
      ensures actual <= |x| && wire == old(wire) + x[..actual] && calls == old(calls) + 1
      ensures err == world.transfer(old(calls)).err && actual == Smaller(world.transfer(old(calls)).actual, |x|)
    {
      var t := world.transfer(calls);
      calls := calls + 1;
      err := t.err;
      actual := if t.actual <= |x| then t.actual else |x|;
      wire := wire + x[..actual];
    }

    // send_zlp: an empty transfer; its outcome is not looked at.
    method SendZlp()
      modifies `calls, `wire
      ensures wire == old(wire) && calls == old(calls) + 1
    {
      var empty: seq<byte> := [];
      var err, actual := BulkTransfer(empty);
      assert wire == old(wire) + empty[..0];
    }

    // In the middle of writing.
    ghost predicate Underway(data: seq<byte>, offset: nat, made: nat, c: nat, chunk: nat, wire0: seq<byte>)
      reads `calls, `wire, `maxChunkBytes
    {
      && offset == Moved(world, c, made, |data|, chunk) && wire == wire0 + data[..offset] && calls == c + made
      && maxChunkBytes > 0 && chunk > 0 && maxChunkBytes == (if Slowed(world, c, made) then 16384 else chunk)
      && forall k :: 0 <= k < made ==> GoesOn(world, c, k, |data|, chunk)
    }

    // bulk_write_all: what has gone over is a beginning of the data.  It goes on
    // until all of it has, the device is gone, or five transfers have gone wrong;
    // `made` is the number of transfers that takes.
    method BulkWriteAll(data: seq<byte>) returns (ok: bool, ghost sent: nat, ghost made: nat)
      requires maxChunkBytes > 0
      modifies `calls, `wire, `maxChunkBytes
      ensures sent == Moved(world, old(calls), made, |data|, old(maxChunkBytes)) && wire == old(wire) + data[..sent]
      ensures maxChunkBytes == if Slowed(world, old(calls), made) then 16384 else old(maxChunkBytes)
      ensures ok <==> sent == |data| && !Gone(world, old(calls), made)
      ensures !ok ==> Gone(world, old(calls), made) || Hitches(world, old(calls), made) == 5
      ensures forall k :: 0 <= k < made ==> GoesOn(world, old(calls), k, |data|, old(maxChunkBytes))
      // an empty transfer follows data that ends with a full packet
      ensures calls == old(calls) + made
                       + if ok && supportsZlp && maxPacket != 0 && |data| % maxPacket == 0 then 1 else 0
      ensures Cooperative(world) ==> ok
    {
      hide Moved, Hitches, Slowed, Gone;
      ghost var c, chunk, wire0 := calls, maxChunkBytes, wire;
      var offset: nat := 0;
      sent, made := 0, 0;
      assert wire + data[..0] == wire;
      NoTransfer(world, c, |data|, chunk);
      for attempt := 0 to USB_RETRY_COUNT
        invariant Underway(data, offset, made, c, chunk, wire0) && Hitches(world, c, made) == attempt
        invariant offset == sent && !Gone(world, c, made) && (attempt > 0 ==> offset < |data|)
      {
        var gone;
        gone, offset, made := Attempt(data, offset, c, made, chunk, wire0);
        sent := offset;
        if gone { Patience(world, c, made); return false, sent, made; }
        if offset == |data| {
          if supportsZlp && maxPacket != 0 && |data| % maxPacket == 0 { SendZlp(); }
          return true, sent, made;
        }
      }
      Patience(world, c, made);
      return false, sent, made;
    }

    // Transfers up to the next one that goes wrong.
    method Attempt(data: seq<byte>, offset0: nat, ghost c: nat, ghost made0: nat, ghost chunk: nat,
                   ghost wire0: seq<byte>)
      returns (gone: bool, offset: nat, ghost made: nat)
      requires Underway(data, offset0, made0, c, chunk, wire0) && !Gone(world, c, made0)
      requires Hitches(world, c, made0) < 5
      modifies `calls, `wire, `maxChunkBytes
      ensures Underway(data, offset, made, c, chunk, wire0) && (gone <==> Gone(world, c, made))
      ensures !gone && offset < |data| ==> Hitches(world, c, made) == Hitches(world, c, made0) + 1
    {
      hide Moved, Hitches, Slowed, Gone;
      gone, offset, made := false, offset0, made0;
      while offset < |data|
        invariant Underway(data, offset, made, c, chunk, wire0) && Hitches(world, c, made) == Hitches(world, c, made0)
        invariant !Gone(world, c, made)
        decreases |data| - offset
      {
        var toSend := |data| - offset;
        if toSend > maxChunkBytes { toSend := maxChunkBytes; }
        var err, actual := BulkTransfer(data[offset..offset + toSend]);
        WireMore(wire0, data, offset, toSend, actual);
        OneTransfer(world, c, made, |data|, chunk);
        offset := offset + actual;
        made := made + 1;
        if err != ERR_NONE {
          if err == ERR_NO_DEVICE { return true, offset, made; }
          if err == ERR_PIPE || err == ERR_TIMEOUT { maxChunkBytes := 0x4000; }
          break;
        }
        if actual == 0 { break; }
      }
    }

    // odin_command and the check of its reply, for a command that is logged.
    method Command(e: Event) returns (ok: bool)
      requires Payload(e) == []
      modifies `calls, `log
      ensures log == (if ok then old(log) + [e] else old(log)) && (Cooperative(world) ==> ok)
      ensures Data(log) == old(Data(log))
    {
      ok := world.command(calls);
      calls := calls + 1;
      if ok {
        LogMore(log, e, packetSize);
        log := log + [e];
      }
    }

    // odin_send_file_part_and_ack
    method SendFilePartAndAck(data: seq<byte>, expectedIndex: nat) returns (ok: bool)
      requires Valid()
      modifies `calls, `wire, `maxChunkBytes, `log
      ensures ok ==> Valid() && log == old(log) + [Part(expectedIndex, data)]
      // the last call is the acknowledgement, and its index decides
      ensures log != old(log) ==>
                && log == old(log) + [Part(expectedIndex, data)] && calls > old(calls)
                && (ok <==> world.ack(calls - 1, log) == Some(expectedIndex))
      ensures Cooperative(world) ==> ok
    {
      hide GoesOn, Moved, Hitches, Slowed, Gone, Cooperative, Data, Run, Accept;
      ghost var sent, made;
      ok, sent, made := BulkWriteAll(data);
      if !ok { return; }
      assert data[..sent] == data;
      LogMore(log, Part(expectedIndex, data), packetSize);
      log := log + [Part(expectedIndex, data)];
      var idx := world.ack(calls, log);
      calls := calls + 1;
      ok := idx == Some(expectedIndex);
      RightAck(world, calls - 1, log, Part(expectedIndex, data));
    }

    // One part of a sequence: read, zero-pad, send.
    method SendPart(stream: Stream, size: nat, totalSent0: nat, expectedIndex: nat) returns (ok: bool, totalSent: nat)
      requires Valid() && stream.pos <= |stream.content|
      modifies stream, `calls, `wire, `maxChunkBytes, `log
      ensures stream.pos <= |stream.content|
      ensures ok ==>
                && Valid()
                && totalSent == totalSent0 + Smaller(if totalSent0 < size then size - totalSent0 else 0, packetSize)
                && stream.pos == old(stream.pos) + (totalSent - totalSent0)
                && var padding := Zeros(packetSize - (totalSent - totalSent0));
                && var part := stream.content[old(stream.pos)..stream.pos] + padding;
                && log == old(log) + [Part(expectedIndex, part)]
      ensures Cooperative(world) && |stream.content| - old(stream.pos) >= size - totalSent0 ==> ok
    {
      var remainingFileBytes := if totalSent0 < size then size - totalSent0 else 0;
      var toRead := Smaller(remainingFileBytes, packetSize);
      var x := [];
      ok, totalSent := true, totalSent0;
      if toRead > 0 {
        x := stream.Read(toRead);
        if |x| != toRead { return false, totalSent; }
      }
      assert x == stream.content[old(stream.pos)..stream.pos];
      var part := x + Zeros(packetSize - toRead);
      ok := SendFilePartAndAck(part, expectedIndex);
      totalSent := totalSent + toRead;
    }

    // The next part of a sequence that began at byte `base` of the file.
    method NextPart(stream: Stream, size: nat, ghost base: nat, totalSent0: nat, index0: nat, ghost left: nat,
                    ghost aligned: nat,
                    ghost start: nat, ghost log0: seq<Event>, ghost before: seq<byte>)
      returns (ok: bool, totalSent: nat, index: nat)
      requires Valid() && stream.pos == start + totalSent0 && stream.pos <= |stream.content|
      requires base <= totalSent0 < size && left > 0
      requires Progress(log, log0, packetSize, Receiving(index0, base, left, aligned),
                        before + stream.content[start + base..start + totalSent0] + Zeros(0))
      modifies stream, `calls, `wire, `maxChunkBytes, `log
      ensures stream.pos <= |stream.content|
      ensures ok ==>
                && Valid() && totalSent0 < totalSent == Smaller(size, totalSent0 + packetSize)
                && stream.pos == start + totalSent
                && index == (index0 + 1) % 0x1_0000_0000
                && Progress(log, log0, packetSize, Receiving(index, base, left - 1, aligned),
                            before + stream.content[start + base..start + totalSent]
                            + Zeros(totalSent0 + packetSize - totalSent))
      ensures Cooperative(world) && |stream.content| - start >= size ==> ok
    {
      hide Zeros, Cooperative, Progress, Data;
      ghost var log1 := log;
      ok, totalSent := SendPart(stream, size, totalSent0, index0);
      index := (index0 + 1) % 0x1_0000_0000;
      if ok {
        PartSent(log1, log, log0, index0, base, left, aligned, packetSize, before, stream.content, start + base,
                 start + totalSent0,
                 start + totalSent, packetSize - (totalSent - totalSent0));
      }
    }

    // The parts of one sequence, which starts at byte `base` of the file and
    // announces `aligned` bytes.
    method SendParts(stream: Stream, size: nat, base: nat, index0: nat, aligned: nat, ghost start: nat,
                     ghost log0: seq<Event>,
                     ghost before: seq<byte>)
      returns (ok: bool, totalSent: nat, index: nat)
      requires Valid() && stream.pos == start + base && stream.pos <= |stream.content| && base < size
      requires aligned > 0 && aligned % packetSize == 0 && index0 < 0x1_0000_0000 && base + aligned < size + packetSize
      requires Progress(log, log0, packetSize, Receiving(index0, base, aligned / packetSize, aligned), before)
      modifies stream, `calls, `wire, `maxChunkBytes, `log
      ensures stream.pos <= |stream.content|
      ensures ok ==>
                && Valid() && totalSent == Smaller(size, base + aligned) && stream.pos == start + totalSent
                && index < 0x1_0000_0000
                && Progress(log, log0, packetSize, Receiving(index, base, 0, aligned),
                            before + stream.content[start + base..start + totalSent]
                            + Zeros(base + aligned - totalSent))
      ensures Cooperative(world) && |stream.content| - start >= size ==> ok
    {
      hide Zeros, Cooperative, Progress;
      ok, totalSent, index := true, base, index0;
      var parts := aligned / packetSize;
      PartsWhole(aligned, packetSize);
      ghost var reached: nat := base;
      NoData(before, stream.content, start + base);
      var j: nat := 0;
      while j < parts
        invariant j <= parts && Valid() && totalSent == Smaller(size, reached)
        invariant stream.pos == start + totalSent <= |stream.content|
        invariant reached == base + j * packetSize && index < 0x1_0000_0000
        invariant Progress(log, log0, packetSize, Receiving(index, base, parts - j, aligned),
                           before + stream.content[start + base..start + totalSent] + Zeros(reached - totalSent))
      {
        PartBefore(j, parts, packetSize);
        ok, totalSent, index := NextPart(stream, size, base, totalSent, index, parts - j, aligned, start, log0, before);
        if !ok { return; }
        j, reached := j + 1, reached + packetSize;
      }
    }

    // One sequence: request, parts, end.
    method SendSequence(stream: Stream, size: nat, base: nat, index0: nat, realSize: nat, last: bool, ghost start: nat,
                        ghost log0: seq<Event>, ghost before: seq<byte>)
      returns (ok: bool, totalSent: nat, index: nat)
      requires Valid() && stream.pos == start + base && stream.pos <= |stream.content| && base < size
      requires index0 < 0x1_0000_0000 && Progress(log, log0, packetSize, Ready(index0, base), before)
      requires 0 < realSize && base + realSize <= size && (last <==> base + realSize == size)
      requires realSize <= SEQUENCE_BYTES && (!last ==> realSize == SEQUENCE_BYTES)
      modifies stream, `calls, `wire, `maxChunkBytes, `log
      ensures stream.pos <= |stream.content|
      ensures ok ==>
                && Valid() && totalSent == base + realSize && stream.pos == start + totalSent
                && index < 0x1_0000_0000
                && Progress(log, log0, packetSize, if last then Complete(size) else Ready(index, totalSent),
                            before + stream.content[start + base..start + totalSent]
                              + Zeros((packetSize - realSize % packetSize) % packetSize))
      ensures Cooperative(world) && |stream.content| - start >= size ==> ok
    {
      hide Accept, Zeros, Cooperative, Progress, Data;
      totalSent, index := base, index0;
      var alignedSize := realSize;
      if alignedSize % packetSize != 0 { alignedSize := alignedSize + (packetSize - alignedSize % packetSize); }
      Aligned(realSize, packetSize);
      AlignedWithin(realSize, alignedSize, packetSize);
      ok := Command(RequestSequence(alignedSize));
      if !ok { return; }
      AcceptRequest(index0, base, alignedSize, packetSize);
      OneCommand(old(log), log, log0, packetSize, Ready(index0, base), RequestSequence(alignedSize), before);
      ok, totalSent, index := SendParts(stream, size, base, index0, alignedSize, start, log0, before);
      if !ok { return; }
      ghost var log1 := log;
      ok := Command(EndSequence(realSize, last));
      if !ok { return; }
      AcceptEnd(index, base, alignedSize, realSize, last, packetSize);
      OneCommand(log1, log, log0, packetSize, Receiving(index, base, 0, alignedSize), EndSequence(realSize, last),
                 before + stream.content[start + base..start + totalSent] + Zeros(base + alignedSize - totalSent));
    }

    // All sequences, from the first: every one but the last has its full size.
    method SendSequences(stream: Stream, size: nat, sequences: nat, lastSequence: nat, ghost log0: seq<Event>)
      returns (ok: bool)
      requires Valid() && stream.pos <= |stream.content| && sequences > 0 && 0 < lastSequence <= SEQUENCE_BYTES
      requires size == (sequences - 1) * SEQUENCE_BYTES + lastSequence
      requires Progress(log, log0, packetSize, Ready(0, 0), [])
      modifies stream, `calls, `wire, `maxChunkBytes, `log
      ensures stream.pos <= |stream.content|
      ensures ok ==>
                && Valid() && old(stream.pos) + size == stream.pos
                && Progress(log, log0, packetSize, Complete(size),
                            Padded(stream.content[old(stream.pos)..old(stream.pos) + size], packetSize))
      ensures Cooperative(world) && |stream.content| - old(stream.pos) >= size ==> ok
    {
      hide Zeros, Cooperative, Padded, Progress;
      ok := true;
      WholeSequences(packetSize, sequences - 1, lastSequence);
      ghost var start := stream.pos;
      var totalSent: nat, expectedIndex: nat, i: nat := 0, 0, 0;
      assert stream.content[start..start] == [];
      while i + 1 < sequences
        invariant i < sequences && Valid() && expectedIndex < 0x1_0000_0000
        invariant stream.pos == start + totalSent <= |stream.content| && totalSent == i * SEQUENCE_BYTES
        invariant Progress(log, log0, packetSize, Ready(expectedIndex, totalSent),
                           stream.content[start..start + totalSent])
      {
        ghost var base := totalSent;
        ok, totalSent, expectedIndex :=
          SendSequence(stream, size, totalSent, expectedIndex, SEQUENCE_BYTES, false, start, log0,
                       stream.content[start..start + totalSent]);
        if !ok { return; }
        SentMore(stream.content, start, base, totalSent);
        i := i + 1;
      }
      ghost var base := totalSent;
      ok, totalSent, expectedIndex :=
        SendSequence(stream, size, totalSent, expectedIndex, lastSequence, true, start, log0,
                                                   stream.content[start..start + totalSent]);
      if ok { PaddedMore(stream.content, start, base, size, packetSize, lastSequence); }
    }

    // flash_partition_stream over the legacy protocol.
    method FlashLegacy(stream: Stream, size: nat) returns (ok: bool)
      requires Valid() && stream.pos <= |stream.content| && size < 0x1_0000_0000_0000_0000
      modifies stream, `calls, `wire, `maxChunkBytes, `log
      ensures ok ==>
                && Valid() && size > 0 && old(stream.pos) + size == stream.pos <= |stream.content|
                && Progress(log, old(log), packetSize, Finished(size),
                            Padded(stream.content[old(stream.pos)..old(stream.pos) + size], packetSize))
      ensures Cooperative(world) && old(stream.pos) + size <= |stream.content| ==>
                (0 < size <= 0xFFFF_FFFF * SEQUENCE_BYTES ==> ok)
    {
      hide Accept, Zeros, Cooperative, Padded, Progress, Data;
      ghost var log0 := log;
      NoProgress(log0, packetSize);
      ok := Command(RequestFile);
      if !ok { return; }
      FirstEvents(packetSize);
      OneCommand(log0, log, log0, packetSize, Idle, RequestFile, []);
      var sequences, lastSequence;
      ok, sequences, lastSequence := CountSequences(size);
      if !ok { return; }
      ok := SendSequences(stream, size, sequences, lastSequence, log0);
      if !ok { return; }
      ghost var log1 := log;
      ok := Command(ResetCount);
      if !ok { return; }
      AcceptReset(size, packetSize);
      OneCommand(log1, log, log0, packetSize, Complete(size), ResetCount,
                 Padded(stream.content[old(stream.pos)..stream.pos], packetSize));
    }

    // How many sequences a file needs and what remains for the last one, in
    // 64-bit arithmetic; a size for which the rounding wraps around is refused.
    method CountSequences(size: nat) returns (ok: bool, sequences: nat, lastSequence: nat)
      requires Valid() && size < 0x1_0000_0000_0000_0000
      ensures ok <==> 0 < size <= 0xFFFF_FFFF * SEQUENCE_BYTES
      ensures ok ==>
                && sequences > 0 && 0 < lastSequence <= SEQUENCE_BYTES
                && size == (sequences - 1) * SEQUENCE_BYTES + lastSequence
    {
      var sequenceBytes := packetSize * sequenceCount;
      assert sequenceBytes == SEQUENCE_BYTES;
      sequences, lastSequence := (size + sequenceBytes - 1) % 0x1_0000_0000_0000_0000 / sequenceBytes, 0;
      if sequences == 0 || sequences > 0xFFFF_FFFF { return false, sequences, 0; }
      var rest: int := size - (sequences - 1) * sequenceBytes;
      if rest == 0 { rest := sequenceBytes; }
      ok := rest <= 0xFFFF_FFFF;
      lastSequence := rest;
    }

    // send_file_part_chunk: announce, send, wait for the acknowledgement.
    method SendFilePartChunk(data: seq<byte>, chunkIndex: nat) returns (ok: bool)
      requires Valid()
      modifies `calls, `wire, `maxChunkBytes, `log
      ensures ok ==> Valid() && log == old(log) + [Chunk(chunkIndex, data)]
      // nothing goes over before the announcement is confirmed, and the last
      // call is the confirmation of the chunk
      ensures !world.command(old(calls)) ==> !ok && wire == old(wire) && log == old(log)
      ensures log != old(log) ==>
                && log == old(log) + [Chunk(chunkIndex, data)] && calls >= old(calls) + 2
                && (ok <==> world.command(calls - 1))
      ensures Cooperative(world) ==> ok
    {
      hide GoesOn, Moved, Hitches, Slowed, Gone, Data, Run, Accept;
      ok := world.command(calls);
      calls := calls + 1;
      if !ok { return; }
      ghost var sent, made;
      ok, sent, made := BulkWriteAll(data);
      if !ok { return; }
      assert data[..sent] == data;
      LogMore(log, Chunk(chunkIndex, data), packetSize);
      log := log + [Chunk(chunkIndex, data)];
      ok := world.command(calls);
      calls := calls + 1;
    }

    // send_file_part_header, over Thor
    method SendFilePartHeader(size: nat) returns (ok: bool)
      requires Valid() && !legacy
      modifies `calls, `log
      ensures Valid() && log == (if ok then old(log) + [FileSize(size)] else old(log)) && (Cooperative(world) ==> ok)
    {
      ok := Command(FileSize(size));
    }

    // end_file_transfer: the legacy protocol has no such message.
    method EndFileTransfer(id: nat) returns (ok: bool)
      requires Valid()
      modifies `calls, `log
      ensures Valid() && log == (if ok && !legacy then old(log) + [EndFile(id)] else old(log))
      ensures (Cooperative(world) ==> ok)
    {
      if legacy { return true; }
      ok := Command(EndFile(id));
    }

    // flash_partition_stream over Thor
    method FlashThor(stream: Stream, size: nat) returns (ok: bool)
      requires Valid() && !legacy && stream.pos <= |stream.content|
      modifies stream, `calls, `wire, `maxChunkBytes, `log
      ensures ok ==>
                && Valid() && old(stream.pos) + size == stream.pos <= |stream.content|
                && log == old(log) + ([FileSize(size)] + Chunks(Pieces(stream.content[old(stream.pos)..stream.pos])))
      ensures Cooperative(world) && old(stream.pos) + size <= |stream.content| ==> ok
    {
      hide Data, Cooperative, Pieces, Chunks;
      ghost var start, log0 := stream.pos, log;
      ok := SendFilePartHeader(size);
      if !ok { return; }
      ghost var log1 := log;
      var remaining: nat, chunkIndex: nat := size, 0;
      ghost var image: seq<seq<byte>> := [];
      NoChunks(log1);
      ghost var here := start + size <= |stream.content|;
      if here { NothingCut(stream.content[start..start + size]); }
      while remaining > 0
        invariant Valid() && remaining <= size && stream.pos == start + (size - remaining) <= |stream.content|
        invariant chunkIndex == |image| % 0x1_0000_0000 && log == log1 + Chunks(image)
        invariant here ==> Cut(stream.content[start..start + size], size - remaining, image)
      {
        var toRead := Smaller(THOR_CHUNK, remaining);
        var x := stream.Read(toRead);
        if |x| != toRead { return false; }
        ok := SendFilePartChunk(x, chunkIndex);
        if !ok { return; }
        MoreChunks(log1, image, x);
        if here {
          SliceOfSlice(stream.content, start, size, size - remaining, toRead);
          CutMore(stream.content[start..start + size], size - remaining, toRead, image);
        }
        image := image + [x];
        remaining := remaining - toRead;
        chunkIndex := (chunkIndex + 1) % 0x1_0000_0000;
      }
      CutAll(stream.content[start..start + size], image);
      assert log0 + [FileSize(size)] + Chunks(image) == log0 + ([FileSize(size)] + Chunks(image));
    }

    // flash_partition_stream
    method FlashPartitionStream(stream: Stream, size: nat) returns (ok: bool)
      requires Valid() && stream.pos <= |stream.content| && size < 0x1_0000_0000_0000_0000
      modifies stream, `calls, `wire, `maxChunkBytes, `log
      ensures ok ==> Valid() && old(stream.pos) + size == stream.pos <= |stream.content|
      ensures ok && legacy ==>
                Progress(log, old(log), packetSize, Finished(size),
                         Padded(stream.content[old(stream.pos)..stream.pos], packetSize))
      ensures ok && !legacy ==>
                log == old(log) + ([FileSize(size)] + Chunks(Pieces(stream.content[old(stream.pos)..stream.pos])))
      ensures Cooperative(world) && old(stream.pos) + size <= |stream.content| && !legacy ==> ok
      ensures Cooperative(world) && old(stream.pos) + size <= |stream.content| ==>
                (0 < size <= 0xFFFF_FFFF * SEQUENCE_BYTES ==> ok)
    {
      hide Data, Cooperative, Pieces, Chunks, Padded, Progress;
      if legacy {
        ok := FlashLegacy(stream, size);
      } else {
        ok := FlashThor(stream, size);
      }
    }
  }

  // A sequence has a whole number of packets, so the last one decides how
  // much has to be filled up.
  lemma WholeSequences(packet: nat, k: nat, rest: nat)
    requires packet == 131072 || packet == 1048576
    ensures SEQUENCE_BYTES % packet == 0 && (k * SEQUENCE_BYTES + rest) % packet == rest % packet
  {
  }

  // Since log0 the device has come this far and has received this data.
  ghost predicate Progress(log: seq<Event>, log0: seq<Event>, packet: nat, d: Device, data: seq<byte>) {
    && |log0| <= |log| && log[..|log0|] == log0
    && Run(log[|log0|..], packet) == d && Data(log[|log0|..]) == data
  }

  lemma NoProgress(log0: seq<Event>, packet: nat)
    ensures Progress(log0, log0, packet, Idle, [])
  {
    assert log0[|log0|..] == [];
  }

  lemma OneCommand(log1: seq<Event>, log: seq<Event>, log0: seq<Event>, packet: nat, d: Device, e: Event,
                   data: seq<byte>)
    requires Progress(log1, log0, packet, d, data) && log == log1 + [e] && Payload(e) == []
    ensures Progress(log, log0, packet, Accept(d, e, packet), data)
  {
    hide Run, Data, Accept;
    LogTail(log1, log, log0, e, packet);
    assert data + [] == data;
  }

  // One more event, seen from a point in the log.
  lemma LogTail(before: seq<Event>, log: seq<Event>, log0: seq<Event>, e: Event, packet: nat)
    requires |log0| <= |before| && before[..|log0|] == log0 && log == before + [e]
    ensures |log0| <= |log| && log[..|log0|] == log0
    ensures Data(log[|log0|..]) == Data(before[|log0|..]) + Payload(e)
    ensures Run(log[|log0|..], packet) == Accept(Run(before[|log0|..], packet), e, packet)
  {
    assert log[|log0|..] == before[|log0|..] + [e];
    LogMore(before[|log0|..], e, packet);
  }

  // The first n bytes of a file make these pieces.
  ghost predicate Cut(file: seq<byte>, n: nat, image: seq<seq<byte>>) {
    n <= |file| && Pieces(file) == image + Pieces(file[n..])
  }

  lemma NothingCut(file: seq<byte>)
    ensures Cut(file, 0, [])
  {
    assert file[0..] == file;
  }

  lemma CutMore(file: seq<byte>, n: nat, k: nat, image: seq<seq<byte>>)
    requires n < |file| && Cut(file, n, image) && k == Smaller(THOR_CHUNK, |file| - n)
    ensures Cut(file, n + k, image + [file[n..n + k]])
  {
    var rest := file[n..];
    if |rest| <= THOR_CHUNK {
      assert rest == file[n..n + k] && file[n + k..] == [];
    } else {
      assert rest[..k] == file[n..n + k] && rest[k..] == file[n + k..];
    }
  }

  lemma CutAll(file: seq<byte>, image: seq<seq<byte>>)
    requires Cut(file, |file|, image)
    ensures Pieces(file) == image
  {
    assert file[|file|..] == [];
  }

  lemma NoChunks(log: seq<Event>)
    ensures log + Chunks([]) == log
  {
  }

  lemma MoreChunks(log: seq<Event>, image: seq<seq<byte>>, x: seq<byte>)
    ensures log + Chunks(image) + [Chunk(|image| % 0x1_0000_0000, x)] == log + Chunks(image + [x])
    ensures (|image| % 0x1_0000_0000 + 1) % 0x1_0000_0000 == |image + [x]| % 0x1_0000_0000
  {
  }

  lemma Aligned(n: nat, packet: nat)
    requires packet > 0 && n > 0
    ensures var a := if n % packet != 0 then n + (packet - n % packet) else n;
            a % packet == 0 && n <= a < n + packet && a > 0 && a - n == (packet - n % packet) % packet && a / packet > 0
  {
    var q, r := n / packet, n % packet;
    assert n == packet * q + r;
    if r != 0 {
      var a := n + (packet - r);
      assert a == packet * (q + 1);
      WholePackets(a, q + 1, packet);
      DivSmall(packet - r, packet);
    } else {
      WholePackets(n, q, packet);
    }
  }

  lemma AlignedWithin(n: nat, a: nat, packet: nat)
    requires (packet == 131072 || packet == 1048576) && n <= SEQUENCE_BYTES && a % packet == 0 && a < n + packet
    ensures a <= SEQUENCE_BYTES
  {
  }

  lemma WholePackets(a: nat, q: nat, packet: nat)
    requires packet > 0 && a == packet * q && a > 0
    ensures a % packet == 0 && a / packet == q > 0
  {
    DivUnique(a, packet, q, 0);
  }

  lemma FirstEvents(packet: nat)
    ensures Accept(Idle, RequestFile, packet) == Ready(0, 0)
  {
  }

  lemma AcceptRequest(index: nat, size: nat, aligned: nat, packet: nat)
    requires packet > 0 && 0 < aligned <= SEQUENCE_BYTES && aligned % packet == 0
    ensures Accept(Ready(index, size), RequestSequence(aligned), packet) ==
            Receiving(index, size, aligned / packet, aligned)
  {
  }

  lemma AcceptEnd(index: nat, base: nat, aligned: nat, n: nat, last: bool, packet: nat)
    requires n <= aligned < n + packet && (last || n == SEQUENCE_BYTES)
    ensures Accept(Receiving(index, base, 0, aligned), EndSequence(n, last), packet)
         == if last then Complete(base + n) else Ready(index, base + n)
  {
  }

  lemma AcceptReset(size: nat, packet: nat)
    ensures Accept(Complete(size), ResetCount, packet) == Finished(size)
  {
  }

  // What has been sent, one full sequence later.
  lemma SentMore(content: seq<byte>, start: nat, base: nat, sent: nat)
    requires base <= sent && start + sent <= |content|
    ensures forall k {:trigger Zeros(k)} :: k == 0 ==>
              content[start..start + base] + content[start + base..start + sent] + Zeros(k) ==
              content[start..start + sent]
  {
    assert content[start..start + base] + content[start + base..start + sent] == content[start..start + sent];
  }

  // What has been sent after the last sequence.
  lemma PaddedMore(content: seq<byte>, start: nat, base: nat, size: nat, packet: nat, rest: nat)
    requires packet > 0 && base <= size && start + size <= |content| && size % packet == rest % packet
    ensures content[start..start + base] + content[start + base..start + size] +
            Zeros((packet - rest % packet) % packet)
         == Padded(content[start..start + size], packet)
  {
    assert content[start..start + base] + content[start + base..start + size] == content[start..start + size];
  }

  lemma PartsWhole(aligned: nat, packet: nat)
    requires packet > 0 && aligned % packet == 0
    ensures aligned == aligned / packet * packet
  {
  }

  // Before the last part there is a whole packet of the file left.
  lemma PartBefore(j: nat, parts: nat, packet: nat)
    requires j < parts
    ensures (j + 1) * packet == j * packet + packet && (j + 1) * packet <= parts * packet
  {
    var d := parts - (j + 1);
    assert parts * packet == (j + 1) * packet + d * packet;
  }

  lemma NoData(before: seq<byte>, content: seq<byte>, a: nat)
    requires a <= |content|
    ensures before + content[a..a] + Zeros(0) == before
  {
  }

  // One more part has been sent and accepted: the bytes from b to c of the
  // content and some zeros.
  lemma PartSent(log1: seq<Event>, log: seq<Event>, log0: seq<Event>, index: nat, size: nat, left: nat, aligned: nat,
                 packet: nat,
                 before: seq<byte>, content: seq<byte>, a: nat, b: nat, c: nat, zeros: nat)
    requires a <= b <= c <= |content| && c - b + zeros == packet && left > 0
    requires Progress(log1, log0, packet, Receiving(index, size, left, aligned), before + content[a..b] + Zeros(0))
    requires log == log1 + [Part(index, content[b..c] + Zeros(zeros))]
    ensures Progress(log, log0, packet, Receiving((index + 1) % 0x1_0000_0000, size, left - 1, aligned),
                     before + content[a..c] + Zeros(zeros))
  {
    hide Run, Data;
    LogTail(log1, log, log0, Part(index, content[b..c] + Zeros(zeros)), packet);
    Between(before, content, a, b, c, Zeros(0), Zeros(zeros));
  }

  lemma Between(before: seq<byte>, content: seq<byte>, a: nat, b: nat, c: nat, none: seq<byte>, zeros: seq<byte>)
    requires a <= b <= c <= |content| && none == []
    ensures before + content[a..b] + none + (content[b..c] + zeros) == before + content[a..c] + zeros
  {
    assert content[a..c] == content[a..b] + content[b..c];
  }

  function Smaller(a: nat, b: nat): nat { if a < b then a else b }

  lemma LogMore(log: seq<Event>, e: Event, packet: nat)
    ensures Data(log + [e]) == Data(log) + Payload(e)
    ensures Run(log + [e], packet) == Accept(Run(log, packet), e, packet)
  {
    assert (log + [e])[..|log + [e]| - 1] == log;
  }
}
