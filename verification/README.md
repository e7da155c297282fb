# LZ4, xxHash and image flashing: a Dafny model

odin4 writes firmware archives to a device over USB.  Compressed images pass
through a vendored LZ4 library on their way.  This project models that path
and proves what it promises: what the compressors write, the decoders give
back; the resumable frame decoder does not care how its input is cut, but for
one kind of block that no compressor writes; and what arrives at the device is
the image, whole and in order.

| files | what they model |
|---|---|
| `BlockFormat` | the LZ4 block format: the meaning of a block behind a history, the byte-by-byte decoder, encodable parses, and why decoding an encoding gives the text |
| `BlockGrammar` | the same format as a grammar in numbers, and that the decoders accept exactly its texts |
| `BlockAcceptance` | which blocks the optimised decoder accepts, exactly, for a history in front of the destination and for one elsewhere, and where the two part |
| `Copies`, `Decoder`, `ReferenceDecoder` | the optimised block decoder with its over-writing copies and its three dictionary modes, and the slow one it refines |
| `Counting` | the word-at-a-time comparisons, with their bit tricks |
| `Emit`, `FastCompressor` | the hash-table compressor with its three output policies, two table types and three dictionary modes, and the stream that goes from block to block |
| `HcMatchFinder`, `HcCompressor`, `HcOptimal`, `HcMid`, `HighCompression` | the delta chain, the match finder over two memory segments, the goto machine over overlapping matches, the shortest-path parser, the two-table compressor, contexts used again |
| `HcStreaming` | LZ4 HC from block to block: the prefix that the source continues, the external dictionary, indices that start again |
| `Dictionaries` | places in memory, and what both streams may refer to |
| `RoundTrip` | compressing and decompressing blocks |
| `FrameFormat`, `FrameHistory`, `Buffers` | the LZ4 frame format v1.6.1 as a machine that reads one byte at a time; windows of history |
| `FrameGrammar` | that format as a grammar in numbers, field after field, and that the machine reads exactly its texts |
| `FrameDecoder`, `FrameStreaming` | the resumable frame decoder, and a caller who cuts input and output at will and reuses the buffer |
| `FrameText`, `FrameCompressor`, `FrameRoundTrip` | the buffering frame compressor, and frames written and read again |
| `XxHashSpec` | the description of both algorithms, by position, and its published values |
| `XxHash32`, `XxHash64` | the one-shot functions and the streaming states |
| `Flashing` | the retrying bulk writer, the legacy protocol, the Thor chunks |
| `FirmwarePackage` | the archive walk, the LZ4 pump, the check-only run |
| `ArchiveText` | archives as texts of entries, and that the walk finds exactly these |
| `PackageDecoding` | the frame decoder in the place of the one the pump talks to |
| `Arithmetic` | quotients and products |

## How to read it

A block is *strict* for a text behind a history (`BlockFormat.StrictBehind`;
`StrictBlock` without a history) when the byte-by-byte decoder, told the size,
accepts it to its end.  Encoders are proved to write strict blocks.  The
optimised decoder is proved to compute exactly
`BlockAcceptance.DecodeBlock`, which says of every byte string whether it is
accepted and with what text; every strict block that fits is.  Pointers are
indices; buffers are arrays, so every over-writing copy has to stay inside.
Labels that are jumped to are states of a loop.  Hash functions are arbitrary
functions into the table.

The history of a block may lie in front of its destination or elsewhere, and
the decoder does not treat the two alike.  A block is *torn* when that decides
its verdict (`BlockAcceptance.LayoutsDiffer`).  No encoder proved here writes
one, but a linked frame may hold one, and then whether it is decoded depends on
the sizes of the buffers the caller offers: a text whose first frame holds one
is *unsettled*, and unless it is malformed besides, some callers accept it and
others do not (`FrameStreaming.ExtremeCallers`).  What does not depend on the
calls is stated for all texts.

The frame format is a machine that reads one byte at a time (`FrameFormat`).
The decoder context carries that machine as ghost state; its invariant ties the
stage and the buffers to it, and each call advances it by exactly the bytes
consumed.  That a caller may cut the input anywhere is then a property of the
machine.  The frame layer calls the block decoder and the block compressors of
this model; the checksum is any 32-bit function, of which
`FrameRoundTrip.Lz4Env` is the one in use.

What decoders, machine, hashes and walk share with their specifications could be
wrong in both.  Four files therefore say the formats once more, without the
code's constants and helpers: `BlockGrammar`, `FrameGrammar`, `XxHashSpec` and
`ArchiveText`; the rest is proved to agree with them.  Compression is pinned at
one kind of input, a single byte over and over (`Emit.RunsShrink`).

USB transfers, replies and acknowledgements are an oracle over the number of
calls made so far.  The device is an automaton that refuses everything the
protocol does not allow.  The decoder in the archive walk is any function of
the calls it has had; `FirmwarePackage.Faithful` is what is asked of an answer.
`PackageDecoding.FrameSession.Ask` proves it of the modelled `LZ4F_decompress`,
and `PackageDecoding.SlowDecoder` is a function that meets it.

Where the code does something that its documentation does not say, the code is
followed:

* The optimised decoder accepts a zero offset and writes zero bytes for it.
* It does not enforce the end-of-block conditions.  With room to spare the
  shortcut accepts, for instance, token 0xEE, fourteen literals, an offset of
  at least eight and a final byte 0 with a capacity of 32, although the block
  then ends without last literals after a match.
* With a capacity of 0 it accepts only the single byte 0; the slow decoder
  accepts any first byte whose high half is 0.
* `LZ4_decompress_safe_usingDict` is documented as if the place of the
  dictionary did not matter.  It does for torn blocks
  (`BlockAcceptance.TornInput`), and through them for linked frames
  (`FrameStreaming.TornFrameTwoVerdicts`).
* `LZ4MID_compress` files positions after a match has been extended backwards
  under the indices of the place where it was found.  An entry of its tables
  therefore need not have the hash of its slot; matches are right because every
  candidate is compared.
* `LZ4_compress_HC_continue_destSize` counts the whole source as compressed,
  also what it has not taken in (`HcStreaming.ContinueGeneric`): the text of the
  stream afterwards is not what the reader has, unless all was taken in or the
  next source covers the rest and so removes it (`HcStreaming.CutOverlap`).
* A name announced by a long-name header is used up by the next header of any
  kind, also by an extended header.
* A frame whose header tells its size may end without an end mark and still be
  flashed, if all its bytes have come out.

## Model

| member | source | states |
|---|---|---|
| BlockFormat.RefFrom | lib/lz4/lz4.c:1963-2066 | the byte-by-byte decoder as a function; an accepted block yields exactly the announced size and consumes at least one byte |
| BlockFormat.RefImpliesDecodeFrom | lib/lz4/lz4.c:1963-2066 | whatever the byte-by-byte decoder accepts to the end of the block means the same without the end-of-block conditions |
| BlockFormat.CopyMatchUnique | lib/lz4/lz4.c:2044-2050 | a text that extends the output and repeats with the offset is the result of the overlapping byte copy: there is no other |
| BlockFormat.CopyMatchPrefix | lib/lz4/lz4.c:2312-2322 | a longer copy with the same offset begins with the shorter one, so a copy may overrun |
| BlockFormat.CopyRebuilds | lib/lz4/lz4.c:1153-1160 | copying a match of a text behind its beginning rebuilds the text up to the end of the match |
| BlockFormat.RepeatsMultiple | lib/lz4/lz4.c:515-538 | a text with period d repeats with every multiple of d from the point where the steps stay inside |
| BlockFormat.DecodeEncode | lib/lz4/lz4.c:1163-1403 | decoding any encodable parse of a text behind a history, followed by its last literals, gives the text |
| BlockFormat.EncodedIsStrict | lib/lz4/lz4.c:239-248 | an encodable parse that ends with five literals, and whose last match starts twelve bytes before the end, meets the end-of-block conditions behind its history |
| BlockGrammar.DecodedBlocks | lib/lz4/lz4.c:1963-2066 | a block decodes to a text behind a history exactly if its bytes are those of parts and last literals that stand for it, by a grammar of the format written out in numbers |
| BlockGrammar.StrictBlocks | lib/lz4/lz4.c:239-248 | a block is strict for a text exactly if besides its parts have offsets above 0, begin twelve bytes before the end and end five bytes before it |
| BlockAcceptance.AcceptedMeans | lib/lz4/lz4.c:2120-2590 | whatever is accepted, with the history in front of the destination or elsewhere, is what the block means behind that history |
| BlockAcceptance.StrictAccepted | lib/lz4/lz4.c:2120-2590 | a block that meets the end-of-block conditions behind its history is accepted in both layouts whenever its text fits, with that text |
| BlockAcceptance.LayoutsDiffer | lib/lz4/lz4.c:2345-2375 | the place of the history matters for exactly the torn blocks: those whose shortcut copies a match from the history into the last five bytes of the destination, with closing literals behind it; they are accepted behind the history and refused apart from it |
| BlockAcceptance.StrictNotTorn | lib/lz4/lz4.c:2345-2375 | a block that meets the end-of-block conditions is never torn |
| BlockAcceptance.TornIsFull | lib/lz4/lz4.c:2345-2375 | a torn block fills its destination but for four bytes at most |
| BlockAcceptance.NoHistoryNotTorn | lib/lz4/lz4.c:2345-2375 | without a history nothing is torn |
| BlockAcceptance.TornInput | lib/lz4/lz4.c:2835-2848 | a family of inputs for which the two layouts give two verdicts: up to 65500 literals, a run up to position 65504, fourteen literals and a match of 18 from the history, and no last literals, behind any 64 KB |
| BlockAcceptance.OnlyTheWindowMatters | lib/lz4/lz4.c:2466-2580 | what lies further back than the longest distance changes neither verdict nor text, in either layout |
| BlockAcceptance.StrictWiden | lib/lz4/lz4.c:1788-1864 | a block that is strict behind a history is strict behind every longer one |
| Copies.CopyChunk | lib/lz4/lz4.c:514-538 | one memcpy within the output extends the part of the buffer that shows a periodic text |
| Copies.WildCopy8 | lib/lz4/lz4.c:480-491 | the buffer shows the periodic text up to the end asked for; the last eight-byte copy overruns at most to the limit, and nothing behind that changes |
| Copies.WildCopy32 | lib/lz4/lz4.c:540-550 | the same for copies of twice sixteen bytes |
| Copies.WildCopyIn | lib/lz4/lz4.c:2203-2216 | literals copied in steps of eight or thirty-two bytes: all that were asked for are there, the reads and writes stay in bounds, and nothing behind the limit changes |
| Copies.SpreadFirst8 | lib/lz4/lz4.c:500-530 | the two tables choose a source after four bytes so that eight bytes of any periodic text come out right for every offset below eight |
| Copies.CopyUsingOffsetBase | lib/lz4/lz4.c:514-538 | the table-driven start followed by eight-byte copies shows the periodic text up to the end |
| Copies.CopyUsingOffset | lib/lz4/lz4.c:552-592 | the same for all offsets, those of 1, 2 and 4 by a repeated eight-byte pattern |
| Decoder.ReadVariableLength | lib/lz4/lz4.c:2077-2111 | succeeds exactly when the run of 255s closes before the limit, with its sum and the position behind it |
| Decoder.Copy18 | lib/lz4/lz4.c:2255-2270 | three fixed copies of 8, 8 and 2 bytes give any match of up to 18 bytes with an offset of at least 8 |
| Decoder.FastCopyMatch | lib/lz4/lz4.c:2312-2322 | far from the end of the output the general copy is the overlapping byte copy |
| Decoder.SafeCopyMatch | lib/lz4/lz4.c:2521-2578 | near the end of the output the copy is the overlapping byte copy, and fails exactly when the last five bytes would not be literals |
| Decoder.FastLiterals | lib/lz4/lz4.c:2185-2220 | the literals of a sequence in the fast loop, or the jump to the careful copy with nothing lost; an error exactly where the block is refused |
| Decoder.FastMatchSegment | lib/lz4/lz4.c:2222-2322 | offset, match length and match in the fast loop, from the destination, the prefix or the external dictionary: one sequence of the block, an exit at which the careful loop can go on, or a refusal that is final |
| Decoder.Shortcut | lib/lz4/lz4.c:2345-2375 | the two stages of the shortcut do one sequence of the block, or leave after the literals with the offset read |
| Decoder.ShortcutMatch | lib/lz4/lz4.c:2355-2375 | its second stage, with the room it waives: for a match that lies in front of the destination it does not ask for the last five bytes |
| Decoder.SafeToken | lib/lz4/lz4.c:2330-2395 | one token of the careful loop: the shortcut, a literal length, or a refusal |
| Decoder.SafeLiterals | lib/lz4/lz4.c:2394-2462 | the last literals end the block exactly at the end of the source, others are followed by a match |
| Decoder.MatchLength | lib/lz4/lz4.c:2466-2483 | the match length is the one of the block, or the block is refused |
| Decoder.SafeMatchSegment | lib/lz4/lz4.c:2466-2580 | a match of the careful loop from any of the three places, with every failure a refusal of the block |
| Decoder.CopyFromDict | lib/lz4/lz4.c:2487-2519 | a match that starts in an external dictionary, and may continue at the start of the destination and overlap itself, is the byte copy over the dictionary followed by the output |
| Decoder.Jump | lib/lz4/lz4.c:2175-2590 | one jump between the labels of the two loops keeps the block, the output and the registers in step, or ends with the verdict |
| Decoder.DecompressGeneric | lib/lz4/lz4.c:2120-2590 | for noDict, withPrefix64k and usingExtDict: on every byte string and capacity it ends, changes nothing outside the destination, and its result is exactly that of DecodeBlock for the layout, text and verdict |
| Decoder.DecompressSafe | lib/lz4/lz4.c:2120-2598 | on every byte string and capacity: the result is exactly the verdict of DecodeBlock with the text in the buffer; a success is what the block means; every block that meets the end-of-block conditions and fits is decoded |
| Decoder.DecompressSafeUsingDict | lib/lz4/lz4.c:2835-2848 | the same with a dictionary; it is read in place when it ends where the destination starts, and as an external one otherwise |
| ReferenceDecoder.DecompressUnsafe | lib/lz4/lz4.c:1963-2066 | the loop of the slow decoder computes RefFrom: the bytes read and the output, or -1 |
| ReferenceDecoder.OneSequence | lib/lz4/lz4.c:1976-2064 | one round of that loop is one RefStep |
| ReferenceDecoder.DecodersAgree | lib/lz4/lz4.c:1963-2590 | a block that meets the end-of-block conditions comes out the same from the slow decoder and from the optimised one |
| Counting.FirstNonzeroByte | lib/lz4/lz4.c:598-690 | the multiply-and-shift count of low zero bytes finds the first byte of eight that is not zero |
| Counting.LastNonzeroByte | lib/lz4/lz4hc.c:172-199 | the 32-bit count of high zero bytes finds the last byte of four that is not zero |
| Counting.Diff64 | lib/lz4/lz4.c:598-716 | the exclusive or of two eight-byte words tells the first differing byte, or that all agree |
| Counting.Count | lib/lz4/lz4.c:699-734 | exactly the length of the common prefix up to the limit |
| Counting.CountBack | lib/lz4/lz4hc.c:205-225 | exactly the length of the common suffix, as a number not above zero, within both limits |
| Counting.CountPattern | lib/lz4/lz4hc.c:839-875 | exactly the length of the run of the pattern byte, forwards |
| Counting.ReverseCountPattern | lib/lz4/lz4hc.c:877-900 | exactly the length of the run of the pattern byte, backwards |
| Counting.RotatedRepeat | lib/lz4/lz4hc.c:830-835 | a sample of one repeated byte is the same after any rotation, so that a run may be followed from one memory segment into the other |
| Emit.PutLiterals | lib/lz4/lz4.c:1163-1193 | token and literals are written as the format asks, with the overrun inside the buffer |
| Emit.PutLastRun | lib/lz4/lz4.c:1374-1403 | the last literals are written as the format asks |
| Emit.BudgetExtend | lib/lz4/lz4.c:1163-1292 | amortisation of the size bound: no sequence costs more than 256/255 of the input it covers |
| Emit.FitLastRun | lib/lz4/lz4.c:1374-1392 | the truncated last run fits, keeps the end-of-block conditions, and is shortened only when filling a given size, and then so that at most one byte of it stays free |
| Emit.LastLiteralsSegment | lib/lz4/lz4.c:1374-1407 | closing the block yields a strict block of the consumed part behind what precedes it, of all of it unless the size was given, and then the buffer is full but for one byte; never more than the bound for what was consumed; it fails only if the bound does not fit |
| FastCompressor.FindMatch | lib/lz4/lz4.c:1064-1150 | whatever the hash function and the acceleration, a candidate that is returned is an earlier position within reach that agrees on four bytes, in the prefix or in the external dictionary; with 16-bit tables without any distance check; an entry that hits at the first position is the candidate returned |
| FastCompressor.CandidateOk | lib/lz4/lz4.c:1104-1150 | the tests on a table entry let no index through that is not a position within reach, and none in the last three bytes of an external dictionary; a dictionary shorter than the reach of old indices is guarded by its own test |
| FastCompressor.CatchUp | lib/lz4/lz4.c:1153-1160 | walking back keeps the offset and the match, and stays in the segment the match lies in |
| FastCompressor.SearchSegment | lib/lz4/lz4.c:1049-1193 | a sequence starts at or after the end of the previous one, its literals written, or the block is ready to be closed; a hit at the first position leads to its match, and to nothing else unless there is no room |
| FastCompressor.CountMatch | lib/lz4/lz4.c:1226-1249 | the match extends exactly as far as the bytes agree, also over the end of an external dictionary into the source |
| FastCompressor.FitMatchLength | lib/lz4/lz4.c:1238-1262 | when filling a given size the match is shortened only if it must be, and what remains is a legal match with room for the last literals |
| FastCompressor.ClearPositions | lib/lz4/lz4.c:1262-1276 | after shortening a match the table holds no position behind the new end |
| FastCompressor.MatchSegment | lib/lz4/lz4.c:1195-1310 | offset and match length complete a sequence with equal bytes within the window, as many as there are unless a size is to be filled; room is what it fails for |
| FastCompressor.TestNextPosition | lib/lz4/lz4.c:1312-1366 | the immediate second match is a genuine one too, and is taken exactly if the entry hits |
| FastCompressor.CompressValidated | lib/lz4/lz4.c:977-1412 | for every hash function, output policy, table type, and for no dictionary, a dictionary in front of the source and one elsewhere: the output is a strict block of the consumed part behind the dictionary, which is everything unless a size is to be filled; what is not everything fills the buffer but for one byte; it never exceeds the bound for what was consumed, and with a buffer of the bound never fails; one byte over and over becomes at most n/255 + 11 bytes |
| FastCompressor.Stream.PrepareTable | lib/lz4/lz4.c:935-970 | after preparation no index left in a table can be taken for a position of the next input |
| FastCompressor.Stream.CompressGeneric | lib/lz4/lz4.c:1418-1447 | the same guarantee through the stream, for every input size |
| FastCompressor.Stream.CompressFastReset | lib/lz4/lz4.c:1489-1533 | re-using a state without clearing it is as good as a fresh state; a source of one byte over and over is compressed |
| FastCompressor.Stream.RenormDict | lib/lz4/lz4.c:1767-1786 | rescaling the indices keeps every table entry right for the end of the dictionary that stays |
| FastCompressor.Stream.ChooseDict | lib/lz4/lz4.c:1800-1829 | what is used of the dictionary is an end of it, clear of the source, and continues in the source exactly if its end is where the source starts |
| FastCompressor.Stream.CompressFastContinue | lib/lz4/lz4.c:1788-1873 | of a stream whose table is not of the 16-bit type: a successful result is a strict block of the source behind the dictionary, wherever the two lie; it succeeds within the bound whenever the buffer has the size of the bound, although the output is always limited; afterwards the dictionary ends with the source |
| FastCompressor.CompressFast | lib/lz4/lz4.c:1535-1552 | a successful result is a strict block of the whole input; it succeeds within the bound whenever the buffer has n + n/255 + 16 bytes and the input at most 0x7E000000, and never above that; one byte over and over becomes at most n/255 + 11 bytes, whenever these fit |
| FastCompressor.CompressDestSize | lib/lz4/lz4.c:1561-1596 | a strict block of exactly the prefix reported as consumed; the target is full but for one byte unless all is consumed, and the block is within the bound for what is; it succeeds exactly if there is a target and the source is not too large |
| RoundTrip.CompressDecompress | lib/lz4/lz4.c:1449-1552 | every input up to 0x7E000000 bytes comes back from the optimised decoder with an exactly sized buffer, from at most n + n/255 + 16 bytes |
| RoundTrip.FillDecompress | lib/lz4/lz4.c:1561-1596 | the block that fills a target decodes to exactly the consumed prefix, also when that is empty; unless that is everything, the target is full but for one byte, and the block is no larger than k + k/255 + 16 for k bytes consumed |
| RoundTrip.CompressDecompressHc | lib/lz4/lz4hc.c:1557-1590 | the same round trip for every level of the high compressor |
| HcMatchFinder.Context.Insert | lib/lz4/lz4hc.c:801-822 | after filing positions every entry lies below ip; while there is one prefix, filed from its beginning, the tables stand for exactly the positions before ip |
| HcMatchFinder.ValidMore | lib/lz4/lz4hc.c:801-822 | text that follows leaves the tables right, so that filing goes on from block to block |
| HcMatchFinder.ChainStep | lib/lz4/lz4hc.c:1112-1113 | one link leads to the nearest earlier position with the same hash, or out of the window |
| HcMatchFinder.ChainAgreesWithIndex | lib/lz4/lz4hc.c:801-822 | following the 16-bit deltas from the head of a chain visits, in decreasing order, exactly the filed positions of the window with that hash, in spite of clipping and wrap-around |
| HcMatchFinder.Examine | lib/lz4/lz4hc.c:949-965 | a candidate in the prefix: the two-byte filter loses no longer match; what is reported is a match of the reported extent, and no match at this offset that begins in the prefix is longer than it and the longest so far |
| HcMatchFinder.ExamineDict | lib/lz4/lz4hc.c:967-988 | a candidate in the external dictionary: counting goes on over its end at the beginning of the prefix, and gives the longest match at this offset; a candidate in its last three bytes is not looked at |
| HcMatchFinder.SelectChain | lib/lz4/lz4hc.c:990-1016 | moving to another chain never skips further than the largest offset and always moves |
| HcMatchFinder.RunForward | lib/lz4/lz4hc.c:1039-1046 | exactly the length of the run of the repeated byte from the candidate on, also over the end of the external dictionary |
| HcMatchFinder.RunBackward | lib/lz4/lz4hc.c:1048-1054 | exactly the length of the run before the candidate, also over the beginning of the prefix into the external dictionary |
| HcMatchFinder.PatternJump | lib/lz4/lz4hc.c:1019-1110 | the jump over a repeated pattern keeps the best match genuine, also when it takes a run as the match without comparing bytes, and when the run lies across both segments; it never leads to ip or behind |
| HcMatchFinder.InsertAndGetWiderMatch | lib/lz4/lz4hc.c:909-1161 | an improved match denotes equal byte ranges within the window and the limits, in the prefix, in the external dictionary or across both, with pattern analysis, chain swapping or neither; in one prefix, with attempts left and none of the short cuts, no match is longer, and with them the result is no shorter than the match one byte back, if its hash is the same |
| HcCompressor.EncodeOne | lib/lz4/lz4hc.c:287-377 | one sequence is appended as the format asks, or nothing before the cursor has changed, and then for want of the room the limits ask for |
| HcCompressor.Decide2Ok | lib/lz4/lz4hc.c:1230-1260 | every way out of the second search keeps the invariant on the overlap of the matches |
| HcCompressor.CorrectOk | lib/lz4/lz4hc.c:1262-1276 | shifting the second match by the correction leaves a match that ends where it did and starts four bytes after the first |
| HcCompressor.Decide3Ok | lib/lz4/lz4hc.c:1277-1366 | every way out of the third search: the matches written follow one another, and those kept satisfy the invariant again |
| HcCompressor.Search2Step | lib/lz4/lz4hc.c:1230-1260 | one round at the label _Search2 appends only genuine sequences and makes progress by the measure |
| HcCompressor.Search3Step | lib/lz4/lz4hc.c:1262-1366 | one round at the label _Search3, likewise |
| HcCompressor.WriteLastSequence | lib/lz4/lz4hc.c:1404-1427 | the shortened last match of a full buffer leaves a block that can be closed |
| HcCompressor.CompressHashChain | lib/lz4/lz4hc.c:1181-1429 | the goto machine ends, and its output is a strict block of the consumed part of the source behind everything in front of it, external dictionary included; within the bound for what was consumed, and filling the buffer but for one byte unless that is everything; in one prefix, one byte over and over becomes at most n/255 + 11 bytes |
| HcMid.FindMatch | lib/lz4/lz4hc.c:585-683 | a match that is returned starts here or one byte on and extends exactly as far as the bytes agree, up to the end of the external dictionary if it lies there, whatever the tables hold; an entry of the eight-byte table that agrees on four bytes is taken, and replaced; no entry gets beyond the next position |
| HcMid.CatchBack | lib/lz4/lz4hc.c:685-690 | the match grows backwards as far as it can within the prefix, its end where it was |
| HcMid.AddEnd | lib/lz4/lz4hc.c:708-721 | every entry stays below the position reached, and no hash reads past the source |
| HcMid.FillHTable | lib/lz4/lz4hc.c:505-530 | filing a dictionary leaves every entry below its end, and no hash reads past it |
| HcMid.Round | lib/lz4/lz4hc.c:585-722 | one round of the loop: a step forward, or a match written that follows what is written; it fails only for want of room |
| HcMid.CompressMid | lib/lz4/lz4hc.c:544-797 | levels 1 and 2: the output is a strict block of the consumed part of the source behind everything in front of it; within the bound for what was consumed, and filling the buffer but for one byte unless that is everything; without a history, one byte over and over becomes at most n/255 + 11 bytes |
| HcOptimal.SetLiterals | lib/lz4/lz4hc.c:2014-2030 | entering literals keeps every entry of the table a legal step |
| HcOptimal.SetMatches | lib/lz4/lz4hc.c:2032-2076 | entering the matches at a position keeps every entry up to the new last position a legal step, with literals behind it |
| HcOptimal.Explore | lib/lz4/lz4hc.c:1909-2083 | the search ends with a well-formed table and a last step, also when it stops for immediate encoding |
| HcOptimal.BackOk | lib/lz4/lz4hc.c:2085-2107 | walking back through a well-formed table gives steps that tile the range and are literals or genuine matches |
| HcOptimal.ReversePath | lib/lz4/lz4hc.c:2085-2107 | the in-place reversal turns the backward walk, with the last step behind it, into the forward walk from 0 |
| HcOptimal.WritePath | lib/lz4/lz4hc.c:2108-2131 | the forward walk is written as sequences that follow one another |
| HcOptimal.FindLongerMatch | lib/lz4/lz4hc.c:1841-1857 | a match that is returned fits into the block at this place |
| HcOptimal.CompressOptimal | lib/lz4/lz4hc.c:1866-2206 | the shortest-path parser yields a strict block of the consumed part of the source behind everything in front of it; within the bound for what was consumed, and filling the buffer but for one byte unless that is everything; in one prefix, more than 4101 bytes that are one byte over and over become at most n/255 + 11 |
| HighCompression.CompressGeneric | lib/lz4/lz4hc.c:1436-1473 | every level yields a strict block behind the text of the context, and succeeds whenever there is room for the bound or a size is to be filled; that size is reached but for one byte unless the source is used up; the source becomes part of the text |
| HcMatchFinder.Context.ResetFast | lib/lz4/lz4hc.c:1634-1648 | after any use, also one that failed, no index lies beyond the end of what has been filed, and nothing can be referred to |
| HcMatchFinder.Context.InitInternal | lib/lz4/lz4hc.c:240-256 | a new prefix starts 64 KB beyond everything filed, or from cleared tables, so that the tables stand for nothing of it yet; indices stay below 2^32 |
| HighCompression.NothingInReach | lib/lz4/lz4hc.c:240-256 | at the beginning of a prefix every entry of the table is out of reach |
| HighCompression.CompressHCFastReset | lib/lz4/lz4hc.c:1534-1547 | a state that has been used for anything, at any level, gives the same guarantee as a fresh one, and can go on as a stream behind the source |
| HighCompression.CompressHC | lib/lz4/lz4hc.c:1557-1574 | at every level a successful result is a strict block of the input; it succeeds within the bound, and never above 0x7E000000 bytes; without a history, one byte over and over is compressed |
| HighCompression.CompressHCDestSize | lib/lz4/lz4hc.c:1576-1590 | at every level a strict block of exactly the prefix reported as consumed; the target is full but for one byte unless all is consumed, and the block is within the bound for what is; it succeeds exactly if there is a target and the source is not too large |
| HcStreaming.LoadDict | lib/lz4/lz4hc.c:1664-1692 | a stream with the last 64 KB of a dictionary as its text, filed as the level needs it |
| HcStreaming.SetExternalDict | lib/lz4/lz4hc.c:1700-1716 | the prefix is the external dictionary now, with its indices unchanged; every entry stays below the new prefix |
| HcStreaming.CutOverlap | lib/lz4/lz4hc.c:1740-1757 | what is left of an external dictionary is an end of it where it was, clear of the source |
| HcStreaming.Prepare | lib/lz4/lz4hc.c:1718-1757 | reset, overflow of the indices, new segment and overlap together: what the stream can refer to is an end of its text, its prefix ends where the source starts, and indices stay below 2 GB |
| HcStreaming.ContinueGeneric | lib/lz4/lz4hc.c:1718-1760 | at every level, for a source anywhere in memory: a strict block behind the text of the stream, which afterwards ends with the whole source; a size to be filled is reached but for one byte unless the source is used up; the first block after a reset compresses one byte over and over |
| HcStreaming.CompressHCContinue | lib/lz4/lz4hc.c:1761-1768 | a successful result is a strict block of the source behind the text of the stream, wherever that lies; it succeeds within the bound; the text goes on with the source |
| HcStreaming.CompressHCContinueDestSize | lib/lz4/lz4hc.c:1770-1773 | always a strict block of as much as reported, behind the text of the stream; the target is full but for one byte unless all is consumed |
| HcStreaming.SaveDict | lib/lz4/lz4hc.c:1780-1813 | the last 64 KB of the prefix are the text of the stream at its new place; entries stay right |
| FrameFormat.FeedAppend | lib/lz4/lz4frame.c:1602-2116 | reading a text in two pieces is reading it in one |
| FrameFormat.ChunksDoNotMatter | lib/lz4/lz4frame.c:1602-2116 | however a text is cut, the frame format assigns the same state to it |
| FrameFormat.FailedStays | lib/lz4/lz4frame.c:1602-2116 | an error is final |
| FrameFormat.HeaderFed | lib/lz4/lz4frame.c:1316-1415 | the first seven bytes of a header decide its length or an error |
| FrameFormat.HeaderFedLong | lib/lz4/lz4frame.c:1316-1415 | a complete header opens the frame it describes or fails with the first error of its checks |
| FrameGrammar.AcceptedHeaders | lib/lz4/lz4frame.c:1316-1415 | a header of the length its flags ask for is accepted exactly if it begins with 04 22 4D 18, has the version bits 01 and a clear reserved bit, a block size byte of 40, 50, 60 or 70, and ends with the second byte of the hash of the descriptor |
| FrameGrammar.MachineReads | lib/lz4/lz4frame.c:1316-2116 | on every text the machine comes to what a grammar of the format, written field after field in numbers, says: an error, the beginning of a frame, or a frame with its end and its content |
| FrameHistory.WindowExtend | lib/lz4/lz4frame.c:1512-1582 | two histories with the same last 64 KB have the same last 64 KB after the same bytes |
| FrameHistory.WindowKeep | lib/lz4/lz4frame.c:1556-1582 | dropping the front of a dictionary before appending keeps its last 64 KB |
| FrameHistory.SavedInFront | lib/lz4/lz4frame.c:1538-1553 | copying the end of the dictionary in front of a waiting block completes the last 64 KB |
| FrameDecoder.Context.UpdateDict | lib/lz4/lz4frame.c:1512-1582 | whichever of its six cases applies, the region ending at dict + dictSize ends with the last min(64 KB, total) bytes of the history including the new ones; a dictionary in place stays in place |
| FrameDecoder.Context.Reset | lib/lz4/lz4frame.c:1299-1307 | whatever happened before, an error included: the context is valid again, its machine has read nothing and is ready for the first byte of a frame, and nothing counts as delivered |
| FrameDecoder.Context.DecodeHeader | lib/lz4/lz4frame.c:1316-1415 | from stored bytes or from the source: the context and the format agree on the frame, or on the error (which headers that accepts, FrameGrammar.AcceptedHeaders says byte by byte) |
| FrameDecoder.Context.GetFrameHeaderStep | lib/lz4/lz4frame.c:1634-1648 | takes a header at once, or starts to collect it |
| FrameDecoder.Context.StoreFrameHeaderStep | lib/lz4/lz4frame.c:1650-1665 | collects header bytes over any number of calls |
| FrameDecoder.Context.InitStep | lib/lz4/lz4frame.c:1667-1693 | buffers of the size the frame needs, kept if large enough; nothing is read |
| FrameDecoder.Context.GetBlockHeaderStep | lib/lz4/lz4frame.c:1695-1753 | the next stage and its parameters as the block header says, or its error |
| FrameDecoder.Context.StoreBlockHeaderStep | lib/lz4/lz4frame.c:1705-1753 | the same for a header in pieces |
| FrameDecoder.Context.CopyDirectStep | lib/lz4/lz4frame.c:1755-1796 | an uncompressed block passes through in any portions, into output, history, checksums and size |
| FrameDecoder.Context.BlockChecksumStep | lib/lz4/lz4frame.c:1798-1833 | fails exactly when the sum differs and checksums are on |
| FrameDecoder.Context.GetCBlockStep | lib/lz4/lz4frame.c:1835-1846 | a block that is there completely, or the start of collecting it; an error is that of the format, or that of a torn block that this stage decodes apart from its history; a torn block it takes lay behind its history |
| FrameDecoder.Context.StoreCBlockStep | lib/lz4/lz4frame.c:1847-1866 | a block in pieces, likewise |
| FrameDecoder.Context.DecodeSelected | lib/lz4/lz4frame.c:1868-1950 | the outcome of a complete block exactly: the format's, except that a torn block is refused if and only if the place chosen for it is apart from the dictionary |
| FrameDecoder.Context.LayoutInPlace | lib/lz4/lz4frame.c:1884-1950 | as long as the dictionary ends where output goes on, a torn block is met apart from its history if and only if the room left is smaller than a block may be |
| FrameDecoder.Context.HistoryAtHand | lib/lz4/lz4frame.c:1884-1950 | when a block is about to be decoded, the last 64 KB of the dictionary region are the history the frame prescribes |
| FrameDecoder.Context.DecodeUsingDict | lib/lz4/lz4frame.c:1896-1904 | the block decoder on the dictionary region: exact for the layout, and nothing but the destination changes |
| FrameHistory.WindowDecides | lib/lz4/lz4frame.c:1896-1904 | a block is decoded alike, and torn alike, behind a text and behind its last 64 KB |
| FrameDecoder.Context.DecodeDirect | lib/lz4/lz4frame.c:1884-1915 | decoding into the caller's buffer is exactly decoding behind the history the frame prescribes, in the layout that the place of the dictionary makes it |
| FrameDecoder.Context.DecodeIntoTmp | lib/lz4/lz4frame.c:1917-1956 | the same into the internal buffer, placed so that the history can stand before it |
| FrameDecoder.Context.FlushOutStep | lib/lz4/lz4frame.c:1958-1978 | what is handed over and what is still pending are together the decoded block |
| FrameDecoder.Context.GetSuffixStep | lib/lz4/lz4frame.c:1980-1995 | the end of a frame: the announced size must be complete, the checksum may follow |
| FrameDecoder.Context.StoreSuffixStep | lib/lz4/lz4frame.c:1996-2027 | the content checksum, in pieces |
| FrameDecoder.Context.GetSFrameSizeStep | lib/lz4/lz4frame.c:2029-2062 | the size of a skippable frame |
| FrameDecoder.Context.SkipStep | lib/lz4/lz4frame.c:2064-2076 | bytes of a skippable frame leave no trace |
| FrameDecoder.Context.PreserveHistory | lib/lz4/lz4frame.c:2079-2111 | after a call the history lies in internal memory unless the caller promised to leave its buffer alone |
| FrameDecoder.Context.Decompress | lib/lz4/lz4frame.c:1602-2116 | each call ends; it advances the state by exactly the bytes consumed, hands over exactly the bytes produced, changes nothing else of the buffer, goes on until a frame is complete, the input is used up or the buffer is full, and fails only where the format fails before that, with the same error, or at a torn block met apart from its history; with the dictionary in place at the start, it fails at the first torn block with too little room for a block, and takes all others |
| FrameStreaming.OneCall | lib/lz4/lz4frame.c:1602-2116 | a call on any next piece of a text, with any room, keeps the state that of the text consumed so far; a refusal is that of a malformed text or of a torn block met apart from its history, as the context records |
| FrameStreaming.OneByteCounts | lib/lz4/lz4frame.c:1980-2076 | a byte completes a frame exactly when it leaves the format ready for another |
| FrameStreaming.OneEnd | lib/lz4/lz4frame.c:1602-2116 | there is only one place where the first frame of a text can end |
| FrameStreaming.ByGrammar | lib/lz4/lz4frame.c:1316-2116 | a text is malformed, or holds a whole frame, exactly if it is or does so by that grammar, with the error, the end and the content it tells |
| FrameStreaming.DecodeInPieces | lib/lz4/lz4frame.c:1602-2116 | on every byte string, with any cuts and capacities and the buffer overwritten between calls: refused exactly if it is malformed by the grammar or a torn block was met apart from its history; otherwise consumed exactly to the end of the first frame by the grammar, with its content, or completely, with a beginning of it |
| FrameStreaming.CallersAgree | lib/lz4/lz4frame.c:1602-2116 | two callers, whatever their cuts and capacities, that accept a text have consumed the same number of bytes and, for a complete frame, have the same output; they give the same verdict if the text is malformed or no block of its first frame is torn |
| FrameStreaming.ExtremeCallers | lib/lz4/lz4frame.c:1602-2116 | the converse: two callers that agree on the verdict if and only if the text is malformed or no block of its first frame is torn; the verdict of every caller lies between theirs |
| FrameStreaming.DecodeAtOnce | lib/lz4/lz4frame.c:1602-2116 | everything in one call: it refuses only a malformed text and one with a torn block for which the room left is smaller than a block may be, and takes no such block |
| FrameStreaming.LenientCaller | lib/lz4/lz4frame.c:1602-2116 | with room for all content and another block, exactly the texts that are not malformed are accepted |
| FrameStreaming.StrictCaller | lib/lz4/lz4frame.c:1602-2116 | with a room one byte short of what the first torn block may need, exactly the texts that are neither malformed nor hold a torn block in their first frame are accepted |
| FrameStreaming.FrameIsDecoded | lib/lz4/lz4frame.c:1602-2116 | a text that is exactly one frame and holds no torn block is accepted; whenever it is accepted it is consumed exactly and yields its content |
| FrameStreaming.IndependentSettled | lib/lz4/lz4frame.c:1884-1950 | on a text that starts a frame of independent blocks, or a skippable one, the verdict never depends on the calls |
| FrameStreaming.OnlyLinkedTear | lib/lz4/lz4frame.c:1884-1950 | only the last byte of a compressed block in a linked frame can tear |
| FrameStreaming.NeverTorn | lib/lz4/lz4frame.c:1602-2116 | a text that has met no torn block by its end is settled throughout |
| FrameStreaming.TornFrameUnsettled | lib/lz4/lz4frame.c:1884-1950 | frames of two linked 64 KB blocks, for any 64 KB in the first, that the format accepts so far and whose second block is torn |
| FrameStreaming.TornFrameTwoVerdicts | lib/lz4/lz4frame.c:1884-1950 | on each of them one caller gets a success and another an error |
| FrameText.HeaderRead | lib/lz4/lz4frame.c:687-814 | a written header is read as the frame of its preferences, with a checksum that is accepted |
| FrameText.BlockRead | lib/lz4/lz4frame.c:862-883 | a written compressed block is read as its content, and makes the text torn if the block is |
| FrameText.RawRead | lib/lz4/lz4frame.c:862-883 | a written uncompressed block is read as its content |
| FrameText.EndRead | lib/lz4/lz4frame.c:1171-1204 | a written end of frame is accepted when the announced size has been reached |
| FrameCompressor.BlocksRoomClosed | lib/lz4/lz4frame.c:376-399 | the closed formula of the bound is the room that the blocks take one by one |
| FrameCompressor.BoundCovers | lib/lz4/lz4frame.c:376-399 | the bound covers what is buffered and added, and leaves room for the end mark |
| FrameCompressor.StrictReads | lib/lz4/lz4frame.c:862-883 | a block that is strict behind the end of what the frame holds is read as its content in both layouts |
| FrameCompressor.Context.CompressAlone | lib/lz4/lz4frame.c:885-912 | an independent block is strict by itself, at every level, from contexts that are used again and again |
| FrameCompressor.Context.CompressLinked | lib/lz4/lz4frame.c:895-919 | a linked block is strict behind the dictionary of the stream, at every level; the dictionary ends with the source afterwards, and its segments lie where the source and the segment before it lie |
| FrameCompressor.Context.MakeBlock | lib/lz4/lz4frame.c:862-883 | a block, compressed or as it is, that is read as the source wherever the reader keeps its history, and is never larger than it by more than header and checksum; one byte over and over is not stored as it is, unless by a context of the high compressor about which too little is known |
| FrameCompressor.Context.LocalSaveDict | lib/lz4/lz4frame.c:948-955 | the dictionary moves to the front of the buffer, the input buffer starts behind it, at most 64 KB in |
| FrameCompressor.StandsMore | lib/lz4/lz4frame.c:948-955 | after a block out of the buffer what was compressed last stands directly in front of what is buffered next |
| FrameCompressor.FarAfterTmp | lib/lz4/lz4frame.c:1010-1165 | after a block out of the buffer no external dictionary lies in the buffer, so that buffering overwrites nothing that will be referred to |
| FrameCompressor.FarAfterSrc | lib/lz4/lz4frame.c:1032-1052 | after a block straight from the source an external dictionary in the buffer still stands there |
| FrameCompressor.Context.CompressBegin | lib/lz4/lz4frame.c:687-823 | refuses exactly when there is no room for a header; otherwise nothing is buffered and the header is written |
| FrameCompressor.Context.CompleteTmp | lib/lz4/lz4frame.c:1010-1031 | a started block is completed from the source or everything is buffered |
| FrameCompressor.Context.EmitFull | lib/lz4/lz4frame.c:1032-1052 | whole blocks straight from the source, and with auto-flush the rest |
| FrameCompressor.Context.Buffer | lib/lz4/lz4frame.c:1072-1085 | the input that is kept fits into the buffer when auto-flush is off |
| FrameCompressor.Context.CompressUpdate | lib/lz4/lz4frame.c:972-1109 | refuses exactly in the wrong state or when the buffer is below the bound; otherwise written blocks and buffered bytes stand for all input so far, and no more than the bound is written |
| FrameCompressor.Context.Flush | lib/lz4/lz4frame.c:1125-1165 | writes what is buffered, at most eight bytes more than that, and refuses exactly when there is something to write and the state or the room is wrong |
| FrameCompressor.Context.CompressEnd | lib/lz4/lz4frame.c:1171-1204 | everything written since the beginning is one frame with all input as its content; refuses a size other than the announced one |
| FrameRoundTrip.WriteFrame | lib/lz4/lz4frame.c:972-1204 | any sequence of updates and flushes, from pieces anywhere in memory, at every level, with linked and independent blocks, writes one valid frame of the concatenated input, by the grammar as well, that holds no torn block, exactly when the announced size is right |
| FrameRoundTrip.CompressDecompressFrame | lib/lz4/lz4frame.c:972-2116 | any pieces in, any cuts and capacities out, at every level: the content comes back |
| XxHash32.AbsorbAppend | lib/lz4/xxhash.c:370-384 | stripes of a text in two parts are stripes of the text |
| XxHash32.Finalize | lib/lz4/xxhash.c:287-359 | the sixteen-way switch is the rest of the algorithm for every length |
| XxHash32.XXH32 | lib/lz4/xxhash.c:361-428 | the one-shot function is XXH32 as the description of the algorithm gives it, for every text and seed |
| XxHash32.HashIsXxh32 | lib/lz4/xxhash.c:276-428 | the stripes, the steps and the final mix of the code are those of the description, which is written by position with its own constants, shifts and rotations |
| XxHashSpec.Empty32 | lib/lz4/xxhash.c:276-283 | the described algorithm has the published value for the empty text |
| XxHashSpec.ThreeLetters32 | lib/lz4/xxhash.c:287-359 | and for one shorter than a word |
| XxHashSpec.FourLetters32 | lib/lz4/xxhash.c:287-359 | and for one of a word |
| XxHashSpec.Nobody32 | lib/lz4/xxhash.c:361-428 | and for one with two stripes, a word and three bytes |
| XxHash32.State.Reset | lib/lz4/xxhash.c:442-452 | an empty input |
| XxHash32.State.Update | lib/lz4/xxhash.c:454-532 | the state stands for the input extended by the new bytes, through all three cases of the buffer, with the length modulo 2^32 and the large-length flag |
| XxHash32.State.Digest | lib/lz4/xxhash.c:534-555 | XXH32 of all input so far, as the one-shot function |
| XxHash32.HashInPieces | lib/lz4/xxhash.c:430-555 | every partition of a text into updates gives its XXH32 |
| XxHash64.AbsorbAppend | lib/lz4/xxhash.c:837-856 | stripes of a text in two parts are stripes of the text |
| XxHash64.Finalize | lib/lz4/xxhash.c:691-828 | the thirty-two-way switch is the rest of the algorithm for every length |
| XxHash64.XXH64 | lib/lz4/xxhash.c:830-902 | the one-shot function is XXH64 as the description of the algorithm gives it, for every text and seed |
| XxHash64.HashIsXxh64 | lib/lz4/xxhash.c:680-902 | the stripes, the merges, the steps and the final mix of the code are those of the description |
| XxHashSpec.Empty64 | lib/lz4/xxhash.c:680-689 | the described algorithm has the published value for the empty text |
| XxHashSpec.Nobody64 | lib/lz4/xxhash.c:830-902 | and for one with a stripe, a half word and three bytes |
| XxHash64.State.Reset | lib/lz4/xxhash.c:916-926 | an empty input |
| XxHash64.State.Update | lib/lz4/xxhash.c:928-999 | the state stands for the input extended by the new bytes |
| XxHash64.State.Digest | lib/lz4/xxhash.c:1001-1031 | XXH64 of all input so far while the length is below 2^64, as the one-shot function |
| XxHash64.HashInPieces | lib/lz4/xxhash.c:904-1031 | every partition of a text into updates gives its XXH64 |
| Flashing.UsbDevice.BulkWriteAll | src/usb_device.cpp:73-111 | over the transfers alone: what they moved is a beginning of the data in order, in requests of at most the chunk size, and of 16384 once a transfer broke the pipe or timed out; it goes on until all has gone over, the device is gone, or five transfers have had an error or moved nothing; it succeeds exactly if all has gone over and the device is not gone, and then an empty transfer closes data that ends with a full packet |
| Flashing.UsbDevice.Attempt | src/usb_device.cpp:77-100 | transfers up to the next that goes wrong, which costs exactly one of the five attempts |
| Flashing.UsbDevice.SendFilePartAndAck | src/usb_device.cpp:1160-1184 | a part that has gone over is a success exactly if the acknowledgement read after it carries the expected index; one that has not is none |
| Flashing.UsbDevice.SendPart | src/usb_device.cpp:1293-1311 | a part is the next bytes of the file, filled up with zeros |
| Flashing.UsbDevice.NextPart | src/usb_device.cpp:1293-1311 | the device accepts the part; data so far is the file so far with zeros behind it |
| Flashing.UsbDevice.SendParts | src/usb_device.cpp:1288-1311 | all parts of a sequence, with consecutive indices |
| Flashing.UsbDevice.SendSequence | src/usb_device.cpp:1274-1316 | a sequence the device accepts, with the real size reported; marked last exactly when it completes the file |
| Flashing.UsbDevice.CountSequences | src/usb_device.cpp:1264-1281 | accepts exactly the sizes from 1 to (2^32 - 1) sequences, and splits them into full sequences and a last one; rounding that wraps in 64 bits is refused |
| Flashing.UsbDevice.SendSequences | src/usb_device.cpp:1283-1317 | the device has received the whole file, zero-padded to the packet size, and the reported sizes add up to it |
| Flashing.UsbDevice.FlashLegacy | src/usb_device.cpp:1258-1321 | on success the device has followed the protocol to its end, in sequences of 30 MiB of which only the last may be shorter, and holds exactly the padded file; a device that does everything right, but for four transfers, leads to success |
| Flashing.UsbDevice.SendFilePartChunk | src/usb_device.cpp:841-890 | success means that the chunk went over between two confirmations, the command before it and the one after it both accepted |
| Flashing.UsbDevice.FlashThor | src/usb_device.cpp:1330-1351 | the size, then the file in pieces of a mebibyte with consecutive indices |
| Flashing.PieceIs | src/usb_device.cpp:1333-1348 | piece i of an image is its bytes from 1048576 i to 1048576 (i + 1), or to its end |
| Flashing.UsbDevice.FlashPartitionStream | src/usb_device.cpp:1258-1351 | either protocol, with what each guarantees |
| Flashing.UsbDevice.EndFileTransfer | src/usb_device.cpp:922-956 | one message over Thor, none over the legacy protocol |
| FirmwarePackage.DecodeSome | src/firmware_package.cpp:549-583 | one call of the decoder: the rest of the entry is still to be decoded from what the buffer and the file hold, with a measure that goes down; giving up means that the entry cannot be decoded |
| FirmwarePackage.ScanSize | src/firmware_package.cpp:374-500 | succeeds exactly when a frame ends and its size is below 2^64, and tells that size |
| FirmwarePackage.PumpOut | src/firmware_package.cpp:516-599 | the pieces sent are those that decoding the entry gives, in order and indexed from 0 |
| FirmwarePackage.ProcessLz4Streaming | src/firmware_package.cpp:313-615 | a flash run sends the announced size and the pieces of the image; a check-only run touches nothing and succeeds exactly when the image can be sent |
| FirmwarePackage.PumpDelivers | src/firmware_package.cpp:516-599 | with a decoder that answers as LZ4F_decompress does, the pieces are what the entry decodes to, and the pump gives up exactly on malformed entries, and at most besides on those with a torn block |
| FirmwarePackage.Lz4ImageDecodes | src/firmware_package.cpp:313-615 | an accepted compressed image has the announced size and is what its entry decodes to; its frame may be left unfinished only when the header told the size |
| FirmwarePackage.FramesAreAccepted | src/firmware_package.cpp:313-615 | every entry that is a frame without a torn block is accepted with its content, if its header tells no size or the right one |
| PackageDecoding.FrameSession.Ask | src/firmware_package.cpp:549-583 | a call of the modelled LZ4F_decompress, on a context with any history of calls, is an answer of the kind the three preceding rows presume of the decoder |
| PackageDecoding.FrameSession.Restart | src/firmware_package.cpp:505-512 | after any calls, failed ones included, a reset brings the session back to its beginning |
| PackageDecoding.DecodeEntry | src/firmware_package.cpp:516-599 | the loop over an entry run on a real decoding context: it ends, and what it delivers is what the entry decodes to |
| PackageDecoding.SlowDecoderDecodes | src/firmware_package.cpp:549-583 | what those rows presume can be had: a decoder that hands over what it holds back, or else reads one byte, meets it |
| FirmwarePackage.ProcessEntry | src/firmware_package.cpp:888-923 | the image, the padding and the end of the transfer |
| FirmwarePackage.ProcessKind | src/firmware_package.cpp:771-923 | long names, extended headers, other kinds, unknown names and partitions already written, each as in the walk |
| FirmwarePackage.ProcessHeader | src/firmware_package.cpp:661-923 | one header leads where the specification of the walk leads |
| FirmwarePackage.ProcessTarFile | src/firmware_package.cpp:617-926 | a check-only run gives the verdict of the walk and touches nothing; a flash run over Thor succeeds exactly then, if the device acknowledges everything, and has sent exactly the listed images; a legacy run that succeeds has finished the protocol with the padded file for each listed image; it always ends |
| FirmwarePackage.SentAreEvents | src/firmware_package.cpp:868-923 | over Thor the messages sent image by image are the events of the list |
| FirmwarePackage.OneHeader | src/firmware_package.cpp:651-923 | every header that does not end the walk moves it forward by a multiple of 512 bytes, past the header |
| ArchiveText.OnlyPadding | src/firmware_package.cpp:910 | the bytes that are skipped behind the data are the only number below 512 that fills up a block |
| ArchiveText.GoodStep | src/firmware_package.cpp:651-923 | an entry in order at its place is one step of the walk, with its image if it goes to a partition, and leads to where the next entry begins |
| ArchiveText.ArchiveReads | src/firmware_package.cpp:617-926 | the text of a list of entries in order is accepted with exactly their images, one after the other; the entry before tells the name, or the header |
| ArchiveText.AcceptedArchives | src/firmware_package.cpp:617-926 | an archive is accepted with a list of images if and only if it is the text of entries in order that ask for these |
| ArchiveText.RefusedArchives | src/firmware_package.cpp:651-923 | the first entry that is not in order decides the code of the refusal |
| FirmwarePackage.WalkIsSendable | src/firmware_package.cpp:868-872 | an accepted archive names no partition twice, and the pieces of every image add up to its size |
| FirmwarePackage.EventsAccepted | src/usb_device.cpp:841-956 | what a flash run sends is accepted by the device: size, pieces from 0 that add up to it, one end, for each partition in turn |
| FirmwarePackage.PiecesTotal | src/usb_device.cpp:1333-1348 | the pieces of a plain image are the image |
| FirmwarePackage.CheckThenFlash | src/firmware_package.cpp:617-926 | a check-only run predicts the flash run over Thor, in both directions |

## Left out

- `LZ4_loadDict`, attached dictionary contexts (`usingDictCtx`), `byPtr` tables, partial decoding and the `LZ4_decompress_fast*` entry points.
- LZ4 HC with an attached dictionary context, and a change of its level in the middle of a stream.
- HcStreaming.CompressHCContinue: does not model sources above LZ4_MAX_INPUT_SIZE or an empty destination, neither of which a frame hands to it.
- HcStreaming.SaveDict: models the size of 64 KB, the only one asked for, on a stream that has a prefix.
- HcMatchFinder.InsertAndGetWiderMatch: says that no match is longer only for one prefix from its beginning; matches that begin in the last three bytes of an external dictionary are not looked for, and a prefix that was cut or saved leaves older entries in the tables.
- FastCompressor.Stream.CompressFastContinue: does not model sources above LZ4_MAX_INPUT_SIZE, which no frame hands to it.
- Decoder.DecompressSafeUsingDict: distinct buffers are never adjacent in memory, so a dictionary in another buffer is an external one.
- Overflow checks on addresses near the end of the address space: indices do not wrap.
- Other architectures, word sizes and byte orders: a 64-bit little-endian target is fixed.
- HcMatchFinder.SelectChain: does not say which chain is the best one, because the choice affects only the compression ratio.
- Compression ratio, hash quality, and whether the prices of the optimal parser equal emitted sizes.
- FrameDecoder.Context.Decompress: hints other than 0 are not specified; a null destination, allocation failure and `LZ4F_decompress_usingDict` are not modelled, distinct buffers are never adjacent in memory, and where a dictionary kept in internal memory lies at the time of a later block is stated stage by stage (`FrameDecoder.Context.LayoutNow`) and not for whole calls.
- `LZ4F_uncompressedUpdate`, `LZ4F_CDict` and the one-call `LZ4F_compressFrame`.
- The checksum states inside the frame contexts stand for the bytes they have absorbed, which `XxHash32.HashInPieces` justifies.
- Flashing.UsbDevice.BulkWriteAll: does not model time-outs, pauses and clearing a stalled endpoint; the outcome of the closing empty transfer is ignored, as in the code.
- Flashing.UsbDevice.Command: the payloads of commands and the parsing of replies are not modelled; a reply is accepted or not.
- Finding, opening and configuring the device, sessions, PIT transfer, rebooting.
- MD5 trailers and verification: the end of the content is a parameter of the walk.
- FirmwarePackage.ProcessHeader: checksum, octal sizes, names, extended attributes, PIT lookup and the size field of a frame header are arbitrary functions of the bytes they are read from.
- Archives of 2^63 bytes and more, and frames of 2^64 bytes and more of content.
- FirmwarePackage.PumpOut: the running total does not wrap at 2^64.
- Progress output, logging, argument parsing.
