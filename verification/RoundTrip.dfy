// Compressing and decompressing end to end: the two halves composed.
module RoundTrip {
  import opened BlockFormat
  import opened Emit
  import opened FastCompressor
  import opened HcMid
  import HighCompression
  import Decoder

  // For every input and every hash function, decompressing into a buffer of
  // exactly the original size gives the input back.
  method CompressDecompress(src: seq<byte>, acceleration: int, hash16: HashFn, hash32: HashFn)
    returns (block: seq<byte>, out: seq<byte>)
    requires |src| <= 0x7E000000 && HashInto(hash16, TABLE_SIZE) && HashInto(hash32, TABLE_SIZE)
    ensures |block| <= |src| + |src| / 255 + 16
    ensures out == src
  {
    hide StrictBlock, HashInto;
    var dst := new byte[Bound(|src|)];
    var n := CompressFast(src, dst, acceleration, hash16, hash32);
    block := dst[..n];
    var plain := new byte[|src|];
    var r := Decoder.DecompressSafe(block, plain);
    StrictDecodes(block, src);
    out := plain[..r];
  }

  // The part of the source a full buffer holds, decompressed strictly.
  method FillDecompress(src: seq<byte>, target: nat, hash16: HashFn, hash32: HashFn)
    returns (block: seq<byte>, consumed: nat, out: seq<byte>)
    requires |src| <= 0x7E000000 && 0 < target
    requires HashInto(hash16, TABLE_SIZE) && HashInto(hash32, TABLE_SIZE)
    ensures |block| <= target && consumed <= |src|
    ensures out == src[..consumed]
    ensures target >= |src| + |src| / 255 + 16 ==> consumed == |src|
    ensures consumed < |src| ==> target - 1 <= |block|
    ensures |block| <= consumed + consumed / 255 + 16
  {
    hide StrictBlock, HashInto;
    var dst := new byte[target];
    var n;
    n, consumed := CompressDestSize(src, dst, hash16, hash32);
    block := dst[..n];
    var plain := new byte[consumed];
    var r := Decoder.DecompressSafe(block, plain);
    StrictDecodes(block, src[..consumed]);
    out := plain[..r];
  }

  // The same through LZ4 HC, at every level.
  method CompressDecompressHc(src: seq<byte>, cLevel: int, h: Hashes) returns (block: seq<byte>, out: seq<byte>)
    requires |src| <= 0x7E000000 && HashesOk(h)
    ensures |block| <= |src| + |src| / 255 + 16
    ensures out == src
  {
    hide StrictBlock, HashesOk;
    var dst := new byte[Bound(|src|)];
    var n := HighCompression.CompressHC(src, dst, cLevel, h);
    block := dst[..n];
    var plain := new byte[|src|];
    var r := Decoder.DecompressSafe(block, plain);
    StrictDecodes(block, src);
    out := plain[..r];
  }

  lemma StrictDecodes(block: seq<byte>, out: seq<byte>)
    requires StrictBlock(block, out)
    ensures Decode(block) == Some(out)
  {
    RefImpliesDecodeFrom(block, 0, [], |out|);
  }
}
