// LZ4_decompress_unsafe_generic without dictionary: the slow decoder that is
// told the decoded size and trusts its source.
module ReferenceDecoder {
  import opened BlockFormat
  import Decoder

  // read_long_length_no_check
  method ReadLongLengthNoCheck(src: seq<byte>, ip0: nat) returns (l: nat, ip: nat)
    requires ip0 <= |src| && ReadLongLength(src, ip0).Length?
    ensures ReadLongLength(src, ip0) == Length(l, ip)
  {
    l, ip := 0, ip0;
    var b: byte := 255;
    while b == 255
      invariant ip <= |src|
      invariant b == 255 ==>
                  && ReadLongLength(src, ip).Length?
                  && ReadLongLength(src, ip0) == Length(l + ReadLongLength(src, ip).len, ReadLongLength(src, ip).next)
      invariant b != 255 ==> ReadLongLength(src, ip0) == Length(l, ip)
      decreases b == 255, |src| - ip
    {
      b := src[ip];
      ip := ip + 1;
      l := l + b;
    }
  }

  method ReadLengthNoCheck(src: seq<byte>, ip0: nat, nibble: nat) returns (l: nat, ip: nat)
    requires ip0 <= |src| && ReadLength(src, ip0, nibble).Length?
    ensures ReadLength(src, ip0, nibble) == Length(l, ip)
  {
    l, ip := nibble, ip0;
    if l == 15 {
      var more;
      more, ip := ReadLongLengthNoCheck(src, ip);
      l := l + more;
    }
  }

  // The copy of a match, byte by byte; source and destination may overlap.
  method CopyBytes(dst: array<byte>, op: nat, offset: nat, ml: nat)
    requires 0 < offset <= op && op + ml <= dst.Length
    modifies dst
    ensures dst[..op + ml] == CopyMatch(old(dst[..op]), offset, ml)
  {
    var match0 := op - offset;
    var u := 0;
    while u < ml
      invariant u <= ml && dst[..op] == old(dst[..op])
      invariant forall i :: op <= i < op + u ==> dst[i] == dst[i - offset]
    {
      dst[op + u] := dst[match0 + u];
      u := u + 1;
    }
    ghost var r := dst[..op + ml];
    assert r[..op] == old(dst[..op]);
    forall i | op <= i < |r| ensures RepeatsAt(r, offset, i) { assert dst[i] == dst[i - offset]; }
    CopyMatchUnique(old(dst[..op]), offset, r);
  }

  // One sequence.
  method OneSequence(src: seq<byte>, dst: array<byte>, ip0: nat, op0: nat)
    returns (stop: bool, result: int, ip: nat, op: nat)
    requires ip0 < |src| && op0 <= dst.Length && !RefStep(src, ip0, dst[..op0], dst.Length).Malformed?
    modifies dst
    ensures var r := old(RefStep(src, ip0, dst[..op0], dst.Length));
            && (r.Reject? ==> stop && result == -1)
            && (r.Done? ==> stop && result == r.next && dst[..] == r.out)
            && (r.More? ==> !stop && ip == r.ip && op == |r.out| && dst[..op] == r.out)
  {
    hide ReadLength, CopyMatch;
    var token := src[ip0];
    stop, result, op := true, -1, op0;
    var ll;
    ll, ip := ReadLengthNoCheck(src, ip0 + 1, token / 16);
    if dst.Length - op < ll { return; }
    ghost var out0 := dst[..op0];
    forall k | 0 <= k < ll { dst[op + k] := src[ip + k]; }
    assert dst[..op0] == out0;
    assert dst[..op + ll] == out0 + src[ip..ip + ll];
    op, ip := op + ll, ip + ll;
    if dst.Length - op < MFLIMIT {
      if op == dst.Length {
        assert dst[..op] == dst[..];
        result := ip;
      }
      return;
    }
    var ml: nat;
    var offset := ReadOffset(src, ip);
    ml, ip := ReadLengthNoCheck(src, ip + 2, token % 16);
    ml := ml + MINMATCH;
    if dst.Length - op < ml { return; }
    if offset > op { return; }
    CopyBytes(dst, op, offset, ml);
    op := op + ml;
    if dst.Length - op < LASTLITERALS { return; }
    stop := false;
  }

  // What it presumes of its source: reads stay inside it, no offset is zero.
  method DecompressUnsafe(src: seq<byte>, dst: array<byte>) returns (result: int)
    requires !RefFrom(src, 0, [], dst.Length).Malformed?
    modifies dst
    ensures var r := RefFrom(src, 0, [], dst.Length);
            result == (if r.Done? then r.next else -1) && (r.Done? ==> dst[..] == r.out)
  {
    hide RefStep;
    var ip: nat, op: nat, stop := 0, 0, false;
    result := -1;
    assert dst[..0] == [];
    while !stop
      invariant !stop ==>
                  && ip <= |src| && op <= dst.Length
                  && RefFrom(src, 0, [], dst.Length) == RefFrom(src, ip, dst[..op], dst.Length)
      invariant stop ==>
                  var r := RefFrom(src, 0, [], dst.Length);
                  result == (if r.Done? then r.next else -1) && (r.Done? ==> dst[..] == r.out)
      decreases !stop, if stop then 0 else |src| - ip
    {
      stop, result, ip, op := OneSequence(src, dst, ip, op);
    }
  }

  // A block that meets the end-of-block conditions is decoded to the same
  // bytes by the slow decoder and by the optimised one.
  method DecodersAgree(src: seq<byte>, ghost out: seq<byte>, size: nat) returns (slow: array<byte>, fast: array<byte>)
    requires StrictBlock(src, out) && size == |out| && (size == 0 ==> src == [0])
    ensures slow[..] == out && fast[..] == out
  {
    slow, fast := new byte[size], new byte[size];
    var consumed := DecompressUnsafe(src, slow);
    var produced := Decoder.DecompressSafe(src, fast);
    RefImpliesDecodeFrom(src, 0, [], size);
    assert fast[..size] == fast[..];
  }
}
