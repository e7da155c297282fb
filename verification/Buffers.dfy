// Writing texts into buffers, and what a write leaves alone.
module Buffers {
  import opened BlockFormat

  // Store a text in a buffer.
  method PutBytes(to: array<byte>, at: nat, x: seq<byte>)
    requires at + |x| <= to.Length
    modifies to
    ensures to[at..at + |x|] == x && to[..at + |x|] == old(to[..at]) + x
    ensures to[..at] == old(to[..at]) && to[at + |x|..] == old(to[at + |x|..])
  {
    forall k | 0 <= k < |x| { to[at + k] := x[k]; }
    assert to[..at + |x|] == to[..at] + to[at..at + |x|];
  }

  // The same behind the n bytes stored last.
  method PutBehind(to: array<byte>, at: nat, n: nat, x: seq<byte>)
    requires at + n + |x| <= to.Length
    modifies to
    ensures to[at..at + n + |x|] == old(to[at..at + n]) + x
    ensures to[..at] == old(to[..at]) && to[at + n + |x|..] == old(to[at + n + |x|..])
  {
    ghost var was := to[..];
    PutBytes(to, at + n, x);
    assert to[..at] == to[..at + n][..at] && was[..at] == was[..at + n][..at];
    assert to[at..at + n] == to[..at + n][at..] && was[at..at + n] == was[..at + n][at..];
    assert to[at..at + n + |x|] == to[at..at + n] + to[at + n..at + n + |x|];
  }

  // memcpy: the two ranges must not overlap.
  method MemCpy(to: array<byte>, at: nat, from: array<byte>, lo: nat, n: nat)
    requires at + n <= to.Length && lo + n <= from.Length
    requires to != from || lo + n <= at || at + n <= lo
    modifies to
    ensures to[at..at + n] == old(from[lo..lo + n])
    ensures to[..at] == old(to[..at]) && to[at + n..] == old(to[at + n..])
  {
    forall k | 0 <= k < n { to[at + k] := from[lo + k]; }
  }

  // Two copies, one behind the other, to the front of a buffer.
  method MemCpyBoth(to: array<byte>, a: array<byte>, lo: nat, n: nat, b: array<byte>, at: nat, m: nat)
    requires n + m <= to.Length && lo + n <= a.Length && at + m <= b.Length && to != a && to != b
    modifies to
    ensures to[..n + m] == a[lo..lo + n] + b[at..at + m]
  {
    MemCpy(to, 0, a, lo, n);
    ghost var front := to[..n];
    MemCpy(to, n, b, at, m);
    assert to[..n + m] == front + to[n..n + m];
  }

  // The part from b on was left alone if the part from an earlier a was.
  lemma TailKept(now: seq<byte>, was: seq<byte>, a: nat, b: nat)
    requires a <= b <= |now| == |was| && now[a..] == was[a..]
    ensures now[b..] == was[b..]
  {
    assert now[b..] == now[a..][b - a..] && was[b..] == was[a..][b - a..];
  }

  lemma SliceKept(now: seq<byte>, was: seq<byte>, off: nat, n: nat, at: nat, hi: nat)
    requires at <= hi <= |now| == |was| && now[..at] == was[..at] && now[hi..] == was[hi..]
    requires off + n <= |now| && (off + n <= at || hi <= off)
    ensures now[off..off + n] == was[off..off + n]
  {
    if off + n <= at {
      assert now[off..off + n] == now[..at][off..off + n] && was[off..off + n] == was[..at][off..off + n];
    } else {
      SliceOfDrop(now, hi, off, n);
      SliceOfDrop(was, hi, off, n);
    }
  }

  lemma SliceOfDrop(s: seq<byte>, hi: nat, off: nat, n: nat)
    requires hi <= off && off + n <= |s|
    ensures s[off..off + n] == s[hi..][off - hi..off - hi + n]
  {
  }

  lemma SliceOfSlice(s: seq<byte>, at: nat, n: nat, a: nat, k: nat)
    requires at + n <= |s| && a + k <= n
    ensures s[at..at + n][a..a + k] == s[at + a..at + a + k]
  {
    var t, u := s[at..at + n][a..a + k], s[at + a..at + a + k];
    forall i | 0 <= i < k ensures t[i] == u[i] { assert s[at..at + n][a + i] == s[at + (a + i)]; }
  }
}
