// Texts that end with one another, places in memory, and what a block may
// refer to: the vocabulary of both streaming compressors.
module Dictionaries {
  import opened BlockFormat
  import opened BlockAcceptance
  import opened Emit

  // A place in memory: an allocation and an offset into it.
  datatype Place = Null | Place(space: nat, at: nat) {
    function Plus(n: nat): Place { if Null? then Null else Place(space, at + n) }
  }

  predicate EndsWith(h: seq<byte>, x: seq<byte>) {
    |x| <= |h| && h[|h| - |x|..] == x
  }

  lemma EndsWithTwice(a: seq<byte>, b: seq<byte>, c: seq<byte>)
    requires EndsWith(a, b) && EndsWith(b, c)
    ensures EndsWith(a, c)
  {
    assert c == b[|b| - |c|..] == a[|a| - |b|..][|b| - |c|..];
  }

  lemma EndsWithSelf(a: seq<byte>)
    ensures EndsWith(a, a) && EndsWith(a, [])
  {
    assert a[0..] == a && a[|a|..] == [];
  }

  lemma EndsWithMore(a: seq<byte>, b: seq<byte>, s: seq<byte>)
    requires EndsWith(a, b)
    ensures EndsWith(a + s, b + s)
  {
    assert (a + s)[|a| - |b|..] == a[|a| - |b|..] + s;
  }

  lemma EndsWithLast(a: seq<byte>, b: seq<byte>)
    ensures EndsWith(a + b, b)
  {
  }

  // The last n bytes.
  function Last(s: seq<byte>, n: nat): (r: seq<byte>)
    ensures |r| <= n && |r| <= |s| && EndsWith(s, r) && (|s| <= n ==> r == s) && (|s| > n ==> |r| == n)
  {
    if |s| <= n then s[0..] else s[|s| - n..]
  }

  // The dictionary d1 at p1 after a source that stood at `at`, if it was d0 at
  // p0 before: it ends with the source there, and any more of it stood directly
  // in front of the source.
  ghost predicate Continues(d0: seq<byte>, p0: Place, src: seq<byte>, at: Place, d1: seq<byte>, p1: Place) {
    && |src| <= |d1| && EndsWith(d0 + src, d1) && p1.Plus(|d1| - |src|) == at
    && (|d1| > |src| ==> p0.Plus(|d0|) == at)
  }

  // The end of a text, where it was.
  ghost predicate Remains(d0: seq<byte>, q0: Place, d1: seq<byte>, q1: Place) {
    EndsWith(d0, d1) && (d1 != [] ==> q1.Plus(|d1|) == q0.Plus(|d0|))
  }

  // The external dictionary after a block at `at`, if it was d0 at q0 in front of
  // a prefix s0 at p0 before: what is left of the one that does not continue.
  ghost predicate Leaves(d0: seq<byte>, q0: Place, s0: seq<byte>, p0: Place, at: Place, d1: seq<byte>, q1: Place) {
    d1 == [] || (if p0.Plus(|s0|) == at then Remains(d0, q0, d1, q1) else Remains(s0, p0, d1, q1))
  }

  lemma ContinuesAs(d0: seq<byte>, p0: Place, src: seq<byte>, at: Place, d: seq<byte>, p: Place)
    requires EndsWith(d0, d) || d == []
    requires p.Plus(|d|) == at && (d != [] ==> p0.Plus(|d0|) == at)
    ensures Continues(d0, p0, src, at, d + src, p)
  {
    assert (d0 + src)[|d0| - |d|..] == d0[|d0| - |d|..] + src;
    assert d0[|d0|..] == [];
  }

  lemma BlockWiden(block: seq<byte>, d0: seq<byte>, d: seq<byte>, src: seq<byte>)
    requires BlockOf(block, d, src) && EndsWith(d0, d)
    ensures BlockOf(block, d0, src)
  {
    hide StrictBehind;
    StrictWiden(block, d0[..|d0| - |d|], d, src);
    assert d0 == d0[..|d0| - |d|] + d;
  }

  // A block for nothing in front of it.
  lemma PlainBlock(block: seq<byte>, out: seq<byte>)
    requires BlockOf(block, [], out)
    ensures StrictBlock(block, out) && (out == [] ==> block == [0])
  {
    hide StrictBehind, StrictBlock;
    StrictAlone(block, out);
  }
}
