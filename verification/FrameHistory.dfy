// The window of history a linked block may refer to, as values.
module FrameHistory {
  import opened BlockAcceptance
  import opened BlockFormat
  import opened FrameFormat
  import opened Buffers

  lemma WindowExtend(r: seq<byte>, h: seq<byte>, x: seq<byte>)
    requires Window(r) == Window(h)
    ensures Window(r + x) == Window(h + x)
  {
    WindowAppend(r, x);
    WindowAppend(h, x);
  }

  lemma WindowAppend(r: seq<byte>, x: seq<byte>)
    ensures Window(r + x) == Window(Window(r) + x)
  {
    if |r| > KB64 {
      var w := Window(r);
      assert |w| == KB64;
      if |x| > 0 {
        assert (r + x)[|r + x| - KB64..] == (w + x)[|w + x| - KB64..];
      } else {
        assert r + x == r && w + x == w;
      }
    }
  }

  // Equal windows have equal ends, as far as both the window and the text go.
  lemma WindowEnd(r: seq<byte>, h: seq<byte>, k: nat)
    requires Window(r) == Window(h) && k <= |h| && k <= KB64
    ensures k <= |r| && r[|r| - k..] == h[|h| - k..]
  {
    var w := Window(r);
    assert w[|w| - k..] == r[|r| - k..];
    assert w[|w| - k..] == h[|h| - k..];
  }

  // Dropping the front of the history before something is appended, if the
  // window is still filled or nothing was dropped.
  lemma WindowTrim(r: seq<byte>, p: nat, x: seq<byte>)
    requires p <= |r| && (p == |r| || p + |x| >= KB64)
    ensures Window(r[|r| - p..] + x) == Window(r + x)
  {
    if p < |r| {
      var a, b := r[|r| - p..] + x, r + x;
      assert a[|a| - KB64..] == b[|b| - KB64..];
      if |a| == KB64 { assert a[|a| - KB64..] == a; }
    } else {
      assert r[0..] == r;
    }
  }

  lemma WindowLong(g: seq<byte>, x: seq<byte>)
    requires |x| >= KB64
    ensures Window(g + x) == Window(x)
  {
    assert (g + x)[|g + x| - KB64..] == x[|x| - KB64..];
    if |g + x| == KB64 { assert g + x == x; }
  }

  // How much of the history has to stand before a block of this size, given
  // the room reserved for it.
  function Reserve(size: nat, room: nat): nat {
    var c: nat := if size > KB64 then 0 else KB64 - size;
    if c > room then room else c
  }

  // The room before a block is the history itself while that is short, and
  // a full window once it is not.
  predicate RoomFor(h: seq<byte>, size: nat, room: nat)
    requires size <= |h|
  {
    if |h| - size < KB64 then room == |h| - size else room >= KB64
  }

  // A dictionary region d[off..off + n] shows h without the part of the last
  // block that is not flushed; the bytes in it before the block are those of h.
  lemma SavedFits(d: seq<byte>, off: nat, n: nat, h: seq<byte>, size: nat, start: nat, room: nat, c: nat)
    requires c == Reserve(size, room) && off + n <= |d| && start <= size <= |h| && RoomFor(h, size, room)
    requires Window(d[off..off + n]) == Window(h[..|h| - size + start])
    ensures c > 0 ==>
              && c + start <= n && c <= |h| - size
              && d[off + n - start - c..off + n - start] == h[|h| - size - c..|h| - size]
  {
    hide Window, RoomFor;
    if c > 0 {
      var e := |h| - size + start;
      ReserveFits(h, size, room);
      WindowEnd(d[off..off + n], h[..e], c + start);
      SameFronts(d, off, n, h, e, c + start, c);
      assert e - (c + start) == |h| - size - c && off + n - (c + start) == off + n - start - c;
    }
  }

  lemma ReserveFits(h: seq<byte>, size: nat, room: nat)
    requires size <= |h| && RoomFor(h, size, room)
    ensures Reserve(size, room) > 0 ==> Reserve(size, room) <= |h| - size && Reserve(size, room) + size <= KB64
  {
  }

  // Equal ends of a slice and of a beginning have equal fronts.
  lemma SameFronts(d: seq<byte>, off: nat, n: nat, h: seq<byte>, e: nat, k: nat, c: nat)
    requires off + n <= |d| && e <= |h| && c <= k <= n && k <= e
    requires d[off..off + n][n - k..] == h[..e][e - k..]
    ensures d[off + n - k..off + n - k + c] == h[e - k..e - k + c]
  {
    var x, y := d[off + n - k..off + n - k + c], h[e - k..e - k + c];
    forall i | 0 <= i < c ensures x[i] == y[i] {
      assert d[off..off + n][n - k..][i] == d[off + (n - k + i)];
      assert h[..e][e - k..][i] == h[e - k + i];
    }
  }

  // The end of a beginning, in two parts.
  lemma EndOfTake(s: seq<byte>, n: nat, a: nat, b: nat)
    requires a <= b <= n <= |s|
    ensures s[..n][a..] == s[a..b] + s[b..n]
  {
    var t, u := s[..n][a..], s[a..b] + s[b..n];
    forall i | 0 <= i < n - a ensures t[i] == u[i] {}
  }

  // Equal ends of at least a window, or equal texts.
  lemma SameEnds(f: seq<byte>, h: seq<byte>, k: nat)
    requires k <= |f| && k <= |h| && f[|f| - k..] == h[|h| - k..]
    requires k >= KB64 || (|f| == k && |h| == k)
    ensures Window(f) == Window(h)
  {
    assert f[|f| - k..] == f[|f| - k..|f|] && h[|h| - k..] == h[|h| - k..|h|];
    if k >= KB64 {
      EndOfEnd(f, k, KB64);
      EndOfEnd(h, k, KB64);
      WholeWindow(f);
      WholeWindow(h);
    } else {
      assert f[0..] == f && h[0..] == h;
    }
  }

  lemma EndOfEnd(s: seq<byte>, k: nat, j: nat)
    requires j <= k <= |s|
    ensures s[|s| - k..][k - j..] == s[|s| - j..]
  {
  }

  lemma WholeWindow(s: seq<byte>)
    requires |s| >= KB64
    ensures Window(s) == s[|s| - KB64..]
  {
    if |s| == KB64 { assert s[0..] == s; }
  }

  // With that much of the history in front, the block ends in the window.
  lemma SavedWindow(f: seq<byte>, h: seq<byte>, size: nat, room: nat)
    requires size <= |h| && RoomFor(h, size, room) && |f| == room + size
    requires var c := Reserve(size, room);
             c <= |h| - size && f[room - c..] == h[|h| - size - c..|h| - size] + h[|h| - size..]
    ensures Window(f) == Window(h)
  {
    var c := Reserve(size, room);
    assert h[|h| - size - c..] == h[|h| - size - c..|h| - size] + h[|h| - size..];
    SameEnds(f, h, c + size);
  }

  // The buffer after the copy: the block is still there, behind its window.
  lemma SavedInFront(was: seq<byte>, now: seq<byte>, h: seq<byte>, size: nat, room: nat, c: nat)
    requires c == Reserve(size, room) && size <= |h| && RoomFor(h, size, room)
    requires |now| == |was| && room + size <= |was| && was[room..room + size] == h[|h| - size..]
    requires now[room..] == was[room..]
    requires c > 0 ==> c <= |h| - size && now[room - c..room] == h[|h| - size - c..|h| - size]
    ensures now[room..room + size] == h[|h| - size..] && Window(now[..room + size]) == Window(h)
  {
    hide Window, RoomFor;
    SliceOfDrop(now, room, room, size);
    SliceOfDrop(was, room, room, size);
    if c == 0 {
      RoomEnough(h, size, room);
      assert h[|h| - size..|h| - size] == [] == now[room..room];
    }
    EndOfTake(now, room + size, room - c, room);
    SavedWindow(now[..room + size], h, size, room);
  }

  lemma RoomEnough(h: seq<byte>, size: nat, room: nat)
    requires size <= |h| && RoomFor(h, size, room)
    ensures Reserve(size, room) <= |h| - size
  {
  }

  // A dictionary d[off..off + n] and a buffer with a block at `room`, of which
  // `start` bytes are flushed.
  ghost predicate DictAndBlock(d: seq<byte>, off: nat, n: nat, was: seq<byte>, h: seq<byte>, size: nat, start: nat,
                               room: nat) {
    && off + n <= |d| && start <= size <= |h| && RoomFor(h, size, room)
    && Window(d[off..off + n]) == Window(h[..|h| - size + start])
    && room + size <= |was| && was[room..room + size] == h[|h| - size..]
  }

  lemma CopyFits(d: seq<byte>, off: nat, n: nat, was: seq<byte>, h: seq<byte>, size: nat, start: nat, room: nat, c: nat)
    requires DictAndBlock(d, off, n, was, h, size, start, room) && c == Reserve(size, room)
    ensures off + n <= |d| && c <= room && room + size <= |was| && (c > 0 ==> c + start <= n)
  {
    hide Window, RoomFor;
    SavedFits(d, off, n, h, size, start, room, c);
  }

  // c bytes from lo on have been copied in front of `room`.
  ghost predicate CopiedFront(was: seq<byte>, now: seq<byte>, d: seq<byte>, lo: int, room: nat, c: nat) {
    && c <= room <= |now| == |was| && now[room..] == was[room..]
    && (c > 0 ==> 0 <= lo && lo + c <= |d| && now[room - c..room] == d[lo..lo + c])
  }

  // The block stands behind its window.
  ghost predicate WindowSaved(now: seq<byte>, h: seq<byte>, size: nat, room: nat) {
    && size <= |h| && room + size <= |now|
    && now[room..room + size] == h[|h| - size..] && Window(now[..room + size]) == Window(h)
  }

  lemma Copied(d: seq<byte>, off: nat, n: nat, was: seq<byte>, now: seq<byte>, h: seq<byte>, size: nat, start: nat,
               room: nat, c: nat)
    requires DictAndBlock(d, off, n, was, h, size, start, room) && c == Reserve(size, room)
    requires CopiedFront(was, now, d, off + n - start - c, room, c)
    ensures WindowSaved(now, h, size, room)
  {
    hide Window, RoomFor;
    SavedFits(d, off, n, h, size, start, room, c);
    SavedInFront(was, now, h, size, room, c);
  }

  // Keep the end of the history and append to it.
  lemma WindowKeep(r: seq<byte>, h: seq<byte>, p: nat, x: seq<byte>)
    requires Window(r) == Window(h) && p <= |r| && (p == |r| || p + |x| >= KB64)
    ensures Window(r[|r| - p..] + x) == Window(h + x)
  {
    hide Window;
    WindowTrim(r, p, x);
    WindowExtend(r, h, x);
  }

  // A block is decoded alike behind a text and behind its last 64 KB.
  lemma WindowDecides(layout: Layout, block: seq<byte>, h: seq<byte>, cap: nat)
    ensures DecodeBlock(layout, block, h, cap) == DecodeBlock(layout, block, Window(h), cap)
  {
    hide DecodeBlock;
    if |h| > KB64 {
      OnlyTheWindowMatters(layout, block, h[..|h| - KB64], Window(h), cap);
      assert h == h[..|h| - KB64] + Window(h);
    }
  }
}
