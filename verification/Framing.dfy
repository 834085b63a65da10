/**
 Byte strings one after the other, each behind its 32-bit length: the layers of a
 content request (src/network/router.cpp:93-99, 139-158) and the events of a
 ledger file (src/core/ledger/ledger.cpp:755-761, 784-795).
 */
module Framing {
  import opened Bytes

  function Frame(x: bytes): bytes {
    ToLe(|x|, 4) + x
  }

  function Frames(xs: seq<bytes>): bytes {
    if xs == [] then [] else Frames(xs[..|xs| - 1]) + Frame(xs[|xs| - 1])
  }

  /** Reads `n` more byte strings behind those in `done`. */
  function ReadFrames(s: bytes, at: nat, n: nat, done: seq<bytes>): (r: Option<seq<bytes>>)
    requires at <= |s|
    ensures r.Some? ==> |r.value| == |done| + n && done <= r.value
    ensures r.Some? && n > 0 ==> |r.value[|done|]| + 4 <= |s| - at
    decreases n
  {
    if n == 0 then Some(done)
    else if at + 4 > |s| then None
    else
      var size := Read32(s, at);
      if at + 4 + size > |s| then None
      else ReadFrames(s, at + 4 + size, n - 1, done + [s[at + 4..at + 4 + size]])
  }

  /** The reading loop. */
  method SplitFrames(s: bytes, at: nat, n: nat) returns (r: Option<seq<bytes>>)
    requires at <= |s|
    ensures r == ReadFrames(s, at, n, [])
  {
    hide Read32;
    var xs: seq<bytes> := [];
    var offset := at;
    for i := 0 to n
      invariant at <= offset <= |s|
      invariant ReadFrames(s, offset, n - i, xs) == ReadFrames(s, at, n, [])
    {
      if offset + 4 > |s| { return None; }
      var size := Read32(s, offset);
      offset := offset + 4;
      if offset + size > |s| { return None; }
      xs := xs + [s[offset..offset + size]];
      offset := offset + size;
    }
    r := Some(xs);
  }

  lemma NoFrames()
    ensures Frames([]) == []
  {
  }

  lemma FrameLength(x: bytes)
    ensures |Frame(x)| == 4 + |x|
  {
  }

  lemma {:induction false} FramesPrefix(xs: seq<bytes>, i: nat)
    requires i < |xs|
    ensures Frames(xs[..i]) + Frame(xs[i]) <= Frames(xs)
    ensures Frames(xs[..i + 1]) == Frames(xs[..i]) + Frame(xs[i])
  {
    hide Frame;
    assert xs[..i + 1][..i] == xs[..i];
    var n := |xs| - 1;
    if i < n {
      FramesPrefix(xs[..n], i);
      assert xs[..n][..i] == xs[..i];
    } else {
      assert xs[..i + 1] == xs;
    }
  }

  lemma FrameReads(s: bytes, at: nat, x: bytes)
    requires |x| < TWO_32 && at + 4 + |x| <= |s| && s[at..at + 4 + |x|] == Frame(x)
    ensures Read32(s, at) == |x| && s[at + 4..at + 4 + |x|] == x
  {
    hide ToLe;
    var w := s[at..at + 4 + |x|];
    assert s[at..at + 4] == w[..4] == ToLe(|x|, 4);
    assert s[at + 4..at + 4 + |x|] == w[4..];
    Read32At(s, at, |x|);
  }

  /** Frame `i` lies behind the frames before it. */
  lemma FrameInPlace(s: bytes, base: nat, xs: seq<bytes>, i: nat)
    requires |s| >= base && Frames(xs) <= s[base..] && i < |xs|
    ensures var at := base + |Frames(xs[..i])|;
            && at + 4 + |xs[i]| <= |s|
            && s[at..at + 4 + |xs[i]|] == Frame(xs[i])
            && base + |Frames(xs[..i + 1])| == at + 4 + |xs[i]|
  {
    hide Frame, Frames;
    FramesPrefix(xs, i);
    FrameLength(xs[i]);
    var all, front, n := Frames(xs), Frames(xs[..i]), 4 + |xs[i]|;
    assert all[..|front| + n] == front + Frame(xs[i]);
    assert s[base..][..|front| + n] == all[..|front| + n];
    assert s[base + |front|..base + |front| + n] == s[base..][..|front| + n][|front|..];
  }

  /** From any position on, what was framed is read back. */
  lemma {:induction false} FramesBack(s: bytes, base: nat, xs: seq<bytes>, i: nat)
    requires |s| >= base && Frames(xs) <= s[base..] && i <= |xs|
    requires forall k :: 0 <= k < |xs| ==> |xs[k]| < TWO_32
    ensures |Frames(xs[..i])| <= |Frames(xs)|
    ensures ReadFrames(s, base + |Frames(xs[..i])|, |xs| - i, xs[..i]) == Some(xs)
    decreases |xs| - i
  {
    hide Frame, Read32, Frames;
    if i == |xs| {
      assert xs[..i] == xs;
    } else {
      FrameInPlace(s, base, xs, i);
      var at, x := base + |Frames(xs[..i])|, xs[i];
      FrameReads(s, at, x);
      FramesBack(s, base, xs, i + 1);
      assert xs[..i] + [x] == xs[..i + 1];
    }
  }

  /** Whatever is read fits a 32-bit length. */
  lemma {:induction false} FramesFit(s: bytes, at: nat, n: nat, done: seq<bytes>)
    requires at <= |s| && ReadFrames(s, at, n, done).Some? && forall x :: x in done ==> |x| < TWO_32
    ensures forall x :: x in ReadFrames(s, at, n, done).value ==> |x| < TWO_32
    decreases n
  {
    hide Read32;
    if n != 0 {
      var size := Read32(s, at);
      FramesFit(s, at + 4 + size, n - 1, done + [s[at + 4..at + 4 + size]]);
    }
  }

  lemma {:induction false} FramesHead(x: bytes, xs: seq<bytes>)
    ensures Frames([x] + xs) == Frame(x) + Frames(xs)
  {
    hide Frame;
    if xs == [] {
      assert [x] + xs == [x] && [x][..0] == [];
    } else {
      var n := |xs| - 1;
      FramesHead(x, xs[..n]);
      assert ([x] + xs)[..n + 1] == [x] + xs[..n];
    }
  }

  /** What is read was framed there. */
  lemma {:induction false} FramesWriteBack(s: bytes, at: nat, n: nat, done: seq<bytes>)
    requires at <= |s| && ReadFrames(s, at, n, done).Some?
    ensures Frames(ReadFrames(s, at, n, done).value[|done|..]) <= s[at..]
    decreases n
  {
    hide Read32, Frames, Frame;
    var all := ReadFrames(s, at, n, done).value;
    if n == 0 {
      NoFrames();
      assert all[|done|..] == [];
    } else {
      var size: nat := Read32(s, at);
      var x, next := s[at + 4..at + 4 + size], at + 4 + size;
      FramesWriteBack(s, next, n - 1, done + [x]);
      var rest := all[|done| + 1..];
      assert all[|done|] == x && all[|done|..] == [x] + rest;
      FramesHead(x, rest);
      FrameThere(s, at);
      assert s[at..] == s[at..next] + s[next..];
    }
  }

  lemma FrameThere(s: bytes, at: nat)
    requires at + 4 <= |s| && at + 4 + Read32(s, at) <= |s|
    ensures Frame(s[at + 4..at + 4 + Read32(s, at)]) == s[at..at + 4 + Read32(s, at)]
  {
    hide Read32, ToLe;
    WritesBack32(s, at);
    var size: nat := Read32(s, at);
    assert s[at..at + 4 + size] == s[at..at + 4] + s[at + 4..at + 4 + size];
  }
}
