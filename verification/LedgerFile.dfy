/**
 The ledger file (src/core/ledger/ledger.cpp:745-800): a 64-bit count and the
 encoded events, each behind a 32-bit length.
 */
module LedgerFile {
  import opened Bytes
  import opened Framing
  import opened LedgerEvent
  import opened LedgerIndex
  import opened Ledger

  function FileOf(log: seq<Event>): bytes {
    ToLe(|log|, 8) + Frames(Save(log))
  }

  /** The frames of a file; none if it ends early. */
  function ReadFile(s: bytes): Option<seq<bytes>> {
    if |s| < 8 then None else ReadFrames(s, 8, Read64(s, 0), [])
  }

  function LoadFile(h: ChainHash, into: State, s: bytes, now: Clock): Option<State> {
    match ReadFile(s) case None => None case Some(frames) => Some(Load(h, into, frames, now))
  }

  method SaveToFile(log: seq<Event>) returns (file: bytes)
    ensures file == FileOf(log)
  {
    hide ToLe, Encode;
    file := AppendLe([], |log|, 8);
    ghost var head := file;
    ghost var all := Save(log);
    NoFrames();
    for i := 0 to |log|
      invariant file == head + Frames(all[..i])
    {
      var encoded := ToBytes(log[i]);
      FramesPrefix(all, i);
      file := AppendLe(file, |encoded|, 4);
      file := file + encoded;
    }
    assert all[..|log|] == all;
  }

  /** The saved frames are read back if every encoding fits its length field. */
  lemma FileReads(log: seq<Event>)
    requires |log| < TWO_64 && forall x :: x in Save(log) ==> |x| < TWO_32
    ensures ReadFile(FileOf(log)) == Some(Save(log))
  {
    hide ToLe, Read64, Frames, ReadFrames, Encode;
    var s, xs := FileOf(log), Save(log);
    assert s[0..8] == ToLe(|log|, 8) && s[8..] == Frames(xs);
    Read64At(s, 0, |log|);
    FramesBack(s, 8, xs, 0);
    NoFrames();
    assert xs[..0] == [];
  }

  lemma SavedFit(log: seq<Event>)
    requires forall e :: e in log ==> |e.data| + FIXED < TWO_32
    ensures |Save(log)| == |log| && forall x :: x in Save(log) ==> |x| < TWO_32
  {
    forall x | x in Save(log) ensures |x| < TWO_32 {
      var i :| 0 <= i < |log| && x == Encode(log[i]);
      assert log[i] in log;
    }
  }

  /**
   Saving a valid ledger and loading it into any other restores log, lookup, index
   and tip exactly if every encoded event fits its length field, none lies too far in
   the future of the loading clock, and an empty log is not loaded over a tip.
   */
  lemma SaveLoadIff(h: ChainHash, s: State, into: State, now: Clock)
    requires Valid(h, s) && |s.log| < TWO_64
    ensures LoadFile(h, into, FileOf(s.log), now)
            == Some(into.(log := s.log, lookup := s.lookup, index := s.index, latest := s.latest))
       <==> && (forall e :: e in s.log ==> |e.data| + FIXED < TWO_32 && TimelyAt(e, now))
            && (s.log != [] || into.latest == ZERO_HASH)
  {
    hide Load, Save, Chained, LookupOf, Rebuild, FileOf, ReadFile;
    var frames := ReadFile(FileOf(s.log));
    if frames.Some? {
      var t := Load(h, into, frames.value, now);
      FileFits(FileOf(s.log));
      LoadedFits(h, into, frames.value, now);
      LoadCoherent(h, into, frames.value, now);
      LoadFrame(h, into, frames.value, now);
      if t.log == s.log { LookupUnique(t.lookup, s.lookup, s.log); }
    }
    if forall e :: e in s.log ==> |e.data| + FIXED < TWO_32 && TimelyAt(e, now) {
      SavedFit(s.log);
      FileReads(s.log);
      SaveLoad(h, s, into, |s.log|, now);
      assert Save(s.log)[..|s.log|] == Save(s.log) && s.log[..|s.log|] == s.log;
    }
  }

  /** Loading leaves node and counter alone. */
  lemma {:induction false} LoadFrame(h: ChainHash, s: State, frames: seq<bytes>, now: Clock)
    ensures Load(h, s, frames, now).local == s.local && Load(h, s, frames, now).counter == s.counter
  {
    hide Enter, Decode, Accepts;
    if frames != [] { LoadFrame(h, s, frames[..|frames| - 1], now); }
  }

  lemma FileFits(s: bytes)
    requires ReadFile(s).Some?
    ensures forall x :: x in ReadFile(s).value ==> |x| < TWO_32
  {
    hide ReadFrames, Read64;
    FramesFit(s, 8, Read64(s, 0), []);
  }
}
