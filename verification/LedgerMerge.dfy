/**
 Several merges one after the other (src/network/state_reconciliation.cpp:359-376)
 and what they hand to the state manager altogether.
 */
module LedgerMerge {
  import opened Bytes
  import opened Collections
  import opened LedgerEvent
  import opened LedgerIndex
  import opened Ledger
  import opened LedgerSync

  datatype Merge = Merge(remote: seq<Event>, now: Clock)

  /** The ledger after a run of merges. */
  function After(h: ChainHash, s: State, merges: seq<Merge>): State {
    if merges == [] then s
    else
      var t, m := After(h, s, merges[..|merges| - 1]), merges[|merges| - 1];
      MergeAll(h, t, Missing(t.log, m.remote), m.now).0
  }

  /** Everything a run of merges hands to the state manager. */
  function AllHanded(h: ChainHash, s: State, merges: seq<Merge>): seq<Event> {
    if merges == [] then []
    else
      var front, m := merges[..|merges| - 1], merges[|merges| - 1];
      var t := After(h, s, front);
      AllHanded(h, s, front) + Handed(h, t, Missing(t.log, m.remote), m.now)
  }

  ghost predicate MergeMisfires(t: State, m: Merge) {
    Misfires(t, Missing(t.log, m.remote), m.now)
  }

  ghost predicate SomeMisfire(h: ChainHash, s: State, merges: seq<Merge>) {
    exists i :: 0 <= i < |merges| && MergeMisfires(After(h, s, merges[..i]), merges[i])
  }

  lemma SomeMisfireSnoc(h: ChainHash, s: State, merges: seq<Merge>)
    requires merges != []
    ensures var front, m := merges[..|merges| - 1], merges[|merges| - 1];
            SomeMisfire(h, s, merges) <==> SomeMisfire(h, s, front) || MergeMisfires(After(h, s, front), m)
  {
    hide After, MergeMisfires;
    var front := merges[..|merges| - 1];
    assert forall i :: 0 <= i < |front| ==> front[..i] == merges[..i] && front[i] == merges[i];
  }

  lemma {:induction false} RunTracks(h: ChainHash, s: State, merges: seq<Merge>)
    requires Valid(h, s)
    ensures var log, handed := After(h, s, merges).log, AllHanded(h, s, merges);
            && Valid(h, After(h, s, merges)) && s.log <= log
            && (if SomeMisfire(h, s, merges) then |log| < |s.log| + |handed| else log == s.log + handed)
  {
    hide Valid, Misfires, SomeMisfire, MergeAll, Handed, Missing;
    if merges == [] {
      assert !SomeMisfire(h, s, merges) by { NoMerges(h, s); }
    } else {
      var front, m := merges[..|merges| - 1], merges[|merges| - 1];
      var t := After(h, s, front);
      RunTracks(h, s, front);
      SomeMisfireSnoc(h, s, merges);
      MergeAllKeeps(h, t, Missing(t.log, m.remote), m.now);
      HandedTracks(h, t, Missing(t.log, m.remote), m.now);
    }
  }

  lemma NoMerges(h: ChainHash, s: State)
    ensures !SomeMisfire(h, s, [])
  {
  }

  /** Over every run of merges: the state manager is handed exactly what the log gains if and only if none misfires. */
  lemma RunHandedIff(h: ChainHash, s: State, merges: seq<Merge>)
    requires Valid(h, s)
    ensures After(h, s, merges).log == s.log + AllHanded(h, s, merges) <==> !SomeMisfire(h, s, merges)
  {
    hide Valid, After, AllHanded, SomeMisfire;
    RunTracks(h, s, merges);
  }

  ghost predicate HandedOnce(handed: seq<Event>) {
    forall i, j :: 0 <= i < j < |handed| ==> handed[i] != handed[j]
  }

  /** Then no event is handed over twice, in the whole run. */
  lemma NoMisfireOnce(h: ChainHash, s: State, merges: seq<Merge>)
    requires Valid(h, s) && !SomeMisfire(h, s, merges)
    ensures HandedOnce(AllHanded(h, s, merges))
  {
    hide Valid, After, AllHanded, SomeMisfire, HandedOnce;
    RunTracks(h, s, merges);
    ValidDistinct(h, After(h, s, merges));
    TailOnce(s.log, AllHanded(h, s, merges));
  }

  lemma ValidDistinct(h: ChainHash, t: State)
    requires Valid(h, t)
    ensures DistinctIds(t.log)
  {
    hide Chained, Rebuild, LookupOf;
    LookupDistinct(t.lookup, t.log);
  }

  lemma TailOnce(log: seq<Event>, handed: seq<Event>)
    requires DistinctIds(log + handed)
    ensures HandedOnce(handed)
  {
    forall i, j | 0 <= i < j < |handed| ensures handed[i] != handed[j] {
      assert (log + handed)[|log| + i] == handed[i] && (log + handed)[|log| + j] == handed[j];
    }
  }

  // ---------------------------------------- a misfire can always be repeated

  /** The same remote log merged twice in a row. */
  function Twice(remote: seq<Event>, now: Clock): seq<Merge> {
    [Merge(remote, now), Merge(remote, now)]
  }

  lemma TwiceSteps(h: ChainHash, s: State, remote: seq<Event>, now: Clock)
    ensures var merges, es := Twice(remote, now), Missing(s.log, remote);
            var t := MergeAll(h, s, es, now).0;
            && merges[..0] == [] && merges[..1] == [Merge(remote, now)] && After(h, s, merges[..1]) == t
            && AllHanded(h, s, merges) == Handed(h, s, es, now) + Handed(h, t, Missing(t.log, remote), now)
            && (SomeMisfire(h, s, merges) <==> Misfires(s, es, now) || Misfires(t, Missing(t.log, remote), now))
  {
    hide MergeAll, Handed, Missing, Misfires;
    var merges := Twice(remote, now);
    assert merges[..1] == [Merge(remote, now)] && merges[..1][..0] == [];
    assert AllHanded(h, s, merges[..1]) == [] + Handed(h, s, Missing(s.log, remote), now);
    SomeMisfireSnoc(h, s, merges);
    SomeMisfireSnoc(h, s, merges[..1]);
    NoMerges(h, s);
  }

  lemma {:induction false} MergeUnchanged(h: ChainHash, s: State, es: seq<Event>, now: Clock)
    requires Valid(h, s) && MergeAll(h, s, es, now).0.log == s.log
    ensures MergeAll(h, s, es, now).0 == s
  {
    hide Valid, NoteOf, EnterNote;
    if es != [] {
      var front, e := es[..|es| - 1], es[|es| - 1];
      MergeAllKeeps(h, s, front, now);
      var t := MergeAll(h, s, front, now).0;
      ExternalAnswerIff(h, t, e, now);
      MergeUnchanged(h, s, front, now);
    }
  }

  lemma {:induction false} AllMissing(remote: seq<Event>)
    ensures Missing([], remote) == remote
  {
    if remote != [] { AllMissing(remote[..|remote| - 1]); }
  }

  /** A misfiring event ends the list it is handed over with, and leaves the ledger as it was. */
  lemma MisfireHands(h: ChainHash, s: State, es: seq<Event>, i: nat, now: Clock)
    requires Valid(h, s) && s.log == [] && i < |es| && MisfiresAt(es, i, now)
    ensures var handed := Handed(h, s, es[..i + 1], now);
            && handed != [] && handed[|handed| - 1] == es[i]
            && MergeAll(h, s, es[..i + 1], now).0 == s
  {
    hide Valid, MergeAll;
    var upTo := es[..i + 1];
    assert upTo[..i] == es[..i] && upTo[i] == es[i];
    assert forall j :: 0 <= j <= i ==> upTo[j] == es[j] && !Opens(upTo[j], now);
    HandedTracks(h, s, es[..i], now);
    HandedTracks(h, s, upTo, now);
    assert forall j :: 0 <= j < i ==> es[..i][j] == es[j];
    MergeAllKeeps(h, s, es[..i], now);
    EmptyTakes(h, MergeAll(h, s, es[..i], now).0, es[i], now);
    MergeUnchanged(h, s, upTo, now);
  }

  /** What misfires can be handed over twice: merge the remote log up to that event, and again. */
  lemma MisfireRepeats(h: ChainHash, s: State, remote: seq<Event>, now: Clock) returns (n: nat)
    requires Valid(h, s) && Misfires(s, Missing(s.log, remote), now)
    ensures n <= |remote| && !HandedOnce(AllHanded(h, s, Twice(remote[..n], now)))
  {
    hide Valid, MergeAll, Handed, After, AllHanded, Twice, Missing;
    AllMissing(remote);
    var i :| 0 <= i < |remote| && MisfiresAt(remote, i, now);
    n := i + 1;
    AllMissing(remote[..n]);
    MisfireHands(h, s, remote, i, now);
    TwiceSteps(h, s, remote[..n], now);
    var once := Handed(h, s, remote[..n], now);
    var all := AllHanded(h, s, Twice(remote[..n], now));
    assert all[|once| - 1] == all[2 * |once| - 1];
  }

  lemma PrefixMisfires(s: State, es: seq<Event>, n: nat, now: Clock)
    requires n <= |es| && Misfires(s, es[..n], now)
    ensures Misfires(s, es, now)
  {
    var i :| 0 <= i < n && MisfiresAt(es[..n], i, now);
    assert forall j :: 0 <= j <= i ==> es[..n][j] == es[j];
    assert MisfiresAt(es, i, now);
  }

  lemma QuietTwice(h: ChainHash, s: State, remote: seq<Event>, n: nat, now: Clock)
    requires Valid(h, s) && !Misfires(s, Missing(s.log, remote), now) && n <= |remote|
    ensures HandedOnce(AllHanded(h, s, Twice(remote[..n], now)))
  {
    hide Valid, MergeAll, After, AllHanded, Twice, Missing, SomeMisfire, HandedOnce;
    var es := Missing(s.log, remote[..n]);
    var t := MergeAll(h, s, es, now).0;
    MergeAllKeeps(h, s, es, now);
    TwiceSteps(h, s, remote[..n], now);
    if s.log == [] {
      AllMissing(remote);
      AllMissing(remote[..n]);
      if Misfires(s, remote[..n], now) { PrefixMisfires(s, remote, n, now); }
    }
    NoMisfireOnce(h, s, Twice(remote[..n], now));
  }

  /**
   A merge misfires exactly if some part of the same remote log, merged twice, hands an
   event to the state manager twice.
   */
  lemma MisfiresIffRepeatable(h: ChainHash, s: State, remote: seq<Event>, now: Clock)
    requires Valid(h, s)
    ensures Misfires(s, Missing(s.log, remote), now)
       <==> exists n :: 0 <= n <= |remote| && !HandedOnce(AllHanded(h, s, Twice(remote[..n], now)))
  {
    hide Valid, Misfires, HandedOnce, AllHanded, Twice, Missing;
    if Misfires(s, Missing(s.log, remote), now) {
      var n := MisfireRepeats(h, s, remote, now);
    } else {
      forall n | 0 <= n <= |remote| ensures HandedOnce(AllHanded(h, s, Twice(remote[..n], now))) {
        QuietTwice(h, s, remote, n, now);
      }
    }
  }
}
