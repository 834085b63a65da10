/**
 Ledger replication: what a node does with events from the network
 (src/network/ledger_sync.cpp:200-243, 368-418) and with the log of a peer
 (src/network/state_reconciliation.cpp:270-288, 359-376).
 */
module LedgerSync {
  import opened Bytes
  import opened Collections
  import opened LedgerEvent
  import opened LedgerIndex
  import opened Ledger

  /** A node: its ledger, the ids taken from the network, and the events handed to the state manager. */
  datatype Node = Node(ledger: State, seen: set<Hash>, applied: seq<Event>)

  /** The bridge's own `validate_event_chain`: future epochs skip the chain test, which the ledger repeats. */
  predicate Vouched(h: ChainHash, log: seq<Event>, e: Event, now: Clock) {
    && TimelyAt(e, now)
    && e.source != ZERO_HASH
    && (e.epoch > now / 600 || Follows(h, log, e, now))
  }

  predicate Takes(h: ChainHash, b: Node, e: Event, now: Clock) {
    && e.id !in b.seen
    && Vouched(h, b.ledger.log, e, now)
    && ExternalAnswer(h, b.ledger, e, now)
  }

  /** `process_received_event`. */
  function Receive(h: ChainHash, b: Node, e: Event, now: Clock): Node {
    if Takes(h, b, e, now)
    then Node(AddExternal(h, b.ledger, e, now), b.seen + {e.id}, b.applied + [e])
    else b
  }

  function ReceiveAll(h: ChainHash, b: Node, es: seq<Event>, now: Clock): Node {
    if es == [] then b
    else Receive(h, ReceiveAll(h, b, es[..|es| - 1], now), es[|es| - 1], now)
  }

  function InRange(lo: u64, hi: u64): Event -> bool {
    (e: Event) => lo <= e.epoch <= hi
  }

  /** The events that answer a sync request. */
  function Selected(log: seq<Event>, lo: u64, hi: u64): seq<Event> {
    Where(log, InRange(lo, hi))
  }

  /** Every event handed to the state manager is in the log, was taken from the network, and was handed over once. */
  ghost predicate NodeOk(h: ChainHash, b: Node) {
    && Valid(h, b.ledger)
    && (forall e :: e in b.applied ==> e in b.ledger.log)
    && DistinctIds(b.applied)
    && b.seen == (set e | e in b.applied :: e.id)
  }

  lemma ReceiveKeeps(h: ChainHash, b: Node, e: Event, now: Clock)
    requires NodeOk(h, b)
    ensures NodeOk(h, Receive(h, b, e, now))
    ensures Receive(h, b, e, now).ledger.log == (if Takes(h, b, e, now) then b.ledger.log + [e] else b.ledger.log)
    ensures e.id in b.ledger.lookup ==> Receive(h, b, e, now) == b
  {
    hide NoteOf, EnterNote, Coherent;
    if Takes(h, b, e, now) {
      AddEventKeeps(h, b.ledger, e, now);
      var after := Receive(h, b, e, now);
      assert after.ledger.log == b.ledger.log + [e];
      assert forall f :: f in after.applied ==> f == e || f in b.applied;
      assert after.seen == (set f | f in after.applied :: f.id);
      forall i, j | 0 <= i < j < |after.applied|
        ensures after.applied[i].id != after.applied[j].id
      {
        assert i < |b.applied| ==> b.applied[i] in b.applied;
      }
    }
  }

  lemma {:induction false} ReceiveAllKeeps(h: ChainHash, b: Node, es: seq<Event>, now: Clock)
    requires NodeOk(h, b)
    ensures NodeOk(h, ReceiveAll(h, b, es, now))
    ensures b.ledger.log <= ReceiveAll(h, b, es, now).ledger.log
    ensures forall e :: e in ReceiveAll(h, b, es, now).ledger.log ==>
              e in b.ledger.log || (e in es && TimelyAt(e, now) && e.source != ZERO_HASH)
  {
    hide NodeOk, Receive;
    if es != [] {
      var front := es[..|es| - 1];
      ReceiveAllKeeps(h, b, front, now);
      ReceiveKeeps(h, ReceiveAll(h, b, front, now), es[|es| - 1], now);
    }
  }

  /** Re-sent events change nothing at all. */
  lemma {:induction false} ResendIsNoop(h: ChainHash, b: Node, es: seq<Event>, now: Clock)
    requires NodeOk(h, b) && forall e :: e in es ==> e in b.ledger.log
    ensures ReceiveAll(h, b, es, now) == b
  {
    hide Receive, Chained, Rebuild;
    if es != [] {
      ResendIsNoop(h, b, es[..|es| - 1], now);
      var e := es[|es| - 1];
      assert e in b.ledger.log;
      ReceiveKeeps(h, b, e, now);
    }
  }

  // ------------------------------------------------------------- catching up

  /** The events of `log` from position `n` on are acceptable to a peer at time `now`. */
  ghost predicate Acceptable(log: seq<Event>, n: nat, now: Clock) {
    forall k :: n <= k < |log| ==> TimelyAt(log[k], now) && log[k].source != ZERO_HASH
  }

  ghost predicate Covered(log: seq<Event>, n: nat, lo: u64, hi: u64) {
    forall k :: n <= k < |log| ==> lo <= log[k].epoch <= hi
  }

  /** How far a node that started at `n` has come after the events before `i`. */
  function Level(n: nat, i: nat): nat {
    if i < n then n else i
  }

  lemma CatchUpStep(h: ChainHash, c: Node, src: State, n: nat, i: nat, now: Clock)
    requires NodeOk(h, c) && Valid(h, src) && i < |src.log| && n <= |src.log|
    requires c.ledger.log == src.log[..Level(n, i)]
    requires n <= i ==> TimelyAt(src.log[i], now) && src.log[i].source != ZERO_HASH
    ensures Receive(h, c, src.log[i], now).ledger.log == src.log[..Level(n, i + 1)]
  {
    hide NodeOk, Receive, Valid, Takes;
    ReceiveKeeps(h, c, src.log[i], now);
    if i < n { KnownId(h, c, src.log[i], i); } else { TakesNext(h, c, src, now); }
  }

  lemma {:induction false} CatchUpTo(h: ChainHash, b: Node, src: State, lo: u64, hi: u64, now: Clock, i: nat)
    requires NodeOk(h, b) && Valid(h, src) && b.ledger.log <= src.log && i <= |src.log|
    requires Acceptable(src.log, |b.ledger.log|, now) && Covered(src.log, |b.ledger.log|, lo, hi)
    ensures ReceiveAll(h, b, Where(src.log[..i], InRange(lo, hi)), now).ledger.log
         == src.log[..Level(|b.ledger.log|, i)]
  {
    hide NodeOk, Receive, Valid, Acceptable, Covered, Where, ReceiveAll;
    var n := |b.ledger.log|;
    if i == 0 {
      CatchUpStart(h, b, src, lo, hi, now);
    } else {
      var j, p := i - 1, InRange(lo, hi);
      CatchUpTo(h, b, src, lo, hi, now, j);
      var front := Where(src.log[..j], p);
      ReceiveAllKeeps(h, b, front, now);
      WherePrefix(src.log, j, p);
      MissingFit(src.log, n, lo, hi, now, j);
      if p(src.log[j]) {
        ReceiveSnoc(h, b, front, src.log[j], now);
        CatchUpStep(h, ReceiveAll(h, b, front, now), src, n, j, now);
      }
    }
  }

  lemma CatchUpStart(h: ChainHash, b: Node, src: State, lo: u64, hi: u64, now: Clock)
    requires b.ledger.log <= src.log
    ensures ReceiveAll(h, b, Where(src.log[..0], InRange(lo, hi)), now).ledger.log
         == src.log[..Level(|b.ledger.log|, 0)]
  {
    assert src.log[..0] == [];
  }

  lemma MissingFit(log: seq<Event>, n: nat, lo: u64, hi: u64, now: Clock, k: nat)
    requires Acceptable(log, n, now) && Covered(log, n, lo, hi) && k < |log|
    ensures n <= k ==> TimelyAt(log[k], now) && log[k].source != ZERO_HASH && InRange(lo, hi)(log[k])
  {
  }

  lemma ReceiveSnoc(h: ChainHash, b: Node, es: seq<Event>, e: Event, now: Clock)
    ensures ReceiveAll(h, b, es + [e], now) == Receive(h, ReceiveAll(h, b, es, now), e, now)
  {
    hide Receive;
    assert (es + [e])[..|es|] == es;
  }

  lemma KnownId(h: ChainHash, c: Node, e: Event, k: nat)
    requires NodeOk(h, c) && k < |c.ledger.log| && c.ledger.log[k] == e
    ensures e.id in c.ledger.lookup
  {
  }

  /** A node whose log is a proper prefix of a valid log takes the next event of it. */
  lemma TakesNext(h: ChainHash, c: Node, src: State, now: Clock)
    requires NodeOk(h, c) && Valid(h, src)
    requires |c.ledger.log| < |src.log| && c.ledger.log == src.log[..|c.ledger.log|]
    requires TimelyAt(src.log[|c.ledger.log|], now) && src.log[|c.ledger.log|].source != ZERO_HASH
    ensures Takes(h, c, src.log[|c.ledger.log|], now)
    ensures c.ledger.log + [src.log[|c.ledger.log|]] == src.log[..|c.ledger.log| + 1]
  {
    hide Rebuild;
    LookupDistinct(src.lookup, src.log);
    AppendNext(h, c.ledger, src.log, now);
    assert forall f :: f in c.applied ==> f in c.ledger.log;
  }

  lemma CatchUpNeeds(h: ChainHash, b: Node, src: State, lo: u64, hi: u64, now: Clock, k: nat)
    requires NodeOk(h, b) && Valid(h, src) && b.ledger.log <= src.log && |b.ledger.log| <= k < |src.log|
    requires ReceiveAll(h, b, Selected(src.log, lo, hi), now).ledger.log == src.log
    ensures TimelyAt(src.log[k], now) && src.log[k].source != ZERO_HASH && lo <= src.log[k].epoch <= hi
  {
    hide Chained, Rebuild, ReceiveAll, Where, NodeOk;
    var es := Selected(src.log, lo, hi);
    ReceiveAllKeeps(h, b, es, now);
    NotBefore(src, |b.ledger.log|, k);
    assert src.log[..|b.ledger.log|] == b.ledger.log;
    assert src.log[k] in es;
    WhereWithin(src.log, InRange(lo, hi));
  }

  /**
   A sync reply brings a node level with the sender exactly if its log is a prefix
   of the sender's, the requested range covers every missing event, and each of
   them is acceptable.
   */
  lemma CatchUpIff(h: ChainHash, b: Node, src: State, lo: u64, hi: u64, now: Clock)
    requires NodeOk(h, b) && Valid(h, src)
    ensures var after := ReceiveAll(h, b, Selected(src.log, lo, hi), now).ledger;
            var n := |b.ledger.log|;
            && (after.log == src.log
                <==> b.ledger.log <= src.log && Covered(src.log, n, lo, hi) && Acceptable(src.log, n, now))
            && (after.log == src.log ==> after.latest == src.latest && after.index == src.index)
  {
    hide Chained, Rebuild, ReceiveAll, Where, LookupOf;
    var n, es := |b.ledger.log|, Selected(src.log, lo, hi);
    ReceiveAllKeeps(h, b, es, now);
    if b.ledger.log <= src.log && Covered(src.log, n, lo, hi) && Acceptable(src.log, n, now) {
      CatchUpTo(h, b, src, lo, hi, now, |src.log|);
      assert src.log[..|src.log|] == src.log;
    }
    if ReceiveAll(h, b, es, now).ledger.log == src.log {
      forall k | n <= k < |src.log|
        ensures TimelyAt(src.log[k], now) && src.log[k].source != ZERO_HASH && lo <= src.log[k].epoch <= hi
      {
        CatchUpNeeds(h, b, src, lo, hi, now, k);
      }
    }
  }

  lemma NotBefore(src: State, n: nat, k: nat)
    requires LookupOf(src.lookup, src.log) && n <= k < |src.log|
    ensures src.log[k] !in src.log[..n]
  {
  }

  // ----------------------------------------------------------------- merging

  /** `find_missing_events`: the remote events whose id the local log lacks, in remote order. */
  function Missing(log: seq<Event>, remote: seq<Event>): seq<Event> {
    Where(remote, Unknown(log))
  }

  function Unknown(log: seq<Event>): Event -> bool {
    (e: Event) => e.id !in Ids(log)
  }

  /** The loop of `apply_merge_both`: the ledger it leaves and the answer it gives. */
  function MergeAll(h: ChainHash, s: State, es: seq<Event>, now: Clock): (State, bool) {
    if es == [] then (s, true)
    else
      var (t, ok) := MergeAll(h, s, es[..|es| - 1], now);
      var e := es[|es| - 1];
      (AddExternal(h, t, e, now), ok && ExternalAnswer(h, t, e, now))
  }

  lemma {:induction false} MergeAllKeeps(h: ChainHash, s: State, es: seq<Event>, now: Clock)
    requires Valid(h, s)
    ensures Valid(h, MergeAll(h, s, es, now).0)
    ensures s.log <= MergeAll(h, s, es, now).0.log
    ensures forall e :: e in MergeAll(h, s, es, now).0.log ==> e in s.log || TimelyAt(e, now)
  {
    hide NoteOf, EnterNote, Coherent;
    if es != [] {
      MergeAllKeeps(h, s, es[..|es| - 1], now);
      AddEventKeeps(h, MergeAll(h, s, es[..|es| - 1], now).0, es[|es| - 1], now);
    }
  }

  lemma KnownIff(src: State, n: nat, k: nat)
    requires LookupOf(src.lookup, src.log) && n <= |src.log| && k < |src.log|
    ensures src.log[k].id in Ids(src.log[..n]) <==> k < n
  {
    var ids := Ids(src.log[..n]);
    if k < n { assert ids[k] == src.log[k].id; }
    if i :| 0 <= i < |ids| && ids[i] == src.log[k].id {
      LookupDistinct(src.lookup, src.log);
    }
  }

  lemma {:induction false} WhereSuffix(log: seq<Event>, p: Event -> bool, n: nat, m: nat)
    requires n <= |log| && m <= |log|
    requires forall k :: 0 <= k < |log| ==> (p(log[k]) <==> n <= k)
    ensures Where(log[..m], p) == if m <= n then [] else log[n..m]
  {
    if m != 0 {
      WhereSuffix(log, p, n, m - 1);
      assert log[..m][..m - 1] == log[..m - 1] && log[..m][m - 1] == log[m - 1];
    }
  }

  /** Against a longer copy of the same log, what is missing is the rest of it. */
  lemma MissingIsRest(src: State, n: nat)
    requires LookupOf(src.lookup, src.log) && n <= |src.log|
    ensures Missing(src.log[..n], src.log) == src.log[n..]
  {
    hide LookupOf, Ids, Where;
    var m := |src.log|;
    forall k | 0 <= k < m ensures Unknown(src.log[..n])(src.log[k]) <==> n <= k { KnownIff(src, n, k); }
    WhereSuffix(src.log, Unknown(src.log[..n]), n, m);
    assert src.log[..m] == src.log;
  }

  lemma MergeSnoc(h: ChainHash, s: State, es: seq<Event>, i: nat, now: Clock)
    requires i < |es|
    ensures var t := MergeAll(h, s, es[..i], now);
            MergeAll(h, s, es[..i + 1], now)
            == (AddExternal(h, t.0, es[i], now), t.1 && ExternalAnswer(h, t.0, es[i], now))
  {
    hide AddExternal, ExternalAnswer;
    assert es[..i + 1][..i] == es[..i];
  }

  lemma {:induction false} MergeRest(h: ChainHash, s: State, src: State, m: nat, now: Clock)
    requires Valid(h, s) && Valid(h, src) && s.log <= src.log && |s.log| <= m <= |src.log|
    requires forall k :: |s.log| <= k < m ==> TimelyAt(src.log[k], now)
    ensures MergeAll(h, s, src.log[|s.log|..m], now).0.log == src.log[..m]
    ensures MergeAll(h, s, src.log[|s.log|..m], now).1
  {
    hide MergeAll, Valid;
    var n, es := |s.log|, src.log[|s.log|..m];
    if m > n {
      MergeRest(h, s, src, m - 1, now);
      assert es[..m - 1 - n] == src.log[n..m - 1] && es[..m - 1 - n + 1] == es;
      MergeAllKeeps(h, s, src.log[n..m - 1], now);
      MergeSnoc(h, s, es, m - 1 - n, now);
      MergeNext(h, MergeAll(h, s, src.log[n..m - 1], now).0, src, now);
    } else {
      assert es == [];
      NothingToMerge(h, s, now);
    }
  }

  lemma MergeNext(h: ChainHash, t: State, src: State, now: Clock)
    requires Valid(h, t) && Valid(h, src) && |t.log| < |src.log| && t.log == src.log[..|t.log|]
    requires TimelyAt(src.log[|t.log|], now)
    ensures ExternalAnswer(h, t, src.log[|t.log|], now)
    ensures AddExternal(h, t, src.log[|t.log|], now).log == src.log[..|t.log| + 1]
  {
    hide NoteOf, EnterNote, LookupOf, Rebuild;
    LookupDistinct(src.lookup, src.log);
    AppendNext(h, t, src.log, now);
  }

  /** No event of `log` from position `n` on lies too far in the future. */
  ghost predicate AllTimely(log: seq<Event>, n: nat, now: Clock) {
    forall k :: n <= k < |log| ==> TimelyAt(log[k], now)
  }

  lemma MergeAhead(h: ChainHash, s: State, src: State, now: Clock)
    requires Valid(h, s) && Valid(h, src) && s.log <= src.log
    ensures var (after, ok) := MergeAll(h, s, Missing(s.log, src.log), now);
            (after.log == src.log <==> AllTimely(src.log, |s.log|, now)) && (after.log == src.log ==> ok)
  {
    hide Chained, Rebuild, MergeAll, Where, LookupOf;
    var n := |s.log|;
    MissingIsRest(src, n);
    assert src.log[..|src.log|] == src.log && src.log[..n] == s.log && src.log[n..|src.log|] == src.log[n..];
    MergeAllKeeps(h, s, src.log[n..], now);
    if AllTimely(src.log, n, now) {
      MergeRest(h, s, src, |src.log|, now);
    }
    if MergeAll(h, s, src.log[n..], now).0.log == src.log {
      MergeNeeds(h, s, src, now);
      MergeRest(h, s, src, |src.log|, now);
    }
  }

  /**
   Merging a peer's log makes the two ledgers equal, tip and index included, exactly
   if the own log is a prefix of it and no missing event lies too far in the future.
   */
  lemma MergeConvergesIff(h: ChainHash, s: State, src: State, now: Clock)
    requires Valid(h, s) && Valid(h, src)
    ensures var (after, ok) := MergeAll(h, s, Missing(s.log, src.log), now);
            && (after.log == src.log <==> s.log <= src.log && AllTimely(src.log, |s.log|, now))
            && (after.log == src.log ==> ok && after.latest == src.latest && after.index == src.index)
  {
    hide Chained, Rebuild, MergeAll, Where, LookupOf;
    MergeAllKeeps(h, s, Missing(s.log, src.log), now);
    if s.log <= src.log { MergeAhead(h, s, src, now); }
  }

  lemma MergeNeeds(h: ChainHash, s: State, src: State, now: Clock)
    requires Valid(h, s) && Valid(h, src) && s.log <= src.log
    requires MergeAll(h, s, src.log[|s.log|..], now).0.log == src.log
    ensures forall k :: |s.log| <= k < |src.log| ==> TimelyAt(src.log[k], now)
  {
    hide Chained, Rebuild, MergeAll;
    MergeAllKeeps(h, s, src.log[|s.log|..], now);
    assert s.log == src.log[..|s.log|];
    forall k | |s.log| <= k < |src.log| ensures TimelyAt(src.log[k], now) {
      NotBefore(src, |s.log|, k);
    }
  }

  lemma {:induction false} MergeStaysFalse(h: ChainHash, s: State, es: seq<Event>, i: nat, now: Clock)
    requires i <= |es| && !MergeAll(h, s, es[..i], now).1
    ensures !MergeAll(h, s, es, now).1
  {
    if i < |es| {
      assert es[..|es| - 1][..i] == es[..i];
      MergeStaysFalse(h, s, es[..|es| - 1], i, now);
    } else {
      assert es[..i] == es;
    }
  }

  lemma LateIsRefused(h: ChainHash, t: State, e: Event, now: Clock)
    requires !TimelyAt(e, now) && t.log != []
    ensures !ExternalAnswer(h, t, e, now)
  {
  }

  /** A first event from the future is not added, and only the empty ledger says it was. */
  lemma LateFirst(h: ChainHash, s: State, src: State, now: Clock)
    requires Valid(h, s) && Valid(h, src) && s.log == [] && src.log != []
    requires HashSound(h, EventSet(src.log)) && !TimelyAt(src.log[0], now)
    ensures MergeAll(h, s, src.log, now).1 <==> |src.log| == 1
  {
    hide NoteOf, EnterNote, LookupOf, Rebuild, MergeAll;
    var es := src.log;
    LookupEmpty(s);
    MergeSnoc(h, s, es, 0, now);
    NothingToMerge(h, s, now);
    assert es[..0] == [] && Linked(h, es, 0);
    if |es| > 1 {
      assert es[0] in EventSet(es) && Linked(h, es, 1);
      MergeSnoc(h, s, es, 1, now);
      MergeStaysFalse(h, s, es, 2, now);
    } else {
      assert es[..1] == es;
    }
  }

  lemma NothingToMerge(h: ChainHash, s: State, now: Clock)
    ensures MergeAll(h, s, [], now) == (s, true)
  {
  }

  /** The first missing event that lies too far in the future makes the merge fail, unless it is a lone first event. */
  lemma MergeStopsAt(h: ChainHash, s: State, src: State, k: nat, now: Clock)
    requires Valid(h, s) && Valid(h, src) && s.log <= src.log && |s.log| <= k < |src.log|
    requires HashSound(h, EventSet(src.log))
    requires !TimelyAt(src.log[k], now) && forall j :: |s.log| <= j < k ==> TimelyAt(src.log[j], now)
    ensures MergeAll(h, s, src.log[|s.log|..], now).1 <==> s.log == [] && |src.log| == 1
  {
    hide Valid, MergeAll, ExternalAnswer, AddExternal, HashSound;
    var n, es := |s.log|, src.log[|s.log|..];
    if k > 0 {
      MergeRest(h, s, src, k, now);
      assert es[..k - n] == src.log[n..k];
      MergeSnoc(h, s, es, k - n, now);
      LateIsRefused(h, MergeAll(h, s, es[..k - n], now).0, src.log[k], now);
      MergeStaysFalse(h, s, es, k - n + 1, now);
    } else {
      assert es == src.log;
      LateFirst(h, s, src, now);
    }
  }

  lemma LookupEmpty(s: State)
    requires LookupOf(s.lookup, s.log) && s.log == []
    ensures forall id :: id !in s.lookup
  {
  }

  lemma {:induction false} FirstUntimely(log: seq<Event>, n: nat, m: nat, now: Clock) returns (k: nat)
    requires n <= m < |log| && !TimelyAt(log[m], now)
    ensures n <= k < |log| && !TimelyAt(log[k], now) && forall j :: n <= j < k ==> TimelyAt(log[j], now)
    decreases m - n
  {
    if !TimelyAt(log[n], now) { k := n; } else { k := FirstUntimely(log, n + 1, m, now); }
  }

  /**
   Against a log that is ahead, `apply_merge_both` answers yes exactly if no missing
   event lies too far in the future, or there is just one event, it lies too far in
   the future, and the own log is empty: then it says yes and stores nothing.
   */
  lemma MergeAnswerIff(h: ChainHash, s: State, src: State, now: Clock)
    requires Valid(h, s) && Valid(h, src) && s.log <= src.log && HashSound(h, EventSet(src.log))
    ensures MergeAll(h, s, Missing(s.log, src.log), now).1
       <==> AllTimely(src.log, |s.log|, now) || (s.log == [] && |src.log| == 1)
  {
    hide Chained, Rebuild, MergeAll, Where, LookupOf, HashSound;
    var n := |s.log|;
    MergeAhead(h, s, src, now);
    MissingIsRest(src, n);
    assert src.log[..|src.log|] == src.log && src.log[..n] == s.log && src.log[n..|src.log|] == src.log[n..];
    if m :| n <= m < |src.log| && !TimelyAt(src.log[m], now) {
      var k := FirstUntimely(src.log, n, m, now);
      MergeStopsAt(h, s, src, k, now);
    }
  }

  // ------------------------------------------------------------------- forks

  /** A ledger that is not a prefix of a chain takes no event of that chain. */
  lemma ForkRefuses(h: ChainHash, t: State, log: seq<Event>, e: Event, now: Clock)
    requires Chained(h, t.log) && Chained(h, log) && HashSound(h, EventSet(t.log) + EventSet(log))
    requires !(t.log <= log) && e in log
    ensures !Follows(h, t.log, e, now)
  {
    hide HashSound, Chained;
    if Follows(h, t.log, e, now) {
      var k :| 0 <= k < |log| && log[k] == e;
      assert Linked(h, log, k) by { ChainedAt(h, log, k); }
      TipDeterminesPrefix(h, t.log, log, |t.log|, k);
    }
  }

  lemma ChainedAt(h: ChainHash, log: seq<Event>, k: nat)
    requires Chained(h, log) && k < |log|
    ensures Linked(h, log, k)
  {
  }

  lemma {:induction false} MergeRefusesAll(h: ChainHash, s: State, es: seq<Event>, now: Clock)
    requires forall e :: e in es ==> !Follows(h, s.log, e, now)
    ensures MergeAll(h, s, es, now) == (s, es == [])
  {
    hide Follows;
    if es != [] {
      var n := |es| - 1;
      assert forall e :: e in es[..n] ==> e in es;
      MergeRefusesAll(h, s, es[..n], now);
      assert es[n] in es;
    }
  }

  /** Merging a forked or shorter log changes nothing at all; it answers yes exactly if no id of it is missing. */
  lemma MergeForked(h: ChainHash, s: State, src: State, now: Clock)
    requires Valid(h, s) && Valid(h, src) && !(s.log <= src.log)
    requires HashSound(h, EventSet(s.log) + EventSet(src.log))
    ensures var (after, ok) := MergeAll(h, s, Missing(s.log, src.log), now);
            after == s && (ok <==> forall e :: e in src.log ==> e.id in Ids(s.log))
  {
    hide HashSound, LookupOf, Rebuild, Chained, Where, MergeAll, Ids;
    var es := Missing(s.log, src.log);
    WhereWithin(src.log, Unknown(s.log));
    forall e | e in es ensures !Follows(h, s.log, e, now) { ForkRefuses(h, s, src.log, e, now); }
    MergeRefusesAll(h, s, es, now);
    NothingMissingIff(s.log, src.log);
  }

  lemma {:induction false} NothingMissingIff(log: seq<Event>, remote: seq<Event>)
    ensures Missing(log, remote) == [] <==> forall e :: e in remote ==> e.id in Ids(log)
  {
    hide Ids;
    if remote != [] {
      var n := |remote| - 1;
      NothingMissingIff(log, remote[..n]);
      assert forall e :: e in remote <==> e in remote[..n] || e == remote[n];
    }
  }

  /** A sync reply of a forked or shorter log changes nothing either. */
  lemma {:induction false} ReceiveForked(h: ChainHash, b: Node, src: State, es: seq<Event>, now: Clock)
    requires NodeOk(h, b) && Valid(h, src) && !(b.ledger.log <= src.log)
    requires HashSound(h, EventSet(b.ledger.log) + EventSet(src.log)) && forall e :: e in es ==> e in src.log
    ensures ReceiveAll(h, b, es, now) == b
  {
    hide HashSound, LookupOf, Rebuild, Chained;
    if es != [] {
      var n := |es| - 1;
      assert forall e :: e in es[..n] ==> e in es;
      ReceiveForked(h, b, src, es[..n], now);
      assert es[n] in es;
      ForkRefuses(h, b.ledger, src.log, es[n], now);
    }
  }

  // ------------------------------------- what the merge hands to the state manager

  /** The events `apply_merge_both` hands on: those whose addition was answered with yes. */
  function Handed(h: ChainHash, s: State, es: seq<Event>, now: Clock): seq<Event> {
    if es == [] then []
    else
      var front, e := es[..|es| - 1], es[|es| - 1];
      Handed(h, s, front, now) + if ExternalAnswer(h, MergeAll(h, s, front, now).0, e, now) then [e] else []
  }

  /** A first event from the future comes to an empty ledger before any that it could take. */
  ghost predicate Misfires(s: State, es: seq<Event>, now: Clock) {
    s.log == [] && exists i :: 0 <= i < |es| && MisfiresAt(es, i, now)
  }

  ghost predicate MisfiresAt(es: seq<Event>, i: nat, now: Clock)
    requires i < |es|
  {
    && es[i].previous == ZERO_HASH && !TimelyAt(es[i], now)
    && forall j :: 0 <= j < i ==> !Opens(es[j], now)
  }

  lemma MisfiresSnoc(s: State, es: seq<Event>, now: Clock)
    requires es != []
    ensures var n := |es| - 1;
            Misfires(s, es, now) <==> Misfires(s, es[..n], now) || (s.log == [] && MisfiresAt(es, n, now))
  {
    var n := |es| - 1;
    var front := es[..n];
    forall i | 0 <= i < n ensures MisfiresAt(es, i, now) <==> MisfiresAt(front, i, now) {
      assert forall j :: 0 <= j < i ==> front[j] == es[j];
    }
  }

  /** One event: an empty ledger takes it if it opens, and says yes also if it only lacks time. */
  lemma EmptyTakes(h: ChainHash, t: State, e: Event, now: Clock)
    requires Valid(h, t)
    ensures t.log == [] ==> (ExternalAnswer(h, t, e, now) <==> e.previous == ZERO_HASH)
    ensures AddExternal(h, t, e, now).log
         == if ExternalAnswer(h, t, e, now) && TimelyAt(e, now) then t.log + [e] else t.log
    ensures t.log != [] && ExternalAnswer(h, t, e, now) ==> TimelyAt(e, now)
  {
    hide NoteOf, EnterNote, Rebuild, Chained;
  }

  lemma {:induction false} HandedTracks(h: ChainHash, s: State, es: seq<Event>, now: Clock)
    requires Valid(h, s)
    ensures var log, handed := MergeAll(h, s, es, now).0.log, Handed(h, s, es, now);
            && (log == [] <==> s.log == [] && forall j :: 0 <= j < |es| ==> !Opens(es[j], now))
            && (if Misfires(s, es, now) then |log| < |s.log| + |handed| else log == s.log + handed)
  {
    hide Valid, ExternalAnswer, AddExternal, Misfires;
    if es == [] {
      assert !Misfires(s, es, now) by { NoMisfire(s, now); }
    } else {
      var front, e := es[..|es| - 1], es[|es| - 1];
      HandedTracks(h, s, front, now);
      MergeAllKeeps(h, s, front, now);
      EmptyTakes(h, MergeAll(h, s, front, now).0, e, now);
      MisfiresSnoc(s, es, now);
      assert forall j :: 0 <= j < |front| ==> front[j] == es[j];
    }
  }

  lemma NoMisfire(s: State, now: Clock)
    ensures !Misfires(s, [], now)
  {
  }

  /** The state manager is handed exactly what the log gained, unless a first event from the future misfires. */
  lemma HandedIff(h: ChainHash, s: State, es: seq<Event>, now: Clock)
    requires Valid(h, s)
    ensures MergeAll(h, s, es, now).0.log == s.log + Handed(h, s, es, now) <==> !Misfires(s, es, now)
  {
    hide Valid, MergeAll, Handed, Misfires;
    HandedTracks(h, s, es, now);
  }
}
