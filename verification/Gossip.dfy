/**
 One gossip node (src/network/gossip.cpp:393-457, 535-661): the cache of seen
 messages, what a node does with a message, and how often a message is handled.
 */
module Gossip {
  import opened Bytes
  import opened Collections

  const MAX_HOPS: byte := 10
  const MAX_AGE: nat := 300
  const SEEN_TTL: nat := 600

  datatype Message = Message(kind: byte, id: Hash, payload: bytes, timestamp: u64, hops: byte)

  datatype Seen = Seen(id: Hash, at: Clock)

  /** `is_too_old`: unsigned subtraction, so a timestamp in the future counts as very old. */
  predicate TooOld(m: Message, now: Clock) {
    SubU64(now, m.timestamp) > MAX_AGE
  }

  predicate HasSeen(seen: seq<Seen>, id: Hash) {
    exists i :: 0 <= i < |seen| && seen[i].id == id
  }

  predicate ShouldPropagate(seen: seq<Seen>, m: Message, now: Clock) {
    !HasSeen(seen, m.id) && !TooOld(m, now) && m.hops < MAX_HOPS
  }

  /** The cache before a new entry goes in: a full cache gives up its oldest entry. */
  function Evicted(seen: seq<Seen>, capacity: nat): seq<Seen> {
    if |seen| >= capacity && seen != [] then seen[1..] else seen
  }

  function MarkSeen(seen: seq<Seen>, capacity: nat, id: Hash, now: Clock): seq<Seen> {
    Evicted(seen, capacity) + [Seen(id, now)]
  }

  predicate Expired(x: Seen, now: Clock) {
    SubU64(now, x.at) > SEEN_TTL
  }

  function Lasting(now: Clock): Seen -> bool {
    (x: Seen) => !Expired(x, now)
  }

  /** `cleanup_old_seen_messages`: the entries that have not expired, in order. */
  function Cleaned(seen: seq<Seen>, now: Clock): seq<Seen> {
    Where(seen, Lasting(now))
  }

  // ------------------------------------------------------- runs of one node

  /** A call of the handlers: for which message, and when. */
  datatype Handled = Handled(id: Hash, timestamp: u64, at: Clock)

  datatype NodeState = NodeState(seen: seq<Seen>, handled: seq<Handled>)

  datatype Op =
    | ReceiveOp(m: Message, now: Clock)
    | BroadcastOp(m: Message, now: Clock)
    | CleanOp(now: Clock)

  function Apply(s: NodeState, capacity: nat, op: Op): NodeState {
    match op
    case ReceiveOp(m, now) =>
      if ShouldPropagate(s.seen, m, now)
      then NodeState(MarkSeen(s.seen, capacity, m.id, now), s.handled + [Handled(m.id, m.timestamp, now)])
      else s
    case BroadcastOp(m, now) => s.(seen := MarkSeen(s.seen, capacity, m.id, now))
    case CleanOp(now) => s.(seen := Cleaned(s.seen, now))
  }

  function Run(s: NodeState, capacity: nat, ops: seq<Op>): NodeState {
    if ops == [] then s else Apply(Run(s, capacity, ops[..|ops| - 1]), capacity, ops[|ops| - 1])
  }

  ghost predicate Monotone(ops: seq<Op>) {
    forall i, j :: 0 <= i <= j < |ops| ==> ops[i].now <= ops[j].now
  }

  /** Entering a new id at `now` pushes out no entry younger than the age limit. */
  predicate KeepsYoung(seen: seq<Seen>, capacity: nat, now: Clock) {
    |seen| < capacity || seen == [] || seen[0].at + MAX_AGE < now
  }

  /** No step of the run evicts a young entry; in particular, none does if the cache never fills. */
  ghost predicate NeverEvictsYoung(s: NodeState, capacity: nat, ops: seq<Op>) {
    forall i :: 0 <= i < |ops| && !ops[i].CleanOp? ==> KeepsYoung(Run(s, capacity, ops[..i]).seen, capacity, ops[i].now)
  }

  /** A handled message is still in the cache, or so old that it would be refused. */
  ghost predicate Guarded(s: NodeState, x: Handled, now: Clock) {
    || (exists i :: 0 <= i < |s.seen| && s.seen[i].id == x.id && s.seen[i].at >= x.at)
    || x.at + MAX_AGE < now
  }

  ghost predicate Inv(s: NodeState, now: Clock) {
    && (forall i :: 0 <= i < |s.seen| ==> s.seen[i].at <= now)
    && (forall i :: 0 <= i < |s.handled| ==> s.handled[i].at <= now)
    && (forall i :: 0 <= i < |s.handled| ==> SubU64(s.handled[i].at, s.handled[i].timestamp) <= MAX_AGE)
    && (forall i :: 0 <= i < |s.handled| ==> Guarded(s, s.handled[i], now))
    && AtMostOnce(s.handled)
  }

  /** No two calls of the handlers are for the same message id and timestamp. */
  ghost predicate AtMostOnce(handled: seq<Handled>) {
    forall i, j :: 0 <= i < j < |handled| ==>
      !(handled[i].id == handled[j].id && handled[i].timestamp == handled[j].timestamp)
  }

  lemma MarkGuards(s: NodeState, capacity: nat, id: Hash, before: Clock, now: Clock, x: Handled)
    requires before <= now && KeepsYoung(s.seen, capacity, now) && Guarded(s, x, before)
    ensures Guarded(s.(seen := MarkSeen(s.seen, capacity, id, now)), x, now)
  {
    var after := MarkSeen(s.seen, capacity, id, now);
    if i :| 0 <= i < |s.seen| && s.seen[i].id == x.id && s.seen[i].at >= x.at {
      if |s.seen| >= capacity && i > 0 {
        assert after[i - 1] == s.seen[i];
      } else if |s.seen| < capacity {
        assert after[i] == s.seen[i];
      }
    }
  }

  /** Cleaning keeps every entry that has not expired. */
  lemma {:induction false} CleanedHas(seen: seq<Seen>, now: Clock, i: nat) returns (k: nat)
    requires i < |seen| && !Expired(seen[i], now)
    ensures k < |Cleaned(seen, now)| && Cleaned(seen, now)[k] == seen[i]
  {
    var n := |seen| - 1;
    if i == n { k := |Cleaned(seen[..n], now)|; } else { k := CleanedHas(seen[..n], now, i); }
  }

  lemma CleanGuards(s: NodeState, before: Clock, now: Clock, x: Handled)
    requires before <= now && Guarded(s, x, before) && forall i :: 0 <= i < |s.seen| ==> s.seen[i].at <= now
    ensures Guarded(s.(seen := Cleaned(s.seen, now)), x, now)
  {
    if i :| 0 <= i < |s.seen| && s.seen[i].id == x.id && s.seen[i].at >= x.at {
      if !Expired(s.seen[i], now) {
        var k := CleanedHas(s.seen, now, i);
      }
    }
  }

  /** A message that was handled once is refused for as long as its id could be forgotten. */
  lemma NotAgain(s: NodeState, x: Handled, m: Message, before: Clock, now: Clock)
    requires before <= now && x.at <= before && Guarded(s, x, before)
    requires SubU64(x.at, x.timestamp) <= MAX_AGE
    requires ShouldPropagate(s.seen, m, now)
    ensures !(x.id == m.id && x.timestamp == m.timestamp)
  {
  }

  lemma MarkInv(s: NodeState, capacity: nat, id: Hash, before: Clock, now: Clock)
    requires Inv(s, before) && before <= now && KeepsYoung(s.seen, capacity, now)
    ensures Inv(s.(seen := MarkSeen(s.seen, capacity, id, now)), now)
  {
    hide Guarded;
    forall i | 0 <= i < |s.handled|
      ensures Guarded(s.(seen := MarkSeen(s.seen, capacity, id, now)), s.handled[i], now)
    {
      MarkGuards(s, capacity, id, before, now, s.handled[i]);
    }
  }

  lemma ReceiveInv(s: NodeState, capacity: nat, m: Message, before: Clock, now: Clock)
    requires Inv(s, before) && before <= now && KeepsYoung(s.seen, capacity, now) && ShouldPropagate(s.seen, m, now)
    ensures Inv(Apply(s, capacity, ReceiveOp(m, now)), now)
  {
    MarkInv(s, capacity, m.id, before, now);
    var seen := MarkSeen(s.seen, capacity, m.id, now);
    var x := Handled(m.id, m.timestamp, now);
    var t := NodeState(seen, s.handled + [x]);
    assert seen[|seen| - 1] == Seen(m.id, now);
    forall i | 0 <= i < |t.handled| ensures Guarded(t, t.handled[i], now) {
      assert i < |s.handled| ==> Guarded(s.(seen := seen), s.handled[i], now);
    }
    forall i | 0 <= i < |s.handled|
      ensures !(s.handled[i].id == x.id && s.handled[i].timestamp == x.timestamp)
    {
      NotAgain(s, s.handled[i], m, before, now);
    }
  }

  lemma CleanInv(s: NodeState, before: Clock, now: Clock)
    requires Inv(s, before) && before <= now
    ensures Inv(s.(seen := Cleaned(s.seen, now)), now)
  {
    hide Guarded;
    var seen := Cleaned(s.seen, now);
    WhereWithin(s.seen, Lasting(now));
    forall i | 0 <= i < |seen| ensures seen[i].at <= now { assert seen[i] in s.seen; }
    forall i | 0 <= i < |s.handled| ensures Guarded(s.(seen := seen), s.handled[i], now) {
      CleanGuards(s, before, now, s.handled[i]);
    }
  }

  lemma ApplyInv(s: NodeState, capacity: nat, op: Op, before: Clock)
    requires Inv(s, before) && before <= op.now
    requires op.CleanOp? || KeepsYoung(s.seen, capacity, op.now)
    ensures Inv(Apply(s, capacity, op), op.now)
  {
    hide Guarded, AtMostOnce, ShouldPropagate;
    match op
    case ReceiveOp(m, now) =>
      if ShouldPropagate(s.seen, m, now) { ReceiveInv(s, capacity, m, before, now); } else { WaitInv(s, before, now); }
    case BroadcastOp(m, now) => MarkInv(s, capacity, m.id, before, now);
    case CleanOp(now) => CleanInv(s, before, now);
  }

  lemma WaitInv(s: NodeState, before: Clock, now: Clock)
    requires Inv(s, before) && before <= now
    ensures Inv(s, now)
  {
    forall i | 0 <= i < |s.handled| ensures Guarded(s, s.handled[i], now) {
      assert Guarded(s, s.handled[i], before);
    }
  }

  lemma {:induction false} RunInv(capacity: nat, ops: seq<Op>)
    requires Monotone(ops) && NeverEvictsYoung(NodeState([], []), capacity, ops)
    ensures Inv(Run(NodeState([], []), capacity, ops), if ops == [] then 0 else ops[|ops| - 1].now)
  {
    hide Inv, Apply, KeepsYoung;
    if ops == [] {
      EmptyInv();
    } else {
      var front, s := ops[..|ops| - 1], NodeState([], []);
      assert NeverEvictsYoung(s, capacity, front) by { FrontKeepsYoung(s, capacity, ops); }
      RunInv(capacity, front);
      ApplyInv(Run(s, capacity, front), capacity, ops[|ops| - 1], if front == [] then 0 else front[|front| - 1].now);
    }
  }

  lemma EmptyInv()
    ensures Inv(NodeState([], []), 0)
  {
  }

  lemma FrontKeepsYoung(s: NodeState, capacity: nat, ops: seq<Op>)
    requires ops != [] && NeverEvictsYoung(s, capacity, ops)
    ensures NeverEvictsYoung(s, capacity, ops[..|ops| - 1])
  {
    hide KeepsYoung, Run;
    var front := ops[..|ops| - 1];
    forall i | 0 <= i < |front| && !front[i].CleanOp?
      ensures KeepsYoung(Run(s, capacity, front[..i]).seen, capacity, front[i].now)
    {
      assert front[..i] == ops[..i];
    }
  }

  /**
   At-most-once handling: over every run with a clock that does not go back,
   cleanups included, no (message id, timestamp) reaches the handlers twice,
   provided no entry younger than the age limit is evicted for lack of room.
   */
  lemma HandledAtMostOnce(capacity: nat, ops: seq<Op>)
    requires Monotone(ops) && NeverEvictsYoung(NodeState([], []), capacity, ops)
    ensures AtMostOnce(Run(NodeState([], []), capacity, ops).handled)
  {
    RunInv(capacity, ops);
  }

  /** With room for every message of the run, nothing is evicted at all. */
  lemma {:induction false} LargeCacheNeverEvicts(s: NodeState, capacity: nat, ops: seq<Op>)
    requires |s.seen| + |ops| <= capacity
    ensures |Run(s, capacity, ops).seen| <= |s.seen| + |ops|
    ensures NeverEvictsYoung(s, capacity, ops)
  {
    hide Cleaned, ShouldPropagate;
    if ops != [] {
      var n := |ops| - 1;
      LargeCacheNeverEvicts(s, capacity, ops[..n]);
      CleanedShorter(Run(s, capacity, ops[..n]).seen, ops[n].now);
      forall i | 0 <= i < |ops| && !ops[i].CleanOp?
        ensures KeepsYoung(Run(s, capacity, ops[..i]).seen, capacity, ops[i].now)
      {
        if i < n { assert ops[..n][..i] == ops[..i] && ops[..n][i] == ops[i]; }
      }
    }
  }

  lemma {:induction false} CleanedShorter(seen: seq<Seen>, now: Clock)
    ensures |Cleaned(seen, now)| <= |seen|
  {
    if seen != [] { CleanedShorter(seen[..|seen| - 1], now); }
  }

  // ---------------------------------------------------- what is handled at all

  /** At most 300 s old and not from the future, or so far ahead that the difference wraps. */
  lemma YoungIff(m: Message, now: Clock)
    ensures !TooOld(m, now) <==> m.timestamp <= now <= m.timestamp + 300 || m.timestamp >= TWO_64 - 300 + now
  {
  }

  /** A message is handled exactly if it is unknown, young and below ten hops. */
  lemma HandledIff(s: NodeState, capacity: nat, m: Message, now: Clock)
    ensures Apply(s, capacity, ReceiveOp(m, now)).handled
         == if (forall x :: x in s.seen ==> x.id != m.id) && !TooOld(m, now) && m.hops < 10
            then s.handled + [Handled(m.id, m.timestamp, now)] else s.handled
  {
    hide TooOld;
    assert HasSeen(s.seen, m.id) <==> exists x :: x in s.seen && x.id == m.id;
  }

  /** No operation so far was about the message. */
  ghost predicate Unheard(ops: seq<Op>, id: Hash) {
    forall i :: 0 <= i < |ops| && !ops[i].CleanOp? ==> ops[i].m.id != id
  }

  lemma {:induction false} UnheardUnseen(capacity: nat, ops: seq<Op>, id: Hash)
    requires Unheard(ops, id)
    ensures forall x :: x in Run(NodeState([], []), capacity, ops).seen ==> x.id != id
  {
    if ops != [] {
      var n := |ops| - 1;
      var s := Run(NodeState([], []), capacity, ops[..n]);
      UnheardUnseen(capacity, ops[..n], id);
      WhereWithin(s.seen, Lasting(ops[n].now));
      assert ops[n].CleanOp? || ops[n].m.id != id;
    }
  }

  /** Over every run, the first copy of a message that arrives in time and within ten hops is handled. */
  lemma FirstCopyHandled(capacity: nat, ops: seq<Op>, m: Message, now: Clock)
    requires Unheard(ops, m.id) && m.timestamp <= now <= m.timestamp + 300 && m.hops < 10
    ensures var s := Run(NodeState([], []), capacity, ops);
            Run(NodeState([], []), capacity, ops + [ReceiveOp(m, now)]).handled
            == s.handled + [Handled(m.id, m.timestamp, now)]
  {
    hide Apply;
    var all := ops + [ReceiveOp(m, now)];
    assert all[..|ops|] == ops;
    UnheardUnseen(capacity, ops, m.id);
    YoungIff(m, now);
    HandledIff(Run(NodeState([], []), capacity, ops), capacity, m, now);
  }

  /** A node does not handle the echo of what it has just broadcast or handled itself. */
  lemma EchoIgnored(s: NodeState, capacity: nat, op: Op, echo: Message, now: Clock)
    requires op.BroadcastOp? || (op.ReceiveOp? && ShouldPropagate(s.seen, op.m, op.now))
    requires echo.id == op.m.id
    ensures var t := Apply(s, capacity, op);
            Apply(t, capacity, ReceiveOp(echo, now)) == t
  {
    var t := Apply(s, capacity, op);
    assert t.seen[|t.seen| - 1].id == echo.id;
  }

  /** Cleanup forgets exactly what is older than 600 s. */
  lemma {:induction false} CleanedIff(seen: seq<Seen>, now: Clock, x: Seen)
    ensures x in Cleaned(seen, now) <==> x in seen && x.at <= now <= x.at + 600
  {
    if seen != [] {
      var n := |seen| - 1;
      CleanedIff(seen[..n], now, x);
      assert seen == seen[..n] + [seen[n]];
    }
  }

  // ------------------------------------------- conditions on the traffic alone

  /** How many entries of the cache were made at or after `since`. */
  function EntriesSince(seen: seq<Seen>, since: int): nat {
    if seen == [] then 0
    else EntriesSince(seen[..|seen| - 1], since) + if seen[|seen| - 1].at >= since then 1 else 0
  }

  /** How many messages were received or broadcast at or after `since`. */
  function MessagesSince(ops: seq<Op>, since: int): nat {
    if ops == [] then 0
    else
      var last := ops[|ops| - 1];
      MessagesSince(ops[..|ops| - 1], since) + if !last.CleanOp? && last.now >= since then 1 else 0
  }

  /** Before any message, fewer than `capacity` others came within the age limit. */
  ghost predicate Slow(capacity: nat, ops: seq<Op>) {
    forall i :: 0 <= i < |ops| && !ops[i].CleanOp? ==> MessagesSince(ops[..i], ops[i].now - MAX_AGE) < capacity
  }

  ghost predicate InOrder(seen: seq<Seen>, now: Clock) {
    forall i, j :: 0 <= i <= j < |seen| ==> seen[i].at <= seen[j].at <= now
  }

  lemma {:induction false} TailSince(seen: seq<Seen>, since: int)
    requires seen != []
    ensures EntriesSince(seen[1..], since) <= EntriesSince(seen, since)
  {
    var n := |seen| - 1;
    if n > 0 {
      TailSince(seen[..n], since);
      assert seen[..n][1..] == seen[1..][..n - 1];
    }
  }

  lemma MarkSince(seen: seq<Seen>, capacity: nat, id: Hash, now: Clock, since: int)
    ensures EntriesSince(MarkSeen(seen, capacity, id, now), since)
         <= EntriesSince(seen, since) + if now >= since then 1 else 0
  {
    var kept := Evicted(seen, capacity);
    assert (kept + [Seen(id, now)])[..|kept|] == kept;
    if seen != [] { TailSince(seen, since); }
  }

  lemma {:induction false} CleanedSince(seen: seq<Seen>, now: Clock, since: int)
    ensures EntriesSince(Cleaned(seen, now), since) <= EntriesSince(seen, since)
  {
    if seen != [] {
      var n := |seen| - 1;
      CleanedSince(seen[..n], now, since);
      var front := Cleaned(seen[..n], now);
      assert (front + [seen[n]])[..|front|] == front;
    }
  }

  lemma OrderSnoc(front: seq<Seen>, x: Seen, now: Clock)
    requires InOrder(front, x.at) && x.at <= now
    ensures InOrder(front + [x], now)
  {
  }

  lemma OrderFront(seen: seq<Seen>, now: Clock)
    requires InOrder(seen, now) && seen != []
    ensures InOrder(seen[..|seen| - 1], seen[|seen| - 1].at) && seen[|seen| - 1].at <= now
    ensures InOrder(seen[1..], now)
  {
  }

  lemma OrderLater(seen: seq<Seen>, before: Clock, now: Clock)
    requires InOrder(seen, before) && before <= now
    ensures InOrder(seen, now)
  {
  }

  lemma {:induction false} CleanedInOrder(seen: seq<Seen>, now: Clock, at: Clock)
    requires InOrder(seen, at)
    ensures InOrder(Cleaned(seen, now), at)
  {
    hide InOrder;
    if seen == [] {
      assert Cleaned(seen, now) == seen;
    } else {
      var front, x := seen[..|seen| - 1], seen[|seen| - 1];
      OrderFront(seen, at);
      CleanedInOrder(front, now, x.at);
      if Expired(x, now) { OrderLater(Cleaned(front, now), x.at, at); } else { OrderSnoc(Cleaned(front, now), x, at); }
    }
  }

  lemma MarkInOrder(seen: seq<Seen>, capacity: nat, id: Hash, before: Clock, now: Clock)
    requires InOrder(seen, before) && before <= now
    ensures InOrder(MarkSeen(seen, capacity, id, now), now)
  {
    hide InOrder;
    OrderLater(seen, before, now);
    if seen != [] { OrderFront(seen, now); }
    OrderSnoc(Evicted(seen, capacity), Seen(id, now), now);
  }

  /** What one operation does to the cache. */
  lemma CacheStep(s: NodeState, capacity: nat, op: Op, before: Clock, since: int)
    requires InOrder(s.seen, before) && before <= op.now
    ensures InOrder(Apply(s, capacity, op).seen, op.now)
    ensures EntriesSince(Apply(s, capacity, op).seen, since)
         <= EntriesSince(s.seen, since) + if !op.CleanOp? && op.now >= since then 1 else 0
  {
    hide InOrder, MarkSeen, ShouldPropagate;
    OrderLater(s.seen, before, op.now);
    if op.CleanOp? {
      CleanedSince(s.seen, op.now, since);
      CleanedInOrder(s.seen, op.now, op.now);
    } else {
      MarkSince(s.seen, capacity, op.m.id, op.now, since);
      MarkInOrder(s.seen, capacity, op.m.id, before, op.now);
    }
  }

  /** The cache never holds more recent entries than there were recent messages, and holds them in order. */
  lemma {:induction false} CacheFollowsTraffic(capacity: nat, ops: seq<Op>, since: int)
    requires Monotone(ops)
    ensures var seen := Run(NodeState([], []), capacity, ops).seen;
            && EntriesSince(seen, since) <= MessagesSince(ops, since)
            && InOrder(seen, if ops == [] then 0 else ops[|ops| - 1].now)
  {
    hide Apply, EntriesSince, InOrder;
    if ops == [] {
      NoEntries(since);
    } else {
      var n := |ops| - 1;
      CacheFollowsTraffic(capacity, ops[..n], since);
      CacheStep(Run(NodeState([], []), capacity, ops[..n]), capacity, ops[n],
                if n == 0 then 0 else ops[n - 1].now, since);
    }
  }

  lemma NoEntries(since: int)
    ensures EntriesSince([], since) == 0 && InOrder([], 0)
  {
  }

  lemma {:induction false} AllRecent(seen: seq<Seen>, since: int)
    requires forall i :: 0 <= i < |seen| ==> seen[i].at >= since
    ensures EntriesSince(seen, since) == |seen|
  {
    if seen != [] { AllRecent(seen[..|seen| - 1], since); }
  }

  /** Traffic that brings fewer than `capacity` messages in any 300 seconds never evicts a young entry. */
  lemma SlowNeverEvictsYoung(capacity: nat, ops: seq<Op>)
    requires Monotone(ops) && Slow(capacity, ops)
    ensures NeverEvictsYoung(NodeState([], []), capacity, ops)
  {
    hide Run;
    var s := NodeState([], []);
    forall i | 0 <= i < |ops| && !ops[i].CleanOp?
      ensures KeepsYoung(Run(s, capacity, ops[..i]).seen, capacity, ops[i].now)
    {
      var seen, since := Run(s, capacity, ops[..i]).seen, ops[i].now - MAX_AGE;
      CacheFollowsTraffic(capacity, ops[..i], since);
      if seen != [] && seen[0].at >= since { AllRecent(seen, since); }
    }
  }

  /** At-most-once handling for every run that stays within that rate. */
  lemma SlowAtMostOnce(capacity: nat, ops: seq<Op>)
    requires Monotone(ops) && Slow(capacity, ops)
    ensures AtMostOnce(Run(NodeState([], []), capacity, ops).handled)
  {
    SlowNeverEvictsYoung(capacity, ops);
    HandledAtMostOnce(capacity, ops);
  }

  // --------------------------------------------- the exact number of messages

  /** One message more than the cache has room for cannot be handled twice yet: what it evicts it is not itself. */
  lemma ShortRunsOnce(capacity: nat, ops: seq<Op>)
    requires Monotone(ops) && 1 <= capacity && |ops| <= capacity + 1
    ensures AtMostOnce(Run(NodeState([], []), capacity, ops).handled)
  {
    hide Guarded, KeepsYoung, NeverEvictsYoung, ShouldPropagate, Inv, Apply, AtMostOnce;
    if ops == [] {
      EmptyInv();
      OnceSoFar(NodeState([], []), 0);
    } else {
      var n, s := |ops| - 1, NodeState([], []);
      LargeCacheNeverEvicts(s, capacity, ops[..n]);
      RunInv(capacity, ops[..n]);
      OnceMore(Run(s, capacity, ops[..n]), capacity, ops[n], if n == 0 then 0 else ops[n - 1].now);
    }
  }

  lemma OnceSoFar(s: NodeState, now: Clock)
    requires Inv(s, now)
    ensures AtMostOnce(s.handled)
  {
  }

  /** Whatever it evicts, the next operation handles nothing that was handled before. */
  lemma OnceMore(s: NodeState, capacity: nat, op: Op, before: Clock)
    requires Inv(s, before) && before <= op.now
    ensures AtMostOnce(Apply(s, capacity, op).handled)
  {
    hide Guarded, ShouldPropagate, MarkSeen, Cleaned;
    if op.ReceiveOp? && ShouldPropagate(s.seen, op.m, op.now) {
      forall i | 0 <= i < |s.handled|
        ensures !(s.handled[i].id == op.m.id && s.handled[i].timestamp == op.m.timestamp)
      {
        NotAgain(s, s.handled[i], op.m, before, op.now);
      }
    }
  }

  /** Message number `i` of a burst in one second. */
  function Burst(i: Hash, now: Clock): Op {
    ReceiveOp(Message(0, i, [], now, 0), now)
  }

  /** `n` messages, then the first of them again, then cleanups. */
  function RepeatAfter(n: Hash, extra: nat, now: Clock): (ops: seq<Op>)
    ensures |ops| == n + 1 + extra
  {
    seq(n + 1 + extra, i requires 0 <= i < n + 1 + extra =>
      if i < n then Burst(i, now) else if i == n then Burst(0, now) else CleanOp(now))
  }

  /** The last `capacity` messages of a burst are in the cache, and all were handled. */
  ghost predicate Flooded(t: NodeState, capacity: nat, k: nat, now: Clock) {
    var n := if k < capacity then k else capacity;
    && |t.seen| == n && (forall i :: 0 <= i < n ==> t.seen[i].id == k - n + i && t.seen[i].at == now)
    && |t.handled| == k
    && (forall i :: 0 <= i < k ==> t.handled[i].id == i && t.handled[i].timestamp == now == t.handled[i].at)
  }

  lemma FloodStep(t: NodeState, capacity: nat, k: Hash, now: Clock)
    requires 1 <= capacity && Flooded(t, capacity, k, now)
    ensures Flooded(Apply(t, capacity, Burst(k, now)), capacity, k + 1, now)
  {
    var m := Message(0, k, [], now, 0);
    assert !HasSeen(t.seen, k);
    assert ShouldPropagate(t.seen, m, now);
  }

  lemma {:induction false} Flood(capacity: nat, ops: seq<Op>, n: Hash, k: nat, now: Clock)
    requires 1 <= capacity && k <= n && k <= |ops| && forall i :: 0 <= i < k ==> ops[i] == Burst(i, now)
    ensures Flooded(Run(NodeState([], []), capacity, ops[..k]), capacity, k, now)
  {
    hide Apply, Burst;
    if k == 0 {
      assert ops[..0] == [];
    } else {
      Flood(capacity, ops, n, k - 1, now);
      assert ops[..k][..k - 1] == ops[..k - 1];
      FloodStep(Run(NodeState([], []), capacity, ops[..k - 1]), capacity, k - 1, now);
    }
  }

  lemma {:induction false} CleanupsHandleNothing(s: NodeState, capacity: nat, ops: seq<Op>, k: nat)
    requires k <= |ops| && forall i :: k <= i < |ops| ==> ops[i].CleanOp?
    ensures Run(s, capacity, ops).handled == Run(s, capacity, ops[..k]).handled
  {
    if k < |ops| {
      var n := |ops| - 1;
      CleanupsHandleNothing(s, capacity, ops[..n], k);
      assert ops[..n][..k] == ops[..k];
    } else {
      assert ops[..k] == ops;
    }
  }

  /** The first message of a burst one longer than the cache is handled again when it comes again. */
  lemma RepeatHandledTwice(capacity: nat, extra: nat, now: Clock)
    requires 1 <= capacity < TWO_64
    ensures var ops := RepeatAfter(capacity + 1, extra, now);
            && Monotone(ops)
            && var handled := Run(NodeState([], []), capacity, ops).handled;
               |handled| == capacity + 2 && handled[0] == handled[capacity + 1] == Handled(0, now, now)
  {
    hide Run, Flooded, Apply;
    var ops, s, k := RepeatAfter(capacity + 1, extra, now), NodeState([], []), capacity + 1;
    Flood(capacity, ops, k, k, now);
    RunSnoc(s, capacity, ops, k);
    FloodedRepeats(Run(s, capacity, ops[..k]), capacity, now);
    CleanupsHandleNothing(s, capacity, ops, k + 1);
  }

  lemma RunSnoc(s: NodeState, capacity: nat, ops: seq<Op>, k: nat)
    requires k < |ops|
    ensures Run(s, capacity, ops[..k + 1]) == Apply(Run(s, capacity, ops[..k]), capacity, ops[k])
  {
    hide Apply;
    assert ops[..k + 1][..k] == ops[..k];
  }

  /** After one message more than there is room for, the first is taken for new. */
  lemma FloodedRepeats(t: NodeState, capacity: nat, now: Clock)
    requires 1 <= capacity && Flooded(t, capacity, capacity + 1, now)
    ensures var handled := Apply(t, capacity, Burst(0, now)).handled;
            |handled| == capacity + 2 && handled[0] == handled[capacity + 1] == Handled(0, now, now)
  {
    hide MarkSeen;
    assert !HasSeen(t.seen, 0);
    assert ShouldPropagate(t.seen, Message(0, 0, [], now, 0), now);
  }

  /**
   The exact limit: runs of `n` operations from an empty node are at most once, all
   of them, exactly if `n` is at most one more than the cache has room for.
   */
  lemma AtMostOnceIff(capacity: nat, n: nat)
    requires 1 <= capacity < TWO_64
    ensures n <= capacity + 1
       <==> forall ops :: |ops| == n && Monotone(ops) ==> AtMostOnce(Run(NodeState([], []), capacity, ops).handled)
  {
    hide Run, Monotone, AtMostOnce;
    if n <= capacity + 1 {
      forall ops | |ops| == n && Monotone(ops)
        ensures AtMostOnce(Run(NodeState([], []), capacity, ops).handled)
      {
        ShortRunsOnce(capacity, ops);
      }
    } else {
      var extra := n - capacity - 2;
      var ops := RepeatAfter(capacity + 1, extra, 0);
      RepeatHandledTwice(capacity, extra, 0);
      NotOnce(Run(NodeState([], []), capacity, ops).handled, 0, capacity + 1);
    }
  }

  lemma NotOnce(handled: seq<Handled>, i: nat, j: nat)
    requires i < j < |handled| && handled[i] == handled[j]
    ensures !AtMostOnce(handled)
  {
  }
}
