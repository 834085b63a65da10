/**
 Membership and replica redundancy of a network (src/network/network.cpp:85-149,
 314-324, 506-513, 710-832).
 */
module Redundancy {
  import opened Bytes
  import opened Collections

  const DEFAULT_TARGET: nat := 5
  const DEFAULT_MAX: nat := 10
  const MEMBER_TIMEOUT: nat := 3600
  const MIN_RELIABILITY: real := 0.5

  datatype Member = Member(id: Hash, lastSeen: u64, replica: bool, reliability: real)

  datatype Quorum = Quorum(minimum: nat, target: nat, maximum: nat)

  /** A replica holder as the selection sees it. */
  datatype Holder = Holder(id: Hash, reliability: real)

  predicate Active(m: Member, now: Clock) {
    SubU64(now, m.lastSeen) < MEMBER_TIMEOUT
  }

  function ActiveReplicas(members: seq<Member>, now: Clock): nat {
    if members == [] then 0
    else ActiveReplicas(members[..|members| - 1], now)
         + (if members[|members| - 1].replica && Active(members[|members| - 1], now) then 1 else 0)
  }

  ghost predicate UniqueIds(members: seq<Member>) {
    forall i, j :: 0 <= i < j < |members| ==> members[i].id != members[j].id
  }

  function Target(n: nat): nat {
    if n <= 3 then (if n < DEFAULT_TARGET then n else DEFAULT_TARGET)
    else if n <= 10 then DEFAULT_TARGET
    else
      var t := DEFAULT_TARGET + (n - 10) / 5;
      if t < DEFAULT_MAX then t else DEFAULT_MAX
  }

  /** The target grows with the network: all of three, five up to fourteen, one more for every five, and ten at most. */
  lemma TargetShape(n: nat, m: nat)
    ensures n <= 3 ==> Target(n) == n
    ensures 4 <= n < 15 ==> Target(n) == 5
    ensures 15 <= n < 35 ==> Target(n) <= 9 && 10 + 5 * (Target(n) - 5) <= n < 15 + 5 * (Target(n) - 5)
    ensures n >= 35 ==> Target(n) == 10
    ensures n <= m ==> Target(n) <= Target(m)
    ensures Target(n) <= 10
  {
  }

  /** A member is active for an hour after it was last seen; a time that far ahead that the sum wraps counts too. */
  lemma ActiveIff(m: Member, now: Clock)
    ensures Active(m, now) <==> m.lastSeen <= now < m.lastSeen + 3600 || m.lastSeen > TWO_64 - 3600 + now
  {
  }

  /** The count is of the positions that hold an active replica. */
  lemma {:induction false} ActiveReplicasAre(members: seq<Member>, now: Clock)
    ensures ActiveReplicas(members, now)
         == |set k | 0 <= k < |members| && members[k].replica && Active(members[k], now)|
  {
    hide Active;
    if members != [] {
      var n := |members| - 1;
      var front := members[..n];
      ActiveReplicasAre(front, now);
      var a := set k | 0 <= k < n && front[k].replica && Active(front[k], now);
      var b := set k | 0 <= k < |members| && members[k].replica && Active(members[k], now);
      assert b == a + if members[n].replica && Active(members[n], now) then {n} else {};
    }
  }

  /** `mark_replica_complete`: the first member with the id gets the flag. */
  function Mark(members: seq<Member>, id: Hash, complete: bool): (r: seq<Member>)
    ensures |r| == |members|
  {
    if members == [] then []
    else if members[0].id == id then [members[0].(replica := complete)] + members[1..]
    else [members[0]] + Mark(members[1..], id, complete)
  }

  function Strip(members: seq<Member>, id: Hash): (r: seq<Member>)
    ensures |r| == |members|
  {
    Mark(members, id, false)
  }

  function StripAll(members: seq<Member>, ids: seq<Hash>): (r: seq<Member>)
    ensures |r| == |members|
  {
    if ids == [] then members else Strip(StripAll(members, ids[..|ids| - 1]), ids[|ids| - 1])
  }

  lemma {:induction false} CountSplits(a: seq<Member>, b: seq<Member>, now: Clock)
    ensures ActiveReplicas(a + b, now) == ActiveReplicas(a, now) + ActiveReplicas(b, now)
  {
    if b == [] {
      assert a + b == a;
    } else {
      assert (a + b)[..|a + b| - 1] == a + b[..|b| - 1];
      CountSplits(a, b[..|b| - 1], now);
    }
  }

  /** Stripping one id costs at most one active replica. */
  lemma {:induction false} StripCosts(members: seq<Member>, id: Hash, now: Clock)
    ensures ActiveReplicas(members, now) - 1 <= ActiveReplicas(Strip(members, id), now) <= ActiveReplicas(members, now)
  {
    if members != [] {
      var head, rest := members[..1], members[1..];
      assert members == head + rest;
      CountSplits(head, rest, now);
      if members[0].id == id {
        CountSplits([members[0].(replica := false)], rest, now);
        OneMember(members[0].(replica := false), now);
        OneMember(members[0], now);
        assert head == [members[0]];
      } else {
        StripCosts(rest, id, now);
        CountSplits([members[0]], Strip(rest, id), now);
        assert head == [members[0]];
      }
    }
  }

  lemma OneMember(m: Member, now: Clock)
    ensures ActiveReplicas([m], now) == if m.replica && Active(m, now) then 1 else 0
  {
    assert [m][..0] == [];
  }

  lemma {:induction false} StripAllCosts(members: seq<Member>, ids: seq<Hash>, now: Clock)
    ensures ActiveReplicas(members, now) - |ids| <= ActiveReplicas(StripAll(members, ids), now)
         <= ActiveReplicas(members, now)
  {
    if ids != [] {
      StripAllCosts(members, ids[..|ids| - 1], now);
      StripCosts(StripAll(members, ids[..|ids| - 1]), ids[|ids| - 1], now);
    }
  }

  /** With unique ids exactly that member changes, and only in its flag. */
  lemma {:induction false} MarkAt(members: seq<Member>, id: Hash, complete: bool, k: nat)
    requires UniqueIds(members) && k < |members|
    ensures Mark(members, id, complete)[k]
         == if members[k].id == id then members[k].(replica := complete) else members[k]
  {
    if members[0].id != id && k > 0 { MarkAt(members[1..], id, complete, k - 1); }
  }

  lemma MarkFrom(members: seq<Member>, id: Hash, complete: bool)
    ensures Mark(members, id, complete) == members[..0] + Mark(members[0..], id, complete)
    ensures Mark([], id, complete) == []
  {
    assert members[0..] == members;
  }

  lemma MarkNext(members: seq<Member>, id: Hash, complete: bool, i: nat)
    requires i < |members|
    ensures members[i].id == id ==>
              members[..i] + Mark(members[i..], id, complete)
              == members[..i] + [members[i].(replica := complete)] + members[i + 1..]
    ensures members[i].id != id ==>
              members[..i] + Mark(members[i..], id, complete) == members[..i + 1] + Mark(members[i + 1..], id, complete)
  {
    assert members[i..][1..] == members[i + 1..];
    assert members[..i] + [members[i]] == members[..i + 1];
  }

  /** Member by member: exactly the listed ids lose their replica, and nothing else changes. */
  lemma {:induction false} StripAllAt(members: seq<Member>, ids: seq<Hash>, k: nat)
    requires UniqueIds(members) && k < |members|
    ensures StripAll(members, ids)[k] == members[k].(replica := members[k].replica && members[k].id !in ids)
  {
    if ids != [] {
      var front, id := ids[..|ids| - 1], ids[|ids| - 1];
      forall j | 0 <= j < |members|
        ensures StripAll(members, front)[j] == members[j].(replica := members[j].replica && members[j].id !in front)
      {
        StripAllAt(members, front, j);
      }
      MarkAt(StripAll(members, front), id, false, k);
      assert ids == front + [id];
    }
  }

  // ------------------------------------------------------------- selection

  function Holders(members: seq<Member>): seq<Holder> {
    if members == [] then []
    else
      var front, m := Holders(members[..|members| - 1]), members[|members| - 1];
      if m.replica then front + [Holder(m.id, m.reliability)] else front
  }

  lemma {:induction false} HoldersAre(members: seq<Member>, h: Holder)
    ensures h in Holders(members) <==> exists m :: m in members && m.replica && h == Holder(m.id, m.reliability)
  {
    if members != [] {
      HoldersAre(members[..|members| - 1], h);
      assert members == members[..|members| - 1] + [members[|members| - 1]];
    }
  }

  ghost predicate Ascending(hs: seq<Holder>) {
    forall i, j :: 0 <= i < j < |hs| ==> hs[i].reliability <= hs[j].reliability
  }

  function Insert(h: Holder, hs: seq<Holder>): seq<Holder> {
    if hs == [] || h.reliability < hs[0].reliability then [h] + hs else [hs[0]] + Insert(h, hs[1..])
  }

  lemma {:induction false} InsertPermutes(h: Holder, hs: seq<Holder>)
    ensures multiset(Insert(h, hs)) == multiset(hs) + multiset([h])
  {
    if hs != [] && !(h.reliability < hs[0].reliability) {
      InsertPermutes(h, hs[1..]);
      assert hs == [hs[0]] + hs[1..];
    }
  }

  lemma {:induction false} InsertInside(h: Holder, hs: seq<Holder>, x: Holder)
    requires x in Insert(h, hs)
    ensures x == h || x in hs
  {
    if hs != [] && x in Insert(h, hs[1..]) { InsertInside(h, hs[1..], x); }
  }

  lemma {:induction false} InsertAscends(h: Holder, hs: seq<Holder>)
    requires Ascending(hs)
    ensures Ascending(Insert(h, hs))
  {
    if hs != [] && !(h.reliability < hs[0].reliability) {
      var rest := Insert(h, hs[1..]);
      InsertAscends(h, hs[1..]);
      forall j | 0 <= j < |rest| ensures hs[0].reliability <= rest[j].reliability {
        InsertInside(h, hs[1..], rest[j]);
      }
    }
  }

  /** What is known of std::sort: a permutation in ascending order; equal elements may end up in any order. */
  method SortByReliability(hs: seq<Holder>) returns (r: seq<Holder>)
    ensures Ascending(r) && multiset(r) == multiset(hs)
  {
    r := [];
    for i := 0 to |hs|
      invariant Ascending(r) && multiset(r) == multiset(hs[..i])
    {
      InsertAscends(hs[i], r);
      InsertPermutes(hs[i], r);
      assert hs[..i + 1] == hs[..i] + [hs[i]];
      r := Insert(hs[i], r);
    }
    assert hs[..|hs|] == hs;
  }

  function HolderIds(hs: seq<Holder>): (r: seq<Hash>)
    ensures |r| == |hs| && forall i :: 0 <= i < |hs| ==> r[i] == hs[i].id
  {
    Map(hs, (h: Holder) => h.id)
  }

  /** How many replicas may go; the subtraction from the minimum wraps when there are too few already. */
  function Removable(current: nat, q: Quorum): nat
    requires q.target < current
  {
    var a := current - q.target;
    var b := (current - q.minimum) % TWO_64;
    if a < b then a else b
  }

  /**
   As many may go as keep both the target and the minimum.  Below the minimum the
   subtraction wraps, and the excess over the target alone counts unless the minimum is
   within that excess of 2^64.
   */
  lemma RemovableIs(current: nat, q: Quorum)
    requires q.target < current < TWO_64 && q.minimum < TWO_64
    ensures q.minimum <= current ==>
              && Removable(current, q) <= current - q.target && Removable(current, q) <= current - q.minimum
              && (Removable(current, q) == current - q.target || Removable(current, q) == current - q.minimum)
    ensures current < q.minimum && q.minimum - current <= TWO_64 - (current - q.target) ==>
              Removable(current, q) == current - q.target
  {
  }

  /** The removed ids are those of the least reliable holders: all below the threshold, or
    as many of them as allowed. */
  ghost predicate Chosen(members: seq<Member>, limit: nat, ids: seq<Hash>) {
    && |ids| <= limit
    && (|ids| < limit ==> forall m :: m in members && m.replica && m.reliability < MIN_RELIABILITY ==> m.id in ids)
    && (forall i, j :: 0 <= i < j < |ids| ==> ids[i] != ids[j])
    && (forall id :: id in ids ==>
         exists m :: m in members && m.id == id && m.replica && m.reliability < MIN_RELIABILITY)
    && (forall m, n :: m in members && n in members && m.id in ids && n.replica && n.id !in ids ==>
         m.reliability <= n.reliability)
  }

  method SelectNodesForRemoval(members: seq<Member>, q: Quorum, now: Clock) returns (ids: seq<Hash>)
    requires UniqueIds(members)
    ensures ActiveReplicas(members, now) <= q.target ==> ids == []
    ensures ActiveReplicas(members, now) > q.target ==> Chosen(members, Removable(ActiveReplicas(members, now), q), ids)
  {
    ids := [];
    var current := CountActive(members, now);
    if current <= q.target { return; }
    var holders := ListHolders(members);
    var sorted := SortByReliability(holders);
    var limit := Removable(current, q);
    var i := 0;
    while i < limit && i < |sorted|
      invariant 0 <= i && i <= |sorted| && |ids| <= i && i <= limit
      invariant ids == HolderIds(sorted[..|ids|])
      invariant forall j :: 0 <= j < |ids| ==> sorted[j].reliability < MIN_RELIABILITY
      invariant |ids| < i ==> sorted[|ids|].reliability >= MIN_RELIABILITY
    {
      if sorted[i].reliability < MIN_RELIABILITY {
        assert sorted[..i + 1] == sorted[..i] + [sorted[i]];
        ids := ids + [sorted[i].id];
      }
      i := i + 1;
    }
    PrefixIsChosen(members, holders, sorted, |ids|, limit);
  }

  lemma SortedHolders(members: seq<Member>, sorted: seq<Holder>)
    requires UniqueIds(members) && multiset(sorted) == multiset(Holders(members))
    ensures forall h :: h in sorted <==> exists m :: m in members && m.replica && h == Holder(m.id, m.reliability)
    ensures forall i, j :: 0 <= i < j < |sorted| ==> sorted[i].id != sorted[j].id
  {
    forall h ensures h in sorted <==> exists m :: m in members && m.replica && h == Holder(m.id, m.reliability) {
      assert h in sorted <==> h in multiset(sorted);
      assert h in Holders(members) <==> h in multiset(Holders(members));
      HoldersAre(members, h);
    }
    forall i, j | 0 <= i < j < |sorted| ensures sorted[i].id != sorted[j].id {
      assert sorted[i] in sorted && sorted[j] in sorted;
      if sorted[i].id == sorted[j].id {
        SameIdSameHolder(members, sorted[i], sorted[j]);
        HoldersOnce(members, sorted[i]);
        TwiceInSeq(sorted, i, j);
      }
    }
  }

  lemma SameIdSameHolder(members: seq<Member>, g: Holder, h: Holder)
    requires UniqueIds(members) && g.id == h.id
    requires exists m :: m in members && m.replica && g == Holder(m.id, m.reliability)
    requires exists m :: m in members && m.replica && h == Holder(m.id, m.reliability)
    ensures g == h
  {
  }

  lemma TwiceInSeq(s: seq<Holder>, i: nat, j: nat)
    requires i < j < |s| && s[i] == s[j]
    ensures multiset(s)[s[i]] >= 2
  {
    assert s == s[..i] + [s[i]] + s[i + 1..j] + [s[j]] + s[j + 1..];
  }

  lemma {:induction false} HoldersOnce(members: seq<Member>, h: Holder)
    requires UniqueIds(members)
    ensures multiset(Holders(members))[h] <= 1
  {
    if members != [] {
      var front, m := members[..|members| - 1], members[|members| - 1];
      HoldersOnce(front, h);
      HoldersAre(front, h);
    }
  }

  lemma PrefixIsChosen(members: seq<Member>, holders: seq<Holder>, sorted: seq<Holder>, n: nat, limit: nat)
    requires UniqueIds(members) && multiset(sorted) == multiset(holders) && holders == Holders(members)
    requires Ascending(sorted) && n <= |sorted| && n <= limit
    requires forall j :: 0 <= j < n ==> sorted[j].reliability < MIN_RELIABILITY
    requires n < limit && n < |sorted| ==> sorted[n].reliability >= MIN_RELIABILITY
    ensures Chosen(members, limit, HolderIds(sorted[..n]))
  {
    hide Holders;
    SortedHolders(members, sorted);
    var ids := HolderIds(sorted[..n]);
    forall id | id in ids
      ensures exists m :: m in members && m.id == id && m.replica && m.reliability < MIN_RELIABILITY
    {
      var i :| 0 <= i < n && ids[i] == id;
      assert sorted[i] in sorted;
    }
    forall m | m in members && m.replica && m.reliability < MIN_RELIABILITY && n < limit
      ensures m.id in ids
    {
      var h := Holder(m.id, m.reliability);
      assert h in sorted;
      var k :| 0 <= k < |sorted| && sorted[k] == h;
      assert ids[k] == m.id;
    }
    forall a, b | a in members && b in members && a.id in ids && b.replica && b.id !in ids
      ensures a.reliability <= b.reliability
    {
      var i :| 0 <= i < n && ids[i] == a.id;
      assert sorted[i] in sorted;
      assert sorted[i].reliability == a.reliability;
      var h := Holder(b.id, b.reliability);
      assert h in sorted;
      assert forall k :: 0 <= k < n ==> ids[k] == sorted[k].id;
    }
  }

  method CountActive(members: seq<Member>, now: Clock) returns (n: nat)
    ensures n == ActiveReplicas(members, now)
  {
    n := 0;
    for i := 0 to |members|
      invariant n == ActiveReplicas(members[..i], now)
    {
      assert members[..i + 1][..i] == members[..i];
      if members[i].replica && SubU64(now, members[i].lastSeen) < MEMBER_TIMEOUT { n := n + 1; }
    }
    assert members[..|members|] == members;
  }

  method ListHolders(members: seq<Member>) returns (hs: seq<Holder>)
    ensures hs == Holders(members)
  {
    hs := [];
    for i := 0 to |members|
      invariant hs == Holders(members[..i])
    {
      assert members[..i + 1][..i] == members[..i];
      if members[i].replica { hs := hs + [Holder(members[i].id, members[i].reliability)]; }
    }
    assert members[..|members|] == members;
  }

  // ------------------------------------------------------- the main result

  /**
   What an adjustment may do to the members of a network with the given target and
   minimum: strip a chosen set of ids, never push the active replicas below either
   line from above it, and stop short of the allowed number only when no unreliable
   holder is left.
   */
  ghost predicate SafeAdjustment(before: seq<Member>, after: seq<Member>, q: Quorum, ids: seq<Hash>, now: Clock) {
    && |after| == |before|
    && (forall k :: 0 <= k < |before| ==> after[k] == before[k].(replica := before[k].replica && before[k].id !in ids))
    && (ActiveReplicas(before, now) > q.target ==> ActiveReplicas(after, now) >= q.target)
    && (ActiveReplicas(before, now) >= q.minimum ==> ActiveReplicas(after, now) >= q.minimum)
    && (ActiveReplicas(before, now) <= q.target ==> after == before)
    && (forall m :: m in before && m.id in ids ==> m.replica && m.reliability < 0.5)
    && (forall m, n :: m in before && n in after && m.id in ids && n.replica ==> m.reliability <= n.reliability)
    && (ActiveReplicas(before, now) > q.target ==>
          var limit := Removable(ActiveReplicas(before, now), q);
          |ids| <= limit
          && (|ids| == limit || forall m :: m in after && m.replica ==> m.reliability >= 0.5))
  }

  lemma StrippingIsSafe(members: seq<Member>, q: Quorum, ids: seq<Hash>, now: Clock)
    requires UniqueIds(members) && ActiveReplicas(members, now) > q.target && |members| < TWO_64
    requires Chosen(members, Removable(ActiveReplicas(members, now), q), ids)
    ensures SafeAdjustment(members, StripAll(members, ids), q, ids, now)
  {
    hide ActiveReplicas, StripAll;
    var after := StripAll(members, ids);
    StripAllCosts(members, ids, now);
    ActiveBound(members, now);
    forall k | 0 <= k < |members|
      ensures after[k] == members[k].(replica := members[k].replica && members[k].id !in ids)
    {
      StripAllAt(members, ids, k);
    }
    forall m, n | m in members && n in after && m.id in ids && n.replica
      ensures m.reliability <= n.reliability
    {
      var k :| 0 <= k < |after| && after[k] == n;
      assert members[k] in members && members[k].id !in ids;
    }
    if |ids| < Removable(ActiveReplicas(members, now), q) {
      forall n | n in after && n.replica ensures n.reliability >= MIN_RELIABILITY {
        var k :| 0 <= k < |after| && after[k] == n;
        assert members[k] in members && members[k].id !in ids;
      }
    }
  }

  lemma {:induction false} ActiveBound(members: seq<Member>, now: Clock)
    ensures ActiveReplicas(members, now) <= |members|
  {
    if members != [] { ActiveBound(members[..|members| - 1], now); }
  }

  lemma NothingStripped(members: seq<Member>, q: Quorum, now: Clock)
    requires ActiveReplicas(members, now) <= q.target
          || forall m :: m in members && m.replica ==> m.reliability >= MIN_RELIABILITY
    ensures SafeAdjustment(members, members, q, [], now)
  {
  }

  class Network {
    var members: seq<Member>
    var quorum: Quorum

    ghost predicate Ok()
      reads this
    {
      UniqueIds(members) && |members| < TWO_64
    }

    method AddMember(m: Member) returns (added: bool)
      requires Ok() && quorum.maximum < TWO_64
      modifies this`members
      ensures Ok()
      ensures added <==> (forall x :: x in old(members) ==> x.id != m.id) && |old(members)| < quorum.maximum
      ensures members == if added then old(members) + [m] else old(members)
    {
      for i := 0 to |members|
        invariant members == old(members) && forall j :: 0 <= j < i ==> members[j].id != m.id
      {
        if members[i].id == m.id {
          assert members[i] in members;
          return false;
        }
      }
      if |members| >= quorum.maximum { return false; }
      members := members + [m];
      return true;
    }

    method MarkReplica(id: Hash, complete: bool)
      modifies this`members
      ensures members == Mark(old(members), id, complete)
    {
      hide Mark;
      MarkFrom(members, id, complete);
      for i := 0 to |members|
        invariant members == old(members)
        invariant Mark(members, id, complete) == members[..i] + Mark(members[i..], id, complete)
        invariant Mark([], id, complete) == []
      {
        MarkNext(members, id, complete, i);
        if members[i].id == id {
          members := members[..i] + [members[i].(replica := complete)] + members[i + 1..];
          return;
        }
      }
    }

    method HasUnreliableHolder() returns (found: bool)
      ensures found <==> exists m :: m in members && m.replica && m.reliability < MIN_RELIABILITY
    {
      for i := 0 to |members|
        invariant forall j :: 0 <= j < i ==> !(members[j].replica && members[j].reliability < MIN_RELIABILITY)
      {
        if members[i].replica && members[i].reliability < MIN_RELIABILITY { return true; }
      }
      return false;
    }

    /** Sets the target for the current size and, above it, strips the least reliable replica holders. */
    method AdjustRedundancy(now: Clock) returns (changed: bool, ghost ids: seq<Hash>)
      requires Ok()
      modifies this
      ensures Ok()
      ensures quorum == old(quorum).(target := Target(|old(members)|))
      ensures SafeAdjustment(old(members), members, quorum, ids, now)
      ensures changed <==>
        (quorum != old(quorum) || ids != []
         || (ActiveReplicas(old(members), now) < quorum.target && |members| < quorum.maximum))
    {
      hide ActiveReplicas, Target, Mark;
      changed, ids := false, [];
      var current := CountActive(members, now);
      var target := Target(|members|);
      if quorum.target != target {
        quorum := quorum.(target := target);
        changed := true;
      }
      if current < target && !(|members| >= quorum.maximum) {
        changed := true;
      }
      if current <= target {
        NothingStripped(members, quorum, now);
        return;
      }
      var unreliable := HasUnreliableHolder();
      if !unreliable {
        NothingStripped(members, quorum, now);
        return;
      }
      var removed := SelectNodesForRemoval(members, quorum, now);
      ids := removed;
      StrippingIsSafe(members, quorum, removed, now);
      StripNothing(members);
      for i := 0 to |removed|
        invariant members == StripAll(old(members), removed[..i])
        invariant quorum == old(quorum).(target := target)
        invariant changed <==> quorum != old(quorum) || i > 0
      {
        assert removed[..i + 1][..i] == removed[..i];
        MarkReplica(removed[i], false);
        changed := true;
      }
      assert removed[..|removed|] == removed;
    }

    lemma StripNothing(members: seq<Member>)
      ensures StripAll(members, []) == members
    {
    }
  }
}
