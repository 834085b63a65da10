/**
 The gossip protocol object (src/network/gossip.cpp:407-457, 535-661), updated in
 place, with its random choices left open.
 */
module GossipNode {
  import opened Bytes
  import opened Collections
  import opened Gossip

  /** A possible answer of `get_random_peers(count)`: distinct picks, as many as asked for and available. */
  ghost predicate Picked(peers: seq<Hash>, count: nat, chosen: seq<Hash>) {
    && |chosen| == (if count < |peers| then count else |peers|)
    && multiset(chosen) <= multiset(peers)
  }

  /** `m` went once to each node of a possible choice of peers. */
  ghost predicate SentTo(peers: seq<Hash>, count: nat, m: Message, sends: seq<(Hash, Message)>) {
    exists to :: Picked(peers, count, to) && |to| == |sends| && (forall i :: 0 <= i < |to| ==> sends[i] == (to[i], m))
  }

  lemma RemoveAt(s: seq<Hash>, k: nat)
    requires k < |s|
    ensures multiset(s[..k] + s[k + 1..]) + multiset([s[k]]) == multiset(s)
  {
    assert s == s[..k] + [s[k]] + s[k + 1..];
  }

  class Protocol {
    const local: Hash
    var peers: seq<Hash>
    var seen: seq<Seen>
    var fanout: nat
    var capacity: nat

    /** The peer list never holds a node twice. */
    ghost predicate Ok()
      reads this
    {
      forall i, j :: 0 <= i < j < |peers| ==> peers[i] != peers[j]
    }

    constructor (local: Hash)
      ensures Ok() && peers == [] && seen == [] && fanout == 3 && capacity == 10000
    {
      this.local := local;
      peers, seen, fanout, capacity := [], [], 3, 10000;
    }

    method AddPeer(peer: Hash)
      requires Ok()
      modifies this`peers
      ensures Ok() && peers == if peer in old(peers) then old(peers) else old(peers) + [peer]
    {
      for i := 0 to |peers|
        invariant peer !in peers[..i] && peers == old(peers)
      {
        if peers[i] == peer { return; }
      }
      assert peers[..|peers|] == peers;
      peers := peers + [peer];
    }

    method GetRandomPeers(count: nat) returns (chosen: seq<Hash>)
      requires Ok()
      ensures Picked(peers, count, chosen)
      ensures forall i, j :: 0 <= i < j < |chosen| ==> chosen[i] != chosen[j]
    {
      var n := if count < |peers| then count else |peers|;
      chosen := [];
      var available := peers;
      for i := 0 to n
        invariant |chosen| == i && |available| == |peers| - i
        invariant multiset(chosen) + multiset(available) == multiset(peers)
      {
        var k :| 0 <= k < |available|;
        RemoveAt(available, k);
        chosen := chosen + [available[k]];
        available := available[..k] + available[k + 1..];
      }
      DistinctChoice(peers, chosen);
    }

    lemma DistinctChoice(peers: seq<Hash>, chosen: seq<Hash>)
      requires forall i, j :: 0 <= i < j < |peers| ==> peers[i] != peers[j]
      requires multiset(chosen) <= multiset(peers)
      ensures forall i, j :: 0 <= i < j < |chosen| ==> chosen[i] != chosen[j]
    {
      forall i, j | 0 <= i < j < |chosen| ensures chosen[i] != chosen[j] {
        if chosen[i] == chosen[j] {
          assert chosen == chosen[..i] + [chosen[i]] + chosen[i + 1..j] + [chosen[j]] + chosen[j + 1..];
          assert multiset(chosen)[chosen[i]] >= 2;
          AtMostOne(peers, chosen[i]);
        }
      }
    }

    lemma {:induction false} AtMostOne(s: seq<Hash>, x: Hash)
      requires forall i, j :: 0 <= i < j < |s| ==> s[i] != s[j]
      ensures multiset(s)[x] <= 1
    {
      if s != [] {
        var n := |s| - 1;
        AtMostOne(s[..n], x);
        assert s == s[..n] + [s[n]];
        assert x == s[n] ==> x !in s[..n];
      }
    }

    method HasSeenMessage(id: Hash) returns (found: bool)
      ensures found <==> HasSeen(seen, id)
    {
      for i := 0 to |seen|
        invariant forall j :: 0 <= j < i ==> seen[j].id != id
      {
        if seen[i].id == id { return true; }
      }
      return false;
    }

    method MarkAsSeen(id: Hash, now: Clock)
      modifies this`seen
      ensures seen == MarkSeen(old(seen), capacity, id, now)
    {
      if |seen| >= capacity && seen != [] {
        seen := seen[1..];
      }
      seen := seen + [Seen(id, now)];
    }

    method CleanupOldSeenMessages(now: Clock)
      modifies this`seen
      ensures seen == Cleaned(old(seen), now)
    {
      var kept: seq<Seen> := [];
      for i := 0 to |seen|
        invariant seen == old(seen) && kept == Cleaned(seen[..i], now)
      {
        WherePrefix(seen, i, Lasting(now));
        if !(SubU64(now, seen[i].at) > SEEN_TTL) { kept := kept + [seen[i]]; }
      }
      assert seen[..|seen|] == seen;
      seen := kept;
    }

    /** Handles and forwards a message, or drops it; the cache moves as in the run model. */
    method ReceiveMessage(m: Message, now: Clock) returns (handled: bool, sends: seq<(Hash, Message)>)
      requires Ok()
      modifies this`seen
      ensures handled == ShouldPropagate(old(seen), m, now)
      ensures forall h :: Apply(NodeState(old(seen), h), capacity, ReceiveOp(m, now))
                       == NodeState(seen, if handled then h + [Handled(m.id, m.timestamp, now)] else h)
      ensures !handled ==> sends == []
      ensures handled ==> SentTo(peers, fanout, m.(hops := m.hops + 1), sends)
    {
      sends := [];
      var known := HasSeenMessage(m.id);
      if known || SubU64(now, m.timestamp) > MAX_AGE || m.hops >= MAX_HOPS {
        return false, [];
      }
      MarkAsSeen(m.id, now);
      var to := GetRandomPeers(fanout);
      var forward := m.(hops := m.hops + 1);
      for i := 0 to |to|
        invariant |sends| == i && forall k :: 0 <= k < i ==> sends[k] == (to[k], forward)
      {
        sends := sends + [(to[i], forward)];
      }
      handled := true;
    }

    method BroadcastMessage(m: Message, now: Clock) returns (sends: seq<(Hash, Message)>)
      requires Ok()
      modifies this`seen
      ensures seen == MarkSeen(old(seen), capacity, m.id, now)
      ensures SentTo(peers, fanout, m, sends)
    {
      MarkAsSeen(m.id, now);
      var to := GetRandomPeers(fanout);
      sends := [];
      for i := 0 to |to|
        invariant |sends| == i && forall k :: 0 <= k < i ==> sends[k] == (to[k], m)
      {
        sends := sends + [(to[i], m)];
      }
    }
  }
}
