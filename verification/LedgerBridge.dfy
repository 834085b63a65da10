/**
 The bridge between ledger and gossip, and the additive merge, as they update
 their objects in place (src/network/ledger_sync.cpp:200-243, 368-418,
 src/network/state_reconciliation.cpp:270-288, 359-376).
 */
module LedgerBridge {
  import opened Bytes
  import opened Collections
  import opened LedgerEvent
  import opened LedgerIndex
  import opened Ledger
  import opened LedgerSync
  import opened LedgerStore

  datatype SyncState = SyncState(epoch: u64, hash: Hash, at: Clock)

  class Bridge {
    const ledger: Store
    var seen: set<Hash>
    var applied: seq<Event>
    var peers: map<Hash, SyncState>

    ghost function View(): Node
      reads this, ledger, ledger.index
    {
      Node(ledger.View(), seen, applied)
    }

    ghost predicate Ok()
      reads this, ledger, ledger.index
    {
      NodeOk(ledger.Chain(), View())
    }

    constructor (ledger: Store)
      requires Valid(ledger.Chain(), ledger.View())
      ensures this.ledger == ledger
      ensures Ok() && View() == Node(ledger.View(), {}, []) && peers == map[]
    {
      this.ledger := ledger;
      seen, applied, peers := {}, [], map[];
    }

    method ValidateEventChain(e: Event, now: Clock) returns (ok: bool)
      ensures ok == Vouched(ledger.Chain(), ledger.events, e, now)
    {
      hide ChainHashOf;
      if e.timestamp > now + MAX_FUTURE_SKEW { return false; }
      if e.source == ZERO_HASH { return false; }
      if e.epoch > now / 600 { return true; }
      ok := ledger.VerifyEventChain(e, now);
    }

    method ProcessReceivedEvent(e: Event, now: Clock)
      requires Ok()
      modifies this`seen, this`applied, ledger, ledger.index
      ensures Ok() && View() == Receive(ledger.Chain(), old(View()), e, now)
    {
      hide ChainHashOf, NodeOk, AddExternal;
      ReceiveKeeps(ledger.Chain(), View(), e, now);
      if e.id in seen { return; }
      var ok := ValidateEventChain(e, now);
      if !ok { return; }
      assert Valid(ledger.Chain(), ledger.View()) by { LedgerValid(); }
      var added := ledger.AddExternalEvent(e, now);
      if added {
        seen := seen + {e.id};
        applied := applied + [e];
      } else {
        assert ledger.View() == old(ledger.View()) by { NotAdded(ledger.Chain(), old(ledger.View()), e, now); }
      }
    }

    lemma LedgerValid()
      requires Ok()
      ensures Valid(ledger.Chain(), ledger.View())
    {
    }

    lemma NotAdded(h: ChainHash, s: State, e: Event, now: Clock)
      requires !ExternalAnswer(h, s, e, now)
      ensures AddExternal(h, s, e, now) == s
    {
    }

    /** The answer to a sync request: the events of the log in the epoch range, in log order. */
    method HandleSyncRequest(lo: u64, hi: u64) returns (events: seq<Event>)
      ensures events == Selected(ledger.events, lo, hi)
    {
      events := [];
      var log := ledger.events;
      for i := 0 to |log|
        invariant events == Selected(log[..i], lo, hi)
      {
        WherePrefix(log, i, InRange(lo, hi));
        if lo <= log[i].epoch && log[i].epoch <= hi { events := events + [log[i]]; }
      }
      assert log[..|log|] == log;
    }

    method HandleSyncResponse(peer: Hash, events: seq<Event>, now: Clock)
      requires Ok()
      modifies this, ledger, ledger.index
      ensures Ok() && View() == ReceiveAll(ledger.Chain(), old(View()), events, now)
      ensures peers == if events == [] then old(peers)
                       else old(peers)[peer := SyncState(events[|events| - 1].epoch, events[|events| - 1].id, now)]
    {
      hide ChainHashOf, NodeOk, Receive;
      for i := 0 to |events|
        invariant Ok() && View() == ReceiveAll(ledger.Chain(), old(View()), events[..i], now)
        invariant peers == old(peers)
      {
        assert events[..i + 1][..i] == events[..i];
        ProcessReceivedEvent(events[i], now);
      }
      assert events[..|events|] == events;
      if events != [] {
        var last := events[|events| - 1];
        peers := peers[peer := SyncState(last.epoch, last.id, now)];
      }
    }
  }

  method FindMissingEvents(ledger: Store, remote: seq<Event>) returns (missing: seq<Event>)
    ensures missing == LedgerSync.Missing(ledger.events, remote)
  {
    var known: set<Hash> := {};
    var log := ledger.events;
    for i := 0 to |log|
      invariant forall id :: id in known <==> id in Ids(log[..i])
    {
      assert Ids(log[..i + 1]) == Ids(log[..i]) + [log[i].id];
      known := known + {log[i].id};
    }
    assert log[..|log|] == log;
    missing := [];
    for i := 0 to |remote|
      invariant missing == Where(remote[..i], Unknown(log))
    {
      WherePrefix(remote, i, Unknown(log));
      if remote[i].id !in known { missing := missing + [remote[i]]; }
    }
    assert remote[..|remote|] == remote;
  }

  method ApplyMergeBoth(ledger: Store, remote: seq<Event>, now: Clock) returns (allApplied: bool, handed: seq<Event>)
    requires Valid(ledger.Chain(), ledger.View())
    modifies ledger, ledger.index
    ensures Valid(ledger.Chain(), ledger.View())
    ensures (ledger.View(), allApplied)
         == MergeAll(ledger.Chain(), old(ledger.View()), LedgerSync.Missing(old(ledger.events), remote), now)
    ensures handed == Handed(ledger.Chain(), old(ledger.View()), LedgerSync.Missing(old(ledger.events), remote), now)
  {
    hide ChainHashOf, Valid, AddExternal, ExternalAnswer;
    var missing := FindMissingEvents(ledger, remote);
    allApplied, handed := true, [];
    for i := 0 to |missing|
      invariant Valid(ledger.Chain(), ledger.View())
      invariant (ledger.View(), allApplied) == MergeAll(ledger.Chain(), old(ledger.View()), missing[..i], now)
      invariant handed == Handed(ledger.Chain(), old(ledger.View()), missing[..i], now)
    {
      assert missing[..i + 1][..i] == missing[..i];
      var ok := ledger.AddExternalEvent(missing[i], now);
      if !ok {
        allApplied := false;
        continue;
      }
      handed := handed + [missing[i]];
    }
    assert missing[..|missing|] == missing;
  }
}
