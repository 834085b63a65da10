/**
 A network in which one node writes and all nodes take events from each other.
 Messages are never removed from `sent` and reach any node at any time, any
 number of times or never: loss, duplication and reordering are all covered.
 */
module Replication {
  import opened Bytes
  import opened Collections
  import opened LedgerEvent
  import opened LedgerIndex
  import opened Ledger
  import opened LedgerSync

  datatype System = System(writer: nat, nodes: map<nat, Node>, sent: set<seq<Event>>)

  datatype Action =
    | Write(kind: byte, data: bytes, now: Clock)
    | Announce(node: nat, position: nat)
    | Reply(node: nat, lo: u64, hi: u64)
    | Deliver(node: nat, message: seq<Event>, now: Clock)

  predicate Enabled(s: System, a: Action) {
    match a
    case Write(_, _, _) => s.writer in s.nodes
    case Announce(node, k) => node in s.nodes && k < |s.nodes[node].ledger.log|
    case Reply(node, _, _) => node in s.nodes
    case Deliver(node, message, _) => node in s.nodes && message in s.sent
  }

  function Step(h: ChainHash, H: Hasher, s: System, a: Action): System
    requires Enabled(s, a)
  {
    match a
    case Write(kind, data, now) =>
      var w := s.nodes[s.writer];
      s.(nodes := s.nodes[s.writer := w.(ledger := Record(h, H, w.ledger, kind, data, now))])
    case Announce(node, k) =>
      s.(sent := s.sent + {[s.nodes[node].ledger.log[k]]})
    case Reply(node, lo, hi) =>
      s.(sent := s.sent + {Selected(s.nodes[node].ledger.log, lo, hi)})
    case Deliver(node, message, now) =>
      s.(nodes := s.nodes[node := ReceiveAll(h, s.nodes[node], message, now)])
  }

  /** All nodes empty, nothing sent. */
  ghost predicate Initial(s: System) {
    && s.writer in s.nodes
    && s.sent == {}
    && forall n :: n in s.nodes ==> exists local :: s.nodes[n] == Node(Fresh(local), {}, [])
  }

  /** Some schedule leads from `s` to `t`. */
  ghost predicate Reaches(h: ChainHash, H: Hasher, s: System, schedule: seq<Action>, t: System) {
    if schedule == [] then s == t
    else
      var last := |schedule| - 1;
      exists mid :: Reaches(h, H, s, schedule[..last], mid) && Enabled(mid, schedule[last])
        && t == Step(h, H, mid, schedule[last])
  }

  function WriterLog(s: System): seq<Event>
    requires s.writer in s.nodes
  {
    s.nodes[s.writer].ledger.log
  }

  /** Every log is a prefix of the writer's, and only events of the writer are in the network. */
  ghost predicate Safe(h: ChainHash, s: System) {
    && s.writer in s.nodes
    && (forall n :: n in s.nodes ==> NodeOk(h, s.nodes[n]) && s.nodes[n].ledger.log <= WriterLog(s))
    && (forall m, e :: m in s.sent && e in m ==> e in WriterLog(s))
  }

  lemma InitialSafe(h: ChainHash, s: System)
    requires Initial(s)
    ensures Safe(h, s)
  {
    forall n | n in s.nodes
      ensures NodeOk(h, s.nodes[n]) && s.nodes[n].ledger.log == []
    {
      var local :| s.nodes[n] == Node(Fresh(local), {}, []);
      FreshValid(h, local);
    }
  }

  /** An event of the writer that a node takes is the very next one of the writer's log. */
  lemma TakenIsNext(h: ChainHash, b: Node, log: seq<Event>, e: Event, now: Clock)
    requires NodeOk(h, b) && Chained(h, log) && b.ledger.log <= log && e in log
    requires HashSound(h, EventSet(log))
    requires Takes(h, b, e, now)
    ensures b.ledger.log + [e] <= log
  {
    hide Rebuild, LookupOf, HashSound;
    var n := |b.ledger.log|;
    var k :| 0 <= k < |log| && log[k] == e;
    assert Linked(h, log, k);
    assert EventSet(log) + EventSet(log) == EventSet(log);
    TipDeterminesPrefix(h, log, log, n, k);
  }

  lemma {:induction false} DeliverSafe(h: ChainHash, b: Node, log: seq<Event>, es: seq<Event>, now: Clock)
    requires NodeOk(h, b) && Chained(h, log) && b.ledger.log <= log
    requires HashSound(h, EventSet(log))
    requires forall e :: e in es ==> e in log
    ensures NodeOk(h, ReceiveAll(h, b, es, now))
    ensures ReceiveAll(h, b, es, now).ledger.log <= log
  {
    hide NodeOk, HashSound, Takes, Chained, Receive;
    if es != [] {
      var front, e := es[..|es| - 1], es[|es| - 1];
      DeliverSafe(h, b, log, front, now);
      var c := ReceiveAll(h, b, front, now);
      ReceiveKeeps(h, c, e, now);
      if Takes(h, c, e, now) { TakenIsNext(h, c, log, e, now); }
    }
  }

  lemma WriteSafe(h: ChainHash, H: Hasher, s: System, a: Action)
    requires Safe(h, s) && a.Write?
    ensures Safe(h, Step(h, H, s, a))
    ensures WriterLog(s) <= WriterLog(Step(h, H, s, a))
  {
    hide NodeOk, Record;
    var w, t := s.nodes[s.writer], Step(h, H, s, a);
    RecordKeepsNode(h, H, w, a.kind, a.data, a.now);
    assert NodeOk(h, w);
  }

  lemma RecordKeepsNode(h: ChainHash, H: Hasher, b: Node, kind: byte, data: bytes, now: Clock)
    requires NodeOk(h, b)
    ensures NodeOk(h, b.(ledger := Record(h, H, b.ledger, kind, data, now)))
    ensures b.ledger.log <= Record(h, H, b.ledger, kind, data, now).log
  {
    hide Record, Coherent;
    ApplyKeeps(h, H, b.ledger, RecordOp(kind, data, now));
  }

  lemma SendSafe(h: ChainHash, s: System, node: nat, message: seq<Event>)
    requires Safe(h, s) && node in s.nodes && forall e :: e in message ==> e in s.nodes[node].ledger.log
    ensures Safe(h, s.(sent := s.sent + {message}))
  {
    hide NodeOk;
    assert s.nodes[node].ledger.log <= WriterLog(s);
  }

  lemma StepSafe(h: ChainHash, H: Hasher, s: System, a: Action)
    requires Safe(h, s) && Enabled(s, a) && HashSound(h, EventSet(WriterLog(s)))
    ensures Safe(h, Step(h, H, s, a))
    ensures WriterLog(s) <= WriterLog(Step(h, H, s, a))
  {
    hide NodeOk, HashSound, Record, ReceiveAll;
    match a
    case Write(_, _, _) => WriteSafe(h, H, s, a);
    case Announce(node, k) => SendSafe(h, s, node, [s.nodes[node].ledger.log[k]]);
    case Reply(node, lo, hi) =>
      var log := s.nodes[node].ledger.log;
      WhereWithin(log, InRange(lo, hi));
      SendSafe(h, s, node, Selected(log, lo, hi));
    case Deliver(node, message, now) =>
      WriterChained(h, s);
      DeliverSafe(h, s.nodes[node], WriterLog(s), message, now);
      ReceiveAllKeeps(h, s.nodes[node], message, now);
  }

  lemma WriterChained(h: ChainHash, s: System)
    requires Safe(h, s)
    ensures Chained(h, WriterLog(s))
  {
    assert NodeOk(h, s.nodes[s.writer]);
  }

  /** What holds of every node whatever the hash does. */
  ghost predicate Sane(h: ChainHash, s: System) {
    s.writer in s.nodes && forall n :: n in s.nodes ==> NodeOk(h, s.nodes[n])
  }

  /** The writer's log only grows. */
  lemma StepGrows(h: ChainHash, H: Hasher, s: System, a: Action)
    requires Sane(h, s) && Enabled(s, a)
    ensures Sane(h, Step(h, H, s, a))
    ensures WriterLog(s) <= WriterLog(Step(h, H, s, a))
  {
    hide Record, ReceiveAll, NodeOk;
    assert NodeOk(h, s.nodes[s.writer]);
    match a
    case Write(kind, data, now) => RecordKeepsNode(h, H, s.nodes[s.writer], kind, data, now);
    case Announce(_, _) =>
    case Reply(_, _, _) =>
    case Deliver(node, message, now) => ReceiveAllKeeps(h, s.nodes[node], message, now);
  }

  lemma {:induction false} ReachableSane(h: ChainHash, H: Hasher, s: System, schedule: seq<Action>, t: System)
    requires Initial(s) && Reaches(h, H, s, schedule, t)
    ensures Sane(h, t)
  {
    hide NodeOk, Step, Initial;
    if schedule == [] {
      InitialSafe(h, s);
    } else {
      var last := |schedule| - 1;
      var mid :| Reaches(h, H, s, schedule[..last], mid) && Enabled(mid, schedule[last])
        && t == Step(h, H, mid, schedule[last]);
      ReachableSane(h, H, s, schedule[..last], mid);
      StepGrows(h, H, mid, schedule[last]);
    }
  }

  lemma SoundOnPrefix(h: ChainHash, a: seq<Event>, b: seq<Event>)
    requires a <= b && HashSound(h, EventSet(b))
    ensures HashSound(h, EventSet(a))
  {
    assert forall e :: e in a ==> e in b;
    assert EventSet(a) <= EventSet(b);
  }

  /**
   Single-writer replication safety: in every reachable state, whatever the
   schedule, every node's log is a prefix of the writer's log.
   */
  lemma {:induction false} ReplicasArePrefixes(h: ChainHash, H: Hasher, s: System, schedule: seq<Action>, t: System)
    requires Initial(s) && Reaches(h, H, s, schedule, t)
    requires t.writer in t.nodes && HashSound(h, EventSet(WriterLog(t)))
    ensures Safe(h, t)
  {
    hide NodeOk, Step, Initial, HashSound;
    if schedule == [] {
      InitialSafe(h, s);
    } else {
      var last := |schedule| - 1;
      var mid :| Reaches(h, H, s, schedule[..last], mid) && Enabled(mid, schedule[last])
        && t == Step(h, H, mid, schedule[last]);
      ReachableSane(h, H, s, schedule[..last], mid);
      StepGrows(h, H, mid, schedule[last]);
      SoundOnPrefix(h, WriterLog(mid), WriterLog(t));
      ReplicasArePrefixes(h, H, s, schedule[..last], mid);
      StepSafe(h, H, mid, schedule[last]);
    }
  }

  /** Two replicas never fork, and replicas with equal tips hold equal logs, in every reachable state. */
  lemma ReplicasNeverFork(h: ChainHash, H: Hasher, s: System, schedule: seq<Action>, t: System, m: nat, n: nat)
    requires Initial(s) && Reaches(h, H, s, schedule, t)
    requires t.writer in t.nodes && HashSound(h, EventSet(WriterLog(t)))
    requires m in t.nodes && n in t.nodes
    ensures t.nodes[m].ledger.log <= t.nodes[n].ledger.log || t.nodes[n].ledger.log <= t.nodes[m].ledger.log
    ensures t.nodes[m].ledger.latest == t.nodes[n].ledger.latest <==> t.nodes[m].ledger.log == t.nodes[n].ledger.log
  {
    hide Initial, HashSound, LookupOf, Rebuild, Reaches;
    ReplicasArePrefixes(h, H, s, schedule, t);
    var a, b := t.nodes[m].ledger, t.nodes[n].ledger;
    assert NodeOk(h, t.nodes[m]) && NodeOk(h, t.nodes[n]);
    if a.latest == b.latest {
      UnionSound(h, a.log, b.log, WriterLog(t));
      TipDeterminesPrefix(h, a.log, b.log, |a.log|, |b.log|);
    }
  }

  lemma UnionSound(h: ChainHash, a: seq<Event>, b: seq<Event>, log: seq<Event>)
    requires a <= log && b <= log && HashSound(h, EventSet(log))
    ensures HashSound(h, EventSet(a) + EventSet(b))
  {
    assert EventSet(a) <= EventSet(log) && EventSet(b) <= EventSet(log);
  }
}
