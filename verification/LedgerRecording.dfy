/**
 What becomes of the events a node records itself (src/core/ledger/ledger.cpp:458-649):
 over every run each of them is appended, with the fields it was given, and the
 queries answer it.
 */
module LedgerRecording {
  import opened Bytes
  import opened Collections
  import opened LedgerEvent
  import opened LedgerIndex
  import opened Ledger

  // ---------------------------------------------------------------------- ids

  /** Different counters, clocks or nodes make different ids, as far as the digest can tell. */
  lemma IdMaterialInjective(a: Hash, i: u64, t: Clock, b: Hash, j: u64, u: Clock)
    requires IdMaterial(a, i, t) == IdMaterial(b, j, u)
    ensures a == b && i == j && t == u
  {
    hide Bytes32, ToLe, FromLe;
    var s := IdMaterial(a, i, t);
    assert Bytes32(a) == s[..32] == Bytes32(b);
    assert ToLe(i, 8) == s[32..40] == ToLe(j, 8);
    assert ToLe(t, 8) == s[40..48] == ToLe(u, 8);
    Bytes32Injective(a, b);
    Le64(i);
    Le64(j);
    Le64(t);
    Le64(u);
  }

  /** The signature covers id, previous hash and payload. */
  lemma TagMaterialInjective(a: Hash, p: Hash, x: bytes, b: Hash, q: Hash, y: bytes)
    requires TagMaterial(a, p, x) == TagMaterial(b, q, y)
    ensures a == b && p == q && x == y
  {
    hide Bytes32;
    var s := TagMaterial(a, p, x);
    assert Bytes32(a) == s[..32] == Bytes32(b);
    assert Bytes32(p) == s[32..64] == Bytes32(q);
    assert x == s[64..] == y;
    Bytes32Injective(a, b);
    Bytes32Injective(p, q);
  }

  // --------------------------------------------------------------------- runs

  function Recordings(ops: seq<Op>): nat {
    if ops == [] then 0 else Recordings(ops[..|ops| - 1]) + if ops[|ops| - 1].RecordOp? then 1 else 0
  }

  /** What a run hashes into ids: the counter is the number of the recording. */
  function IdInputs(local: Hash, ops: seq<Op>): set<bytes> {
    if ops == [] then {}
    else
      var front, op := ops[..|ops| - 1], ops[|ops| - 1];
      IdInputs(local, front) + if op.RecordOp? then {IdMaterial(local, Recordings(front) % TWO_64, op.now)} else {}
  }

  /** No external event of the run carries an id that the node makes itself. */
  ghost predicate ForeignIds(H: Hasher, ops: seq<Op>, inputs: set<bytes>) {
    forall i, x :: 0 <= i < |ops| && ops[i].ExternalOp? && x in inputs ==> ops[i].e.id != H(x)
  }

  /** The id of an event of the log is that of one of the first `n` recordings, or foreign. */
  ghost predicate Known(H: Hasher, local: Hash, e: Event, n: nat, inputs: set<bytes>) {
    || (forall x :: x in inputs ==> e.id != H(x))
    || (exists c: u64, t: Clock ::
          c < n && IdMaterial(local, c, t) in inputs && e.id == H(IdMaterial(local, c, t)))
  }

  ghost predicate RunOk(h: ChainHash, H: Hasher, local: Hash, ops: seq<Op>, inputs: set<bytes>) {
    var s := Run(h, H, Fresh(local), ops);
    && Valid(h, s) && s.local == local && s.counter == Recordings(ops) % TWO_64
    && forall e :: e in s.log ==> Known(H, local, e, Recordings(ops), inputs)
  }

  lemma KnownLater(H: Hasher, local: Hash, e: Event, m: nat, n: nat, inputs: set<bytes>)
    requires Known(H, local, e, m, inputs) && m <= n
    ensures Known(H, local, e, n, inputs)
  {
    hide IdMaterial;
  }

  /** The id of the next recording is not in the log. */
  lemma NextIdIsNew(h: ChainHash, H: Hasher, local: Hash, ops: seq<Op>, now: Clock, inputs: set<bytes>)
    requires RunOk(h, H, local, ops, inputs) && Recordings(ops) < TWO_64 && CollisionFree(H, inputs)
    requires IdMaterial(local, Recordings(ops), now) in inputs
    ensures H(IdMaterial(local, Recordings(ops), now)) !in Run(h, H, Fresh(local), ops).lookup
  {
    hide Chained, Rebuild, IdMaterial, Run;
    var s, n := Run(h, H, Fresh(local), ops), Recordings(ops);
    var id := H(IdMaterial(local, n, now));
    if id in s.lookup {
      var e := s.log[s.lookup[id]];
      assert e in s.log && e.id == id;
      var c: u64, t: Clock :| c < n && IdMaterial(local, c, t) in inputs && e.id == H(IdMaterial(local, c, t));
      IdMaterialInjective(local, c, t, local, n, now);
    }
  }

  /** The event that a recording makes: everything it was given is in it. */
  ghost predicate MadeOf(H: Hasher, e: Event, s: State, op: Op)
    requires op.RecordOp?
  {
    && e.kind == op.kind && e.data == op.data
    && e.source == s.local && e.timestamp == op.now && e.epoch == op.now / 600
    && e.previous == s.latest
    && e.id == H(IdMaterial(s.local, s.counter, op.now))
    && e.signature.first == e.signature.second == H(TagMaterial(e.id, e.previous, e.data))
  }

  /** The recording is appended. */
  ghost predicate Recorded(h: ChainHash, H: Hasher, s: State, op: Op)
    requires op.RecordOp?
  {
    exists e :: Apply(h, H, s, op).log == s.log + [e] && MadeOf(H, e, s, op)
  }

  lemma RecordStep(h: ChainHash, H: Hasher, s: State, op: Op)
    requires Valid(h, s) && op.RecordOp? && H(IdMaterial(s.local, s.counter, op.now)) !in s.lookup
    ensures Recorded(h, H, s, op)
    ensures forall e :: e in Apply(h, H, s, op).log ==> e in s.log || e.id == H(IdMaterial(s.local, s.counter, op.now))
  {
    hide IdMaterial, TagMaterial, Coherent, Follows;
    RecordAppendsIff(h, H, s, op.kind, op.data, op.now);
    var e := MakeEvent(H, s, op.kind, op.data, op.now);
    assert MadeOf(H, e, s, op);
    assert Apply(h, H, s, op).log == s.log + [e];
  }

  lemma CounterStep(h: ChainHash, H: Hasher, s: State, op: Op)
    ensures Apply(h, H, s, op).local == s.local
    ensures Apply(h, H, s, op).counter == if op.RecordOp? then (s.counter + 1) % TWO_64 else s.counter
    ensures op.ExternalOp? ==> forall e :: e in Apply(h, H, s, op).log ==> e in s.log || e == op.e
  {
    hide Accepts, ExternalAnswer, MakeEvent, Enter;
  }

  lemma NextCount(n: nat)
    ensures (n % TWO_64 + 1) % TWO_64 == (n + 1) % TWO_64
  {
  }

  lemma FrontForeign(H: Hasher, ops: seq<Op>, inputs: set<bytes>)
    requires ops != [] && ForeignIds(H, ops, inputs)
    ensures ForeignIds(H, ops[..|ops| - 1], inputs)
  {
    assert forall i :: 0 <= i < |ops| - 1 ==> ops[..|ops| - 1][i] == ops[i];
  }

  lemma {:induction false} RunStaysOk(h: ChainHash, H: Hasher, local: Hash, ops: seq<Op>, inputs: set<bytes>)
    requires IdInputs(local, ops) <= inputs && CollisionFree(H, inputs) && ForeignIds(H, ops, inputs)
    requires Recordings(ops) <= TWO_64
    ensures RunOk(h, H, local, ops, inputs)
    ensures ops != [] && ops[|ops| - 1].RecordOp? ==>
              Recorded(h, H, Run(h, H, Fresh(local), ops[..|ops| - 1]), ops[|ops| - 1])
  {
    hide RunOk, IdMaterial, Apply, Recorded, CollisionFree, ForeignIds;
    if ops == [] {
      FreshOk(h, H, local, inputs);
    } else {
      var front, op := ops[..|ops| - 1], ops[|ops| - 1];
      FrontForeign(H, ops, inputs);
      RunStaysOk(h, H, local, front, inputs);
      if op.RecordOp? { NextRecorded(h, H, local, front, op, inputs); }
      LastForeign(H, ops, inputs);
      NextOk(h, H, local, front, op, inputs);
      assert ops == front + [op];
    }
  }

  lemma FreshOk(h: ChainHash, H: Hasher, local: Hash, inputs: set<bytes>)
    ensures RunOk(h, H, local, [], inputs)
  {
    FreshValid(h, local);
  }

  lemma LastForeign(H: Hasher, ops: seq<Op>, inputs: set<bytes>)
    requires ops != [] && ForeignIds(H, ops, inputs)
    ensures ops[|ops| - 1].ExternalOp? ==> forall x :: x in inputs ==> ops[|ops| - 1].e.id != H(x)
  {
  }

  lemma NextRecorded(h: ChainHash, H: Hasher, local: Hash, front: seq<Op>, op: Op, inputs: set<bytes>)
    requires RunOk(h, H, local, front, inputs) && op.RecordOp? && CollisionFree(H, inputs)
    requires Recordings(front) < TWO_64 && IdMaterial(local, Recordings(front), op.now) in inputs
    ensures Recorded(h, H, Run(h, H, Fresh(local), front), op)
  {
    hide Valid, IdMaterial, Apply, Recorded, Known, CollisionFree;
    NextIdIsNew(h, H, local, front, op.now, inputs);
    RecordStep(h, H, Run(h, H, Fresh(local), front), op);
  }

  /** One more operation. */
  lemma NextOk(h: ChainHash, H: Hasher, local: Hash, front: seq<Op>, op: Op, inputs: set<bytes>)
    requires RunOk(h, H, local, front, inputs) && CollisionFree(H, inputs)
    requires op.RecordOp? ==> Recordings(front) < TWO_64 && IdMaterial(local, Recordings(front), op.now) in inputs
    requires op.ExternalOp? ==> forall x :: x in inputs ==> op.e.id != H(x)
    ensures RunOk(h, H, local, front + [op], inputs)
  {
    hide Valid, IdMaterial, Apply, Known, CollisionFree;
    var s, n, all := Run(h, H, Fresh(local), front), Recordings(front), front + [op];
    assert all[..|front|] == front;
    ApplyKeeps(h, H, s, op);
    CounterStep(h, H, s, op);
    NextCount(n);
    AllKnown(h, H, local, front, op, inputs);
  }

  lemma AllKnown(h: ChainHash, H: Hasher, local: Hash, front: seq<Op>, op: Op, inputs: set<bytes>)
    requires RunOk(h, H, local, front, inputs) && CollisionFree(H, inputs)
    requires op.RecordOp? ==> Recordings(front) < TWO_64 && IdMaterial(local, Recordings(front), op.now) in inputs
    requires op.ExternalOp? ==> forall x :: x in inputs ==> op.e.id != H(x)
    ensures forall e :: e in Apply(h, H, Run(h, H, Fresh(local), front), op).log ==>
              Known(H, local, e, Recordings(front) + if op.RecordOp? then 1 else 0, inputs)
  {
    hide Valid, IdMaterial, Apply, Recorded, Known, CollisionFree, Run, Recordings;
    var s, n := Run(h, H, Fresh(local), front), Recordings(front);
    CounterStep(h, H, s, op);
    if op.RecordOp? {
      NextIdIsNew(h, H, local, front, op.now, inputs);
      RecordStep(h, H, s, op);
    }
    forall e | e in Apply(h, H, s, op).log
      ensures Known(H, local, e, n + if op.RecordOp? then 1 else 0, inputs)
    {
      if e in s.log {
        KnownLater(H, local, e, n, n + if op.RecordOp? then 1 else 0, inputs);
      } else {
        NewIsKnown(H, local, e, op, n, inputs);
      }
    }
  }

  lemma NewIsKnown(H: Hasher, local: Hash, e: Event, op: Op, n: nat, inputs: set<bytes>)
    requires op.RecordOp? ==>
               n < TWO_64 && IdMaterial(local, n, op.now) in inputs && e.id == H(IdMaterial(local, n, op.now))
    requires op.ExternalOp? ==> forall x :: x in inputs ==> e.id != H(x)
    ensures Known(H, local, e, n + if op.RecordOp? then 1 else 0, inputs)
  {
    hide IdMaterial;
    if op.RecordOp? {
      var c: u64, t: Clock := n, op.now;
      assert c < n + 1 && IdMaterial(local, c, t) in inputs && e.id == H(IdMaterial(local, c, t));
    }
  }

  /**
   Every recording of every run of at most 2^64 of them is appended, with the given
   kind, payload, node, clock and epoch, as long as the digest tells the ids apart and
   no external event uses one of them.
   */
  lemma EveryRecordingAppended(h: ChainHash, H: Hasher, local: Hash, ops: seq<Op>, i: nat)
    requires CollisionFree(H, IdInputs(local, ops)) && ForeignIds(H, ops, IdInputs(local, ops))
    requires Recordings(ops) <= TWO_64 && i < |ops| && ops[i].RecordOp?
    ensures Recorded(h, H, Run(h, H, Fresh(local), ops[..i]), ops[i])
  {
    hide Run, Recorded, CollisionFree;
    var upTo := ops[..i + 1];
    assert upTo[..i] == ops[..i] && upTo[i] == ops[i];
    PrefixInputs(local, ops, i + 1);
    assert ForeignIds(H, upTo, IdInputs(local, ops)) by {
      assert forall k :: 0 <= k <= i ==> upTo[k] == ops[k];
    }
    RunStaysOk(h, H, local, upTo, IdInputs(local, ops));
  }

  lemma {:induction false} PrefixInputs(local: Hash, ops: seq<Op>, k: nat)
    requires k <= |ops|
    ensures IdInputs(local, ops[..k]) <= IdInputs(local, ops) && Recordings(ops[..k]) <= Recordings(ops)
  {
    hide IdMaterial;
    if k == |ops| {
      assert ops[..k] == ops;
    } else {
      var front := ops[..|ops| - 1];
      PrefixInputs(local, front, k);
      assert front[..k] == ops[..k];
    }
  }

  // --------------------------------------------------- the queries answer it

  lemma AnswersOf(log: seq<Event>, e: Event)
    ensures Agrees(Rebuild(log + [e]), log + [e]) && e in log + [e]
  {
    RebuildAgrees(log + [e]);
  }

  /**
   After any recording that is appended, the queries answer it: a replica's host, a
   network's member, a node's join time, and the keys it has issued.
   */
  lemma QueriesAnswer(h: ChainHash, H: Hasher, s: State, op: Op, a: Hash, b: Hash, c: Hash, size: u64, role: bytes)
    requires Valid(h, s) && op.RecordOp? && Recorded(h, H, s, op)
    ensures var x := Apply(h, H, s, op).index;
            && (op.kind == THING_REPLICATED && op.data == EncodeReplication(a, b, c, size) ==> c in SetAt(x.hosts, a))
            && (op.kind == NETWORK_MEMBER_ADDED && op.data == EncodeMembership(a, b, role) ==> b in SetAt(x.members, a))
            && (op.kind == NODE_JOINED ==> s.local in x.joinTimes && x.joinTimes[s.local] == op.now)
  {
    hide KeyIssuance, Membership, Replication, EncodeReplication, EncodeMembership, EncodeKeyIssuance;
    hide Chained, LookupOf, Rebuild, IdMaterial, TagMaterial, Apply;
    var t := Apply(h, H, s, op);
    var e :| t.log == s.log + [e] && MadeOf(H, e, s, op);
    ApplyKeeps(h, H, s, op);
    AnswersOf(s.log, e);
    PayloadsReadBack(0, 0, 0, a, b, c, role, size);
    assert ThingAgrees(t.index, t.log, a) && NetworkAgrees(t.index, t.log, a) && JoinAgrees(t.index, t.log, s.local);
    if op.kind == THING_REPLICATED && op.data == EncodeReplication(a, b, c, size) {
      assert AddsHost(e, a, c);
    }
    if op.kind == NETWORK_MEMBER_ADDED && op.data == EncodeMembership(a, b, role) {
      assert AddsMember(e, a, b);
    }
    WhereSnoc(s.log, e, Joins(s.local));
  }

  /** A recorded key issue adds its count to the node's total, modulo 2^32, and to no other total. */
  lemma KeysAnswer(
      h: ChainHash, H: Hasher, s: State, op: Op, keyType: byte, count: u32, how: byte, proof: Hash,
      node: Hash, other: byte)
    requires Valid(h, s) && op.RecordOp? && Recorded(h, H, s, op)
    requires op.kind == KEY_ISSUED && op.data == EncodeKeyIssuance(keyType, count, how, proof)
    ensures CountAt(Apply(h, H, s, op).index.keys, (node, other))
         == (CountAt(s.index.keys, (node, other)) + if node == s.local && other == keyType then count else 0) % TWO_32
  {
    hide KeyIssuance, Membership, Replication, EncodeReplication, EncodeMembership, EncodeKeyIssuance;
    hide Chained, LookupOf, Rebuild, IdMaterial, TagMaterial, Apply;
    var t := Apply(h, H, s, op);
    var e :| t.log == s.log + [e] && MadeOf(H, e, s, op);
    ApplyKeeps(h, H, s, op);
    AnswersOf(s.log, e);
    RebuildAgrees(s.log);
    PayloadsReadBack(keyType, count, how, proof, 0, 0, [], 0);
    assert KeysAgree(t.index, t.log, node, other) && KeysAgree(s.index, s.log, node, other);
    assert (s.log + [e])[..|s.log|] == s.log;
    AddMod(TotalIssued(s.log, node, other), IssuedBy(e, node, other));
  }
}
