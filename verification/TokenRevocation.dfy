/**
 Token revocations: storage, the indexes over it, and the revocation check
 (src/security/token_revocation.cpp:12-35, 121-138, 244-301, 358-402, 468-548).
 */
module TokenRevocation {
  import opened Bytes
  import opened Collections

  datatype Revocation = Revocation(
    node: Hash,
    capability: byte,
    reason: byte,
    revokedAt: u64,
    revoker: Hash,
    context: bytes,
    signature: Signature)

  datatype Token = Token(node: Hash, capability: byte, issuedAt: u64, context: bytes)

  datatype Entry = Entry(revocation: Revocation, addedAt: Clock, witnesses: set<Hash>)

  datatype Config = Config(expiryDays: u32, limit: u32)

  datatype State = State(
    store: map<Hash, Entry>,
    byNode: map<Hash, set<Hash>>,
    byCapability: map<byte, set<Hash>>,
    seen: set<Hash>)

  const EMPTY: State := State(map[], map[], map[], {})

  /** Contexts matter only if both sides have one; tokens issued at or after the revocation are not touched. */
  predicate Matches(r: Revocation, t: Token) {
    && t.node == r.node
    && t.capability == r.capability
    && (r.context == [] || t.context == [] || r.context == t.context)
    && t.issuedAt < r.revokedAt
  }

  /** What is hashed into the id: everything but the signature. */
  function IdBytes(r: Revocation): (s: bytes)
    ensures |s| == 74 + |r.context|
  {
    Bytes32(r.node) + [r.capability] + [r.reason] + ToLe(r.revokedAt, 8) + Bytes32(r.revoker) + r.context
  }

  lemma IdParts(r: Revocation, s: bytes)
    requires s == IdBytes(r)
    ensures s[0..32] == Bytes32(r.node) && s[32] == r.capability && s[33] == r.reason
    ensures s[34..42] == ToLe(r.revokedAt, 8) && s[42..74] == Bytes32(r.revoker) && s[74..] == r.context
  {
  }

  /** Equal id bytes mean equal revocations, up to the signature. */
  lemma IdDetermines(r: Revocation, q: Revocation)
    requires IdBytes(r) == IdBytes(q)
    ensures r == q.(signature := r.signature)
  {
    hide IdBytes, Bytes32, ToLe, Read256, Read64;
    var s := IdBytes(r);
    IdParts(r, s);
    IdParts(q, s);
    Read256At(s, 0, r.node);
    Read256At(s, 0, q.node);
    Read64At(s, 34, r.revokedAt);
    Read64At(s, 34, q.revokedAt);
    Read256At(s, 42, r.revoker);
    Read256At(s, 42, q.revoker);
  }

  /** Days are turned into seconds in 32 bits, and the sum is taken in 64. */
  predicate Expired(c: Config, r: Revocation, now: Clock) {
    now >= (r.revokedAt + (c.expiryDays * 86400) % TWO_32) % TWO_64
  }

  /** The limit is only looked at for a node that has revocations already. */
  predicate AtLimit(c: Config, s: State, node: Hash) {
    node in s.byNode && |s.byNode[node]| >= c.limit
  }

  predicate Acceptable(c: Config, s: State, r: Revocation, now: Clock) {
    !Expired(c, r, now) && r.revokedAt <= now + 300 && !AtLimit(c, s, r.node)
  }

  // ------------------------------------------------------------- operations

  function Add(s: State, id: Hash, e: Entry): State {
    var r := e.revocation;
    s.(store := s.store[id := e],
       byNode := s.byNode[r.node := SetAt(s.byNode, r.node) + {id}],
       byCapability := s.byCapability[r.capability := SetAt(s.byCapability, r.capability) + {id}])
  }

  /** `revoke_token`: a local revocation is not marked as seen. */
  function Revoke(H: Hasher, c: Config, s: State, r: Revocation, now: Clock): State {
    if AtLimit(c, s, r.node) then s else Add(s, H(IdBytes(r)), Entry(r, now, {}))
  }

  predicate Takes(H: Hasher, c: Config, s: State, r: Revocation, now: Clock) {
    H(IdBytes(r)) !in s.seen && Acceptable(c, s, r, now)
  }

  function Process(H: Hasher, c: Config, s: State, r: Revocation, from: Hash, now: Clock): State {
    if Takes(H, c, s, r, now)
    then
      var t := Add(s, H(IdBytes(r)), Entry(r, now, {from}));
      t.(seen := t.seen + {H(IdBytes(r))})
    else s
  }

  function Dead(c: Config, s: State, now: Clock): set<Hash> {
    set id | id in s.store && Expired(c, s.store[id].revocation, now)
  }

  /** The ids of `dead` taken out of an index; entries that become empty go as well. */
  function Pruned<K>(m: map<K, set<Hash>>, dead: set<Hash>): map<K, set<Hash>> {
    map k | k in m && m[k] - dead != {} :: m[k] - dead
  }

  function Without(s: State, dead: set<Hash>): State {
    State(s.store - dead, Pruned(s.byNode, dead), Pruned(s.byCapability, dead), s.seen - dead)
  }

  function CleanUp(c: Config, s: State, now: Clock): State {
    Without(s, Dead(c, s, now))
  }

  predicate Revoked(s: State, t: Token) {
    exists id :: id in SetAt(s.byNode, t.node) && id in s.store && Matches(s.store[id].revocation, t)
  }

  // -------------------------------------------------------------- invariant

  function ByNode(): Revocation -> Hash { (r: Revocation) => r.node }

  function ByCapability(): Revocation -> byte { (r: Revocation) => r.capability }

  predicate Has<K(==)>(m: map<K, set<Hash>>, k: K, id: Hash) {
    k in m && id in m[k]
  }

  /** The index lists every stored revocation under its own key, nothing else, and no empty entries. */
  ghost predicate Lists<K(!new)>(m: map<K, set<Hash>>, store: map<Hash, Entry>, key: Revocation -> K) {
    && (forall k, id :: Has(m, k, id) <==> id in store && key(store[id].revocation) == k)
    && (forall k :: k in m ==> m[k] != {})
  }

  lemma AddLists<K(!new)>(m: map<K, set<Hash>>, store: map<Hash, Entry>, key: Revocation -> K, id: Hash, e: Entry)
    requires Lists(m, store, key) && (id in store ==> key(store[id].revocation) == key(e.revocation))
    ensures var k := key(e.revocation);
            Lists(m[k := SetAt(m, k) + {id}], store[id := e], key)
  {
    var k := key(e.revocation);
    var m' := m[k := SetAt(m, k) + {id}];
    forall j, x ensures Has(m', j, x) <==> x in store[id := e] && key(store[id := e][x].revocation) == j {
      assert Has(m, j, x) <==> x in store && key(store[x].revocation) == j;
    }
  }

  /** An entry that is replaced has the node and the capability of the new one. */
  ghost predicate SameKeys(store: map<Hash, Entry>, id: Hash, e: Entry) {
    id in store ==>
      && store[id].revocation.node == e.revocation.node
      && store[id].revocation.capability == e.revocation.capability
  }

  lemma PrunedLists<K(!new)>(m: map<K, set<Hash>>, store: map<Hash, Entry>, key: Revocation -> K, dead: set<Hash>)
    requires Lists(m, store, key)
    ensures Lists(Pruned(m, dead), store - dead, key)
  {
    forall j, x ensures Has(Pruned(m, dead), j, x) <==> x in store - dead && key((store - dead)[x].revocation) == j {
      assert Has(m, j, x) <==> x in store && key(store[x].revocation) == j;
      assert Has(m, j, x) && x !in dead ==> x in m[j] - dead;
    }
  }

  function Cap(c: Config): nat {
    if c.limit == 0 then 1 else c.limit
  }

  /** The indexes list exactly the stored revocations, everything seen is stored, and no node is over its limit. */
  ghost predicate Inv(H: Hasher, c: Config, s: State) {
    && (forall id :: id in s.store ==> id == H(IdBytes(s.store[id].revocation)))
    && Lists(s.byNode, s.store, ByNode())
    && Lists(s.byCapability, s.store, ByCapability())
    && (forall n :: n in s.byNode ==> |s.byNode[n]| <= Cap(c))
    && s.seen <= s.store.Keys
  }

  /** The digest does not confuse `r` with a stored revocation. */
  ghost predicate NoClash(H: Hasher, s: State, r: Revocation) {
    var id := H(IdBytes(r));
    id in s.store ==> IdBytes(s.store[id].revocation) == IdBytes(r)
  }

  lemma AddInv(H: Hasher, c: Config, s: State, e: Entry)
    requires Inv(H, c, s) && NoClash(H, s, e.revocation) && !AtLimit(c, s, e.revocation.node)
    ensures Inv(H, c, Add(s, H(IdBytes(e.revocation)), e))
  {
    hide IdBytes, Lists;
    var r, id := e.revocation, H(IdBytes(e.revocation));
    if id in s.store { IdDetermines(s.store[id].revocation, r); }
    AddLists(s.byNode, s.store, ByNode(), id, e);
    AddLists(s.byCapability, s.store, ByCapability(), id, e);
    assert |SetAt(s.byNode, r.node) + {id}| <= |SetAt(s.byNode, r.node)| + 1;
  }

  lemma WithoutInv(H: Hasher, c: Config, s: State, dead: set<Hash>)
    requires Inv(H, c, s)
    ensures Inv(H, c, Without(s, dead))
  {
    hide IdBytes, Lists;
    PrunedLists(s.byNode, s.store, ByNode(), dead);
    PrunedLists(s.byCapability, s.store, ByCapability(), dead);
    forall n | n in Pruned(s.byNode, dead) ensures |Pruned(s.byNode, dead)[n]| <= Cap(c) {
      SubsetSize(s.byNode[n] - dead, s.byNode[n]);
    }
  }

  /** The indexed check answers as a search of the whole store would. */
  lemma RevokedIff(H: Hasher, c: Config, s: State, t: Token)
    requires Inv(H, c, s)
    ensures Revoked(s, t) <==> exists id :: id in s.store && Matches(s.store[id].revocation, t)
  {
    hide IdBytes;
    assert forall id :: Has(s.byNode, t.node, id) <==> id in s.store && ByNode()(s.store[id].revocation) == t.node;
  }

  // ------------------------------------------------------------------- runs

  datatype Op =
    | RevokeOp(r: Revocation, now: Clock)
    | ProcessOp(r: Revocation, from: Hash, now: Clock)
    | CleanUpOp(now: Clock)

  function Apply(H: Hasher, c: Config, s: State, op: Op): State {
    match op
    case RevokeOp(r, now) => Revoke(H, c, s, r.(revokedAt := now), now)
    case ProcessOp(r, from, now) => Process(H, c, s, r, from, now)
    case CleanUpOp(now) => CleanUp(c, s, now)
  }

  function Run(H: Hasher, c: Config, s: State, ops: seq<Op>): State {
    if ops == [] then s else Apply(H, c, Run(H, c, s, ops[..|ops| - 1]), ops[|ops| - 1])
  }

  /** What an operation may hash. */
  function Hashed(op: Op): set<bytes> {
    match op
    case RevokeOp(r, now) => {IdBytes(r.(revokedAt := now))}
    case ProcessOp(r, _, _) => {IdBytes(r)}
    case CleanUpOp(_) => {}
  }

  function AllHashed(ops: seq<Op>): set<bytes> {
    if ops == [] then {} else AllHashed(ops[..|ops| - 1]) + Hashed(ops[|ops| - 1])
  }

  ghost predicate StoredFrom(s: State, inputs: set<bytes>) {
    forall id :: id in s.store ==> IdBytes(s.store[id].revocation) in inputs
  }

  lemma ApplyInv(H: Hasher, c: Config, s: State, op: Op, inputs: set<bytes>)
    requires Inv(H, c, s) && StoredFrom(s, inputs) && Hashed(op) <= inputs && CollisionFree(H, inputs)
    ensures Inv(H, c, Apply(H, c, s, op)) && StoredFrom(Apply(H, c, s, op), inputs)
  {
    hide IdBytes, Expired;
    match op
    case RevokeOp(r, now) =>
      var q := r.(revokedAt := now);
      assert NoClash(H, s, q);
      if !AtLimit(c, s, q.node) { AddInv(H, c, s, Entry(q, now, {})); }
    case ProcessOp(r, from, now) =>
      assert NoClash(H, s, r);
      if Takes(H, c, s, r, now) {
        AddInv(H, c, s, Entry(r, now, {from}));
        SeenInv(H, c, Add(s, H(IdBytes(r)), Entry(r, now, {from})), H(IdBytes(r)));
      }
    case CleanUpOp(now) => WithoutInv(H, c, s, Dead(c, s, now));
  }

  lemma SeenInv(H: Hasher, c: Config, s: State, id: Hash)
    requires Inv(H, c, s) && id in s.store
    ensures Inv(H, c, s.(seen := s.seen + {id}))
  {
    hide IdBytes, Lists;
  }

  /**
   In every reachable state the indexes agree with the store, no node is over its
   limit, and a token counts as revoked exactly if some stored revocation matches it.
   */
  lemma {:induction false} IndexesAgree(H: Hasher, c: Config, ops: seq<Op>, t: Token)
    requires CollisionFree(H, AllHashed(ops))
    ensures Inv(H, c, Run(H, c, EMPTY, ops))
    ensures StoredFrom(Run(H, c, EMPTY, ops), AllHashed(ops))
    ensures var s := Run(H, c, EMPTY, ops);
            Revoked(s, t) <==> exists id :: id in s.store && Matches(s.store[id].revocation, t)
  {
    hide Apply, IdBytes, Matches, Hashed, Inv;
    if ops == [] {
      EmptyInv(H, c);
    } else {
      var front := ops[..|ops| - 1];
      IndexesAgree(H, c, front, t);
      ApplyInv(H, c, Run(H, c, EMPTY, front), ops[|ops| - 1], AllHashed(ops));
    }
    RevokedIff(H, c, Run(H, c, EMPTY, ops), t);
  }

  lemma EmptyInv(H: Hasher, c: Config)
    ensures Inv(H, c, EMPTY)
  {
  }

  // ------------------------------------------------------- accepted only once

  /** The revocations that the calls of `process_revocation` in a run accept, in order. */
  function Accepted(H: Hasher, c: Config, ops: seq<Op>): seq<Revocation> {
    if ops == [] then []
    else
      var front, op := ops[..|ops| - 1], ops[|ops| - 1];
      Accepted(H, c, front)
      + if op.ProcessOp? && Takes(H, c, Run(H, c, EMPTY, front), op.r, op.now) then [op.r] else []
  }

  ghost predicate Monotone(ops: seq<Op>) {
    forall i, j :: 0 <= i <= j < |ops| ==> ops[i].now <= ops[j].now
  }

  function LastNow(ops: seq<Op>): Clock {
    if ops == [] then 0 else ops[|ops| - 1].now
  }

  /** An accepted revocation is remembered, or has expired and stays so. */
  ghost predicate Remembered(H: Hasher, c: Config, s: State, r: Revocation, inputs: set<bytes>, now: Clock) {
    IdBytes(r) in inputs && (H(IdBytes(r)) in s.seen || Expired(c, r, now))
  }

  /** Expiry depends on the id alone, and never ends. */
  lemma ExpiryStays(c: Config, r: Revocation, q: Revocation, before: Clock, now: Clock)
    requires IdBytes(r) == IdBytes(q) && Expired(c, r, before) && before <= now
    ensures Expired(c, q, now)
  {
    hide IdBytes;
    IdDetermines(r, q);
  }

  /** No step forgets an accepted revocation before it has expired. */
  lemma StepRemembers(H: Hasher, c: Config, s: State, op: Op, r: Revocation, inputs: set<bytes>, before: Clock)
    requires Inv(H, c, s) && StoredFrom(s, inputs) && CollisionFree(H, inputs) && before <= op.now
    requires Remembered(H, c, s, r, inputs, before)
    ensures Remembered(H, c, Apply(H, c, s, op), r, inputs, op.now)
  {
    hide IdBytes, Expired, Lists, Acceptable;
    var id := H(IdBytes(r));
    if Expired(c, r, before) {
      ExpiryStays(c, r, r, before, op.now);
    } else if op.CleanUpOp? && id in Dead(c, s, op.now) {
      var q := s.store[id].revocation;
      assert H(IdBytes(q)) == H(IdBytes(r)) && IdBytes(q) in inputs;
      ExpiryStays(c, q, r, op.now, op.now);
    }
  }

  /** What is accepted now was not accepted before. */
  lemma NotAgain(
      H: Hasher, c: Config, s: State, r: Revocation, q: Revocation, inputs: set<bytes>, before: Clock, now: Clock)
    requires CollisionFree(H, inputs) && IdBytes(q) in inputs && before <= now
    requires Remembered(H, c, s, r, inputs, before) && Takes(H, c, s, q, now)
    ensures H(IdBytes(r)) != H(IdBytes(q))
  {
    hide IdBytes, Expired;
    if H(IdBytes(r)) == H(IdBytes(q)) { ExpiryStays(c, r, q, before, now); }
  }

  ghost predicate DifferentIds(H: Hasher, rs: seq<Revocation>) {
    forall i, j :: 0 <= i < j < |rs| ==> H(IdBytes(rs[i])) != H(IdBytes(rs[j]))
  }

  lemma {:induction false} AcceptedRemembered(H: Hasher, c: Config, ops: seq<Op>, inputs: set<bytes>)
    requires Monotone(ops) && AllHashed(ops) <= inputs && CollisionFree(H, inputs)
    ensures var rs, s := Accepted(H, c, ops), Run(H, c, EMPTY, ops);
            && DifferentIds(H, rs)
            && (forall i :: 0 <= i < |rs| ==> Remembered(H, c, s, rs[i], inputs, LastNow(ops)))
            && Inv(H, c, s) && StoredFrom(s, inputs)
  {
    hide IdBytes, Inv, StoredFrom, Remembered, Takes, Apply, CollisionFree;
    if ops == [] {
      EmptyInv(H, c);
      NothingStored(inputs);
    } else {
      var front, op := ops[..|ops| - 1], ops[|ops| - 1];
      var s, rs := Run(H, c, EMPTY, front), Accepted(H, c, front);
      AcceptedRemembered(H, c, front, inputs);
      ApplyInv(H, c, s, op, inputs);
      forall i | 0 <= i < |rs| ensures Remembered(H, c, Apply(H, c, s, op), rs[i], inputs, op.now) {
        StepRemembers(H, c, s, op, rs[i], inputs, LastNow(front));
      }
      if op.ProcessOp? && Takes(H, c, s, op.r, op.now) {
        JustSeen(H, c, s, op, inputs);
        forall i | 0 <= i < |rs| ensures H(IdBytes(rs[i])) != H(IdBytes(op.r)) {
          NotAgain(H, c, s, rs[i], op.r, inputs, LastNow(front), op.now);
        }
      }
    }
  }

  lemma NothingStored(inputs: set<bytes>)
    ensures StoredFrom(EMPTY, inputs)
  {
  }

  lemma JustSeen(H: Hasher, c: Config, s: State, op: Op, inputs: set<bytes>)
    requires op.ProcessOp? && Takes(H, c, s, op.r, op.now) && Hashed(op) <= inputs
    ensures IdBytes(op.r) in inputs && Remembered(H, c, Apply(H, c, s, op), op.r, inputs, op.now)
  {
    hide IdBytes;
  }

  /**
   Over every run with a clock that does not go back, whatever is revoked locally and
   cleaned up in between, no revocation id is accepted twice: a seen id is forgotten
   only once it has expired, and what has expired is refused for good.
   */
  lemma AcceptedAtMostOnce(H: Hasher, c: Config, ops: seq<Op>)
    requires Monotone(ops) && CollisionFree(H, AllHashed(ops))
    ensures DifferentIds(H, Accepted(H, c, ops))
  {
    hide DifferentIds, Inv;
    AcceptedRemembered(H, c, ops, AllHashed(ops));
  }

  ghost predicate WithinLimit(c: Config, s: State) {
    forall n :: n in s.byNode ==> |s.byNode[n]| <= c.limit
  }

  /** The first revocation of a node gets in whatever the limit. */
  lemma FirstGetsIn(H: Hasher, c: Config, r: Revocation, now: Clock)
    ensures var ops := [RevokeOp(r, now)];
            && CollisionFree(H, AllHashed(ops))
            && r.node in Run(H, c, EMPTY, ops).byNode && |Run(H, c, EMPTY, ops).byNode[r.node]| == 1
  {
    hide IdBytes;
    var ops := [RevokeOp(r, now)];
    assert ops[..0] == [];
    var id := H(IdBytes(r.(revokedAt := now)));
    assert Run(H, c, EMPTY, ops).byNode[r.node] == {id};
  }

  /** Over all runs: no node is ever over the limit exactly if the limit is not zero, which still lets one through. */
  lemma LimitKeptIff(H: Hasher, c: Config)
    ensures c.limit != 0
       <==> forall ops :: CollisionFree(H, AllHashed(ops)) ==> WithinLimit(c, Run(H, c, EMPTY, ops))
  {
    hide Run, AllHashed, CollisionFree, IdBytes;
    if c.limit != 0 {
      forall ops | CollisionFree(H, AllHashed(ops)) ensures WithinLimit(c, Run(H, c, EMPTY, ops)) {
        IndexesAgree(H, c, ops, Token(0, 0, 0, []));
      }
    } else {
      var r := Revocation(0, 0, 0, 0, 0, [], Signature(0, 0));
      FirstGetsIn(H, c, r, 0);
      assert !WithinLimit(c, Run(H, c, EMPTY, [RevokeOp(r, 0)]));
    }
  }

  // ------------------------------------------------------- what gets revoked

  /** The revocation came with an operation of the run. */
  ghost predicate CameFrom(ops: seq<Op>, q: Revocation) {
    exists i :: 0 <= i < |ops| && CameWith(ops[i], q)
  }

  predicate CameWith(op: Op, q: Revocation) {
    || (op.RevokeOp? && q == op.r.(revokedAt := op.now))
    || (op.ProcessOp? && q == op.r && q.revokedAt <= op.now + 300)
  }

  lemma {:induction false} StoredCameFrom(H: Hasher, c: Config, ops: seq<Op>)
    ensures forall id :: id in Run(H, c, EMPTY, ops).store ==> CameFrom(ops, Run(H, c, EMPTY, ops).store[id].revocation)
  {
    hide IdBytes, Expired, AtLimit;
    if ops != [] {
      var n := |ops| - 1;
      var front := ops[..n];
      StoredCameFrom(H, c, front);
      forall q | CameFrom(front, q) ensures CameFrom(ops, q) {
        var i :| 0 <= i < |front| && CameWith(front[i], q);
        assert CameWith(ops[i], q);
      }
      forall id | id in Run(H, c, EMPTY, ops).store
        ensures CameFrom(ops, Run(H, c, EMPTY, ops).store[id].revocation)
      {
        if id !in Run(H, c, EMPTY, front).store
           || Run(H, c, EMPTY, front).store[id] != Run(H, c, EMPTY, ops).store[id] {
          assert CameWith(ops[n], Run(H, c, EMPTY, ops).store[id].revocation);
        }
      }
    }
  }

  /** The revocation speaks of the token's node and capability, in its context, and is younger than it. */
  predicate Concerns(q: Revocation, node: Hash, capability: byte, context: bytes, issuedAt: u64) {
    && q.node == node && q.capability == capability
    && (q.context == context || q.context == [] || context == [])
    && q.revokedAt > issuedAt
  }

  /** Nothing is revoked but by an operation of the run that concerns it. */
  lemma RevokedOnlyBy(H: Hasher, c: Config, ops: seq<Op>, node: Hash, capability: byte, context: bytes, issuedAt: u64)
    requires Revoked(Run(H, c, EMPTY, ops), Token(node, capability, issuedAt, context))
    ensures exists q :: CameFrom(ops, q) && Concerns(q, node, capability, context, issuedAt)
  {
    hide IdBytes, Run;
    StoredCameFrom(H, c, ops);
    var s, t := Run(H, c, EMPTY, ops), Token(node, capability, issuedAt, context);
    var id :| id in SetAt(s.byNode, t.node) && id in s.store && Matches(s.store[id].revocation, t);
    assert Concerns(s.store[id].revocation, node, capability, context, issuedAt);
  }

  /** The revocation, up to its signature, is stored. */
  ghost predicate Holds(H: Hasher, s: State, q: Revocation) {
    var id := H(IdBytes(q));
    id in s.store && IdBytes(s.store[id].revocation) == IdBytes(q)
  }

  /** It is stored still after any operation but a cleanup at or after its expiry. */
  lemma HoldsStays(H: Hasher, c: Config, s: State, op: Op, q: Revocation, inputs: set<bytes>)
    requires Holds(H, s, q) && CollisionFree(H, inputs) && IdBytes(q) in inputs && Hashed(op) <= inputs
    requires op.CleanUpOp? ==> !Expired(c, q, op.now)
    ensures Holds(H, Apply(H, c, s, op), q)
  {
    hide IdBytes, Expired, AtLimit, Acceptable;
    var id := H(IdBytes(q));
    if op.CleanUpOp? && id in Dead(c, s, op.now) {
      ExpiryStays(c, s.store[id].revocation, q, op.now, op.now);
    }
  }

  ghost predicate NoCleanupPast(c: Config, ops: seq<Op>, from: nat, q: Revocation) {
    forall k :: from <= k < |ops| && ops[k].CleanUpOp? ==> !Expired(c, q, ops[k].now)
  }

  lemma {:induction false} HoldsUntilExpiry(
      H: Hasher, c: Config, ops: seq<Op>, from: nat, q: Revocation, inputs: set<bytes>)
    requires from <= |ops| && Holds(H, Run(H, c, EMPTY, ops[..from]), q) && NoCleanupPast(c, ops, from, q)
    requires CollisionFree(H, inputs) && AllHashed(ops) <= inputs && IdBytes(q) in inputs
    ensures Holds(H, Run(H, c, EMPTY, ops), q)
  {
    hide IdBytes, Expired, Holds, Apply, CollisionFree;
    if from == |ops| {
      assert ops[..from] == ops;
    } else {
      var front := ops[..|ops| - 1];
      assert front[..from] == ops[..from];
      assert NoCleanupPast(c, front, from, q) by { assert forall k :: from <= k < |front| ==> front[k] == ops[k]; }
      HoldsUntilExpiry(H, c, front, from, q, inputs);
      HoldsStays(H, c, Run(H, c, EMPTY, front), ops[|ops| - 1], q, inputs);
    }
  }

  /** The operation puts the revocation into the store. */
  ghost predicate PutsIn(H: Hasher, c: Config, s: State, op: Op, q: Revocation) {
    || (op.RevokeOp? && q == op.r.(revokedAt := op.now) && !(q.node in s.byNode && |s.byNode[q.node]| >= c.limit))
    || (op.ProcessOp? && q == op.r && H(IdBytes(q)) !in s.seen && q.revokedAt <= op.now + 300
        && !Expired(c, q, op.now) && !(q.node in s.byNode && |s.byNode[q.node]| >= c.limit))
  }

  lemma PutIn(H: Hasher, c: Config, s: State, op: Op, q: Revocation)
    requires PutsIn(H, c, s, op, q)
    ensures Holds(H, Apply(H, c, s, op), q) && IdBytes(q) in Hashed(op)
    ensures Apply(H, c, s, op).store[H(IdBytes(q))]
         == Entry(q, op.now, if op.ProcessOp? then {op.from} else {})
    ensures Apply(H, c, s, op).seen == s.seen + if op.ProcessOp? then {H(IdBytes(q))} else {}
  {
    hide IdBytes, Expired;
  }

  /**
   What is revoked stays revoked until it expires: over every run, a local revocation of
   a node below its limit, or one taken from the network, revokes every token it concerns
   at every later point before a cleanup finds it expired.
   */
  lemma RevokedUntilExpiry(
      H: Hasher, c: Config, ops: seq<Op>, i: nat, q: Revocation, capability: byte, context: bytes, issuedAt: u64)
    requires CollisionFree(H, AllHashed(ops)) && i < |ops| && PutsIn(H, c, Run(H, c, EMPTY, ops[..i]), ops[i], q)
    requires NoCleanupPast(c, ops, i + 1, q) && Concerns(q, q.node, capability, context, issuedAt)
    ensures Revoked(Run(H, c, EMPTY, ops), Token(q.node, capability, issuedAt, context))
  {
    hide IdBytes, Run, CollisionFree, Inv, Expired, PutsIn;
    var t := Token(q.node, capability, issuedAt, context);
    var s := Run(H, c, EMPTY, ops[..i]);
    RunPrefix(H, c, ops, i);
    PutIn(H, c, s, ops[i], q);
    HoldsUntilExpiry(H, c, ops, i + 1, q, AllHashed(ops));
    var u := Run(H, c, EMPTY, ops);
    var stored := u.store[H(IdBytes(q))].revocation;
    IdDetermines(stored, q);
    assert Matches(stored, t);
    IndexesAgree(H, c, ops, t);
  }

  lemma {:induction false} RunPrefix(H: Hasher, c: Config, ops: seq<Op>, i: nat)
    requires i < |ops|
    ensures Run(H, c, EMPTY, ops[..i + 1]) == Apply(H, c, Run(H, c, EMPTY, ops[..i]), ops[i])
    ensures Hashed(ops[i]) <= AllHashed(ops)
  {
    hide Apply, Hashed;
    assert ops[..i + 1][..i] == ops[..i];
    if i < |ops| - 1 {
      var front := ops[..|ops| - 1];
      RunPrefix(H, c, front, i);
    }
  }

  /** Expiry is a matter of days, as long as neither product nor sum overflows. */
  lemma ExpiredIff(c: Config, r: Revocation, now: Clock)
    requires c.expiryDays < 49711 && r.revokedAt + c.expiryDays * 86400 < TWO_64
    ensures Expired(c, r, now) <==> r.revokedAt + c.expiryDays * 24 * 60 * 60 <= now
  {
  }

  // ------------------------------------------------------------- the object

  class Manager {
    const hasher: Hasher
    const config: Config
    var store: map<Hash, Entry>
    var byNode: map<Hash, set<Hash>>
    var byCapability: map<byte, set<Hash>>
    var seen: set<Hash>

    ghost function View(): State
      reads this
    {
      State(store, byNode, byCapability, seen)
    }

    constructor (hasher: Hasher, config: Config)
      ensures this.hasher == hasher && this.config == config && View() == EMPTY
    {
      this.hasher, this.config := hasher, config;
      store, byNode, byCapability, seen := map[], map[], map[], {};
    }

    /**
     Enters a stored revocation.  Indexes that listed exactly what was stored before
     list exactly what is stored with it; nothing is listed twice or under another key.
     */
    method AddToIndexes(id: Hash, e: Entry, ghost before: map<Hash, Entry>)
      modifies this`byNode, this`byCapability
      ensures byNode == old(byNode)[e.revocation.node := SetAt(old(byNode), e.revocation.node) + {id}]
      ensures byCapability
           == old(byCapability)[e.revocation.capability := SetAt(old(byCapability), e.revocation.capability) + {id}]
      ensures Lists(old(byNode), before, ByNode()) && SameKeys(before, id, e) ==>
                Lists(byNode, before[id := e], ByNode())
      ensures Lists(old(byCapability), before, ByCapability()) && SameKeys(before, id, e) ==>
                Lists(byCapability, before[id := e], ByCapability())
    {
      hide Lists;
      var r := e.revocation;
      if Lists(byNode, before, ByNode()) && SameKeys(before, id, e) { AddLists(byNode, before, ByNode(), id, e); }
      if Lists(byCapability, before, ByCapability()) && SameKeys(before, id, e) {
        AddLists(byCapability, before, ByCapability(), id, e);
      }
      byNode := byNode[r.node := (if r.node in byNode then byNode[r.node] else {}) + {id}];
      byCapability := byCapability[r.capability :=
        (if r.capability in byCapability then byCapability[r.capability] else {}) + {id}];
    }

    method RevokeToken(node: Hash, capability: byte, reason: byte, revoker: Hash, context: bytes, now: Clock)
      returns (r: Option<Revocation>)
      modifies this
      ensures var made := Revocation(node, capability, reason, now, revoker, context, Signature(0, 0));
              && View() == Revoke(hasher, config, old(View()), made, now)
              && r == if AtLimit(config, old(View()), node) then None else Some(made)
    {
      hide IdBytes;
      var made := Revocation(node, capability, reason, now, revoker, context, Signature(0, 0));
      if node in byNode && |byNode[node]| >= config.limit { return None; }
      var id := hasher(IdBytes(made));
      ghost var before := store;
      store := store[id := Entry(made, now, {})];
      AddToIndexes(id, store[id], before);
      r := Some(made);
    }

    method ProcessRevocation(r: Revocation, from: Hash, now: Clock) returns (accepted: bool)
      modifies this
      ensures View() == Process(hasher, config, old(View()), r, from, now)
      ensures accepted == Takes(hasher, config, old(View()), r, now)
    {
      hide IdBytes;
      var id := hasher(IdBytes(r));
      if id in seen { return false; }
      if now >= (r.revokedAt + (config.expiryDays * 86400) % TWO_32) % TWO_64 { return false; }
      if r.revokedAt > now + 300 { return false; }
      if r.node in byNode && |byNode[r.node]| >= config.limit { return false; }
      ghost var before := store;
      store := store[id := Entry(r, now, {from})];
      seen := seen + {id};
      AddToIndexes(id, store[id], before);
      return true;
    }

    /** The loop over the node's index entry. */
    method IsTokenRevoked(t: Token) returns (revoked: bool)
      ensures revoked == Revoked(View(), t)
    {
      if t.node !in byNode { return false; }
      var left := byNode[t.node];
      while left != {}
        invariant left <= byNode[t.node]
        invariant forall id :: id in byNode[t.node] - left && id in store ==> !Matches(store[id].revocation, t)
        decreases left
      {
        var id :| id in left;
        if id in store && Matches(store[id].revocation, t) { return true; }
        left := left - {id};
      }
      return false;
    }

    /** One id leaves both indexes and the set of seen ids; emptied index entries are erased. */
    method RemoveFromIndexes(id: Hash, r: Revocation)
      modifies this`byNode, this`byCapability, this`seen
      ensures byNode == Erased(old(byNode), r.node, id)
      ensures byCapability == Erased(old(byCapability), r.capability, id)
      ensures seen == old(seen) - {id}
    {
      if r.node in byNode {
        var rest := byNode[r.node] - {id};
        byNode := byNode[r.node := rest];
        if rest == {} { byNode := byNode - {r.node}; }
      }
      if r.capability in byCapability {
        var rest := byCapability[r.capability] - {id};
        byCapability := byCapability[r.capability := rest];
        if rest == {} { byCapability := byCapability - {r.capability}; }
      }
      seen := seen - {id};
    }

    method CleanupExpiredRevocations(now: Clock)
      requires Inv(hasher, config, View())
      modifies this
      ensures View() == CleanUp(config, old(View()), now)
      ensures Inv(hasher, config, View())
    {
      hide IdBytes, Inv, Without;
      var dead := set id | id in store && Expired(config, store[id].revocation, now);
      ghost var gone: set<Hash> := {};
      WithoutNothing(hasher, config, View());
      WithoutInv(hasher, config, View(), dead);
      var left := dead;
      while left != {}
        invariant left <= dead && gone == dead - left
        invariant View() == Without(old(View()), gone)
        decreases left
      {
        var id :| id in left;
        WithoutStep(hasher, config, old(View()), gone, id);
        if id in store {
          RemoveFromIndexes(id, store[id].revocation);
          store := store - {id};
        }
        left := left - {id};
        gone := gone + {id};
        assert gone == dead - left;
      }
      assert gone == dead;
    }
  }

  function Erased<K>(m: map<K, set<Hash>>, k: K, id: Hash): map<K, set<Hash>> {
    if k !in m then m
    else if m[k] - {id} == {} then m - {k}
    else m[k := m[k] - {id}]
  }

  lemma PrunedNothing<K(!new)>(m: map<K, set<Hash>>)
    requires forall k :: k in m ==> m[k] != {}
    ensures Pruned(m, {}) == m
  {
    forall k | k in m ensures m[k] - {} == m[k] {}
  }

  lemma WithoutNothing(H: Hasher, c: Config, s: State)
    requires Inv(H, c, s)
    ensures Without(s, {}) == s
  {
    hide IdBytes, Pruned;
    PrunedNothing(s.byNode);
    PrunedNothing(s.byCapability);
  }

  /** Erasing one more stored id from its own two index entries is erasing it everywhere. */
  lemma WithoutStep(H: Hasher, c: Config, s: State, gone: set<Hash>, id: Hash)
    requires Inv(H, c, s) && id in s.store && id !in gone
    ensures var t, r := Without(s, gone), s.store[id].revocation;
            && id in t.store && t.store[id] == s.store[id]
            && State(t.store - {id}, Erased(t.byNode, r.node, id),
                     Erased(t.byCapability, r.capability, id), t.seen - {id})
               == Without(s, gone + {id})
  {
    hide IdBytes, Pruned, Erased;
    var t, u, r := Without(s, gone), Without(s, gone + {id}), s.store[id].revocation;
    assert t.store - {id} == u.store && t.seen - {id} == u.seen;
    OnlyUnder(s.byNode, s.store, ByNode(), id);
    OnlyUnder(s.byCapability, s.store, ByCapability(), id);
    ErasedIsPruned(s.byNode, gone, r.node, id);
    ErasedIsPruned(s.byCapability, gone, r.capability, id);
  }

  lemma OnlyUnder<K(!new)>(m: map<K, set<Hash>>, store: map<Hash, Entry>, key: Revocation -> K, id: Hash)
    requires Lists(m, store, key) && id in store
    ensures forall k :: Has(m, k, id) <==> key(store[id].revocation) == k
  {
  }

  lemma ErasedIsPruned<K(!new)>(m: map<K, set<Hash>>, gone: set<Hash>, k: K, id: Hash)
    requires id !in gone && forall j :: Has(m, j, id) <==> k == j
    ensures Erased(Pruned(m, gone), k, id) == Pruned(m, gone + {id})
  {
    assert Has(m, k, id);
    forall n | n in m
      ensures m[n] - (gone + {id}) == if n == k then (m[n] - gone) - {id} else m[n] - gone
    {
      assert Has(m, n, id) <==> k == n;
    }
  }
}
