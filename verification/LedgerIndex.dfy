/**
 The lookup indices kept beside the log (src/core/ledger/ledger.cpp:306-442) and
 what each of them means in terms of the log alone.
 */
module LedgerIndex {
  import opened Bytes
  import opened Collections
  import opened LedgerEvent

  datatype Index = Index(
    byNode: map<Hash, seq<Hash>>,
    byKind: map<byte, seq<Hash>>,
    byNetwork: map<Hash, seq<Hash>>,
    byThing: map<Hash, seq<Hash>>,
    joinTimes: map<Hash, u64>,
    members: map<Hash, set<Hash>>,
    hosts: map<Hash, set<Hash>>,
    keys: map<(Hash, byte), u32>)

  const EMPTY: Index := Index(map[], map[], map[], map[], map[], map[], map[], map[])

  function ListAt<K>(m: map<K, seq<Hash>>, k: K): seq<Hash> {
    if k in m then m[k] else []
  }

  function CountAt<K>(m: map<K, u32>, k: K): u32 {
    if k in m then m[k] else 0
  }

  /** What an event says beyond its source and kind, as far as the index understands it. */
  datatype Note =
    | Plain
    | Joined
    | Keys(keyType: byte, count: u32)
    | Member(network: Hash, node: Hash)
    | Hosting(content: Hash, node: Hash)

  function NoteOf(e: Event): Note {
    if e.kind == NODE_JOINED then Joined
    else if e.kind == KEY_ISSUED && KeyIssuance(e.data).Some? then
      Keys(KeyIssuance(e.data).value.0, KeyIssuance(e.data).value.1)
    else if e.kind == NETWORK_MEMBER_ADDED && Membership(e.data).Some? then
      Member(Membership(e.data).value.0, Membership(e.data).value.1)
    else if e.kind == THING_REPLICATED && Replication(e.data).Some? then
      Hosting(Replication(e.data).value.0, Replication(e.data).value.1)
    else Plain
  }

  /** One event entered into the index. */
  function Enter(x: Index, e: Event): Index {
    EnterNote(x, e, NoteOf(e))
  }

  function EnterNote(x: Index, e: Event, note: Note): Index {
    var y := x.(byNode := x.byNode[e.source := ListAt(x.byNode, e.source) + [e.id]],
                byKind := x.byKind[e.kind := ListAt(x.byKind, e.kind) + [e.id]]);
    match note
    case Plain => y
    case Joined => y.(joinTimes := y.joinTimes[e.source := e.timestamp])
    case Keys(keyType, count) =>
      var key := (e.source, keyType);
      y.(keys := y.keys[key := (CountAt(y.keys, key) + count) % TWO_32])
    case Member(network, node) =>
      y.(byNetwork := y.byNetwork[network := ListAt(y.byNetwork, network) + [e.id]],
         members := y.members[network := SetAt(y.members, network) + {node}])
    case Hosting(content, node) =>
      y.(byThing := y.byThing[content := ListAt(y.byThing, content) + [e.id]],
         hosts := y.hosts[content := SetAt(y.hosts, content) + {node}])
  }

  /** The index of a whole log. */
  function Rebuild(log: seq<Event>): Index {
    if log == [] then EMPTY else Enter(Rebuild(log[..|log| - 1]), log[|log| - 1])
  }

  // What the queries should answer, defined on the log.

  function Ids(log: seq<Event>): (r: seq<Hash>)
    ensures |r| == |log| && forall i :: 0 <= i < |log| ==> r[i] == log[i].id
  {
    Map(log, (e: Event) => e.id)
  }

  function From(node: Hash): Event -> bool {
    (e: Event) => e.source == node
  }

  function OfKind(kind: byte): Event -> bool {
    (e: Event) => e.kind == kind
  }

  // The meaning of an event for the other queries, by its kind and its payload.

  /** The event adds `member` to `network`. */
  predicate AddsMember(e: Event, network: Hash, member: Hash) {
    e.kind == NETWORK_MEMBER_ADDED && Membership(e.data) == Some((network, member))
  }

  /** The event says that `host` holds a replica of `content`. */
  predicate AddsHost(e: Event, content: Hash, host: Hash) {
    e.kind == THING_REPLICATED && Replication(e.data) == Some((content, host))
  }

  function InNetwork(network: Hash): Event -> bool {
    (e: Event) => e.kind == NETWORK_MEMBER_ADDED && Membership(e.data).Some? && Membership(e.data).value.0 == network
  }

  function OfThing(content: Hash): Event -> bool {
    (e: Event) => e.kind == THING_REPLICATED && Replication(e.data).Some? && Replication(e.data).value.0 == content
  }

  function Joins(node: Hash): Event -> bool {
    (e: Event) => e.kind == NODE_JOINED && e.source == node
  }

  /** How many keys of a type the event issues for a node. */
  function IssuedBy(e: Event, node: Hash, keyType: byte): nat {
    if e.kind == KEY_ISSUED && e.source == node && KeyIssuance(e.data).Some? && KeyIssuance(e.data).value.0 == keyType
    then KeyIssuance(e.data).value.1
    else 0
  }

  /** The true number of keys a node has issued, without any wrap-around. */
  function TotalIssued(log: seq<Event>, node: Hash, keyType: byte): nat {
    if log == [] then 0
    else TotalIssued(log[..|log| - 1], node, keyType) + IssuedBy(log[|log| - 1], node, keyType)
  }

  // The same in terms of notes, for one step of the index.

  function Issued(node: Hash, keyType: byte, source: Hash, note: Note): nat {
    if note.Keys? && source == node && note.keyType == keyType then note.count else 0
  }

  /** A note says of an event what its kind and payload say. */
  lemma NoteMeans(e: Event, h: Hash, k: byte)
    ensures InNetwork(h)(e) <==> NoteOf(e).Member? && NoteOf(e).network == h
    ensures OfThing(h)(e) <==> NoteOf(e).Hosting? && NoteOf(e).content == h
    ensures Joins(h)(e) <==> NoteOf(e).Joined? && e.source == h
    ensures IssuedBy(e, h, k) == Issued(h, k, e.source, NoteOf(e))
    ensures NoteOf(e).Member? ==> AddsMember(e, NoteOf(e).network, NoteOf(e).node)
    ensures NoteOf(e).Hosting? ==> AddsHost(e, NoteOf(e).content, NoteOf(e).node)
  {
    hide KeyIssuance, Membership, Replication;
  }

  // One predicate per query: the index answers it as the log would.

  ghost predicate NodeAgrees(x: Index, log: seq<Event>, node: Hash) {
    ListAt(x.byNode, node) == Ids(Where(log, From(node)))
  }

  ghost predicate KindAgrees(x: Index, log: seq<Event>, kind: byte) {
    ListAt(x.byKind, kind) == Ids(Where(log, OfKind(kind)))
  }

  ghost predicate NetworkAgrees(x: Index, log: seq<Event>, network: Hash) {
    && ListAt(x.byNetwork, network) == Ids(Where(log, InNetwork(network)))
    && (forall m :: m in SetAt(x.members, network) <==> exists e :: e in log && AddsMember(e, network, m))
  }

  ghost predicate ThingAgrees(x: Index, log: seq<Event>, content: Hash) {
    && ListAt(x.byThing, content) == Ids(Where(log, OfThing(content)))
    && (forall n :: n in SetAt(x.hosts, content) <==> exists e :: e in log && AddsHost(e, content, n))
  }

  /** A node has a join time exactly if the log has a join of it, and then it is that of the last one. */
  ghost predicate JoinAgrees(x: Index, log: seq<Event>, node: Hash) {
    var joins := Where(log, Joins(node));
    if joins == [] then node !in x.joinTimes
    else node in x.joinTimes && x.joinTimes[node] == joins[|joins| - 1].timestamp
  }

  ghost predicate KeysAgree(x: Index, log: seq<Event>, node: Hash, keyType: byte) {
    CountAt(x.keys, (node, keyType)) == TotalIssued(log, node, keyType) % TWO_32
  }

  ghost predicate Agrees(x: Index, log: seq<Event>) {
    && (forall n :: NodeAgrees(x, log, n))
    && (forall k :: KindAgrees(x, log, k))
    && (forall n :: NetworkAgrees(x, log, n))
    && (forall c :: ThingAgrees(x, log, c))
    && (forall n :: JoinAgrees(x, log, n))
    && (forall n, k :: KeysAgree(x, log, n, k))
  }

  lemma WhereSnoc(log: seq<Event>, e: Event, p: Event -> bool)
    ensures Where(log + [e], p) == if p(e) then Where(log, p) + [e] else Where(log, p)
    ensures Ids(Where(log + [e], p)) == if p(e) then Ids(Where(log, p)) + [e.id] else Ids(Where(log, p))
  {
    WhereAppend(log, e, p);
  }

  /** How entering a note changes the answer of each query. */
  lemma NoteEffects(x: Index, e: Event, note: Note, h: Hash, b: byte)
    ensures var y := EnterNote(x, e, note);
            && ListAt(y.byNode, h) == (if e.source == h then ListAt(x.byNode, h) + [e.id] else ListAt(x.byNode, h))
            && ListAt(y.byKind, b) == (if e.kind == b then ListAt(x.byKind, b) + [e.id] else ListAt(x.byKind, b))
            && CountAt(y.keys, (h, b)) == (CountAt(x.keys, (h, b)) + Issued(h, b, e.source, note)) % TWO_32
            && (if note.Joined? && e.source == h then h in y.joinTimes && y.joinTimes[h] == e.timestamp
                else (h in y.joinTimes <==> h in x.joinTimes)
                     && (h in x.joinTimes ==> y.joinTimes[h] == x.joinTimes[h]))
  {
  }

  lemma GroupEffects(x: Index, e: Event, note: Note, h: Hash)
    ensures var y := EnterNote(x, e, note);
            && (if note.Member? && note.network == h
                then ListAt(y.byNetwork, h) == ListAt(x.byNetwork, h) + [e.id]
                     && SetAt(y.members, h) == SetAt(x.members, h) + {note.node}
                else ListAt(y.byNetwork, h) == ListAt(x.byNetwork, h) && SetAt(y.members, h) == SetAt(x.members, h))
            && (if note.Hosting? && note.content == h
                then ListAt(y.byThing, h) == ListAt(x.byThing, h) + [e.id]
                     && SetAt(y.hosts, h) == SetAt(x.hosts, h) + {note.node}
                else ListAt(y.byThing, h) == ListAt(x.byThing, h) && SetAt(y.hosts, h) == SetAt(x.hosts, h))
  {
  }

  lemma EnterNode(x: Index, log: seq<Event>, e: Event, node: Hash)
    requires NodeAgrees(x, log, node)
    ensures NodeAgrees(Enter(x, e), log + [e], node)
  {
    hide NoteOf, EnterNote;
    WhereSnoc(log, e, From(node));
    NoteEffects(x, e, NoteOf(e), node, 0);
  }

  lemma EnterKind(x: Index, log: seq<Event>, e: Event, kind: byte)
    requires KindAgrees(x, log, kind)
    ensures KindAgrees(Enter(x, e), log + [e], kind)
  {
    hide NoteOf, EnterNote;
    WhereSnoc(log, e, OfKind(kind));
    NoteEffects(x, e, NoteOf(e), e.id, kind);
  }

  lemma EnterJoin(x: Index, log: seq<Event>, e: Event, node: Hash)
    requires JoinAgrees(x, log, node)
    ensures JoinAgrees(Enter(x, e), log + [e], node)
  {
    hide NoteOf, EnterNote;
    WhereSnoc(log, e, Joins(node));
    NoteMeans(e, node, 0);
    NoteEffects(x, e, NoteOf(e), node, 0);
  }

  lemma OnlyMember(e: Event, network: Hash, m: Hash)
    ensures AddsMember(e, network, m) <==> NoteOf(e).Member? && NoteOf(e).network == network && NoteOf(e).node == m
    ensures AddsHost(e, network, m) <==> NoteOf(e).Hosting? && NoteOf(e).content == network && NoteOf(e).node == m
  {
    hide KeyIssuance, Membership, Replication;
  }

  lemma EnterNetwork(x: Index, log: seq<Event>, e: Event, network: Hash)
    requires NetworkAgrees(x, log, network)
    ensures NetworkAgrees(Enter(x, e), log + [e], network)
  {
    hide NoteOf, EnterNote, Ids, Where, AddsMember, InNetwork;
    WhereSnoc(log, e, InNetwork(network));
    NoteMeans(e, network, 0);
    GroupEffects(x, e, NoteOf(e), network);
    forall m
      ensures m in SetAt(Enter(x, e).members, network) <==> exists f :: f in log + [e] && AddsMember(f, network, m)
    {
      OnlyMember(e, network, m);
      assert forall f :: f in log + [e] <==> f in log || f == e;
      assert e in log + [e];
    }
  }

  lemma EnterThing(x: Index, log: seq<Event>, e: Event, content: Hash)
    requires ThingAgrees(x, log, content)
    ensures ThingAgrees(Enter(x, e), log + [e], content)
  {
    hide NoteOf, EnterNote, Ids, Where, AddsHost, OfThing;
    WhereSnoc(log, e, OfThing(content));
    NoteMeans(e, content, 0);
    GroupEffects(x, e, NoteOf(e), content);
    forall n
      ensures n in SetAt(Enter(x, e).hosts, content) <==> exists f :: f in log + [e] && AddsHost(f, content, n)
    {
      OnlyMember(e, content, n);
      assert forall f :: f in log + [e] <==> f in log || f == e;
      assert e in log + [e];
    }
  }

  lemma EnterKeys(x: Index, log: seq<Event>, e: Event, node: Hash, keyType: byte)
    requires KeysAgree(x, log, node, keyType)
    ensures KeysAgree(Enter(x, e), log + [e], node, keyType)
  {
    hide NoteOf, EnterNote;
    assert (log + [e])[..|log|] == log;
    NoteMeans(e, node, keyType);
    NoteEffects(x, e, NoteOf(e), node, keyType);
    AddMod(TotalIssued(log, node, keyType), IssuedBy(e, node, keyType));
  }

  lemma AddMod(a: nat, b: nat)
    ensures (a % TWO_32 + b) % TWO_32 == (a + b) % TWO_32
  {
  }

  /** Index refines log: after any sequence of entries, every query agrees with the log. */
  lemma {:induction false} RebuildAgrees(log: seq<Event>)
    ensures Agrees(Rebuild(log), log)
  {
    if log != [] {
      var front, e := log[..|log| - 1], log[|log| - 1];
      var x := Rebuild(front);
      RebuildAgrees(front);
      assert log == front + [e];
      forall n ensures NodeAgrees(Rebuild(log), log, n) { EnterNode(x, front, e, n); }
      forall k ensures KindAgrees(Rebuild(log), log, k) { EnterKind(x, front, e, k); }
      forall n ensures NetworkAgrees(Rebuild(log), log, n) { EnterNetwork(x, front, e, n); }
      forall c ensures ThingAgrees(Rebuild(log), log, c) { EnterThing(x, front, e, c); }
      forall n ensures JoinAgrees(Rebuild(log), log, n) { EnterJoin(x, front, e, n); }
      forall n, k ensures KeysAgree(Rebuild(log), log, n, k) { EnterKeys(x, front, e, n, k); }
    }
  }

  lemma RebuildSnoc(log: seq<Event>, e: Event)
    ensures Rebuild(log + [e]) == Enter(Rebuild(log), e)
  {
    assert (log + [e])[..|log|] == log;
  }

  /** The in-place index object. */
  class Indexer {
    var byNode: map<Hash, seq<Hash>>
    var byKind: map<byte, seq<Hash>>
    var byNetwork: map<Hash, seq<Hash>>
    var byThing: map<Hash, seq<Hash>>
    var joinTimes: map<Hash, u64>
    var members: map<Hash, set<Hash>>
    var hosts: map<Hash, set<Hash>>
    var keys: map<(Hash, byte), u32>

    function View(): Index
      reads this
    {
      Index(byNode, byKind, byNetwork, byThing, joinTimes, members, hosts, keys)
    }

    constructor ()
      ensures View() == EMPTY
    {
      byNode, byKind, byNetwork, byThing := map[], map[], map[], map[];
      joinTimes, members, hosts, keys := map[], map[], map[], map[];
    }

    method Clear()
      modifies this
      ensures View() == EMPTY
    {
      byNode, byKind, byNetwork, byThing := map[], map[], map[], map[];
      joinTimes, members, hosts, keys := map[], map[], map[], map[];
    }

    method AddEvent(e: Event)
      modifies this
      ensures View() == Enter(old(View()), e)
    {
      hide NoteOf;
      byNode := byNode[e.source := ListAt(byNode, e.source) + [e.id]];
      byKind := byKind[e.kind := ListAt(byKind, e.kind) + [e.id]];
      match NoteOf(e) {
        case Plain =>
        case Joined =>
          joinTimes := joinTimes[e.source := e.timestamp];
        case Keys(keyType, count) =>
          keys := keys[(e.source, keyType) := (CountAt(keys, (e.source, keyType)) + count) % TWO_32];
        case Member(network, node) =>
          byNetwork := byNetwork[network := ListAt(byNetwork, network) + [e.id]];
          members := members[network := SetAt(members, network) + {node}];
        case Hosting(content, node) =>
          byThing := byThing[content := ListAt(byThing, content) + [e.id]];
          hosts := hosts[content := SetAt(hosts, content) + {node}];
      }
    }

    method RebuildFromEvents(log: seq<Event>)
      modifies this
      ensures View() == Rebuild(log)
      ensures Agrees(View(), log)
    {
      Clear();
      for i := 0 to |log|
        invariant View() == Rebuild(log[..i])
      {
        RebuildSnoc(log[..i], log[i]);
        assert log[..i + 1] == log[..i] + [log[i]];
        AddEvent(log[i]);
      }
      assert log[..|log|] == log;
      RebuildAgrees(log);
    }
  }
}
