/**
 The ledger object (src/core/ledger/ledger.cpp:444-842): log, lookup map, index
 and cached tip, updated in place.  Every method computes the function of the
 same name in module Ledger and leaves the object valid.
 */
module LedgerStore {
  import opened Bytes
  import opened Collections
  import opened LedgerEvent
  import opened LedgerIndex
  import opened Ledger
  import opened Framing
  import opened LedgerFile

  /** The ids of the first `n` events whose link to their predecessor is broken, in log order. */
  function Breaks(h: ChainHash, log: seq<Event>, n: nat): seq<Hash>
    requires n <= |log|
  {
    if n <= 1 then []
    else if Linked(h, log, n - 1) then Breaks(h, log, n - 1)
    else Breaks(h, log, n - 1) + [log[n - 1].id]
  }

  lemma {:induction false} NoBreaks(h: ChainHash, log: seq<Event>, n: nat)
    requires n <= |log| && Chained(h, log)
    ensures Breaks(h, log, n) == []
  {
    if n > 1 {
      assert Linked(h, log, n - 1);
      NoBreaks(h, log, n - 1);
    }
  }

  /** The broken links are those behind the first event. */
  lemma {:induction false} BreaksAre(h: ChainHash, log: seq<Event>, n: nat, id: Hash)
    requires n <= |log|
    ensures id in Breaks(h, log, n) <==> exists i :: 1 <= i < n && BrokenAt(h, log, i) && log[i].id == id
  {
    hide BrokenAt;
    if n > 1 {
      BreaksAre(h, log, n - 1, id);
      LinkedIff(h, log, n - 1);
    }
  }

  lemma LinkedIff(h: ChainHash, log: seq<Event>, i: nat)
    requires 1 <= i < |log|
    ensures BrokenAt(h, log, i) <==> !Linked(h, log, i)
  {
  }

  predicate BrokenAt(h: ChainHash, log: seq<Event>, i: nat)
    requires 1 <= i < |log|
  {
    log[i].previous != h(log[i - 1])
  }

  // ------------------------------------------------------------ duplicate ids

  /** The order of ids as keys of a std::map. */
  predicate Earlier(a: Hash, b: Hash) {
    Less(Bytes32(a), Bytes32(b))
  }

  lemma EarlierOrders(a: Hash, b: Hash, c: Hash)
    ensures !Earlier(a, a) && (a == b || Earlier(a, b) || Earlier(b, a))
    ensures Earlier(a, b) && Earlier(b, c) ==> Earlier(a, c)
  {
    hide Less, Bytes32;
    LessIrreflexive(Bytes32(a));
    LessTotal(Bytes32(a), Bytes32(b));
    if Bytes32(a) == Bytes32(b) { Bytes32Injective(a, b); }
    if Earlier(a, b) && Earlier(b, c) { LessTransitive(Bytes32(a), Bytes32(b), Bytes32(c)); }
  }

  /** A std::map from ids to counts. */
  type Tally = seq<(Hash, nat)>

  ghost predicate InIdOrder(ts: Tally) {
    forall i, j :: 0 <= i < j < |ts| ==> Earlier(ts[i].0, ts[j].0)
  }

  function Counted(ts: Tally, id: Hash): nat {
    if ts == [] then 0 else if ts[0].0 == id then ts[0].1 else Counted(ts[1..], id)
  }

  /** `seen[id]++`. */
  function CountOne(ts: Tally, id: Hash): Tally {
    if ts == [] then [(id, 1)]
    else if ts[0].0 == id then [(id, ts[0].1 + 1)] + ts[1..]
    else if Earlier(id, ts[0].0) then [(id, 1)] + ts
    else [ts[0]] + CountOne(ts[1..], id)
  }

  lemma {:induction false} NotCounted(ts: Tally, id: Hash)
    requires forall i :: 0 <= i < |ts| ==> ts[i].0 != id
    ensures Counted(ts, id) == 0
  {
    if ts != [] { NotCounted(ts[1..], id); }
  }

  lemma {:induction false} CountedAt(ts: Tally, i: nat)
    requires InIdOrder(ts) && i < |ts|
    ensures Counted(ts, ts[i].0) == ts[i].1
  {
    hide Earlier;
    if i > 0 {
      EarlierOrders(ts[0].0, ts[i].0, ts[i].0);
      CountedAt(ts[1..], i - 1);
    }
  }

  lemma CountsFirst(ts: Tally, id: Hash, x: Hash)
    requires InIdOrder(ts) && ts != [] && Earlier(id, ts[0].0)
    ensures InIdOrder([(id, 1)] + ts) && Counted([(id, 1)] + ts, x) == Counted(ts, x) + if x == id then 1 else 0
  {
    hide Earlier;
    forall j | 0 <= j < |ts| ensures Earlier(id, ts[j].0) && ts[j].0 != id {
      EarlierOrders(id, ts[0].0, ts[j].0);
    }
    assert ([(id, 1)] + ts)[1..] == ts;
    NotCounted(ts, id);
  }

  lemma {:induction false} CountOneCounts(ts: Tally, id: Hash, x: Hash)
    requires InIdOrder(ts)
    ensures InIdOrder(CountOne(ts, id))
    ensures Counted(CountOne(ts, id), x) == Counted(ts, x) + if x == id then 1 else 0
    ensures forall t :: t in CountOne(ts, id) ==> t.0 == id || exists u :: u in ts && u.0 == t.0
  {
    hide Earlier;
    if ts == [] {
      assert [(id, 1)][1..] == [];
    } else if ts[0].0 == id {
      assert CountOne(ts, id)[1..] == ts[1..];
    } else if Earlier(id, ts[0].0) {
      CountsFirst(ts, id, x);
    } else {
      var rest := CountOne(ts[1..], id);
      CountOneCounts(ts[1..], id, x);
      EarlierOrders(ts[0].0, id, id);
      assert CountOne(ts, id)[1..] == rest;
      forall j | 0 <= j < |rest| ensures Earlier(ts[0].0, rest[j].0) {
        assert rest[j] in rest;
      }
    }
  }

  function Occurrences(log: seq<Event>, id: Hash): nat {
    if log == [] then 0 else Occurrences(log[..|log| - 1], id) + if log[|log| - 1].id == id then 1 else 0
  }

  lemma {:induction false} OccursOnceIff(log: seq<Event>, id: Hash)
    ensures Occurrences(log, id) >= 1 <==> exists i :: 0 <= i < |log| && log[i].id == id
    ensures Occurrences(log, id) >= 2 <==> exists i, j :: 0 <= i < j < |log| && log[i].id == id && log[j].id == id
  {
    if log != [] {
      var n := |log| - 1;
      var front := log[..n];
      OccursOnceIff(front, id);
      assert forall i :: 0 <= i < n ==> front[i] == log[i];
      if i, j :| 0 <= i < j < |log| && log[i].id == id && log[j].id == id {
        assert front[i].id == id;
      }
    }
  }

  /** The counts are those of the log. */
  ghost predicate Tallies(ts: Tally, log: seq<Event>) {
    InIdOrder(ts) && forall id :: Counted(ts, id) == Occurrences(log, id)
  }

  lemma TalliesNothing()
    ensures Tallies([], [])
  {
  }

  lemma TalliesNext(ts: Tally, log: seq<Event>, i: nat)
    requires i < |log| && Tallies(ts, log[..i])
    ensures Tallies(CountOne(ts, log[i].id), log[..i + 1])
  {
    hide CountOne, Counted, InIdOrder;
    assert log[..i + 1][..i] == log[..i];
    forall id ensures Counted(CountOne(ts, log[i].id), id) == Occurrences(log[..i + 1], id) {
      CountOneCounts(ts, log[i].id, id);
    }
    CountOneCounts(ts, log[i].id, log[i].id);
  }

  /** The list of all ids that are stored more than once, in the order of their bytes. */
  ghost predicate DuplicatesOf(ids: seq<Hash>, log: seq<Event>) {
    && (forall i, j :: 0 <= i < j < |ids| ==> Earlier(ids[i], ids[j]))
    && (forall id :: id in ids <==> exists i, j :: 0 <= i < j < |log| && log[i].id == id && log[j].id == id)
  }

  /** The ids counted more than once among the first `n`. */
  function Repeated(ts: Tally, n: nat): seq<Hash>
    requires n <= |ts|
  {
    if n == 0 then [] else Repeated(ts, n - 1) + if ts[n - 1].1 > 1 then [ts[n - 1].0] else []
  }

  lemma {:induction false} RepeatedAre(ts: Tally, n: nat)
    requires n <= |ts| && InIdOrder(ts)
    ensures forall id :: id in Repeated(ts, n) <==> exists i :: 0 <= i < n && ts[i].0 == id && ts[i].1 > 1
    ensures forall i, j :: 0 <= i < j < |Repeated(ts, n)| ==> Earlier(Repeated(ts, n)[i], Repeated(ts, n)[j])
  {
    hide Earlier;
    if n > 0 {
      var front := Repeated(ts, n - 1);
      RepeatedAre(ts, n - 1);
      forall i | 0 <= i < |front| ensures Earlier(front[i], ts[n - 1].0) {
        assert front[i] in front;
      }
    }
  }

  lemma {:induction false} CountedFound(ts: Tally, id: Hash) returns (i: nat)
    requires Counted(ts, id) > 0
    ensures i < |ts| && ts[i].0 == id && ts[i].1 == Counted(ts, id)
  {
    if ts[0].0 == id { i := 0; } else { var k := CountedFound(ts[1..], id); i := k + 1; }
  }

  lemma RepeatedAreDuplicates(ts: Tally, log: seq<Event>)
    requires Tallies(ts, log)
    ensures DuplicatesOf(Repeated(ts, |ts|), log)
  {
    hide Earlier, Repeated, Counted, Occurrences, InIdOrder;
    var ids := Repeated(ts, |ts|);
    RepeatedAre(ts, |ts|);
    forall id ensures id in ids <==> exists i, j :: 0 <= i < j < |log| && log[i].id == id && log[j].id == id {
      OccursOnceIff(log, id);
      if id in ids {
        var i :| 0 <= i < |ts| && ts[i].0 == id && ts[i].1 > 1;
        CountedAt(ts, i);
      }
      if Occurrences(log, id) >= 2 {
        var i := CountedFound(ts, id);
      }
    }
  }

  lemma NoDuplicates(lookup: map<Hash, nat>, log: seq<Event>, ids: seq<Hash>)
    requires LookupOf(lookup, log) && DuplicatesOf(ids, log)
    ensures ids == []
  {
    if ids != [] {
      assert ids[0] in ids;
      LookupDistinct(lookup, log);
    }
  }

  class Store {
    const hasher: Hasher
    const local: Hash
    var events: seq<Event>
    var lookup: map<Hash, nat>
    const index: Indexer
    var latest: Hash
    var counter: u64

    ghost function View(): State
      reads this, index
    {
      State(local, events, lookup, index.View(), latest, counter)
    }

    function Chain(): ChainHash {
      ChainHashOf(hasher)
    }

    constructor (local: Hash, hasher: Hasher)
      ensures View() == Fresh(local)
      ensures this.hasher == hasher && fresh(index)
      ensures Valid(Chain(), View())
    {
      this.local, this.hasher := local, hasher;
      events, lookup, latest, counter := [], map[], ZERO_HASH, 0;
      index := new Indexer();
    }

    method VerifyEventChain(e: Event, now: Clock) returns (ok: bool)
      ensures ok == Follows(Chain(), events, e, now)
    {
      hide ChainHashOf;
      if events == [] {
        return e.previous == ZERO_HASH;
      }
      var expected := Chain()(events[|events| - 1]);
      if e.previous != expected { return false; }
      return e.timestamp <= now + MAX_FUTURE_SKEW;
    }

    method VerifyEvent(e: Event, now: Clock) returns (ok: bool)
      ensures ok == Accepts(Chain(), View(), e, now)
    {
      hide ChainHashOf;
      if e.id in lookup { return false; }
      var linked := VerifyEventChain(e, now);
      if !linked { return false; }
      return e.timestamp <= now + MAX_FUTURE_SKEW;
    }

    method AddEvent(e: Event, now: Clock) returns (id: Hash)
      requires Coherent(Chain(), View())
      modifies this, index
      ensures View() == Ledger.AddEvent(Chain(), old(View()), e, now)
      ensures id == if Accepts(Chain(), old(View()), e, now) then e.id else ZERO_HASH
      ensures Coherent(Chain(), View())
      ensures old(Valid(Chain(), View())) ==> Valid(Chain(), View())
    {
      hide ChainHashOf, NoteOf, EnterNote, Coherent;
      AddEventKeeps(Chain(), View(), e, now);
      var ok := VerifyEvent(e, now);
      if !ok { return ZERO_HASH; }
      var at := |events|;
      events := events + [e];
      lookup := lookup[e.id := at];
      index.AddEvent(e);
      latest := Chain()(e);
      id := e.id;
    }

    method AddExternalEvent(e: Event, now: Clock) returns (answer: bool)
      requires Valid(Chain(), View())
      modifies this, index
      ensures View() == AddExternal(Chain(), old(View()), e, now)
      ensures answer == ExternalAnswer(Chain(), old(View()), e, now)
      ensures Valid(Chain(), View())
    {
      hide ChainHashOf, NoteOf, EnterNote, Coherent;
      var linked := VerifyEventChain(e, now);
      if !linked { return false; }
      if e.id in lookup { return false; }
      var _ := AddEvent(e, now);
      return true;
    }

    /** All `record_*` operations; they differ only in the kind and the payload. */
    method RecordEvent(kind: byte, data: bytes, now: Clock) returns (id: Hash)
      requires Valid(Chain(), View())
      modifies this, index
      ensures View() == Record(Chain(), hasher, old(View()), kind, data, now)
      ensures var made := MakeEvent(hasher, old(View()), kind, data, now);
              id == if made.id in old(lookup) then ZERO_HASH else made.id
      ensures Valid(Chain(), View())
    {
      hide ChainHashOf, NoteOf, EnterNote, Coherent, MakeEvent;
      var e := CreateEvent(kind, data, now);
      assert Coherent(Chain(), View()) by { CounterIsFree(Chain(), old(View()), View()); }
      RecordAccepted(Chain(), hasher, old(View()), View(), kind, data, now);
      id := AddEvent(e, now);
    }

    lemma RecordAccepted(h: ChainHash, H: Hasher, s: State, t: State, kind: byte, data: bytes, now: Clock)
      requires Valid(h, s) && t == s.(counter := t.counter)
      ensures var e := MakeEvent(H, s, kind, data, now);
              Accepts(h, t, e, now) <==> e.id !in s.lookup
    {
      hide Rebuild;
    }

    method CreateEvent(kind: byte, data: bytes, now: Clock) returns (e: Event)
      modifies this`counter
      ensures counter == (old(counter) + 1) % TWO_64
      ensures e == MakeEvent(hasher, old(View()), kind, data, now)
    {
      hide Bytes32, ToLe;
      var material := AppendLe(Bytes32(local), counter, 8);
      material := AppendLe(material, now, 8);
      var id := hasher(material);
      var tag := hasher(Bytes32(id) + Bytes32(latest) + data);
      e := Event(id, kind, local, now, now / 600, latest, data, Signature(tag, tag));
      counter := (counter + 1) % TWO_64;
    }

    lemma CounterIsFree(h: ChainHash, s: State, t: State)
      requires Valid(h, s) && t == s.(counter := t.counter)
      ensures Valid(h, t)
    {
    }

    method GetEvent(id: Hash) returns (r: Option<Event>)
      requires Coherent(Chain(), View())
      ensures r.Some? <==> exists e :: e in events && e.id == id
      ensures r.Some? ==> r.value in events && r.value.id == id
    {
      hide ChainHashOf, Rebuild;
      if id !in lookup { return None; }
      return Some(events[lookup[id]]);
    }

    /** The fast path through the node index gives exactly the in-order filter of the log. */
    method GetEventsByNode(node: Hash) returns (r: seq<Event>)
      requires Coherent(Chain(), View())
      ensures r == Where(events, From(node))
    {
      hide ChainHashOf, Rebuild, NoteOf, From, Agrees;
      RebuildAgrees(events);
      ghost var want := Where(events, From(node));
      assert ListAt(index.byNode, node) == Ids(want) by { NodeAnswer(index.View(), events, node); }
      var ids := if node in index.byNode then index.byNode[node] else [];
      r := [];
      for i := 0 to |ids|
        invariant r == want[..i]
      {
        WhereWithin(events, From(node));
        assert want[i] in want;
        var e := GetEvent(ids[i]);
        SameIdSameEvent(lookup, events, e.value, want[i]);
        r := r + [e.value];
      }
    }

    lemma NodeAnswer(x: Index, log: seq<Event>, node: Hash)
      requires Agrees(x, log)
      ensures ListAt(x.byNode, node) == Ids(Where(log, From(node)))
    {
      hide NetworkAgrees, ThingAgrees, KindAgrees, JoinAgrees, KeysAgree;
      assert NodeAgrees(x, log, node);
    }

    lemma SameIdSameEvent(lookup: map<Hash, nat>, log: seq<Event>, e: Event, f: Event)
      requires LookupOf(lookup, log) && e in log && f in log && e.id == f.id
      ensures e == f
    {
    }

    /** The slow path: a scan of the log. */
    method GetEventsByType(kind: byte) returns (r: seq<Event>)
      ensures r == Where(events, OfKind(kind))
    {
      r := [];
      for i := 0 to |events|
        invariant r == Where(events[..i], OfKind(kind))
      {
        WherePrefix(events, i, OfKind(kind));
        if events[i].kind == kind { r := r + [events[i]]; }
      }
      assert events[..|events|] == events;
    }

    /** Checks every link but the first event's; on a coherent ledger it always succeeds. */
    method ValidateChain() returns (ok: bool)
      ensures ok <==> forall i :: 1 <= i < |events| ==> Linked(Chain(), events, i)
      ensures Coherent(Chain(), View()) ==> ok
    {
      hide ChainHashOf, Rebuild;
      var i := 1;
      while i < |events|
        invariant 1 <= i
        invariant forall j :: 1 <= j < i && j < |events| ==> Linked(Chain(), events, j)
      {
        if events[i].previous != Chain()(events[i - 1]) {
          assert !Linked(Chain(), events, i);
          return false;
        }
        assert Linked(Chain(), events, i);
        i := i + 1;
      }
      return true;
    }

    /**
     Ids stored more than once, in the order of the map that counts them, and then the
     ids of events whose link is broken, in log order; a coherent ledger has neither.
     */
    method DetectConflicts() returns (conflicts: seq<Hash>)
      ensures exists ids :: DuplicatesOf(ids, events) && conflicts == ids + Breaks(Chain(), events, |events|)
      ensures Coherent(Chain(), View()) ==> conflicts == []
    {
      hide ChainHashOf, Rebuild, Breaks, DuplicatesOf, Tallies, CountOne, LookupOf;
      var seen: Tally := [];
      TalliesNothing();
      assert events[..0] == [];
      for i := 0 to |events|
        invariant Tallies(seen, events[..i])
      {
        TalliesNext(seen, events, i);
        seen := CountOne(seen, events[i].id);
      }
      assert events[..|events|] == events;
      conflicts := [];
      for i := 0 to |seen|
        invariant conflicts == Repeated(seen, i)
      {
        if seen[i].1 > 1 { conflicts := conflicts + [seen[i].0]; }
      }
      RepeatedAreDuplicates(seen, events);
      if Coherent(Chain(), View()) { NoDuplicates(lookup, events, conflicts); }
      var breaks := BrokenLinks();
      conflicts := conflicts + breaks;
    }

    method BrokenLinks() returns (breaks: seq<Hash>)
      ensures breaks == Breaks(Chain(), events, |events|)
      ensures Coherent(Chain(), View()) ==> breaks == []
    {
      hide ChainHashOf, Rebuild;
      breaks := [];
      var i := 1;
      while i < |events|
        invariant 1 <= i && (i <= |events| || events == [])
        invariant i <= |events| ==> breaks == Breaks(Chain(), events, i)
        invariant events == [] ==> breaks == []
      {
        if events[i].previous != Chain()(events[i - 1]) {
          breaks := breaks + [events[i].id];
        }
        i := i + 1;
      }
      if Coherent(Chain(), View()) { NoBreaks(Chain(), events, |events|); }
    }

    /** Nothing but the invariant is promised of a file that ends early. */
    method LoadFromFile(file: bytes, now: Clock) returns (complete: bool)
      modifies this, index
      ensures complete <==> ReadFile(file).Some?
      ensures complete ==> Some(View()) == LoadFile(Chain(), old(View()), file, now)
      ensures Coherent(Chain(), View())
      ensures complete ==>
                (Valid(Chain(), View()) <==> old(latest) == ZERO_HASH || HasOpening(ReadFile(file).value, now))
    {
      hide ChainHashOf, NoteOf, EnterNote, Coherent, Valid, Ledger.AddEvent, Decode, Load, ReadFrames, FromLe,
        HasOpening;
      events, lookup := [], map[];
      index.Clear();
      LoadNothing(Chain(), old(View()), now);
      if |file| < 8 { return false; }
      var count := ReadLe(file, 0, 8);
      var frames := SplitFrames(file, 8, count);
      if frames.None? { return false; }
      LoadFrames(frames.value, now, old(View()));
      LoadValidIff(Chain(), old(View()), frames.value, now);
      complete := true;
    }

    lemma LoadNothing(h: ChainHash, s: State, now: Clock)
      ensures Coherent(h, s.(log := [], lookup := map[], index := EMPTY))
      ensures Load(h, s, [], now) == s.(log := [], lookup := map[], index := EMPTY)
    {
    }

    /** The loop over the events of the file, after the old ones are gone; undecodable and refused ones are skipped. */
    method LoadFrames(frames: seq<bytes>, now: Clock, ghost before: State)
      requires View() == Load(Chain(), before, [], now) && Coherent(Chain(), View())
      modifies this, index
      ensures View() == Load(Chain(), before, frames, now)
      ensures Coherent(Chain(), View())
    {
      hide ChainHashOf, NoteOf, EnterNote, Coherent, Valid, Ledger.AddEvent, Decode;
      for i := 0 to |frames|
        invariant View() == Load(Chain(), before, frames[..i], now)
        invariant Coherent(Chain(), View())
      {
        assert frames[..i + 1][..i] == frames[..i];
        var e := FromBytes(frames[i]);
        if e.Some? {
          var _ := AddEvent(e.value, now);
        }
      }
      assert frames[..|frames|] == frames;
    }
  }
}
