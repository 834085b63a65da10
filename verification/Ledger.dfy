/**
 The hash-chained, append-only ledger (src/core/ledger/ledger.cpp:444-842):
 the operations as functions on a ledger state, and what every run of them keeps.
 */
module Ledger {
  import opened Bytes
  import opened LedgerEvent
  import opened LedgerIndex

  const MAX_FUTURE_SKEW: nat := 300

  datatype State = State(
    local: Hash,
    log: seq<Event>,
    lookup: map<Hash, nat>,
    index: Index,
    latest: Hash,
    counter: u64)

  function Fresh(local: Hash): State {
    State(local, [], map[], EMPTY, ZERO_HASH, 0)
  }

  /** The hash that the event at position `i` must carry. */
  function TipAt(h: ChainHash, log: seq<Event>, i: nat): Hash
    requires i <= |log|
  {
    if i == 0 then ZERO_HASH else h(log[i - 1])
  }

  function Tip(h: ChainHash, log: seq<Event>): Hash {
    TipAt(h, log, |log|)
  }

  predicate TimelyAt(e: Event, now: Clock) {
    e.timestamp <= now + MAX_FUTURE_SKEW
  }

  /** `verify_event_chain`: the empty ledger does not look at the timestamp. */
  predicate Follows(h: ChainHash, log: seq<Event>, e: Event, now: Clock) {
    if log == [] then e.previous == ZERO_HASH
    else e.previous == h(log[|log| - 1]) && TimelyAt(e, now)
  }

  /** `verify_event`. */
  predicate Accepts(h: ChainHash, s: State, e: Event, now: Clock) {
    e.id !in s.lookup && Follows(h, s.log, e, now) && TimelyAt(e, now)
  }

  function Append(h: ChainHash, s: State, e: Event): State {
    s.(log := s.log + [e],
       lookup := s.lookup[e.id := |s.log|],
       index := Enter(s.index, e),
       latest := h(e))
  }

  function AddEvent(h: ChainHash, s: State, e: Event, now: Clock): State {
    if Accepts(h, s, e, now) then Append(h, s, e) else s
  }

  /** The answer of `add_external_event`, which does not ask what `add_event` decided. */
  predicate ExternalAnswer(h: ChainHash, s: State, e: Event, now: Clock) {
    Follows(h, s.log, e, now) && e.id !in s.lookup
  }

  function AddExternal(h: ChainHash, s: State, e: Event, now: Clock): State {
    if ExternalAnswer(h, s, e, now) then AddEvent(h, s, e, now) else s
  }

  /** What is hashed into the id of a recorded event. */
  function IdMaterial(local: Hash, counter: u64, now: Clock): bytes {
    Bytes32(local) + ToLe(counter, 8) + ToLe(now, 8)
  }

  function EventId(H: Hasher, local: Hash, counter: u64, now: Clock): Hash {
    H(IdMaterial(local, counter, now))
  }

  /** What is hashed into its signature. */
  function TagMaterial(id: Hash, previous: Hash, data: bytes): bytes {
    Bytes32(id) + Bytes32(previous) + data
  }

  /** `create_event`: the signature is the digest of id, previous hash and data, twice. */
  function MakeEvent(H: Hasher, s: State, kind: byte, data: bytes, now: Clock): Event {
    var id := EventId(H, s.local, s.counter, now);
    var tag := H(TagMaterial(id, s.latest, data));
    Event(id, kind, s.local, now, now / 600, s.latest, data, Signature(tag, tag))
  }

  /** The `record_*` operations: create an event, advance the counter, add the event. */
  function Record(h: ChainHash, H: Hasher, s: State, kind: byte, data: bytes, now: Clock): State {
    AddEvent(h, s.(counter := (s.counter + 1) % TWO_64), MakeEvent(H, s, kind, data, now), now)
  }

  /** `load_from_file` on the framed events of the file: the tip and the counter are not reset. */
  function Load(h: ChainHash, s: State, frames: seq<bytes>, now: Clock): State {
    if frames == [] then s.(log := [], lookup := map[], index := EMPTY)
    else
      var t := Load(h, s, frames[..|frames| - 1], now);
      match Decode(frames[|frames| - 1])
      case None => t
      case Some(e) => AddEvent(h, t, e, now)
  }

  function Save(log: seq<Event>): (frames: seq<bytes>) {
    seq(|log|, i requires 0 <= i < |log| => Encode(log[i]))
  }

  // ---------------------------------------------------------------- invariant

  /** The event at position `i` carries the hash of the one before it. */
  predicate Linked(h: ChainHash, log: seq<Event>, i: nat)
    requires i < |log|
  {
    log[i].previous == TipAt(h, log, i)
  }

  ghost predicate Chained(h: ChainHash, log: seq<Event>) {
    forall i :: 0 <= i < |log| ==> Linked(h, log, i)
  }

  ghost predicate DistinctIds(log: seq<Event>) {
    forall i, j :: 0 <= i < j < |log| ==> log[i].id != log[j].id
  }

  /** `lookup` is a bijection between the ids of the log and its positions. */
  ghost predicate LookupOf(lookup: map<Hash, nat>, log: seq<Event>) {
    && (forall i :: 0 <= i < |log| ==> log[i].id in lookup && lookup[log[i].id] == i)
    && (forall id :: id in lookup ==> lookup[id] < |log| && log[lookup[id]].id == id)
  }

  /** Log, lookup and index fit together; only the cached tip is left open. */
  ghost predicate Coherent(h: ChainHash, s: State) {
    && Chained(h, s.log)
    && LookupOf(s.lookup, s.log)
    && s.index == Rebuild(s.log)
  }

  ghost predicate Valid(h: ChainHash, s: State) {
    Coherent(h, s) && s.latest == Tip(h, s.log)
  }

  lemma LookupDistinct(lookup: map<Hash, nat>, log: seq<Event>)
    requires LookupOf(lookup, log)
    ensures DistinctIds(log)
  {
  }

  lemma ChainedSnoc(h: ChainHash, log: seq<Event>, e: Event)
    requires Chained(h, log) && e.previous == Tip(h, log)
    ensures Chained(h, log + [e])
  {
    forall i | 0 <= i < |log + [e]| ensures Linked(h, log + [e], i) {
      assert i < |log| ==> Linked(h, log, i);
    }
  }

  lemma LookupSnoc(lookup: map<Hash, nat>, log: seq<Event>, e: Event)
    requires LookupOf(lookup, log) && e.id !in lookup
    ensures LookupOf(lookup[e.id := |log|], log + [e])
  {
  }

  lemma AppendKeeps(h: ChainHash, s: State, e: Event)
    requires Coherent(h, s) && e.id !in s.lookup && e.previous == Tip(h, s.log)
    ensures Valid(h, Append(h, s, e))
  {
    hide NoteOf, EnterNote, LookupOf, Chained;
    ChainedSnoc(h, s.log, e);
    RebuildSnoc(s.log, e);
    LookupSnoc(s.lookup, s.log, e);
  }

  lemma AddEventKeeps(h: ChainHash, s: State, e: Event, now: Clock)
    requires Coherent(h, s)
    ensures Coherent(h, AddEvent(h, s, e, now))
    ensures Valid(h, s) || Accepts(h, s, e, now) <==> Valid(h, AddEvent(h, s, e, now))
  {
    hide NoteOf, EnterNote;
    if Accepts(h, s, e, now) { AppendKeeps(h, s, e); }
  }

  // ----------------------------------------------------- runs of one ledger

  datatype Op =
    | RecordOp(kind: byte, data: bytes, now: Clock)
    | ExternalOp(e: Event, now: Clock)

  function Apply(h: ChainHash, H: Hasher, s: State, op: Op): State {
    match op
    case RecordOp(kind, data, now) => Record(h, H, s, kind, data, now)
    case ExternalOp(e, now) => AddExternal(h, s, e, now)
  }

  function Run(h: ChainHash, H: Hasher, s: State, ops: seq<Op>): State {
    if ops == [] then s else Apply(h, H, Run(h, H, s, ops[..|ops| - 1]), ops[|ops| - 1])
  }

  lemma ApplyKeeps(h: ChainHash, H: Hasher, s: State, op: Op)
    requires Valid(h, s)
    ensures Valid(h, Apply(h, H, s, op))
    ensures s.log <= Apply(h, H, s, op).log
  {
    hide NoteOf, EnterNote;
    match op
    case RecordOp(kind, data, now) =>
      AddEventKeeps(h, s.(counter := (s.counter + 1) % TWO_64), MakeEvent(H, s, kind, data, now), now);
    case ExternalOp(e, now) => AddEventKeeps(h, s, e, now);
  }

  /**
   Every ledger reached from empty is valid: unbroken chain, cached tip equal to
   the last hash, lookup a bijection, index equal to a rebuild; and the log only grew.
   */
  lemma {:induction false} ReachableValid(h: ChainHash, H: Hasher, s: State, ops: seq<Op>)
    requires Valid(h, s)
    ensures Valid(h, Run(h, H, s, ops))
    ensures s.log <= Run(h, H, s, ops).log
    ensures Agrees(Run(h, H, s, ops).index, Run(h, H, s, ops).log)
  {
    hide NoteOf, EnterNote;
    if ops != [] {
      ReachableValid(h, H, s, ops[..|ops| - 1]);
      ApplyKeeps(h, H, Run(h, H, s, ops[..|ops| - 1]), ops[|ops| - 1]);
    }
    RebuildAgrees(Run(h, H, s, ops).log);
  }

  lemma FreshValid(h: ChainHash, local: Hash)
    ensures Valid(h, Fresh(local))
  {
  }

  /** A local record is appended exactly if its id is new; chain and clock never stand in its way. */
  lemma RecordAppendsIff(h: ChainHash, H: Hasher, s: State, kind: byte, data: bytes, now: Clock)
    requires Valid(h, s)
    ensures var e := MakeEvent(H, s, kind, data, now);
            Record(h, H, s, kind, data, now).log == (if e.id in s.lookup then s.log else s.log + [e])
  {
  }

  /**
   The answer of `add_external_event` is wrong exactly when an empty ledger is
   offered a first event too far in the future: it says yes and stores nothing.
   */
  lemma ExternalAnswerIff(h: ChainHash, s: State, e: Event, now: Clock)
    ensures (ExternalAnswer(h, s, e, now) <==> AddExternal(h, s, e, now).log == s.log + [e])
       <==> !(s.log == [] && e.previous == ZERO_HASH && e.id !in s.lookup && e.timestamp > now + 300)
    ensures AddExternal(h, s, e, now).log == s.log || AddExternal(h, s, e, now).log == s.log + [e]
  {
    assert s.log != s.log + [e];
  }

  // ------------------------------------------------------ the tip is the log

  /** The chain hash tells the given events apart, and gives none of them the zero hash. */
  ghost predicate HashSound(h: ChainHash, es: set<Event>) {
    && (forall e, f :: e in es && f in es && h(e) == h(f) ==> e == f)
    && (forall e :: e in es ==> h(e) != ZERO_HASH)
  }

  /** For the actual chain hash this asks for no more than a digest without collisions among the events' bytes. */
  lemma HashSoundFromDigest(H: Hasher, es: set<Event>)
    requires CollisionFree(H, set e | e in es :: Encode(e))
    requires forall e :: e in es ==> H(Encode(e)) != ZERO_HASH
    ensures HashSound(ChainHashOf(H), es)
  {
    var h := ChainHashOf(H);
    forall e, f | e in es && f in es && h(e) == h(f)
      ensures e == f
    {
      assert H(Encode(e)) == H(Encode(f));
      EncodeInjective(e, f);
    }
  }

  function EventSet(log: seq<Event>): set<Event> {
    set e | e in log
  }

  /** Two unbroken chains with the same tip are the same chain. */
  lemma {:induction false} TipDeterminesPrefix(h: ChainHash, a: seq<Event>, b: seq<Event>, m: nat, n: nat)
    requires Chained(h, a) && Chained(h, b) && m <= |a| && n <= |b|
    requires TipAt(h, a, m) == TipAt(h, b, n)
    requires HashSound(h, EventSet(a) + EventSet(b))
    ensures m == n && forall i :: 0 <= i < m ==> a[i] == b[i]
  {
    assert m != 0 ==> a[m - 1] in EventSet(a) + EventSet(b);
    assert n != 0 ==> b[n - 1] in EventSet(a) + EventSet(b);
    if m != 0 && n != 0 {
      assert a[m - 1] == b[n - 1];
      assert Linked(h, a, m - 1) && Linked(h, b, n - 1);
      TipDeterminesPrefix(h, a, b, m - 1, n - 1);
    }
  }

  /** Any two reachable ledgers with equal `latest_hash_` hold identical histories, and only those. */
  lemma TipDeterminesHistory(h: ChainHash, H: Hasher, a: Hash, ops: seq<Op>, b: Hash, ops': seq<Op>)
    requires HashSound(h, EventSet(Run(h, H, Fresh(a), ops).log) + EventSet(Run(h, H, Fresh(b), ops').log))
    ensures Run(h, H, Fresh(a), ops).latest == Run(h, H, Fresh(b), ops').latest
       <==> Run(h, H, Fresh(a), ops).log == Run(h, H, Fresh(b), ops').log
  {
    hide NoteOf, EnterNote, Apply, LookupOf, Chained;
    FreshValid(h, a);
    FreshValid(h, b);
    ReachableValid(h, H, Fresh(a), ops);
    ReachableValid(h, H, Fresh(b), ops');
    var s, t := Run(h, H, Fresh(a), ops), Run(h, H, Fresh(b), ops');
    if s.latest == t.latest {
      TipDeterminesPrefix(h, s.log, t.log, |s.log|, |t.log|);
      assert s.log == t.log;
    }
  }

  // ------------------------------------------------------------ save and load

  lemma {:induction false} LoadCoherent(h: ChainHash, s: State, frames: seq<bytes>, now: Clock)
    ensures var t := Load(h, s, frames, now);
            && Coherent(h, t)
            && (if t.log == [] then t.latest == s.latest else t.latest == Tip(h, t.log))
  {
    hide NoteOf, EnterNote;
    if frames != [] {
      LoadCoherent(h, s, frames[..|frames| - 1], now);
      var t := Load(h, s, frames[..|frames| - 1], now);
      match Decode(frames[|frames| - 1])
      case None =>
      case Some(e) => AddEventKeeps(h, t, e, now);
    }
  }

  /** An event that an empty ledger takes as its first. */
  predicate Opens(e: Event, now: Clock) {
    e.previous == ZERO_HASH && TimelyAt(e, now)
  }

  /** Some frame holds an event that can come first. */
  ghost predicate HasOpening(frames: seq<bytes>, now: Clock) {
    exists i :: 0 <= i < |frames| && OpeningFrame(frames[i], now)
  }

  predicate OpeningFrame(frame: bytes, now: Clock) {
    Decode(frame).Some? && Opens(Decode(frame).value, now)
  }

  lemma EmptyAccepts(h: ChainHash, t: State, e: Event, now: Clock)
    requires Coherent(h, t) && t.log == []
    ensures Accepts(h, t, e, now) <==> Opens(e, now)
  {
  }

  lemma {:induction false} LoadsSomethingIff(h: ChainHash, s: State, frames: seq<bytes>, now: Clock)
    ensures Load(h, s, frames, now).log != [] <==> HasOpening(frames, now)
  {
    hide NoteOf, EnterNote, Decode, Coherent, Accepts, Opens;
    if frames != [] {
      var n := |frames| - 1;
      var t := Load(h, s, frames[..n], now);
      LoadsSomethingIff(h, s, frames[..n], now);
      LoadCoherent(h, s, frames[..n], now);
      if t.log == [] && Decode(frames[n]).Some? { EmptyAccepts(h, t, Decode(frames[n]).value, now); }
      assert HasOpening(frames, now) <==> HasOpening(frames[..n], now) || OpeningFrame(frames[n], now);
    }
  }

  /**
   Loading leaves a valid ledger exactly if the old tip was zero or some frame holds
   an event that can come first: nothing else resets the tip.
   */
  lemma LoadValidIff(h: ChainHash, s: State, frames: seq<bytes>, now: Clock)
    ensures Valid(h, Load(h, s, frames, now)) <==> s.latest == ZERO_HASH || HasOpening(frames, now)
  {
    hide Load, HasOpening, Coherent;
    LoadCoherent(h, s, frames, now);
    LoadsSomethingIff(h, s, frames, now);
  }

  /** What a failed load leaves behind: no events, but the tip of the events that were there before. */
  ghost predicate Wedged(h: ChainHash, s: State) {
    Coherent(h, s) && s.log == [] && s.latest != ZERO_HASH
  }

  /** An external event that an empty ledger takes. */
  predicate OpeningOp(op: Op) {
    op.ExternalOp? && Opens(op.e, op.now)
  }

  lemma WedgedStep(h: ChainHash, H: Hasher, s: State, op: Op)
    requires Wedged(h, s)
    ensures op.RecordOp? ==> Apply(h, H, s, op) == s.(counter := (s.counter + 1) % TWO_64)
    ensures op.ExternalOp? && !OpeningOp(op) ==> Apply(h, H, s, op) == s
    ensures OpeningOp(op) ==> Valid(h, Apply(h, H, s, op)) && Apply(h, H, s, op).log == [op.e]
  {
    hide NoteOf, EnterNote, Rebuild;
    if OpeningOp(op) {
      EmptyAccepts(h, s, op.e, op.now);
      AppendKeeps(h, s, op.e);
    }
  }

  /**
   The damage of a failed load lasts: over every run, whatever is recorded is
   refused, and the ledger stays empty and invalid exactly until an external first
   event comes.
   */
  lemma {:induction false} WedgedUntilOpened(h: ChainHash, H: Hasher, s: State, ops: seq<Op>)
    requires Wedged(h, s)
    ensures Run(h, H, s, ops).log == [] <==> forall i :: 0 <= i < |ops| ==> !OpeningOp(ops[i])
    ensures Valid(h, Run(h, H, s, ops)) <==> Run(h, H, s, ops).log != []
    ensures Run(h, H, s, ops).log == [] ==> Run(h, H, s, ops) == s.(counter := Run(h, H, s, ops).counter)
  {
    hide Apply, Coherent, OpeningOp, Rebuild;
    if ops != [] {
      var n := |ops| - 1;
      var t := Run(h, H, s, ops[..n]);
      WedgedUntilOpened(h, H, s, ops[..n]);
      assert forall i :: 0 <= i < n ==> ops[..n][i] == ops[i];
      if t.log == [] {
        assert Wedged(h, t) by { StillWedged(h, s, t); }
        WedgedStep(h, H, t, ops[n]);
        OpeningIsExternal(ops[n]);
        if !OpeningOp(ops[n]) { StillWedged(h, t, Apply(h, H, t, ops[n])); }
      } else {
        ApplyKeeps(h, H, t, ops[n]);
      }
    } else {
      StillWedged(h, s, s);
    }
  }

  lemma OpeningIsExternal(op: Op)
    ensures OpeningOp(op) ==> op.ExternalOp?
  {
  }

  lemma StillWedged(h: ChainHash, s: State, t: State)
    requires Wedged(h, s) && t == s.(counter := t.counter)
    ensures Wedged(h, t) && !Valid(h, t)
  {
  }

  /**
   A load that fails: a ledger that has recorded one event loads the file of an empty
   one, and from then on refuses to record anything.
   */
  lemma EmptyFileWedges(h: ChainHash, H: Hasher, local: Hash, kind: byte, data: bytes, now: Clock, op: Op)
    requires h(MakeEvent(H, Fresh(local), kind, data, now)) != ZERO_HASH && op.RecordOp?
    ensures var s := Run(h, H, Fresh(local), [RecordOp(kind, data, now)]);
            var t := Load(h, s, Save([]), now);
            && Valid(h, s) && |s.log| == 1
            && Wedged(h, t) && !Valid(h, t)
            && Apply(h, H, t, op).log == []
  {
    hide NoteOf, EnterNote, MakeEvent;
    var one := [RecordOp(kind, data, now)];
    assert one[..0] == [];
    FreshValid(h, local);
    ReachableValid(h, H, Fresh(local), one);
    var s := Run(h, H, Fresh(local), one);
    RecordAppendsIff(h, H, Fresh(local), kind, data, now);
    assert s == Record(h, H, Fresh(local), kind, data, now);
    LoadCoherent(h, s, [], now);
    var t := Load(h, s, [], now);
    StillWedged(h, t, t);
    WedgedStep(h, H, t, op);
  }

  lemma AppendNext(h: ChainHash, s: State, log: seq<Event>, now: Clock)
    requires Coherent(h, s) && Chained(h, log) && DistinctIds(log)
    requires |s.log| < |log| && s.log == log[..|s.log|]
    requires TimelyAt(log[|s.log|], now)
    ensures Accepts(h, s, log[|s.log|], now)
    ensures s.log + [log[|s.log|]] == log[..|s.log| + 1]
  {
    hide NoteOf, EnterNote;
    var e := log[|s.log|];
    assert forall i :: 0 <= i < |s.log| ==> s.log[i] == log[i];
    assert Linked(h, log, |s.log|);
  }

  /** A saved valid ledger loads back as itself, into any ledger, if its clock is not behind. */
  lemma {:induction false} SaveLoad(h: ChainHash, s: State, into: State, n: nat, now: Clock)
    requires Valid(h, s) && n <= |s.log|
    requires forall e :: e in s.log ==> |e.data| < TWO_32 && TimelyAt(e, now)
    ensures Load(h, into, Save(s.log)[..n], now).log == s.log[..n]
  {
    hide NoteOf, EnterNote;
    LookupDistinct(s.lookup, s.log);
    if n != 0 {
      var frames := Save(s.log)[..n];
      SaveLoad(h, s, into, n - 1, now);
      assert frames[..n - 1] == Save(s.log)[..n - 1];
      var t := Load(h, into, frames[..n - 1], now);
      LoadCoherent(h, into, frames[..n - 1], now);
      var e := s.log[n - 1];
      assert e in s.log;
      RoundTripIff(e);
      AppendNext(h, t, s.log, now);
    }
  }

  /** What is loaded from frames that fit a 32-bit length was timely, and its encoding fits as well. */
  lemma {:induction false} LoadedFits(h: ChainHash, s: State, frames: seq<bytes>, now: Clock)
    requires forall x :: x in frames ==> |x| < TWO_32
    ensures forall e :: e in Load(h, s, frames, now).log ==> |e.data| + FIXED < TWO_32 && TimelyAt(e, now)
  {
    hide NoteOf, EnterNote, Decode, Follows;
    if frames != [] {
      LoadedFits(h, s, frames[..|frames| - 1], now);
      if Decode(frames[|frames| - 1]).Some? { DecodedFits(frames[|frames| - 1]); }
    }
  }

  lemma DecodedFits(s: bytes)
    requires Decode(s).Some?
    ensures |Decode(s).value.data| + FIXED <= |s|
  {
    hide Read256, Read64, ReadSignature;
  }

  lemma LookupUnique(a: map<Hash, nat>, b: map<Hash, nat>, log: seq<Event>)
    requires LookupOf(a, log) && LookupOf(b, log)
    ensures a == b
  {
  }
}
