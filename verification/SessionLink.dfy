/**
 Two sessions talking to each other (src/network/session.cpp:129-382).  Either
 party may initiate, answer, seal and hang up at any time, and any handshake one
 of them ever sent may reach the other at any time, any number of times or never,
 and be taken as a first message or as a response: handshakes do not say which
 of the two they are.
 */
module SessionLink {
  import opened Bytes
  import opened Crypto
  import opened Session

  /** A party: its session, the handshakes ever sent to it, and the (key, nonce) pairs it has sealed with. */
  datatype Side = Side(s: State, inbox: set<Handshake>, sealed: seq<(Hash, bytes)>)

  /** Two parties, and everything that was hashed to derive their keys. */
  datatype Link = Link(a: Side, b: Side, hashed: set<bytes>)

  datatype Action = Action(byA: bool, op: Op)

  function FreshLink(x: Hash, y: Hash): Link {
    Link(Side(Fresh(x), {}, []), Side(Fresh(y), {}, []), {})
  }

  function Swap(l: Link): Link {
    Link(l.b, l.a, l.hashed)
  }

  /** The handshake an operation puts on the wire. */
  function Sent(c: Primitives, H: Hasher, s: State, op: Op): set<Handshake> {
    var after := Apply(c, H, s, op);
    if op.InitiateOp? && s.phase == Disconnected then {Hello(H, after, op.now)}
    else if op.ReplyOp? && s.phase == HandshakeResponse && after.phase == Established then {Hello(H, after, op.now)}
    else {}
  }

  /** The pair that sealing a message uses up. */
  function SealedBy(s: State, op: Op): seq<(Hash, bytes)> {
    if op.EncryptOp? && s.phase == Established then [(s.keys.tx, Nonce(s.counter, op.random))] else []
  }

  function HashedBy(c: Primitives, s: State, after: State): set<bytes> {
    if s.phase != Established && after.phase == Established then Materials(c, after) else {}
  }

  predicate Receivable(inbox: set<Handshake>, op: Op) {
    op.InitOp? || op.ResponseOp? ==> op.m in inbox
  }

  predicate Enabled(l: Link, x: Action) {
    Receivable(if x.byA then l.a.inbox else l.b.inbox, x.op)
  }

  /** Party `a` acts. */
  function ActA(c: Primitives, H: Hasher, l: Link, op: Op): Link {
    var after := Apply(c, H, l.a.s, op);
    Link(Side(after, l.a.inbox, l.a.sealed + SealedBy(l.a.s, op)),
         l.b.(inbox := l.b.inbox + Sent(c, H, l.a.s, op)),
         l.hashed + HashedBy(c, l.a.s, after))
  }

  function Act(c: Primitives, H: Hasher, l: Link, x: Action): Link {
    if x.byA then ActA(c, H, l, x.op) else Swap(ActA(c, H, Swap(l), x.op))
  }

  predicate Reaches(c: Primitives, H: Hasher, l: Link, schedule: seq<Action>, t: Link)
    decreases |schedule|
  {
    if schedule == [] then l == t
    else Enabled(l, schedule[0]) && Reaches(c, H, Act(c, H, l, schedule[0]), schedule[1..], t)
  }

  // ------------------------------------------------- what each side keeps

  /** What is hashed for the sending key of a role. */
  function SendingMaterial(k: Hash, initiator: bool): bytes {
    if initiator then Material(k) else Material(k) + [1]
  }

  /** All pairs of a side carry the key that its role derives from the secret `k`. */
  ghost predicate KeyedBy(H: Hasher, p: Side, hashed: set<bytes>, k: Hash) {
    && SendingMaterial(k, p.s.initiator) in hashed
    && forall x :: x in p.sealed ==> x.0 == H(SendingMaterial(k, p.s.initiator))
  }

  /** The session is in order, its pairs are counted, and it seals under one key only, once established. */
  ghost predicate SideOk(c: Primitives, H: Hasher, p: Side, hashed: set<bytes>) {
    && Ok(c, H, p.s)
    && Counted(p.sealed) && p.s.counter == |p.sealed| % TWO_64
    && (p.s.phase != Established && p.s.phase != Closed ==> p.sealed == [])
    && (p.s.phase == Established ==>
          Materials(c, p.s) <= hashed && forall x :: x in p.sealed ==> x.0 == p.s.keys.tx)
    && (p.sealed != [] ==> exists k :: KeyedBy(H, p, hashed, k))
  }

  lemma EstablishedKeyed(c: Primitives, H: Hasher, p: Side, hashed: set<bytes>)
    requires Ok(c, H, p.s) && p.s.phase == Established && Materials(c, p.s) <= hashed
    requires forall x :: x in p.sealed ==> x.0 == p.s.keys.tx
    ensures exists k :: KeyedBy(H, p, hashed, k)
  {
    hide Material;
    assert KeyedBy(H, p, hashed, c.exchange(p.s.secret, p.s.remote).value);
  }

  lemma SealingCounts(s: State, sealed: seq<(Hash, bytes)>, op: Op)
    requires Counted(sealed) && s.counter == |sealed| % TWO_64 && op.EncryptOp?
    ensures Counted(sealed + SealedBy(s, op)) && AfterEncrypt(s).counter == |sealed + SealedBy(s, op)| % TWO_64
  {
    hide Nonce, ToLe;
    NoncePrefix(s.counter, op.random);
    NextCount(|sealed|);
  }

  /** Sealing a message. */
  lemma SealOk(c: Primitives, H: Hasher, p: Side, hashed: set<bytes>, op: Op)
    requires SideOk(c, H, p, hashed) && op.EncryptOp?
    ensures SideOk(c, H, Side(Apply(c, H, p.s, op), p.inbox, p.sealed + SealedBy(p.s, op)), hashed)
  {
    hide Counted, Nonce, Derive, Material, KeyedBy;
    var after := Side(Apply(c, H, p.s, op), p.inbox, p.sealed + SealedBy(p.s, op));
    ApplyOk(c, H, p.s, op);
    SealingCounts(p.s, p.sealed, op);
    if p.s.phase == Established {
      EstablishedKeyed(c, H, after, hashed);
    } else {
      assert after == p;
    }
  }

  /** Any other operation seals nothing and leaves the counter alone. */
  lemma QuietOk(c: Primitives, H: Hasher, p: Side, hashed: set<bytes>, op: Op)
    requires SideOk(c, H, p, hashed) && !op.EncryptOp?
    ensures var after := Apply(c, H, p.s, op);
            SideOk(c, H, p.(s := after), hashed + HashedBy(c, p.s, after))
  {
    hide Counted, Derive, Material, Genuine, FreshAt, SendingMaterial;
    var after := Apply(c, H, p.s, op);
    ApplyOk(c, H, p.s, op);
    CounterMoves(c, H, p.s, op);
    if p.sealed != [] {
      var k :| KeyedBy(H, p, hashed, k);
      assert KeyedBy(H, p.(s := after), hashed + HashedBy(c, p.s, after), k);
    }
  }

  lemma MoreHashed(c: Primitives, H: Hasher, p: Side, inbox: set<Handshake>, hashed: set<bytes>, more: set<bytes>)
    requires SideOk(c, H, p, hashed) && hashed <= more
    ensures SideOk(c, H, p.(inbox := inbox), more)
  {
    hide Ok, Counted, SendingMaterial, Materials;
    if p.sealed != [] {
      var k :| KeyedBy(H, p, hashed, k);
      assert KeyedBy(H, p.(inbox := inbox), more, k);
    }
  }

  ghost predicate LinkOk(c: Primitives, H: Hasher, l: Link) {
    SideOk(c, H, l.a, l.hashed) && SideOk(c, H, l.b, l.hashed)
  }

  lemma ActAOk(c: Primitives, H: Hasher, l: Link, op: Op)
    requires LinkOk(c, H, l)
    ensures LinkOk(c, H, ActA(c, H, l, op))
  {
    hide SideOk, Apply, SealedBy, HashedBy;
    var t := ActA(c, H, l, op);
    MoreHashed(c, H, l.b, t.b.inbox, l.hashed, t.hashed);
    if op.EncryptOp? {
      SealOk(c, H, l.a, l.hashed, op);
      MoreHashed(c, H, t.a, t.a.inbox, l.hashed, t.hashed);
    } else {
      QuietOk(c, H, l.a, l.hashed, op);
      SealsNothing(l.a.s, op);
      assert l.a.sealed + [] == l.a.sealed;
    }
  }

  lemma SealsNothing(s: State, op: Op)
    ensures !op.EncryptOp? ==> SealedBy(s, op) == []
  {
  }

  lemma {:induction false} LinkStaysOk(c: Primitives, H: Hasher, l: Link, schedule: seq<Action>, t: Link)
    requires LinkOk(c, H, l) && Reaches(c, H, l, schedule, t)
    ensures LinkOk(c, H, t)
    decreases |schedule|
  {
    hide SideOk, ActA;
    if schedule != [] {
      if schedule[0].byA { ActAOk(c, H, l, schedule[0].op); } else { ActAOk(c, H, Swap(l), schedule[0].op); }
      LinkStaysOk(c, H, Act(c, H, l, schedule[0]), schedule[1..], t);
    }
  }

  lemma FreshOk(c: Primitives, H: Hasher, x: Hash, y: Hash)
    ensures LinkOk(c, H, FreshLink(x, y))
  {
  }

  // --------------------------------------------------------- the theorems

  /**
   Handshake agreement over every run, whatever handshakes are lost, repeated,
   reordered or taken in either role: two established parties that hold each
   other's keys have mirrored session keys exactly if one of them initiated and the
   other did not, and then every message of either side opens at the other.
   */
  lemma HandshakeAgreesIff(
      c: Primitives, H: Hasher, x: Hash, y: Hash, schedule: seq<Action>, t: Link, plain: bytes, random: u32)
    requires Commutes(c) && Inverts(c) && Reaches(c, H, FreshLink(x, y), schedule, t)
    requires Paired(t.a.s, t.b.s) && CollisionFree(H, t.hashed)
    ensures Mirrored(t.a.s, t.b.s) <==> t.a.s.initiator != t.b.s.initiator
    ensures t.a.s.keys == t.b.s.keys <==> t.a.s.initiator == t.b.s.initiator
    ensures EncryptFrame(c, t.a.s, plain, random).Some? && EncryptFrame(c, t.b.s, plain, random).Some?
    ensures t.a.s.initiator != t.b.s.initiator ==>
              && DecryptFrame(c, t.b.s, EncryptFrame(c, t.a.s, plain, random).value) == Some(plain)
              && DecryptFrame(c, t.a.s, EncryptFrame(c, t.b.s, plain, random).value) == Some(plain)
  {
    hide Reaches, DecryptFrame, Ok, Commutes, Inverts, Counted, Materials, Nonce;
    FreshOk(c, H, x, y);
    LinkStaysOk(c, H, FreshLink(x, y), schedule, t);
    KeysAgreeIff(c, H, t.a.s, t.b.s);
    if t.a.s.initiator != t.b.s.initiator {
      FramesDeliver(c, t.a.s, t.b.s, plain, random);
      FramesDeliver(c, t.b.s, t.a.s, plain, random);
    }
  }

  /**
   Over every run of both parties together, hang-ups and failed handshakes
   included: if they end in different roles, no (key, nonce) pair is used twice,
   neither by one side nor by both, within 2^64 messages a side.
   */
  lemma PairsNeverRepeat(c: Primitives, H: Hasher, x: Hash, y: Hash, schedule: seq<Action>, t: Link)
    requires Reaches(c, H, FreshLink(x, y), schedule, t) && CollisionFree(H, t.hashed)
    requires t.a.s.initiator != t.b.s.initiator
    requires |t.a.sealed| <= TWO_64 && |t.b.sealed| <= TWO_64
    ensures var all := t.a.sealed + t.b.sealed;
            forall i, j :: 0 <= i < j < |all| ==> all[i] != all[j]
  {
    hide Reaches, Ok, Counted, Materials, SendingMaterial;
    FreshOk(c, H, x, y);
    LinkStaysOk(c, H, FreshLink(x, y), schedule, t);
    CountedDistinct(t.a.sealed);
    CountedDistinct(t.b.sealed);
    var all := t.a.sealed + t.b.sealed;
    forall i, j | 0 <= i < j < |all| ensures all[i] != all[j] {
      if i < |t.a.sealed| <= j {
        var p, q := t.a.sealed[i], t.b.sealed[j - |t.a.sealed|];
        assert p in t.a.sealed && q in t.b.sealed;
        var k :| KeyedBy(H, t.a, t.hashed, k);
        var m :| KeyedBy(H, t.b, t.hashed, m);
        RolesDiffer(k, m, t.a.s.initiator);
      }
    }
  }

  /**
   And in equal roles only the four random bytes keep pairs apart: over every run, the
   i-th messages of two parties that hold each other's keys carry the same counter, and
   are sealed under the same key exactly if the roles are equal.
   */
  lemma SharedKeyIff(c: Primitives, H: Hasher, x: Hash, y: Hash, schedule: seq<Action>, t: Link, i: nat)
    requires Commutes(c) && Reaches(c, H, FreshLink(x, y), schedule, t) && CollisionFree(H, t.hashed)
    requires Paired(t.a.s, t.b.s) && i < |t.a.sealed| && i < |t.b.sealed|
    ensures t.a.sealed[i].0 == t.b.sealed[i].0 <==> t.a.s.initiator == t.b.s.initiator
    ensures |t.a.sealed[i].1| == |t.b.sealed[i].1| == 12 && t.a.sealed[i].1[..8] == t.b.sealed[i].1[..8]
  {
    hide Reaches, Ok, Commutes, Materials, KeyedBy, ToLe;
    FreshOk(c, H, x, y);
    LinkStaysOk(c, H, FreshLink(x, y), schedule, t);
    KeysAgreeIff(c, H, t.a.s, t.b.s);
    assert t.a.sealed[i] in t.a.sealed && t.b.sealed[i] in t.b.sealed;
  }

  lemma RolesDiffer(k: Hash, m: Hash, initiator: bool)
    ensures SendingMaterial(k, initiator) != SendingMaterial(m, !initiator)
  {
    assert |Material(k)| == 49 && |Material(m)| == 49;
  }

  // ------------------------------------- when established parties are paired

  /** An exchange with a proper public key does not fail. */
  ghost predicate NeverFails(c: Primitives) {
    forall x, y :: c.exchange(x, c.public(y)).Some?
  }

  predicate Live(s: State) {
    s.phase == HandshakeInit || s.phase == HandshakeResponse || s.phase == Established
  }

  ghost predicate IsKey(c: Primitives, k: Hash) {
    exists secret :: k == c.public(secret)
  }

  /** What `me` has sent to `other` carries the one ephemeral key of `me`, and `me` answered something it was sent. */
  ghost predicate OneKey(c: Primitives, me: Side, other: Side) {
    && (me.s.phase == Disconnected || me.s.phase == HandshakeResponse ==> other.inbox == {})
    && (Live(me.s) ==> forall m :: m in other.inbox ==> m.ephemeral == me.s.public)
    && (me.s.phase == HandshakeResponse || me.s.phase == Established ==>
          exists m :: m in me.inbox && me.s.remote == m.ephemeral)
    && (forall m :: m in me.inbox ==> IsKey(c, m.ephemeral))
  }

  predicate Initiated(s: State) {
    s.initiator && s.phase != Disconnected
  }

  /** Nothing has been sent before somebody initiated. */
  ghost predicate Settled(c: Primitives, H: Hasher, l: Link) {
    && Ok(c, H, l.a.s) && Ok(c, H, l.b.s)
    && OneKey(c, l.a, l.b) && OneKey(c, l.b, l.a)
    && (Initiated(l.a.s) || Initiated(l.b.s) || (l.a.inbox == {} && l.b.inbox == {}))
  }

  lemma ExchangeWorks(c: Primitives, secret: Hash, inbox: set<Handshake>, k: Hash)
    requires NeverFails(c) && forall m :: m in inbox ==> IsKey(c, m.ephemeral)
    requires exists m :: m in inbox && k == m.ephemeral
    ensures c.exchange(secret, k).Some?
  {
    var other :| k == c.public(other);
  }

  lemma SentKey(c: Primitives, H: Hasher, s: State, op: Op)
    requires Ok(c, H, s)
    ensures forall m :: m in Sent(c, H, s, op) ==>
              m.ephemeral == Apply(c, H, s, op).public && IsKey(c, m.ephemeral)
    ensures Sent(c, H, s, op) != {} ==> Live(Apply(c, H, s, op))
    ensures Sent(c, H, s, op) != {} ==> (s.phase == Disconnected && op.InitiateOp?) || s.phase == HandshakeResponse
  {
    hide Derive;
    ApplyOk(c, H, s, op);
    var after := Apply(c, H, s, op);
    assert Live(after) ==> IsKey(c, after.public);
  }

  /** Under way, a session keeps its key until it is closed, and takes its peer's key out of its inbox. */
  lemma KeyKept(c: Primitives, H: Hasher, p: Side, op: Op)
    requires NeverFails(c) && Ok(c, H, p.s) && Receivable(p.inbox, op)
    requires forall m :: m in p.inbox ==> IsKey(c, m.ephemeral)
    requires p.s.phase == HandshakeResponse || p.s.phase == Established ==>
               exists m :: m in p.inbox && p.s.remote == m.ephemeral
    ensures var after := Apply(c, H, p.s, op);
            && (after.phase == Disconnected ==> p.s.phase == Disconnected)
            && (p.s.phase == Closed ==> after.phase == Closed)
            && (Live(p.s) && Live(after) ==> after.public == p.s.public)
            && (p.s.phase != Disconnected ==> after.initiator == p.s.initiator)
            && (after.phase == HandshakeResponse ==> p.s.phase == Disconnected || p.s.phase == HandshakeResponse)
            && (after.phase == HandshakeResponse || after.phase == Established ==>
                  exists m :: m in p.inbox && after.remote == m.ephemeral)
            && (p.s.phase == Disconnected && Live(after) ==>
                  if after.phase == HandshakeInit then op.InitiateOp? && after.initiator
                  else after.phase == HandshakeResponse && p.inbox != {})
  {
    hide Derive, Genuine, FreshAt, NeverFails, IsKey;
    if op.ReplyOp? && p.s.phase == HandshakeResponse {
      ExchangeWorks(c, p.s.secret, p.inbox, p.s.remote);
    }
    if op.ResponseOp? && p.s.phase == HandshakeInit {
      ExchangeWorks(c, p.s.secret, p.inbox, op.m.ephemeral);
    }
  }

  lemma ActASettled(c: Primitives, H: Hasher, l: Link, op: Op)
    requires NeverFails(c) && Settled(c, H, l) && Receivable(l.a.inbox, op)
    ensures Settled(c, H, ActA(c, H, l, op))
  {
    hide Ok, NeverFails, IsKey, Apply, Sent;
    ApplyOk(c, H, l.a.s, op);
    SentKey(c, H, l.a.s, op);
    KeyKept(c, H, l.a, op);
    SendsOnStart(c, H, l.a.s, op);
  }

  lemma SendsOnStart(c: Primitives, H: Hasher, s: State, op: Op)
    ensures s.phase == Disconnected && op.InitiateOp? ==> Initiated(Apply(c, H, s, op))
    ensures Sent(c, H, s, op) != {} ==>
              Apply(c, H, s, op).phase == if s.phase == Disconnected then HandshakeInit else Established
  {
    hide Derive;
  }

  lemma {:induction false} StaysSettled(c: Primitives, H: Hasher, l: Link, schedule: seq<Action>, t: Link)
    requires NeverFails(c) && Settled(c, H, l) && Reaches(c, H, l, schedule, t)
    ensures Settled(c, H, t)
    decreases |schedule|
  {
    hide ActA, OneKey, NeverFails, Ok;
    if schedule != [] {
      if schedule[0].byA { ActASettled(c, H, l, schedule[0].op); } else { ActASettled(c, H, Swap(l), schedule[0].op); }
      StaysSettled(c, H, Act(c, H, l, schedule[0]), schedule[1..], t);
    }
  }

  /**
   If exchanges with proper keys never fail, two established parties always hold
   each other's keys and at least one of them initiated; so their keys are mirrored
   exactly if they did not both initiate.
   */
  lemma EstablishedArePaired(c: Primitives, H: Hasher, x: Hash, y: Hash, schedule: seq<Action>, t: Link)
    requires NeverFails(c) && Commutes(c) && Reaches(c, H, FreshLink(x, y), schedule, t)
    requires t.a.s.phase == Established && t.b.s.phase == Established && CollisionFree(H, t.hashed)
    ensures Paired(t.a.s, t.b.s)
    ensures Mirrored(t.a.s, t.b.s) <==> !(t.a.s.initiator && t.b.s.initiator)
  {
    hide Reaches, Ok, Commutes, NeverFails, Counted, Materials, KeyedBy, IsKey;
    FreshOk(c, H, x, y);
    LinkStaysOk(c, H, FreshLink(x, y), schedule, t);
    FreshSettled(c, H, x, y);
    StaysSettled(c, H, FreshLink(x, y), schedule, t);
    KeysAgreeIff(c, H, t.a.s, t.b.s);
  }

  lemma FreshSettled(c: Primitives, H: Hasher, x: Hash, y: Hash)
    ensures Settled(c, H, FreshLink(x, y))
  {
  }

  // --------------------------------------------------- both parties initiate

  /** Both initiate, and each takes the other's first message for a response; then each seals one message. */
  function BothInitiate(
      c: Primitives, H: Hasher, x: Hash, y: Hash, s: Hash, r: Hash, now: Clock, random: u32): seq<Action> {
    [Action(true, InitiateOp(s, now)),
     Action(false, InitiateOp(r, now)),
     Action(true, ResponseOp(Tagged(H, 1, c.public(r), y, now), now)),
     Action(false, ResponseOp(Tagged(H, 1, c.public(s), x, now), now)),
     Action(true, EncryptOp([], random)),
     Action(false, EncryptOp([], random))]
  }

  /**
   The run in which it goes wrong, for any two parties and secrets: both end
   established with the same keys, neither can use the other's sending key, and the
   two first messages are sealed under the same key and nonce.
   */
  lemma BothInitiateClash(
      c: Primitives, H: Hasher, x: Hash, y: Hash, s: Hash, r: Hash, now: Clock, random: u32) returns (t: Link)
    requires Commutes(c) && c.exchange(s, c.public(r)).Some?
    ensures Reaches(c, H, FreshLink(x, y), BothInitiate(c, H, x, y, s, r, now, random), t)
    ensures Paired(t.a.s, t.b.s) && t.a.s.keys == t.b.s.keys
    ensures CollisionFree(H, t.hashed) ==> !Mirrored(t.a.s, t.b.s)
    ensures |t.a.sealed| == 1 && t.a.sealed == t.b.sealed
  {
    hide Act, Paired, Mirrored, Reaches, BothInitiate;
    var schedule := BothInitiate(c, H, x, y, s, r, now, random);
    var l2 := InitiatedBoth(c, H, x, y, s, r, now, random);
    var l4 := AnsweredBoth(c, H, x, y, s, r, now, random);
    t := SealedBoth(c, H, x, y, s, r, now, random, l4);
    ShortSchedule(c, H, x, y, s, r, now, random);
    NothingReaches(c, H, t);
    TwoSteps(c, H, l4, schedule[4..], t);
    TwoSteps(c, H, l2, schedule[2..], t);
    TwoSteps(c, H, FreshLink(x, y), schedule, t);
  }

  lemma ShortSchedule(c: Primitives, H: Hasher, x: Hash, y: Hash, s: Hash, r: Hash, now: Clock, random: u32)
    ensures var schedule := BothInitiate(c, H, x, y, s, r, now, random);
            && |schedule| == 6 && schedule[4..][2..] == [] && schedule[2..][2..] == schedule[4..]
            && schedule[2..][0] == schedule[2] && schedule[2..][1] == schedule[3]
            && schedule[4..][0] == schedule[4] && schedule[4..][1] == schedule[5]
  {
  }

  lemma NothingReaches(c: Primitives, H: Hasher, t: Link)
    ensures Reaches(c, H, t, [], t)
  {
  }

  lemma TwoSteps(c: Primitives, H: Hasher, l: Link, schedule: seq<Action>, t: Link)
    requires |schedule| >= 2 && Enabled(l, schedule[0]) && Enabled(Act(c, H, l, schedule[0]), schedule[1])
    requires Reaches(c, H, Act(c, H, Act(c, H, l, schedule[0]), schedule[1]), schedule[2..], t)
    ensures Reaches(c, H, l, schedule, t)
  {
    hide Act, Enabled;
    assert schedule[1..][1..] == schedule[2..];
  }

  /** A session that has initiated. */
  function Waiting(c: Primitives, node: Hash, secret: Hash): State {
    Fresh(node).(initiator := true, secret := secret, public := c.public(secret), phase := HandshakeInit)
  }

  /** A session that initiated and has taken `key` for the response. */
  function Answered(c: Primitives, H: Hasher, node: Hash, secret: Hash, key: Hash, k: Hash): State {
    Waiting(c, node, secret).(remote := key, phase := Established, keys := Derive(H, k, true))
  }

  lemma InitiatedBoth(
      c: Primitives, H: Hasher, x: Hash, y: Hash, s: Hash, r: Hash, now: Clock, random: u32) returns (l: Link)
    ensures var schedule := BothInitiate(c, H, x, y, s, r, now, random);
            && Enabled(FreshLink(x, y), schedule[0])
            && Enabled(Act(c, H, FreshLink(x, y), schedule[0]), schedule[1])
            && l == Act(c, H, Act(c, H, FreshLink(x, y), schedule[0]), schedule[1])
    ensures l == InitiatedLink(c, H, x, y, s, r, now)
  {
    hide Tagged, Materials;
    var schedule := BothInitiate(c, H, x, y, s, r, now, random);
    l := Act(c, H, Act(c, H, FreshLink(x, y), schedule[0]), schedule[1]);
    assert Act(c, H, FreshLink(x, y), schedule[0])
        == Link(Side(Waiting(c, x, s), {}, []), Side(Fresh(y), {Tagged(H, 1, c.public(s), x, now)}, []), {});
  }

  lemma TakesResponse(c: Primitives, H: Hasher, node: Hash, secret: Hash, m: Handshake, now: Clock, k: Hash)
    requires Genuine(H, m) && FreshAt(m, now) && c.exchange(secret, m.ephemeral) == Some(k)
    ensures var s, op := Waiting(c, node, secret), ResponseOp(m, now);
            && Apply(c, H, s, op) == Answered(c, H, node, secret, m.ephemeral, k)
            && Sent(c, H, s, op) == {} && SealedBy(s, op) == []
            && HashedBy(c, s, Apply(c, H, s, op)) == {Material(k), Material(k) + [1]}
  {
    hide Genuine, FreshAt, Derive, Material;
  }

  lemma AnsweredBoth(
      c: Primitives, H: Hasher, x: Hash, y: Hash, s: Hash, r: Hash, now: Clock, random: u32) returns (l: Link)
    requires Commutes(c) && c.exchange(s, c.public(r)).Some?
    ensures var l2, schedule := InitiatedLink(c, H, x, y, s, r, now), BothInitiate(c, H, x, y, s, r, now, random);
            && Enabled(l2, schedule[2]) && Enabled(Act(c, H, l2, schedule[2]), schedule[3])
            && l == Act(c, H, Act(c, H, l2, schedule[2]), schedule[3])
    ensures var k := c.exchange(s, c.public(r)).value;
            && l.a.s == Answered(c, H, x, s, c.public(r), k) && l.b.s == Answered(c, H, y, r, c.public(s), k)
            && l.a.sealed == [] == l.b.sealed && l.hashed == {Material(k), Material(k) + [1]}
  {
    hide Tagged, Material, Derive, Apply, Sent, SealedBy, HashedBy, Waiting;
    var schedule := BothInitiate(c, H, x, y, s, r, now, random);
    var k := c.exchange(s, c.public(r)).value;
    assert c.exchange(s, c.public(r)) == c.exchange(r, c.public(s));
    HelloIntact(H, c.public(r), y, now);
    HelloIntact(H, c.public(s), x, now);
    TakesResponse(c, H, x, s, Tagged(H, 1, c.public(r), y, now), now, k);
    TakesResponse(c, H, y, r, Tagged(H, 1, c.public(s), x, now), now, k);
    l := Act(c, H, Act(c, H, InitiatedLink(c, H, x, y, s, r, now), schedule[2]), schedule[3]);
  }

  function InitiatedLink(c: Primitives, H: Hasher, x: Hash, y: Hash, s: Hash, r: Hash, now: Clock): Link {
    Link(Side(Waiting(c, x, s), {Tagged(H, 1, c.public(r), y, now)}, []),
         Side(Waiting(c, y, r), {Tagged(H, 1, c.public(s), x, now)}, []), {})
  }

  lemma SealedBoth(
      c: Primitives, H: Hasher, x: Hash, y: Hash, s: Hash, r: Hash, now: Clock, random: u32, l: Link) returns (t: Link)
    requires c.exchange(s, c.public(r)).Some?
    requires var k := c.exchange(s, c.public(r)).value;
             && l.a.s == Answered(c, H, x, s, c.public(r), k) && l.b.s == Answered(c, H, y, r, c.public(s), k)
             && l.a.sealed == [] == l.b.sealed && l.hashed == {Material(k), Material(k) + [1]}
    ensures var schedule := BothInitiate(c, H, x, y, s, r, now, random);
            && Enabled(l, schedule[4]) && Enabled(Act(c, H, l, schedule[4]), schedule[5])
            && t == Act(c, H, Act(c, H, l, schedule[4]), schedule[5])
    ensures Paired(t.a.s, t.b.s) && t.a.s.keys == t.b.s.keys
    ensures CollisionFree(H, t.hashed) ==> !Mirrored(t.a.s, t.b.s)
    ensures |t.a.sealed| == 1 && t.a.sealed == t.b.sealed
  {
    hide Material, Tagged, Nonce;
    var schedule := BothInitiate(c, H, x, y, s, r, now, random);
    t := Act(c, H, Act(c, H, l, schedule[4]), schedule[5]);
    var m := Material(c.exchange(s, c.public(r)).value);
    assert |m| != |m + [1]| && m in t.hashed && m + [1] in t.hashed;
  }

  lemma HelloIntact(H: Hasher, key: Hash, node: Hash, now: Clock)
    ensures var m := Tagged(H, 1, key, node, now);
            Genuine(H, m) && FreshAt(m, now) && m.ephemeral == key
  {
  }
}
