/**
 Encrypted sessions (src/network/session.cpp:12-33, 108-382, 437-497): the
 handshake of two parties, key derivation, nonces and framing.
 */
module Session {
  import opened Bytes
  import opened Crypto

  datatype Phase = Disconnected | HandshakeInit | HandshakeResponse | Established | Closed

  datatype Handshake = Handshake(version: byte, ephemeral: Hash, node: Hash, timestamp: u64, signature: Signature)

  datatype Keys = Keys(tx: Hash, rx: Hash)

  datatype State = State(
    local: Hash,
    phase: Phase,
    initiator: bool,
    secret: Hash,
    public: Hash,
    remote: Hash,
    keys: Keys,
    counter: u64)

  const MAX_HANDSHAKE_AGE: nat := 60

  function Fresh(local: Hash): State {
    State(local, Disconnected, false, ZERO_HASH, ZERO_HASH, ZERO_HASH, Keys(ZERO_HASH, ZERO_HASH), 0)
  }

  /** The integrity tag of a handshake: the digest of its other fields, twice. */
  function Tagged(H: Hasher, version: byte, ephemeral: Hash, node: Hash, timestamp: u64): Handshake {
    var digest := H(SigningBytes(version, ephemeral, node, timestamp));
    Handshake(version, ephemeral, node, timestamp, Signature(digest, digest))
  }

  predicate Genuine(H: Hasher, m: Handshake) {
    m == Tagged(H, m.version, m.ephemeral, m.node, m.timestamp)
  }

  predicate FreshAt(m: Handshake, now: Clock) {
    SubU64(now, m.timestamp) <= MAX_HANDSHAKE_AGE
  }

  /** "cashew_session_v1". */
  const CONTEXT: bytes := [99, 97, 115, 104, 101, 119, 95, 115, 101, 115, 115, 105, 111, 110, 95, 118, 49]

  function Material(shared: Hash): bytes {
    Bytes32(shared) + CONTEXT
  }

  /** The initiator sends with the first key, the responder with the second. */
  function Derive(H: Hasher, shared: Hash, initiator: bool): Keys {
    var first, second := H(Material(shared)), H(Material(shared) + [1]);
    if initiator then Keys(first, second) else Keys(second, first)
  }

  /** Key exchange and derivation, or back to the start. */
  function Establish(c: Primitives, H: Hasher, s: State): State {
    match c.exchange(s.secret, s.remote)
    case None => s.(phase := Disconnected)
    case Some(shared) => s.(phase := Established, keys := Derive(H, shared, s.initiator))
  }

  // ------------------------------------------------------------- operations

  function Initiate(c: Primitives, s: State, secret: Hash): State {
    if s.phase != Disconnected then s
    else s.(initiator := true, secret := secret, public := c.public(secret), phase := HandshakeInit)
  }

  function HandleResponse(c: Primitives, H: Hasher, s: State, m: Handshake, now: Clock): State {
    if s.phase != HandshakeInit || !FreshAt(m, now) || !Genuine(H, m) then s
    else Establish(c, H, s.(remote := m.ephemeral))
  }

  function HandleInit(c: Primitives, H: Hasher, s: State, m: Handshake, secret: Hash, now: Clock): State {
    if s.phase != Disconnected then s
    else if !FreshAt(m, now) || !Genuine(H, m) then s.(initiator := false)
    else s.(initiator := false, remote := m.ephemeral, secret := secret, public := c.public(secret),
            phase := HandshakeResponse)
  }

  function SendResponse(c: Primitives, H: Hasher, s: State): State {
    if s.phase != HandshakeResponse then s else Establish(c, H, s)
  }

  /** The message a party puts on the wire: its own ephemeral key, tagged. */
  function Hello(H: Hasher, s: State, now: Clock): Handshake {
    Tagged(H, 1, s.public, s.local, now)
  }

  function Close(s: State): State {
    if s.phase == Closed then s
    else s.(secret := ZERO_HASH, public := ZERO_HASH, keys := Keys(ZERO_HASH, ZERO_HASH), phase := Closed)
  }

  /** Eight bytes of counter, four random bytes. */
  function Nonce(counter: u64, random: u32): (n: bytes)
    ensures |n| == 12
  {
    ToLe(counter, 8) + ToLe(random, 4)
  }

  function EncryptFrame(c: Primitives, s: State, plain: bytes, random: u32): Option<bytes> {
    if s.phase != Established then None
    else
      var nonce := Nonce(s.counter, random);
      Some(nonce + c.seal(plain, s.keys.tx, nonce))
  }

  function AfterEncrypt(s: State): State {
    if s.phase != Established then s else s.(counter := (s.counter + 1) % TWO_64)
  }

  function DecryptFrame(c: Primitives, s: State, frame: bytes): Option<bytes> {
    if s.phase != Established || |frame| < 28 then None
    else c.open(frame[12..], s.keys.rx, frame[..12])
  }

  // ---------------------------------------------------------- one session

  /** While a handshake is under way the public key is that of the secret; once established, the keys are derived. */
  ghost predicate Ok(c: Primitives, H: Hasher, s: State) {
    && (s.phase in {HandshakeInit, HandshakeResponse, Established} ==> s.public == c.public(s.secret))
    && (s.phase == HandshakeInit ==> s.initiator)
    && (s.phase == HandshakeResponse ==> !s.initiator)
    && (s.phase == Established ==>
          var shared := c.exchange(s.secret, s.remote);
          shared.Some? && s.keys == Derive(H, shared.value, s.initiator))
  }

  datatype Op =
    | InitiateOp(secret: Hash, now: Clock)
    | ResponseOp(m: Handshake, now: Clock)
    | InitOp(m: Handshake, secret: Hash, now: Clock)
    | ReplyOp(now: Clock)
    | CloseOp
    | EncryptOp(plain: bytes, random: u32)
    | DecryptOp(frame: bytes)

  function Apply(c: Primitives, H: Hasher, s: State, op: Op): State {
    match op
    case InitiateOp(secret, _) => Initiate(c, s, secret)
    case ResponseOp(m, now) => HandleResponse(c, H, s, m, now)
    case InitOp(m, secret, now) => HandleInit(c, H, s, m, secret, now)
    case ReplyOp(_) => SendResponse(c, H, s)
    case CloseOp => Close(s)
    case EncryptOp(_, _) => AfterEncrypt(s)
    case DecryptOp(_) => s
  }

  function Run(c: Primitives, H: Hasher, s: State, ops: seq<Op>): State {
    if ops == [] then s else Apply(c, H, Run(c, H, s, ops[..|ops| - 1]), ops[|ops| - 1])
  }

  /** The (key, nonce) pairs under which messages were sealed in a run. */
  function Used(c: Primitives, H: Hasher, s: State, ops: seq<Op>): (r: seq<(Hash, bytes)>)
    ensures forall i :: 0 <= i < |r| ==> |r[i].1| == 12
  {
    if ops == [] then []
    else
      var front := ops[..|ops| - 1];
      var before, op := Run(c, H, s, front), ops[|ops| - 1];
      if op.EncryptOp? && before.phase == Established
      then Used(c, H, s, front) + [(before.keys.tx, Nonce(before.counter, op.random))]
      else Used(c, H, s, front)
  }

  lemma ApplyOk(c: Primitives, H: Hasher, s: State, op: Op)
    requires Ok(c, H, s)
    ensures Ok(c, H, Apply(c, H, s, op))
  {
    hide Derive, Genuine, FreshAt;
  }

  lemma {:induction false} RunOk(c: Primitives, H: Hasher, s: State, ops: seq<Op>)
    requires Ok(c, H, s)
    ensures Ok(c, H, Run(c, H, s, ops))
  {
    hide Ok, Apply;
    if ops != [] {
      RunOk(c, H, s, ops[..|ops| - 1]);
      ApplyOk(c, H, Run(c, H, s, ops[..|ops| - 1]), ops[|ops| - 1]);
    }
  }

  /** The i-th message of a session carries the i-th counter value. */
  ghost predicate Counted(used: seq<(Hash, bytes)>) {
    forall i :: 0 <= i < |used| ==> |used[i].1| == 12 && used[i].1[..8] == ToLe(i % TWO_64, 8)
  }

  lemma NoncePrefix(counter: u64, random: u32)
    ensures Nonce(counter, random)[..8] == ToLe(counter, 8)
  {
  }

  lemma {:induction false} RunCounts(c: Primitives, H: Hasher, local: Hash, ops: seq<Op>)
    ensures Counted(Used(c, H, Fresh(local), ops))
    ensures Run(c, H, Fresh(local), ops).counter == |Used(c, H, Fresh(local), ops)| % TWO_64
  {
    hide Nonce, ToLe, Establish, Genuine, FreshAt;
    if ops != [] {
      var front, op := ops[..|ops| - 1], ops[|ops| - 1];
      RunCounts(c, H, local, front);
      var before := Run(c, H, Fresh(local), front);
      CounterMoves(c, H, before, op);
      if op.EncryptOp? && before.phase == Established {
        NoncePrefix(before.counter, op.random);
        NextCount(|Used(c, H, Fresh(local), front)|);
      }
    }
  }

  lemma NextCount(n: nat)
    ensures (n % TWO_64 + 1) % TWO_64 == (n + 1) % TWO_64
  {
  }

  /** Only a sealed message moves the counter. */
  lemma CounterMoves(c: Primitives, H: Hasher, s: State, op: Op)
    ensures Apply(c, H, s, op).counter
         == if op.EncryptOp? && s.phase == Established then (s.counter + 1) % TWO_64 else s.counter
  {
    hide Derive, Genuine, FreshAt;
  }

  ghost predicate Distinct(used: seq<(Hash, bytes)>) {
    forall i, j :: 0 <= i < j < |used| ==> used[i].1 != used[j].1
  }

  lemma CountedDistinct(used: seq<(Hash, bytes)>)
    requires Counted(used) && |used| <= TWO_64
    ensures Distinct(used)
  {
    hide ToLe;
    forall i, j | 0 <= i < j < |used| ensures used[i].1 != used[j].1 {
      assert used[i].1[..8] == ToLe(i % TWO_64, 8) && used[j].1[..8] == ToLe(j % TWO_64, 8);
      DifferentCounters(i, j);
    }
  }

  /** In every run of a session, whatever happens in between, no nonce repeats within 2^64 messages. */
  lemma NoncesNeverRepeat(c: Primitives, H: Hasher, local: Hash, ops: seq<Op>)
    requires |Used(c, H, Fresh(local), ops)| <= TWO_64
    ensures Distinct(Used(c, H, Fresh(local), ops))
  {
    hide Used, Counted, Distinct;
    RunCounts(c, H, local, ops);
    CountedDistinct(Used(c, H, Fresh(local), ops));
  }

  lemma DifferentCounters(i: u64, j: u64)
    requires i != j
    ensures ToLe(i, 8) != ToLe(j, 8)
  {
    hide ToLe, FromLe;
    Le64(i);
    Le64(j);
  }

  /** The bound is sharp: 2^64 messages later the counter bytes are the same, and only four random bytes remain. */
  lemma CounterComesBack(c: Primitives, H: Hasher, local: Hash, ops: seq<Op>, i: nat)
    requires i + TWO_64 < |Used(c, H, Fresh(local), ops)|
    ensures Used(c, H, Fresh(local), ops)[i].1[..8] == Used(c, H, Fresh(local), ops)[i + TWO_64].1[..8]
  {
    hide Used, ToLe;
    RunCounts(c, H, local, ops);
    assert (i + TWO_64) % TWO_64 == i % TWO_64;
  }

  /** A closed session holds no key and stays closed: nothing is sealed or opened again, whatever comes. */
  lemma {:induction false} ClosedForGood(c: Primitives, H: Hasher, s: State, ops: seq<Op>)
    ensures var t := Run(c, H, Close(s), ops);
            && t.phase == Closed && Used(c, H, Close(s), ops) == []
            && (s.phase != Closed ==> t.secret == t.public == t.keys.tx == t.keys.rx == ZERO_HASH)
            && (forall plain, random :: EncryptFrame(c, t, plain, random).None?)
            && (forall frame :: DecryptFrame(c, t, frame).None?)
  {
    hide Nonce, Derive, Genuine, FreshAt;
    if ops != [] { ClosedForGood(c, H, s, ops[..|ops| - 1]); }
  }

  /** A handshake whose exchange fails leaves the session free to start over, in either role. */
  lemma FailureReopens(c: Primitives, H: Hasher, s: State, m: Handshake, secret: Hash, now: Clock)
    ensures s.phase == HandshakeResponse && c.exchange(s.secret, s.remote).None? ==>
              var t := SendResponse(c, H, s);
              t.phase == Disconnected && Initiate(c, t, secret).phase == HandshakeInit
    ensures s.phase == HandshakeInit && Genuine(H, m) && m.timestamp <= now <= m.timestamp + 60
            && c.exchange(s.secret, m.ephemeral).None? ==>
              var t := HandleResponse(c, H, s, m, now);
              t.phase == Disconnected && Initiate(c, t, secret).phase == HandshakeInit
  {
    hide Tagged;
  }

  // ------------------------------------------------------------- tampering

  function SigningBytes(version: byte, ephemeral: Hash, node: Hash, timestamp: u64): bytes {
    [version] + Bytes32(ephemeral) + Bytes32(node) + ToLe(timestamp, 8)
  }

  lemma SigningInjective(v: byte, e: Hash, n: Hash, t: u64, w: byte, f: Hash, m: Hash, u: u64)
    requires SigningBytes(v, e, n, t) == SigningBytes(w, f, m, u)
    ensures v == w && e == f && n == m && t == u
  {
    hide Bytes32, ToLe, FromLe;
    var s := SigningBytes(v, e, n, t);
    assert v == s[0] == w;
    assert Bytes32(e) == s[1..33] == Bytes32(f);
    assert Bytes32(n) == s[33..65] == Bytes32(m);
    assert ToLe(t, 8) == s[65..73] == ToLe(u, 8);
    Bytes32Injective(e, f);
    Bytes32Injective(n, m);
    Le64(t);
    Le64(u);
  }

  /** A handshake altered in any field is not genuine, as far as the digest can tell its contents apart. */
  lemma AlteredRefused(c: Primitives, H: Hasher, m: Handshake, x: Handshake, s: State, secret: Hash, now: Clock)
    requires Genuine(H, m) && x != m
    requires x.signature == m.signature
          || (x.version == m.version && x.ephemeral == m.ephemeral && x.node == m.node && x.timestamp == m.timestamp)
    requires CollisionFree(H, {SigningBytes(m.version, m.ephemeral, m.node, m.timestamp),
                               SigningBytes(x.version, x.ephemeral, x.node, x.timestamp)})
    ensures !Genuine(H, x)
    ensures HandleResponse(c, H, s, x, now) == s
    ensures HandleInit(c, H, s, x, secret, now).phase == s.phase
  {
    hide Bytes32, ToLe;
    if Genuine(H, x) && x.signature == m.signature {
      SigningInjective(m.version, m.ephemeral, m.node, m.timestamp, x.version, x.ephemeral, x.node, x.timestamp);
    }
  }

  /** A nonce determines its counter and its random part. */
  lemma NonceInjective(i: u64, r: u32, j: u64, q: u32)
    requires Nonce(i, r) == Nonce(j, q)
    ensures i == j && r == q
  {
    hide ToLe, FromLe;
    var n := Nonce(i, r);
    assert ToLe(i, 8) == n[..8] == ToLe(j, 8) && ToLe(r, 4) == n[8..] == ToLe(q, 4);
    Le64(i);
    Le64(j);
    Le32(r);
    Le32(q);
  }

  /** Only an established session opens frames, and none shorter than a nonce and a tag. */
  lemma OpensOnlyFrames(c: Primitives, s: State, frame: bytes)
    requires DecryptFrame(c, s, frame).Some?
    ensures s.phase == Established && |frame| >= 12 + 16
  {
  }

  // ----------------------------------------------------------- two sessions

  /** Both parties are established and hold each other's ephemeral keys, in whatever roles. */
  ghost predicate Paired(a: State, b: State) {
    && a.phase == Established && b.phase == Established
    && a.remote == b.public && b.remote == a.public
  }

  /** Each side's sending key is the other side's receiving key. */
  predicate Mirrored(a: State, b: State) {
    a.keys.tx == b.keys.rx && a.keys.rx == b.keys.tx
  }

  /** The two inputs of the digest when keys are derived from the secret that `s` has agreed on. */
  function Materials(c: Primitives, s: State): set<bytes> {
    match c.exchange(s.secret, s.remote)
    case None => {}
    case Some(k) => {Material(k), Material(k) + [1]}
  }

  /**
   Agreement: parties that hold each other's keys have mirrored session keys
   exactly if they play different roles; in equal roles they have the same keys
   and seal under one and the same key.
   */
  lemma KeysAgreeIff(c: Primitives, H: Hasher, a: State, b: State)
    requires Commutes(c) && Ok(c, H, a) && Ok(c, H, b) && Paired(a, b)
    requires CollisionFree(H, Materials(c, a))
    ensures Mirrored(a, b) <==> a.initiator != b.initiator
    ensures a.keys.tx == b.keys.tx <==> a.initiator == b.initiator
    ensures a.keys == b.keys <==> a.initiator == b.initiator
    ensures Materials(c, a) == Materials(c, b)
  {
    hide Material;
    assert c.exchange(a.secret, c.public(b.secret)) == c.exchange(b.secret, c.public(a.secret));
    var m := Material(c.exchange(a.secret, a.remote).value);
    assert |m| != |m + [1]| && m in Materials(c, a) && m + [1] in Materials(c, a);
  }

  /** Every message sealed by one party opens at the other to its plaintext. */
  lemma FramesDeliver(c: Primitives, a: State, b: State, plain: bytes, random: u32)
    requires Inverts(c) && a.phase == Established && b.phase == Established && a.keys.tx == b.keys.rx
    ensures EncryptFrame(c, a, plain, random).Some?
    ensures DecryptFrame(c, b, EncryptFrame(c, a, plain, random).value) == Some(plain)
  {
    hide Nonce;
    var nonce := Nonce(a.counter, random);
    var sealed := c.seal(plain, a.keys.tx, nonce);
    assert |sealed| == |plain| + 16;
    assert (nonce + sealed)[12..] == sealed && (nonce + sealed)[..12] == nonce;
  }

  /** If the digest tells the two key materials apart, the two directions never share a key. */
  lemma DirectionsDiffer(c: Primitives, H: Hasher, s: State)
    requires Ok(c, H, s) && s.phase == Established && CollisionFree(H, Materials(c, s))
    ensures s.keys.tx != s.keys.rx
  {
    hide Material;
    var m := Material(c.exchange(s.secret, s.remote).value);
    assert |m| != |m + [1]|;
  }

  /** A handshake between `a` and `b`, step by step: when each message is sent and when it arrives. */
  datatype Course = Course(a: State, b: State)

  function Handshaken(
      c: Primitives, H: Hasher, x: Hash, y: Hash, s: Hash, r: Hash,
      t0: Clock, t1: Clock, t2: Clock, t3: Clock): Course {
    var a := Initiate(c, Fresh(x), s);
    var b := SendResponse(c, H, HandleInit(c, H, Fresh(y), Hello(H, a, t0), r, t1));
    Course(HandleResponse(c, H, a, Hello(H, b, t2), t3), b)
  }

  /**
   A handshake whose messages get through completes exactly if each of them arrives within
   60 s of being sent and not before; then the parties hold each other's keys, in their roles.
   */
  lemma CompletesIff(
      c: Primitives, H: Hasher, x: Hash, y: Hash, s: Hash, r: Hash, t0: Clock, t1: Clock, t2: Clock, t3: Clock)
    requires Commutes(c) && c.exchange(s, c.public(r)).Some?
    ensures var end := Handshaken(c, H, x, y, s, r, t0, t1, t2, t3);
            && (end.a.phase == Established && end.b.phase == Established
                <==> t0 <= t1 <= t0 + 60 && t2 <= t3 <= t2 + 60)
            && (end.a.phase == Established && end.b.phase == Established ==>
                  Paired(end.a, end.b) && end.a.initiator && !end.b.initiator)
  {
    hide SigningBytes, Material;
    assert c.exchange(s, c.public(r)) == c.exchange(r, c.public(s));
  }
}
