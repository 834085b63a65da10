/**
 The session object (src/network/session.cpp:108-382, 437-497), updated in place;
 random secrets and nonce bytes are parameters.
 */
module SessionChannel {
  import opened Bytes
  import opened Crypto
  import opened Session

  class Channel {
    const c: Primitives
    const hasher: Hasher
    const local: Hash
    var phase: Phase
    var initiator: bool
    var secret: Hash
    var public: Hash
    var remote: Hash
    var keys: Keys
    var counter: u64
    var sentMessages: u64
    var receivedMessages: u64

    ghost function View(): State
      reads this
    {
      State(local, phase, initiator, secret, public, remote, keys, counter)
    }

    ghost predicate Valid()
      reads this
    {
      Ok(c, hasher, View())
    }

    constructor (local: Hash, c: Primitives, hasher: Hasher)
      ensures this.c == c && this.hasher == hasher
      ensures View() == Fresh(local) && Valid() && sentMessages == 0 == receivedMessages
    {
      this.local, this.c, this.hasher := local, c, hasher;
      phase, initiator, secret, public, remote := Disconnected, false, ZERO_HASH, ZERO_HASH, ZERO_HASH;
      keys, counter, sentMessages, receivedMessages := Keys(ZERO_HASH, ZERO_HASH), 0, 0, 0;
    }

    method InitiateHandshake(ephemeral: Hash, now: Clock) returns (hello: Option<Handshake>)
      requires Valid()
      modifies this
      ensures Valid() && View() == Initiate(c, old(View()), ephemeral)
      ensures hello == if old(phase) == Disconnected then Some(Hello(hasher, View(), now)) else None
    {
      hide Derive, Tagged;
      ApplyOk(c, hasher, View(), InitiateOp(ephemeral, now));
      if phase != Disconnected { return None; }
      initiator := true;
      secret, public := ephemeral, c.public(ephemeral);
      hello := Some(Tagged(hasher, 1, public, local, now));
      phase := HandshakeInit;
    }

    method HandleHandshakeResponse(m: Handshake, now: Clock) returns (ok: bool)
      requires Valid()
      modifies this
      ensures Valid() && View() == HandleResponse(c, hasher, old(View()), m, now)
      ensures ok <==> old(phase) == HandshakeInit && phase == Established
    {
      hide Derive, Genuine;
      ApplyOk(c, hasher, View(), ResponseOp(m, now));
      if phase != HandshakeInit { return false; }
      if SubU64(now, m.timestamp) > MAX_HANDSHAKE_AGE { return false; }
      if !Genuine(hasher, m) { return false; }
      remote := m.ephemeral;
      ok := DeriveSessionKeys();
    }

    method HandleHandshakeInit(m: Handshake, ephemeral: Hash, now: Clock) returns (ok: bool)
      requires Valid()
      modifies this
      ensures Valid() && View() == HandleInit(c, hasher, old(View()), m, ephemeral, now)
      ensures ok <==> old(phase) == Disconnected && phase == HandshakeResponse
    {
      hide Derive, Genuine;
      ApplyOk(c, hasher, View(), InitOp(m, ephemeral, now));
      if phase != Disconnected { return false; }
      initiator := false;
      if SubU64(now, m.timestamp) > MAX_HANDSHAKE_AGE { return false; }
      if !Genuine(hasher, m) { return false; }
      remote := m.ephemeral;
      secret, public := ephemeral, c.public(ephemeral);
      phase := HandshakeResponse;
      ok := true;
    }

    method SendHandshakeResponse(now: Clock) returns (hello: Option<Handshake>)
      requires Valid()
      modifies this
      ensures Valid() && View() == SendResponse(c, hasher, old(View()))
      ensures hello == if old(phase) == HandshakeResponse && phase == Established
                       then Some(Hello(hasher, View(), now)) else None
    {
      hide Derive, Tagged;
      ApplyOk(c, hasher, View(), ReplyOp(now));
      if phase != HandshakeResponse { return None; }
      var response := Tagged(hasher, 1, public, local, now);
      var ok := DeriveSessionKeys();
      return if ok then Some(response) else None;
    }

    /** Key exchange followed by the two hashes of the shared secret. */
    method DeriveSessionKeys() returns (ok: bool)
      modifies this`phase, this`keys
      ensures View() == Establish(c, hasher, old(View()))
      ensures ok <==> phase == Established
    {
      hide Bytes32;
      var shared := c.exchange(secret, remote);
      if shared.None? {
        phase := Disconnected;
        return false;
      }
      var material := Bytes32(shared.value) + CONTEXT;
      var first := hasher(material);
      material := material + [1];
      var second := hasher(material);
      keys := if initiator then Keys(first, second) else Keys(second, first);
      phase := Established;
      ok := true;
    }

    method Close()
      requires Valid()
      modifies this
      ensures Valid() && View() == Session.Close(old(View()))
      ensures old(phase) != Closed ==> secret == ZERO_HASH && keys == Keys(ZERO_HASH, ZERO_HASH)
    {
      hide Derive;
      if phase == Closed { return; }
      secret, public := ZERO_HASH, ZERO_HASH;
      keys := Keys(ZERO_HASH, ZERO_HASH);
      phase := Closed;
    }

    method EncryptMessage(plain: bytes, random: u32) returns (frame: Option<bytes>)
      requires Valid()
      modifies this`counter, this`sentMessages
      ensures Valid() && View() == AfterEncrypt(old(View()))
      ensures frame == EncryptFrame(c, old(View()), plain, random)
      ensures sentMessages == if frame.Some? then (old(sentMessages) + 1) % TWO_64 else old(sentMessages)
    {
      hide Derive, ToLe;
      if phase != Established { return None; }
      var nonce := AppendLe([], counter, 8);
      nonce := AppendLe(nonce, random, 4);
      assert nonce == Nonce(counter, random);
      counter := (counter + 1) % TWO_64;
      frame := Some(nonce + c.seal(plain, keys.tx, nonce));
      sentMessages := (sentMessages + 1) % TWO_64;
    }

    method DecryptMessage(frame: bytes) returns (plain: Option<bytes>)
      modifies this`receivedMessages
      ensures plain == DecryptFrame(c, View(), frame)
      ensures receivedMessages == if plain.Some? then (old(receivedMessages) + 1) % TWO_64 else old(receivedMessages)
    {
      if phase != Established { return None; }
      if |frame| < 12 + 16 { return None; }
      plain := c.open(frame[12..], keys.rx, frame[..12]);
      if plain.Some? { receivedMessages := (receivedMessages + 1) % TWO_64; }
    }
  }
}
