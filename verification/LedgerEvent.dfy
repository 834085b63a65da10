/**
 Ledger events and their wire format (src/core/ledger/ledger.cpp:15-302).
 */
module LedgerEvent {
  import opened Bytes

  const NODE_JOINED: byte := 1
  const KEY_ISSUED: byte := 10
  const NETWORK_MEMBER_ADDED: byte := 23
  const THING_REPLICATED: byte := 31

  /** Everything but the payload takes this many bytes: 117 before it and 64 after it. */
  const HEADER: nat := 117
  const FIXED: nat := 181

  datatype Event = Event(
    id: Hash,
    kind: byte,
    source: Hash,
    timestamp: u64,
    epoch: u64,
    previous: Hash,
    data: bytes,
    signature: Signature)

  /** The bytes in front of the payload; the 4-byte length field is cut to 32 bits. */
  function Header(e: Event): (s: bytes)
    ensures |s| == HEADER
  {
    Bytes32(e.id) + [e.kind] + Bytes32(e.source) + ToLe(e.timestamp, 8) + ToLe(e.epoch, 8)
    + Bytes32(e.previous) + ToLe(|e.data|, 4)
  }

  function Encode(e: Event): (s: bytes)
    ensures |s| == FIXED + |e.data|
  {
    Header(e) + e.data + Bytes64(e.signature)
  }

  /** Reads one event from the front of `s`; trailing bytes are ignored. */
  function Decode(s: bytes): (r: Option<Event>)
  {
    if |s| < FIXED then None
    else
      var n := Read32(s, 113);
      if HEADER + n + 64 > |s| then None
      else Some(Event(Read256(s, 0), s[32], Read256(s, 33), Read64(s, 65), Read64(s, 73), Read256(s, 81),
                      s[117..117 + n], ReadSignature(s, 117 + n)))
  }

  /** The digest that links one event to the next. */
  type ChainHash = Event -> Hash

  /** `compute_hash`: the digest of the event's bytes. */
  function ChainHashOf(H: Hasher): ChainHash {
    (e: Event) => H(Encode(e))
  }

  method ToBytes(e: Event) returns (out: bytes)
    ensures out == Encode(e)
  {
    out := Bytes32(e.id) + [e.kind] + Bytes32(e.source);
    out := AppendLe(out, e.timestamp, 8);
    out := AppendLe(out, e.epoch, 8);
    out := out + Bytes32(e.previous);
    out := AppendLe(out, |e.data| % TWO_32, 4);
    LengthCut(|e.data|);
    out := out + e.data + Bytes64(e.signature);
  }

  /** Cutting the length to 32 bits first does not change its four bytes. */
  lemma LengthCut(n: nat)
    ensures ToLe(n % TWO_32, 4) == ToLe(n, 4)
  {
    Le32(n);
    ToFromLe(ToLe(n, 4));
  }

  method FromBytes(s: bytes) returns (r: Option<Event>)
    ensures r == Decode(s)
  {
    if |s| < FIXED { return None; }
    var timestamp := ReadLe(s, 65, 8);
    var epoch := ReadLe(s, 73, 8);
    var n := ReadLe(s, 113, 4);
    if HEADER + n + 64 > |s| { return None; }
    FromLeBound(s[65..73]);
    FromLeBound(s[73..81]);
    r := Some(Event(Read256(s, 0), s[32], Read256(s, 33), timestamp, epoch, Read256(s, 81),
                    s[117..117 + n], ReadSignature(s, 117 + n)));
  }

  /** `s` starts with the header of `e`. */
  ghost predicate StartsWith(s: bytes, e: Event) {
    && |s| >= HEADER
    && s[0..32] == Bytes32(e.id) && s[32] == e.kind && s[33..65] == Bytes32(e.source)
    && s[65..73] == ToLe(e.timestamp, 8) && s[73..81] == ToLe(e.epoch, 8)
    && s[81..113] == Bytes32(e.previous) && s[113..117] == ToLe(|e.data|, 4)
  }

  lemma EncodeParts(e: Event, rest: bytes)
    ensures StartsWith(Encode(e) + rest, e)
    ensures (Encode(e) + rest)[117..] == e.data + Bytes64(e.signature) + rest
  {
  }

  lemma HeaderReads(s: bytes, e: Event)
    requires StartsWith(s, e)
    ensures Read256(s, 0) == e.id && s[32] == e.kind && Read256(s, 33) == e.source
    ensures Read64(s, 65) == e.timestamp && Read64(s, 73) == e.epoch && Read256(s, 81) == e.previous
  {
    hide Read256, Read64, Bytes32, ToLe;
    Read256At(s, 0, e.id);
    Read256At(s, 33, e.source);
    Read64At(s, 65, e.timestamp);
    Read64At(s, 73, e.epoch);
    Read256At(s, 81, e.previous);
  }

  lemma DecodeParts(s: bytes, e: Event, rest: bytes)
    requires StartsWith(s, e) && s[117..] == e.data + Bytes64(e.signature) + rest
    ensures |e.data| < TWO_32 ==> Decode(s) == Some(e)
    ensures Decode(s).Some? ==> |Decode(s).value.data| == |e.data| % TWO_32
  {
    hide Read256, Read64, Read32, ReadSignature, Bytes64, Bytes32, ToLe;
    HeaderReads(s, e);
    Read32At(s, 113, |e.data|);
    assert e.data == s[117..][..|e.data|] == s[117..117 + |e.data|];
    assert Bytes64(e.signature) == s[117..][|e.data|..|e.data| + 64] == s[117 + |e.data|..181 + |e.data|];
    ReadSignatureAt(s, 117 + |e.data|, e.signature);
  }

  /** Decoding an encoding, with anything behind it, gives the event back when its length fits the field. */
  lemma RoundTrip(e: Event, rest: bytes)
    requires |e.data| < TWO_32
    ensures Decode(Encode(e) + rest) == Some(e)
  {
    EncodeParts(e, rest);
    DecodeParts(Encode(e) + rest, e, rest);
  }

  /** The round trip holds exactly for payloads shorter than 2^32 bytes. */
  lemma RoundTripIff(e: Event)
    ensures Decode(Encode(e)) == Some(e) <==> |e.data| < TWO_32
  {
    EncodeParts(e, []);
    assert Encode(e) + [] == Encode(e);
    DecodeParts(Encode(e), e, []);
  }

  lemma PartsDetermine(s: bytes, e: Event, f: Event)
    requires StartsWith(s, e) && StartsWith(s, f)
    requires s[117..] == e.data + Bytes64(e.signature) + [] && s[117..] == f.data + Bytes64(f.signature) + []
    ensures e == f
  {
    HeaderReads(s, e);
    HeaderReads(s, f);
    assert |e.data| == |f.data|;
    assert e.data == s[117..][..|e.data|] == f.data;
    var at := 117 + |e.data|;
    assert Bytes64(e.signature) == s[117..][|e.data|..] == s[at..at + 64];
    assert Bytes64(f.signature) == s[117..][|f.data|..] == s[at..at + 64];
    ReadSignatureAt(s, at, e.signature);
    ReadSignatureAt(s, at, f.signature);
  }

  /** Different events have different bytes, whatever the payload length: the chain hash covers every field. */
  lemma EncodeInjective(e: Event, f: Event)
    requires Encode(e) == Encode(f)
    ensures e == f
  {
    EncodeParts(e, []);
    EncodeParts(f, []);
    PartsDetermine(Encode(e) + [], e, f);
  }

  /** The parts of a decoded event, put together again, are what it was read from. */
  lemma DecodedParts(s: bytes)
    requires Decode(s).Some?
    ensures var e := Decode(s).value;
            |e.data| < TWO_32 && FIXED + |e.data| <= |s| && Encode(e) == s[..FIXED + |e.data|]
  {
    hide Read256, Read64, ReadSignature, Read32, Bytes32, Bytes64, ToLe;
    var n: nat := Read32(s, 113);
    HeaderBack(s);
    WritesBackSignature(s, 117 + n);
    assert s[..181 + n] == s[..117] + s[117..117 + n] + s[117 + n..181 + n];
  }

  lemma HeaderBack(s: bytes)
    requires Decode(s).Some?
    ensures Header(Decode(s).value) == s[..117]
  {
    hide Read256, Read64, ReadSignature, Read32, Bytes32, ToLe;
    WritesBack256(s, 0);
    WritesBack256(s, 33);
    WritesBack64(s, 65);
    WritesBack64(s, 73);
    WritesBack256(s, 81);
    WritesBack32(s, 113);
    var parts := s[0..32] + [s[32]] + s[33..65] + s[65..73] + s[73..81] + s[81..113] + s[113..117];
    assert parts == s[..117];
  }

  /** An event is decoded from exactly the byte strings that begin with its encoding, if its length fits. */
  lemma DecodesIff(s: bytes, e: Event)
    ensures Decode(s) == Some(e) <==> |e.data| < TWO_32 && Encode(e) <= s
  {
    hide Encode, Decode;
    if Decode(s) == Some(e) { DecodedParts(s); EncodedLength(e); }
    if |e.data| < TWO_32 && Encode(e) <= s {
      RoundTrip(e, s[|Encode(e)|..]);
      assert s == Encode(e) + s[|Encode(e)|..];
    }
  }

  lemma EncodedLength(e: Event)
    ensures |Encode(e)| == FIXED + |e.data|
  {
  }

  // Typed payloads, as far as the index reads them.

  /** Key type and count of a KEY_ISSUED payload. */
  function KeyIssuance(data: bytes): Option<(byte, u32)> {
    if |data| < 38 then None else Some((data[0], Read32(data, 1)))
  }

  /** Network id and member of a NETWORK_MEMBER_ADDED payload. */
  function Membership(data: bytes): Option<(Hash, Hash)> {
    if |data| < 66 || 66 + Read16(data, 64) > |data| then None
    else Some((Read256(data, 0), Read256(data, 32)))
  }

  /** Content hash and hosting node of a THING_REPLICATED payload. */
  function Replication(data: bytes): Option<(Hash, Hash)> {
    if |data| < 104 then None else Some((Read256(data, 0), Read256(data, 64)))
  }

  function EncodeKeyIssuance(keyType: byte, count: u32, how: byte, proof: Hash): bytes {
    [keyType] + ToLe(count, 4) + [how] + Bytes32(proof)
  }

  function EncodeMembership(network: Hash, member: Hash, role: bytes): bytes {
    Bytes32(network) + Bytes32(member) + ToLe(|role|, 2) + role
  }

  function EncodeReplication(content: Hash, network: Hash, host: Hash, size: u64): bytes {
    Bytes32(content) + Bytes32(network) + Bytes32(host) + ToLe(size, 8)
  }

  /** What the recording operations write, the index reads back. */
  lemma PayloadsReadBack(keyType: byte, count: u32, how: byte, a: Hash, b: Hash, c: Hash, role: bytes, size: u64)
    ensures KeyIssuance(EncodeKeyIssuance(keyType, count, how, a)) == Some((keyType, count))
    ensures Membership(EncodeMembership(a, b, role)) == Some((a, b))
    ensures Replication(EncodeReplication(a, b, c, size)) == Some((a, c))
  {
    hide Read256, Bytes32, Read32, ToLe;
    var k := EncodeKeyIssuance(keyType, count, how, a);
    assert k[1..5] == ToLe(count, 4);
    Read32At(k, 1, count);
    var m := EncodeMembership(a, b, role);
    assert m[64..66] == ToLe(|role|, 2);
    RoleFits(m, |role|);
    assert m[0..32] == Bytes32(a) && m[32..64] == Bytes32(b);
    Read256At(m, 0, a);
    Read256At(m, 32, b);
    var r := EncodeReplication(a, b, c, size);
    assert r[0..32] == Bytes32(a) && r[64..96] == Bytes32(c);
    Read256At(r, 0, a);
    Read256At(r, 64, c);
  }

  lemma RoleFits(m: bytes, n: nat)
    requires |m| == 66 + n && m[64..66] == ToLe(n, 2)
    ensures Read16(m, 64) <= n
  {
    FromToLe(n, 2);
    Pow256Values();
  }

  // The decoders accept nothing but what the encoders write, followed by anything.

  /** A key issue is read from exactly what begins with an encoded one. */
  lemma KeyIssuanceIff(data: bytes, keyType: byte, count: u32)
    ensures KeyIssuance(data) == Some((keyType, count))
       <==> exists how: byte, proof: Hash :: EncodeKeyIssuance(keyType, count, how, proof) <= data
  {
    hide Read256, Read32, Bytes32, ToLe;
    if KeyIssuance(data) == Some((keyType, count)) {
      WritesBack32(data, 1);
      WritesBack256(data, 6);
      assert data[..38] == [data[0]] + data[1..5] + [data[5]] + data[6..38];
      assert EncodeKeyIssuance(keyType, count, data[5], Read256(data, 6)) == data[..38];
    }
    if how: byte, proof: Hash :| EncodeKeyIssuance(keyType, count, how, proof) <= data {
      var w := EncodeKeyIssuance(keyType, count, how, proof);
      assert data[1..5] == w[1..5] == ToLe(count, 4) && data[0] == w[0];
      Read32At(data, 1, count);
    }
  }

  /** A replication likewise. */
  lemma ReplicationIff(data: bytes, content: Hash, host: Hash)
    ensures Replication(data) == Some((content, host))
       <==> exists network: Hash, size: u64 :: EncodeReplication(content, network, host, size) <= data
  {
    hide Read256, Read64, Bytes32, ToLe;
    if Replication(data) == Some((content, host)) {
      WritesBack256(data, 0);
      WritesBack256(data, 32);
      WritesBack256(data, 64);
      WritesBack64(data, 96);
      assert data[..104] == data[0..32] + data[32..64] + data[64..96] + data[96..104];
      assert EncodeReplication(content, Read256(data, 32), host, Read64(data, 96)) == data[..104];
    }
    if network: Hash, size: u64 :| EncodeReplication(content, network, host, size) <= data {
      var w := EncodeReplication(content, network, host, size);
      assert data[0..32] == w[0..32] == Bytes32(content) && data[64..96] == w[64..96] == Bytes32(host);
      Read256At(data, 0, content);
      Read256At(data, 64, host);
    }
  }

  /** And a membership, whose role must be all there. */
  lemma MembershipIff(data: bytes, network: Hash, member: Hash)
    ensures Membership(data) == Some((network, member))
       <==> exists role: bytes :: |role| < TWO_16 && EncodeMembership(network, member, role) <= data
  {
    hide Membership, EncodeMembership;
    if Membership(data) == Some((network, member)) { var role := MembershipWrites(data); }
    if role: bytes :| |role| < TWO_16 && EncodeMembership(network, member, role) <= data {
      MembershipReads(data, network, member, role);
    }
  }

  lemma MembershipWrites(data: bytes) returns (role: bytes)
    requires Membership(data).Some?
    ensures |role| < TWO_16 && EncodeMembership(Membership(data).value.0, Membership(data).value.1, role) <= data
  {
    hide Read256, Read16, Bytes32, ToLe;
    var n := Read16(data, 64);
    WritesBack256(data, 0);
    WritesBack256(data, 32);
    WritesBack16(data, 64);
    role := data[66..66 + n];
    assert data[..66 + n] == data[0..32] + data[32..64] + data[64..66] + role;
  }

  lemma MembershipReads(data: bytes, network: Hash, member: Hash, role: bytes)
    requires |role| < TWO_16 && EncodeMembership(network, member, role) <= data
    ensures Membership(data) == Some((network, member))
  {
    hide Read256, Read16, Bytes32, ToLe;
    var w := EncodeMembership(network, member, role);
    assert data[0..32] == w[0..32] == Bytes32(network) && data[32..64] == w[32..64] == Bytes32(member);
    assert data[64..66] == w[64..66] == ToLe(|role|, 2);
    Read256At(data, 0, network);
    Read256At(data, 32, member);
    Read16At(data, 64, |role|);
  }
}
