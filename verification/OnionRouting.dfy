/**
 Onion routing with ephemeral keys (src/security/onion_routing.cpp:11-284).
 */
module OnionRouting {
  import opened Bytes
  import opened Crypto

  datatype Layer = Layer(ephemeral: Hash, ciphertext: bytes, mac: bytes)

  datatype Hop = Hop(id: Hash, key: Hash)

  /** The fixed nonce of every layer. */
  function Nonce0(): bytes {
    ToLe(0, 12)
  }

  predicate Proper(l: Layer) {
    |l.mac| == 16
  }

  function LayerBytes(l: Layer): (s: bytes)
    ensures |s| == 36 + |l.ciphertext| + |l.mac|
  {
    Bytes32(l.ephemeral) + ToLe(|l.ciphertext|, 4) + l.ciphertext + l.mac
  }

  function ParseLayer(s: bytes): (r: Option<Layer>)
    ensures r.Some? ==> Proper(r.value)
  {
    if |s| < 52 then None
    else
      var n := Read32(s, 32);
      if 36 + n + 16 > |s| then None
      else Some(Layer(Read256(s, 0), s[36..36 + n], s[36 + n..52 + n]))
  }

  lemma LayerParts(l: Layer, s: bytes)
    requires Proper(l) && s == LayerBytes(l)
    ensures s[0..32] == Bytes32(l.ephemeral) && s[32..36] == ToLe(|l.ciphertext|, 4)
    ensures s[36..36 + |l.ciphertext|] == l.ciphertext && s[36 + |l.ciphertext|..] == l.mac
  {
  }

  /** A layer survives its wire format exactly if its ciphertext is shorter than 2^32 bytes. */
  lemma LayerRoundTripIff(l: Layer)
    requires Proper(l)
    ensures ParseLayer(LayerBytes(l)) == Some(l) <==> |l.ciphertext| < TWO_32
  {
    hide LayerBytes, Read256, Read32, Bytes32, ToLe;
    var s := LayerBytes(l);
    LayerParts(l, s);
    Read256At(s, 0, l.ephemeral);
    Read32At(s, 32, |l.ciphertext|);
    if |l.ciphertext| < TWO_32 {
      assert s[36 + |l.ciphertext|..52 + |l.ciphertext|] == s[36 + |l.ciphertext|..];
    }
  }

  /** A layer is parsed from exactly the byte strings that begin with its wire format, if its length fits. */
  lemma ParsesIff(s: bytes, l: Layer)
    ensures ParseLayer(s) == Some(l) <==> Proper(l) && |l.ciphertext| < TWO_32 && LayerBytes(l) <= s
  {
    if ParseLayer(s) == Some(l) { ParsedParts(s); }
    if Proper(l) && |l.ciphertext| < TWO_32 && LayerBytes(l) <= s { ParsesBack(s, l); }
  }

  lemma ParsedParts(s: bytes)
    requires ParseLayer(s).Some?
    ensures var l := ParseLayer(s).value;
            |l.ciphertext| < TWO_32 && 52 + |l.ciphertext| <= |s| && LayerBytes(l) == s[..52 + |l.ciphertext|]
  {
    hide ToLe, Read256, Read32, Bytes32;
    var n := Read32(s, 32);
    WritesBack256(s, 0);
    WritesBack32(s, 32);
    assert s[..52 + n] == s[0..32] + s[32..36] + s[36..36 + n] + s[36 + n..52 + n];
  }

  lemma ParsesBack(s: bytes, l: Layer)
    requires Proper(l) && |l.ciphertext| < TWO_32 && LayerBytes(l) <= s
    ensures ParseLayer(s) == Some(l)
  {
    hide LayerBytes, Read256, Read32, Bytes32, ToLe;
    var w, n := LayerBytes(l), |l.ciphertext|;
    LayerParts(l, w);
    assert s[0..32] == w[0..32] && s[32..36] == w[32..36] && s[36..36 + n] == w[36..36 + n];
    assert s[36 + n..52 + n] == w[36 + n..];
    Read256At(s, 0, l.ephemeral);
    Read32At(s, 32, n);
  }

  /** A failed exchange counts as the zero key. */
  function Shared(c: Primitives, secret: Hash, public: Hash): Hash {
    match c.exchange(secret, public) case None => ZERO_HASH case Some(k) => k
  }

  /** `encrypt_layer`: the last 16 bytes of the sealed text become the tag. */
  function EncryptLayer(c: Primitives, plain: bytes, key: Hash): (bytes, bytes) {
    var full := c.seal(plain, key, Nonce0());
    if |full| >= 16 then (full[..|full| - 16], full[|full| - 16..]) else (full, ToLe(0, 16))
  }

  function Wrap(c: Primitives, hop: Hop, secret: Hash, plain: bytes): Layer {
    var (ciphertext, mac) := EncryptLayer(c, plain, Shared(c, secret, hop.key));
    Layer(c.public(secret), ciphertext, mac)
  }

  function Peel(c: Primitives, secret: Hash, l: Layer): Option<bytes> {
    c.open(l.ciphertext + l.mac, Shared(c, secret, l.ephemeral), Nonce0())
  }

  lemma PeelWrap(c: Primitives, hop: Hop, ephemeral: Hash, secret: Hash, plain: bytes)
    requires Commutes(c) && Inverts(c) && hop.key == c.public(secret)
    ensures Peel(c, secret, Wrap(c, hop, ephemeral, plain)) == Some(plain)
    ensures Proper(Wrap(c, hop, ephemeral, plain)) && |Wrap(c, hop, ephemeral, plain).ciphertext| == |plain|
  {
    hide Nonce0;
    var key := Shared(c, ephemeral, hop.key);
    assert c.exchange(ephemeral, c.public(secret)) == c.exchange(secret, c.public(ephemeral));
    var full := c.seal(plain, key, Nonce0());
    assert full[..|full| - 16] + full[|full| - 16..] == full;
  }

  // ------------------------------------------------------- building a route

  /** What the layer of the first hop of a route carries: the payload, or the next layer. */
  function Inside(routed: bool, hops: seq<Hop>, inner: seq<Layer>, payload: bytes): bytes
    requires |hops| == |inner| + 1
  {
    if inner == [] then payload
    else if routed then Bytes32(hops[1].id) + LayerBytes(inner[0])
    else LayerBytes(inner[0])
  }

  /** The layers of a route, outermost first; `ephemeral` holds the random secrets, one a hop. */
  function Layers(c: Primitives, routed: bool, hops: seq<Hop>, ephemeral: seq<Hash>, payload: bytes): (r: seq<Layer>)
    requires |hops| == |ephemeral|
    ensures |r| == |hops|
  {
    if hops == [] then []
    else
      var inner := Layers(c, routed, hops[1..], ephemeral[1..], payload);
      [Wrap(c, hops[0], ephemeral[0], Inside(routed, hops, inner, payload))] + inner
  }

  /** The hop at position `i` finds in its layer what the route put there for it. */
  lemma {:induction false} PeelAt(
      c: Primitives, routed: bool, hops: seq<Hop>, ephemeral: seq<Hash>, payload: bytes, i: nat, secret: Hash)
    requires Commutes(c) && Inverts(c) && |hops| == |ephemeral| && i < |hops| && hops[i].key == c.public(secret)
    ensures var layers := Layers(c, routed, hops, ephemeral, payload);
            && Proper(layers[i])
            && |layers[i].ciphertext| == |Inside(routed, hops[i..], layers[i + 1..], payload)|
            && Peel(c, secret, layers[i]) == Some(Inside(routed, hops[i..], layers[i + 1..], payload))
  {
    hide Peel, Wrap, Inside;
    var layers := Layers(c, routed, hops, ephemeral, payload);
    var inner := Layers(c, routed, hops[1..], ephemeral[1..], payload);
    if i == 0 {
      assert hops[0..] == hops && layers[1..] == inner;
      PeelWrap(c, hops[0], ephemeral[0], secret, Inside(routed, hops, inner, payload));
    } else {
      PeelAt(c, routed, hops[1..], ephemeral[1..], payload, i - 1, secret);
      assert hops[1..][i - 1..] == hops[i..] && inner[i..] == layers[i + 1..];
    }
  }

  /** Along any route, a hop's peel gives exactly the next layer's bytes, and the last hop's gives the payload. */
  lemma PeelGivesNext(c: Primitives, hops: seq<Hop>, ephemeral: seq<Hash>, payload: bytes, i: nat, secret: Hash)
    requires Commutes(c) && Inverts(c) && |hops| == |ephemeral| && i < |hops| && hops[i].key == c.public(secret)
    ensures var layers := Layers(c, false, hops, ephemeral, payload);
            Peel(c, secret, layers[i]) == Some(if i + 1 == |hops| then payload else LayerBytes(layers[i + 1]))
  {
    hide Peel, LayerBytes;
    PeelAt(c, false, hops, ephemeral, payload, i, secret);
  }

  /** A packet travelling as bytes: each node parses a layer, peels it and passes on what it finds. */
  function Travel(c: Primitives, secrets: seq<Hash>, packet: bytes): Option<bytes> {
    if secrets == [] then Some(packet)
    else
      match ParseLayer(packet)
      case None => None
      case Some(l) =>
        match Peel(c, secrets[0], l)
        case None => None
        case Some(inside) => Travel(c, secrets[1..], inside)
  }

  ghost predicate KeysMatch(c: Primitives, hops: seq<Hop>, secrets: seq<Hash>) {
    |hops| == |secrets| && forall i :: 0 <= i < |hops| ==> hops[i].key == c.public(secrets[i])
  }

  /** End to end over any route: the payload arrives, as long as the growing packet fits the 32-bit length field. */
  lemma {:induction false} PayloadArrives(
      c: Primitives, hops: seq<Hop>, ephemeral: seq<Hash>, secrets: seq<Hash>, payload: bytes)
    requires Commutes(c) && Inverts(c) && 0 < |hops| == |ephemeral| && KeysMatch(c, hops, secrets)
    requires |payload| + 52 * (|hops| - 1) < TWO_32
    ensures var outer := Layers(c, false, hops, ephemeral, payload)[0];
            && Proper(outer) && |outer.ciphertext| == |payload| + 52 * (|hops| - 1)
            && Travel(c, secrets, LayerBytes(outer)) == Some(payload)
  {
    hide Peel, ParseLayer, LayerBytes, Wrap;
    var layers := Layers(c, false, hops, ephemeral, payload);
    PeelAt(c, false, hops, ephemeral, payload, 0, secrets[0]);
    assert hops[0..] == hops;
    if |hops| > 1 {
      PayloadArrives(c, hops[1..], ephemeral[1..], secrets[1..], payload);
      assert layers[1] == Layers(c, false, hops[1..], ephemeral[1..], payload)[0];
    }
    LayerRoundTripIff(layers[0]);
  }

  // --------------------------------------------------- peeling with routing

  /** The out-parameters of `peel_with_routing`; those not written keep the value they came with. */
  datatype Outcome = Outcome(answer: bool, nextHop: Hash, remaining: seq<Layer>, payload: bytes)

  function PeelRouted(c: Primitives, secret: Hash, l: Layer, given: Outcome): Outcome {
    match Peel(c, secret, l)
    case None => given.(answer := false)
    case Some(plain) =>
      if |plain| < 32 then given.(answer := true, payload := plain)
      else
        match ParseLayer(plain[32..])
        case Some(next) => given.(answer := false, nextHop := Read256(plain, 0), remaining := given.remaining + [next])
        case None => given.(answer := true, nextHop := Read256(plain, 0), payload := plain[32..])
  }

  /** How long the ciphertext of the layer at position `i` is. */
  function CiphertextLength(routed: bool, hops: nat, payload: nat, i: nat): nat
    requires i < hops
  {
    payload + (if routed then 84 else 52) * (hops - 1 - i)
  }

  lemma WrapLength(c: Primitives, hop: Hop, ephemeral: Hash, plain: bytes)
    requires Inverts(c)
    ensures Proper(Wrap(c, hop, ephemeral, plain)) && |Wrap(c, hop, ephemeral, plain).ciphertext| == |plain|
  {
    hide Nonce0;
    assert |c.seal(plain, Shared(c, ephemeral, hop.key), Nonce0())| == |plain| + 16;
  }

  /** Each hop after it adds a tag, a key, a length field and, with routing, an address. */
  lemma {:induction false} LayerLength(
      c: Primitives, routed: bool, hops: seq<Hop>, ephemeral: seq<Hash>, payload: bytes, i: nat)
    requires Inverts(c) && |hops| == |ephemeral| && i < |hops|
    ensures var layers := Layers(c, routed, hops, ephemeral, payload);
            Proper(layers[i]) && |layers[i].ciphertext| == CiphertextLength(routed, |hops|, |payload|, i)
  {
    hide Wrap;
    var inner := Layers(c, routed, hops[1..], ephemeral[1..], payload);
    if i > 0 {
      LayerLength(c, routed, hops[1..], ephemeral[1..], payload, i - 1);
    } else {
      WrapLength(c, hops[0], ephemeral[0], Inside(routed, hops, inner, payload));
      if |hops| > 1 { LayerLength(c, routed, hops[1..], ephemeral[1..], payload, 0); }
    }
  }

  /** Along the whole route every node can parse the layer made for it exactly if the outermost one fits its
    length field. */
  lemma RouteFitsIff(c: Primitives, routed: bool, hops: seq<Hop>, ephemeral: seq<Hash>, payload: bytes)
    requires Inverts(c) && 0 < |hops| == |ephemeral|
    ensures var layers := Layers(c, routed, hops, ephemeral, payload);
            (forall i :: 0 <= i < |hops| ==> ParseLayer(LayerBytes(layers[i])) == Some(layers[i]))
            <==> CiphertextLength(routed, |hops|, |payload|, 0) < TWO_32
  {
    hide ParseLayer, LayerBytes;
    var layers := Layers(c, routed, hops, ephemeral, payload);
    forall i | 0 <= i < |hops|
      ensures ParseLayer(LayerBytes(layers[i])) == Some(layers[i])
         <==> CiphertextLength(routed, |hops|, |payload|, i) < TWO_32
    {
      LayerLength(c, routed, hops, ephemeral, payload, i);
      LayerRoundTripIff(layers[i]);
    }
    assert ParseLayer(LayerBytes(layers[0])) == Some(layers[0])
        <==> CiphertextLength(routed, |hops|, |payload|, 0) < TWO_32;
  }

  /**
   A relay learns exactly the next hop and the next layer, if and only if the payload
   leaves that layer within its length field.
   */
  lemma RelayIff(
      c: Primitives, hops: seq<Hop>, ephemeral: seq<Hash>, payload: bytes, i: nat, secret: Hash, given: Outcome)
    requires Commutes(c) && Inverts(c) && |hops| == |ephemeral| && i + 1 < |hops| && hops[i].key == c.public(secret)
    ensures var layers := Layers(c, true, hops, ephemeral, payload);
            var relayed := given.(answer := false, nextHop := hops[i + 1].id,
                                  remaining := given.remaining + [layers[i + 1]]);
            PeelRouted(c, secret, layers[i], given) == relayed <==> |payload| + 84 * (|hops| - i - 2) < TWO_32
  {
    hide Peel, LayerBytes, ParseLayer, Read256, Bytes32;
    var layers := Layers(c, true, hops, ephemeral, payload);
    PeelAt(c, true, hops, ephemeral, payload, i, secret);
    var next := layers[i + 1];
    LayerLength(c, true, hops, ephemeral, payload, i + 1);
    var plain := Bytes32(hops[i + 1].id) + LayerBytes(next);
    assert Peel(c, secret, layers[i]) == Some(plain);
    assert plain[0..32] == Bytes32(hops[i + 1].id) && plain[32..] == LayerBytes(next);
    Read256At(plain, 0, hops[i + 1].id);
    LayerRoundTripIff(next);
    var got := PeelRouted(c, secret, layers[i], given);
    assert ParseLayer(plain[32..]).Some? ==> got.remaining == given.remaining + [ParseLayer(plain[32..]).value];
    assert ParseLayer(plain[32..]).Some? ==> got.remaining[|given.remaining|] == ParseLayer(plain[32..]).value;
    assert (given.remaining + [next])[|given.remaining|] == next;
  }

  /** The last hop gets the payload back exactly if it is shorter than the 32 bytes it takes for a next-hop address. */
  lemma LastHopIff(c: Primitives, hops: seq<Hop>, ephemeral: seq<Hash>, payload: bytes, secret: Hash, given: Outcome)
    requires Commutes(c) && Inverts(c) && 0 < |hops| == |ephemeral| && hops[|hops| - 1].key == c.public(secret)
    ensures var got := PeelRouted(c, secret, Layers(c, true, hops, ephemeral, payload)[|hops| - 1], given);
            got.answer && got.payload == payload <==> |payload| < 32
  {
    hide Peel, ParseLayer, Read256;
    PeelAt(c, true, hops, ephemeral, payload, |hops| - 1, secret);
  }

  /** What the last hop gets of a longer payload: the first 32 bytes as an address, and the rest as payload or layer. */
  lemma LastHopCuts(c: Primitives, hops: seq<Hop>, ephemeral: seq<Hash>, payload: bytes, secret: Hash, given: Outcome)
    requires Commutes(c) && Inverts(c) && 0 < |hops| == |ephemeral| && hops[|hops| - 1].key == c.public(secret)
    requires |payload| >= 32
    ensures var got := PeelRouted(c, secret, Layers(c, true, hops, ephemeral, payload)[|hops| - 1], given);
            && Bytes32(got.nextHop) == payload[..32]
            && (got.answer <==> ParseLayer(payload[32..]).None?)
            && (got.answer ==> got.payload == payload[32..] && got.remaining == given.remaining)
            && (!got.answer ==> got.remaining == given.remaining + [ParseLayer(payload[32..]).value]
                                && got.payload == given.payload)
  {
    hide Peel, ParseLayer;
    PeelAt(c, true, hops, ephemeral, payload, |hops| - 1, secret);
    ToFromLe(payload[0..32]);
    assert payload[0..32] == payload[..32];
  }

  // ------------------------------------------------- the code as it executes

  function Reversed<T>(s: seq<T>): (r: seq<T>)
    ensures |r| == |s| && forall i :: 0 <= i < |s| ==> r[i] == s[|s| - 1 - i]
  {
    seq(|s|, i requires 0 <= i < |s| => s[|s| - 1 - i])
  }

  /** `build_layers` and `build_layers_with_routing`: backwards over the route, then reversed. */
  method BuildLayers(c: Primitives, routed: bool, hops: seq<Hop>, ephemeral: seq<Hash>, payload: bytes)
    returns (layers: seq<Layer>)
    requires |hops| == |ephemeral|
    ensures layers == Layers(c, routed, hops, ephemeral, payload)
  {
    hide Wrap, LayerBytes, Bytes32;
    if hops == [] { return []; }
    layers := [];
    var current := payload;
    var i := |hops|;
    assert hops[i..] == [] && ephemeral[i..] == [];
    while i > 0
      invariant 0 <= i <= |hops|
      invariant Reversed(layers) == Layers(c, routed, hops[i..], ephemeral[i..], payload)
      invariant current == if i == |hops| then payload else LayerBytes(layers[|layers| - 1])
    {
      ghost var inner := Reversed(layers);
      if routed && i < |hops| {
        current := Bytes32(hops[i].id) + current;
      }
      assert hops[i - 1..][1..] == hops[i..] && ephemeral[i - 1..][1..] == ephemeral[i..];
      assert current == Inside(routed, hops[i - 1..], inner, payload);
      var layer := Wrap(c, hops[i - 1], ephemeral[i - 1], current);
      current := LayerBytes(layer);
      layers := layers + [layer];
      assert Reversed(layers) == [layer] + inner;
      i := i - 1;
    }
    assert hops[0..] == hops && ephemeral[0..] == ephemeral;
    layers := Reversed(layers);
  }

  method PeelWithRouting(c: Primitives, secret: Hash, l: Layer, given: Outcome) returns (got: Outcome)
    ensures got == PeelRouted(c, secret, l, given)
  {
    hide Peel, ParseLayer, Read256;
    got := given;
    var plain := Peel(c, secret, l);
    if plain.None? { return got.(answer := false); }
    if |plain.value| < 32 { return got.(answer := true, payload := plain.value); }
    got := got.(nextHop := Read256(plain.value, 0));
    var rest := plain.value[32..];
    var next := ParseLayer(rest);
    if next.Some? {
      got := got.(answer := false, remaining := got.remaining + [next.value]);
    } else {
      got := got.(answer := true, payload := rest);
    }
  }
}
