/**
 The content router's own onion scheme and its handling of requests
 (src/network/router.cpp:14-37, 68-162, 614-695, 825-898).
 */
module Router {
  import opened Bytes
  import opened Framing

  // ---------------------------------------------------------------- bitwise

  /** Bitwise exclusive or of the low `n` bits. */
  function XorBits(a: nat, b: nat, n: nat): nat {
    if n == 0 then 0 else (a % 2 + b % 2) % 2 + 2 * XorBits(a / 2, b / 2, n - 1)
  }

  function Pow2(n: nat): nat {
    if n == 0 then 1 else 2 * Pow2(n - 1)
  }

  lemma {:induction false} XorBound(a: nat, b: nat, n: nat)
    ensures XorBits(a, b, n) < Pow2(n)
  {
    if n != 0 { XorBound(a / 2, b / 2, n - 1); }
  }

  lemma BitSplit(bit: nat, q: nat)
    requires bit < 2
    ensures (bit + 2 * q) % 2 == bit && (bit + 2 * q) / 2 == q
  {}

  lemma XorStep(a: nat, b: nat, n: nat)
    requires n != 0
    ensures XorBits(a, b, n) % 2 == (a % 2 + b % 2) % 2
    ensures XorBits(a, b, n) / 2 == XorBits(a / 2, b / 2, n - 1)
  {
    BitSplit((a % 2 + b % 2) % 2, XorBits(a / 2, b / 2, n - 1));
  }

  lemma FromHalves(a: nat, c: nat)
    requires a % 2 == c % 2 && a / 2 == c / 2
    ensures a == c
  {}

  lemma BitTwice(x: nat, y: nat)
    requires x < 2 && y < 2
    ensures ((x + y) % 2 + y) % 2 == x
  {}

  lemma HalfBound(a: nat, n: nat)
    requires n != 0 && a < Pow2(n)
    ensures a / 2 < Pow2(n - 1)
  {}

  lemma {:induction false} XorUndone(a: nat, b: nat, n: nat)
    requires a < Pow2(n)
    ensures XorBits(XorBits(a, b, n), b, n) == a
  {
    if n != 0 {
      hide XorBits, Pow2;
      HalfBound(a, n);
      XorUndone(a / 2, b / 2, n - 1);
      BitTwice(a % 2, b % 2);
      var r := XorBits(a, b, n);
      XorStep(a, b, n);
      XorStep(r, b, n);
      FromHalves(XorBits(r, b, n), a);
    }
  }

  lemma Pow2Of8()
    ensures Pow2(8) == 256
  {
    assert Pow2(4) == 2 * Pow2(3) == 4 * Pow2(2) == 16;
    assert Pow2(8) == 2 * Pow2(7) == 4 * Pow2(6) == 8 * Pow2(5) == 16 * Pow2(4);
  }

  function Xor(a: byte, b: byte): byte {
    XorBound(a, b, 8);
    Pow2Of8();
    XorBits(a, b, 8)
  }

  lemma XorTwice(a: byte, b: byte)
    ensures Xor(Xor(a, b), b) == a
  {
    Pow2Of8();
    XorUndone(a, b, 8);
  }

  // -------------------------------------------------------------- keystream

  /** Block number `counter` of the key stream; the counter is a 32-bit one. */
  function Block(H: Hasher, seed: bytes, counter: nat): (b: bytes)
    ensures |b| == 32
  {
    Bytes32(H(BlockMaterial(seed, counter)))
  }

  function StreamByte(H: Hasher, seed: bytes, i: nat): byte {
    Block(H, seed, i / 32)[i % 32]
  }

  function Mask(H: Hasher, input: bytes, seed: bytes): (r: bytes)
    ensures |r| == |input|
    ensures forall i :: 0 <= i < |input| ==> r[i] == Xor(input[i], StreamByte(H, seed, i))
  {
    seq(|input|, i requires 0 <= i < |input| => Xor(input[i], StreamByte(H, seed, i)))
  }

  /** Masking twice with the same seed gives the input back. */
  lemma MaskTwice(H: Hasher, input: bytes, seed: bytes)
    ensures Mask(H, Mask(H, input, seed), seed) == input
  {
    hide Xor, StreamByte;
    forall i | 0 <= i < |input| ensures Mask(H, Mask(H, input, seed), seed)[i] == input[i] {
      XorTwice(input[i], StreamByte(H, seed, i));
    }
  }

  /** Bit `k` of a number. */
  function Bit(a: nat, k: nat): nat {
    if k == 0 then a % 2 else Bit(a / 2, k - 1)
  }

  /** Bit by bit, exclusive or is the sum modulo two. */
  lemma {:induction false} XorBitwise(a: nat, b: nat, n: nat, k: nat)
    requires k < n
    ensures Bit(XorBits(a, b, n), k) == (Bit(a, k) + Bit(b, k)) % 2
  {
    XorStep(a, b, n);
    hide XorBits;
    if k > 0 { XorBitwise(a / 2, b / 2, n - 1, k - 1); }
  }

  /** What is hashed into a block. */
  function BlockMaterial(seed: bytes, counter: nat): bytes {
    seed + ToLe(counter % TWO_32, 4)
  }

  lemma BlockMaterialInjective(a: Hash, i: u32, b: Hash, j: u32)
    requires BlockMaterial(Bytes32(a), i) == BlockMaterial(Bytes32(b), j)
    ensures a == b && i == j
  {
    hide Bytes32, ToLe, FromLe;
    var x := BlockMaterial(Bytes32(a), i);
    assert Bytes32(a) == x[..32] == Bytes32(b) && ToLe(i, 4) == x[32..] == ToLe(j, 4);
    Bytes32Injective(a, b);
    Le32(i);
    Le32(j);
  }

  /** The blocks of the key stream differ from node to node and from block to block, as far as the digest can tell. */
  lemma BlocksDiffer(H: Hasher, a: Hash, i: u32, b: Hash, j: u32)
    requires a != b || i != j
    requires CollisionFree(H, {BlockMaterial(Bytes32(a), i), BlockMaterial(Bytes32(b), j)})
    ensures Block(H, Bytes32(a), i) != Block(H, Bytes32(b), j)
  {
    hide Bytes32, BlockMaterial;
    var x, y := BlockMaterial(Bytes32(a), i), BlockMaterial(Bytes32(b), j);
    if Block(H, Bytes32(a), i) == Block(H, Bytes32(b), j) {
      Bytes32Injective(H(x), H(y));
      assert x in {x, y} && y in {x, y};
      BlockMaterialInjective(a, i, b, j);
    }
  }

  lemma {:induction false} XorZero(b: nat, n: nat)
    requires b < Pow2(n)
    ensures XorBits(0, b, n) == b
  {
    if n != 0 {
      hide XorBits;
      XorStep(0, b, n);
      HalfBound(b, n);
      XorZero(b / 2, n - 1);
      FromHalves(XorBits(0, b, n), b);
    }
  }

  /** Masking zeros shows the key stream: byte `i` is byte i % 32 of block i / 32. */
  lemma MaskOfZeros(H: Hasher, input: bytes, seed: bytes, i: nat)
    requires i < |input| && input[i] == 0
    ensures Mask(H, input, seed)[i] == Block(H, seed, i / 32)[i % 32]
  {
    hide Block, XorBits;
    Pow2Of8();
    XorZero(StreamByte(H, seed, i), 8);
  }

  /** `xor_with_keystream`: block after block, byte after byte. */
  method XorWithKeystream(H: Hasher, input: bytes, seed: bytes) returns (output: bytes)
    ensures output == Mask(H, input, seed)
  {
    hide Xor, Block, StreamByte;
    output := [];
    var counter := 0;
    ghost var blocks := 0;
    while |output| < |input|
      invariant |output| <= |input| && counter == blocks % TWO_32
      invariant |output| < |input| ==> |output| == 32 * blocks
      invariant forall i :: 0 <= i < |output| ==> output[i] == Xor(input[i], StreamByte(H, seed, i))
      decreases |input| - |output|
    {
      var block := Block(H, seed, counter);
      assert block == Block(H, seed, blocks) by { SameBlock(H, seed, blocks); }
      ghost var start := |output|;
      var i := 0;
      while i < 32 && |output| < |input|
        invariant 0 <= i <= 32 && |output| == start + i && |output| <= |input|
        invariant forall k :: 0 <= k < |output| ==> output[k] == Xor(input[k], StreamByte(H, seed, k))
      {
        StreamAt(H, seed, blocks, i);
        output := output + [Xor(input[|output|], block[i])];
        i := i + 1;
      }
      counter := (counter + 1) % TWO_32;
      blocks := blocks + 1;
    }
  }

  lemma StreamAt(H: Hasher, seed: bytes, block: nat, i: nat)
    requires i < 32
    ensures StreamByte(H, seed, 32 * block + i) == Block(H, seed, block)[i]
  {
    hide Block;
    assert (32 * block + i) / 32 == block && (32 * block + i) % 32 == i;
  }

  lemma SameBlock(H: Hasher, seed: bytes, n: nat)
    ensures Block(H, seed, n % TWO_32) == Block(H, seed, n)
  {
  }

  // ------------------------------------------------------------------ onion

  /** "ON1". */
  const MAGIC: bytes := [79, 78, 49]

  function Wrap(H: Hasher, hop: Hash, next: Hash, inner: bytes): bytes {
    MAGIC + Mask(H, Bytes32(next) + inner, Bytes32(hop))
  }

  /** The packet for a route, as the first hop receives it. */
  function Onion(H: Hasher, route: seq<Hash>, payload: bytes): bytes {
    if route == [] then payload
    else Wrap(H, route[0], if |route| > 1 then route[1] else ZERO_HASH, Onion(H, route[1..], payload))
  }

  function Unwrap(H: Hasher, local: Hash, layer: bytes): (r: Option<bytes>)
    ensures r.Some? ==> |layer| >= 35 && |r.value| == |layer| - 35
  {
    if |layer| < 35 || layer[..3] != MAGIC then None
    else
      var plain := Mask(H, layer[3..], Bytes32(local));
      Some(plain[32..])
  }

  lemma UnwrapWrap(H: Hasher, hop: Hash, next: Hash, inner: bytes)
    ensures Unwrap(H, hop, Wrap(H, hop, next, inner)) == Some(inner)
  {
    hide Bytes32, Mask;
    var plain := Bytes32(next) + inner;
    var layer := Wrap(H, hop, next, inner);
    assert layer[..3] == MAGIC && layer[3..] == Mask(H, plain, Bytes32(hop));
    MaskTwice(H, plain, Bytes32(hop));
    assert plain[32..] == inner;
  }

  /** A node opens exactly the layers that were made for it, with whatever next hop. */
  lemma UnwrapIff(H: Hasher, local: Hash, layer: bytes, inner: bytes)
    ensures Unwrap(H, local, layer) == Some(inner) <==> exists next: Hash :: layer == Wrap(H, local, next, inner)
  {
    hide Mask, FromLe, ToLe;
    if Unwrap(H, local, layer) == Some(inner) {
      var plain := Mask(H, layer[3..], Bytes32(local));
      var next := Read256(plain, 0);
      ToFromLe(plain[0..32]);
      assert Bytes32(next) + inner == plain;
      MaskTwice(H, layer[3..], Bytes32(local));
      assert layer == MAGIC + layer[3..];
      assert layer == Wrap(H, local, next, inner);
    }
    if next: Hash :| layer == Wrap(H, local, next, inner) { UnwrapWrap(H, local, next, inner); }
  }

  /** Under a layer the node it is made for finds the address of the next one in front of the rest. */
  lemma NextHopCarried(H: Hasher, hop: Hash, next: Hash, inner: bytes)
    ensures var layer := Wrap(H, hop, next, inner);
            && |layer| == 35 + |inner| && layer[..3] == MAGIC
            && Mask(H, layer[3..], Bytes32(hop)) == Bytes32(next) + inner
  {
    hide Bytes32, Mask;
    var plain := Bytes32(next) + inner;
    assert Wrap(H, hop, next, inner)[3..] == Mask(H, plain, Bytes32(hop));
    MaskTwice(H, plain, Bytes32(hop));
  }

  /** Along a route, each node's layer names the node after it, and the last one's names none. */
  lemma {:induction false} RouteNamesHops(H: Hasher, route: seq<Hash>, payload: bytes, i: nat)
    requires i < |route|
    ensures var layer := Onion(H, route[i..], payload);
            && MAGIC <= layer && |layer| >= 35
            && Mask(H, layer[3..], Bytes32(route[i]))[..32]
               == Bytes32(if i + 1 < |route| then route[i + 1] else ZERO_HASH)
  {
    hide Bytes32, Mask, Wrap;
    var rest := route[i..];
    assert rest[0] == route[i] && (|rest| > 1 ==> rest[1] == route[i + 1]);
    NextHopCarried(H, rest[0], if |rest| > 1 then rest[1] else ZERO_HASH, Onion(H, rest[1..], payload));
  }

  /** Each node of the route in turn takes one layer off. */
  function UnwrapAll(H: Hasher, route: seq<Hash>, packet: bytes): Option<bytes> {
    if route == [] then Some(packet)
    else
      match Unwrap(H, route[0], packet)
      case None => None
      case Some(inner) => UnwrapAll(H, route[1..], inner)
  }

  /** Peeling along the whole route, whatever its length, recovers the payload. */
  lemma {:induction false} RouteDelivers(H: Hasher, route: seq<Hash>, payload: bytes)
    ensures UnwrapAll(H, route, Onion(H, route, payload)) == Some(payload)
  {
    hide Wrap, Unwrap;
    if route != [] {
      UnwrapWrap(H, route[0], if |route| > 1 then route[1] else ZERO_HASH, Onion(H, route[1..], payload));
      RouteDelivers(H, route[1..], payload);
    }
  }

  /** `create_onion_layers`: backwards over the route. */
  method CreateOnionLayers(H: Hasher, route: seq<Hash>, payload: bytes) returns (layers: seq<bytes>)
    ensures layers == if route == [] then [] else [Onion(H, route, payload)]
  {
    hide Mask, Bytes32;
    if route == [] { return []; }
    var current := payload;
    var index := |route|;
    assert route[index..] == [];
    while index > 0
      invariant 0 <= index <= |route|
      invariant current == Onion(H, route[index..], payload)
    {
      index := index - 1;
      var next := if index + 1 < |route| then route[index + 1] else ZERO_HASH;
      assert route[index..][1..] == route[index + 1..];
      var encrypted := XorWithKeystream(H, Bytes32(next) + current, Bytes32(route[index]));
      current := MAGIC + encrypted;
    }
    assert route[0..] == route;
    return [current];
  }

  // --------------------------------------------------------------- requests

  datatype Request = Request(content: Hash, requester: Hash, id: Hash, hops: byte, timestamp: u64, layers: seq<bytes>)

  function RequestHeader(r: Request): (s: bytes)
    ensures |s| == 107
  {
    Bytes32(r.content) + Bytes32(r.requester) + Bytes32(r.id) + [r.hops] + ToLe(r.timestamp, 8) + ToLe(|r.layers|, 2)
  }

  function EncodeRequest(r: Request): bytes {
    RequestHeader(r) + Frames(r.layers)
  }

  function DecodeRequest(s: bytes): (r: Option<Request>)
    ensures r.Some? && r.value.layers != [] ==> |r.value.layers[0]| + 111 <= |s|
  {
    if |s| < 107 then None
    else
      match ReadFrames(s, 107, Read16(s, 105), [])
      case None => None
      case Some(layers) => Some(Request(Read256(s, 0), Read256(s, 32), Read256(s, 64), s[96], Read64(s, 97), layers))
  }

  method ParseRequest(s: bytes) returns (r: Option<Request>)
    ensures r == DecodeRequest(s)
  {
    hide Read256, Read64, Read16;
    if |s| < 107 { return None; }
    var n := Read16(s, 105);
    var layers := SplitFrames(s, 107, n);
    if layers.None? { return None; }
    r := Some(Request(Read256(s, 0), Read256(s, 32), Read256(s, 64), s[96], Read64(s, 97), layers.value));
  }

  lemma HeaderReads(r: Request, s: bytes)
    requires |s| >= 107 && s[..107] == RequestHeader(r) && |r.layers| < TWO_16
    ensures Read256(s, 0) == r.content && Read256(s, 32) == r.requester && Read256(s, 64) == r.id
    ensures s[96] == r.hops && Read64(s, 97) == r.timestamp && Read16(s, 105) == |r.layers|
  {
    hide Read256, Read64, Bytes32, ToLe;
    HeaderParts(r, s);
    Read256At(s, 0, r.content);
    Read256At(s, 32, r.requester);
    Read256At(s, 64, r.id);
    Read64At(s, 97, r.timestamp);
    Le16(|r.layers|);
  }

  lemma HeaderParts(r: Request, s: bytes)
    requires |s| >= 107 && s[..107] == RequestHeader(r)
    ensures s[0..32] == Bytes32(r.content) && s[32..64] == Bytes32(r.requester) && s[64..96] == Bytes32(r.id)
    ensures s[96] == r.hops && s[97..105] == ToLe(r.timestamp, 8) && s[105..107] == ToLe(|r.layers|, 2)
  {
    var h := s[..107];
    assert s[0..32] == h[0..32] && s[32..64] == h[32..64] && s[64..96] == h[64..96];
    assert s[97..105] == h[97..105] && s[105..107] == h[105..107];
  }

  /** A request that fits is read from the front of whatever begins with its encoding. */
  lemma RequestReads(s: bytes, r: Request)
    requires |r.layers| < TWO_16 && forall k :: 0 <= k < |r.layers| ==> |r.layers[k]| < TWO_32
    requires EncodeRequest(r) <= s
    ensures DecodeRequest(s) == Some(r)
  {
    hide RequestHeader, Read256, Read64, Read16, ReadFrames, Frames;
    var w := EncodeRequest(r);
    assert s[..107] == w[..107] == RequestHeader(r);
    assert Frames(r.layers) <= s[107..] by { assert w[107..] == Frames(r.layers) && s[107..|w|] == w[107..]; }
    HeaderReads(r, s);
    FramesBack(s, 107, r.layers, 0);
    assert r.layers[..0] == [];
    NoFrames();
  }

  /** A request within the sizes of its count and length fields survives its wire format. */
  lemma RequestRoundTrip(r: Request)
    requires |r.layers| < TWO_16 && forall k :: 0 <= k < |r.layers| ==> |r.layers[k]| < TWO_32
    ensures DecodeRequest(EncodeRequest(r)) == Some(r)
  {
    hide EncodeRequest, DecodeRequest;
    RequestReads(EncodeRequest(r), r);
  }

  lemma DecodedRequestFits(s: bytes)
    requires DecodeRequest(s).Some?
    ensures var r := DecodeRequest(s).value;
            |r.layers| < TWO_16 && forall k :: 0 <= k < |r.layers| ==> |r.layers[k]| < TWO_32
  {
    hide Read256, Read64, ReadFrames;
    FramesFit(s, 107, Read16(s, 105), []);
  }

  /** Its counts and lengths fit their fields. */
  ghost predicate Fits(r: Request) {
    |r.layers| < TWO_16 && forall k :: 0 <= k < |r.layers| ==> |r.layers[k]| < TWO_32
  }

  /** A request is read from exactly the byte strings that begin with its encoding, if it fits. */
  lemma RequestDecodesIff(s: bytes, r: Request)
    ensures DecodeRequest(s) == Some(r) <==> Fits(r) && EncodeRequest(r) <= s
  {
    hide DecodeRequest, EncodeRequest;
    if DecodeRequest(s) == Some(r) {
      DecodedRequestFits(s);
      DecodedRequestThere(s);
    } else if Fits(r) && EncodeRequest(r) <= s {
      RequestReads(s, r);
    }
  }

  lemma DecodedRequestThere(s: bytes)
    requires DecodeRequest(s).Some?
    ensures EncodeRequest(DecodeRequest(s).value) <= s
  {
    hide Read256, Read64, Read16, ReadFrames, Frames, RequestHeader;
    var r := DecodeRequest(s).value;
    HeaderDetermined(s, r);
    FramesWriteBack(s, 107, Read16(s, 105), []);
    assert r.layers[0..] == r.layers;
    assert s == s[..107] + s[107..];
  }

  /** The round trip holds for exactly the requests that fit. */
  lemma RequestRoundTripIff(r: Request)
    ensures DecodeRequest(EncodeRequest(r)) == Some(r)
       <==> |r.layers| < TWO_16 && forall k :: 0 <= k < |r.layers| ==> |r.layers[k]| < TWO_32
  {
    hide EncodeRequest, DecodeRequest;
    RequestDecodesIff(EncodeRequest(r), r);
  }

  // --------------------------------------------------------------- handling

  /** What a node knows when it handles a request. */
  datatype Node = Node(id: Hash, serves: Hash -> bool, routes: Hash -> bool)

  datatype Outcome =
    | HopLimit
    | BadLayer
    | BadRequest
    | Local(request: Request)
    | Refused(request: Request)
    | Forward(request: Request)

  /** The size of the first layer: what strictly shrinks from one level of recursion to the next. */
  function Size(r: Request): nat {
    if r.layers == [] then 0 else |r.layers[0]|
  }

  /** A request whose layers are all off. */
  function Plain(n: Node, r: Request): Outcome {
    if n.serves(r.content) then Local(r)
    else if r.hops <= 1 || r.requester == n.id || !n.routes(r.content) then Refused(r)
    else Forward(r.(hops := r.hops - 1))
  }

  /** `handle_content_request`: defined, and so terminating, for every request. */
  function Handle(H: Hasher, n: Node, r: Request): Outcome
    decreases Size(r)
  {
    if r.hops == 0 then HopLimit
    else if r.layers == [] then Plain(n, r)
    else
      match Unwrap(H, n.id, r.layers[0])
      case None => BadLayer
      case Some(inner) =>
        match DecodeRequest(inner)
        case None => BadRequest
        case Some(next) => Handle(H, n, next)
  }

  /** How many times the handler is entered. */
  function Entries(H: Hasher, n: Node, r: Request): nat
    decreases Size(r)
  {
    if r.hops == 0 || r.layers == [] then 1
    else
      match Unwrap(H, n.id, r.layers[0])
      case None => 1
      case Some(inner) =>
        match DecodeRequest(inner)
        case None => 1
        case Some(next) => 1 + Entries(H, n, next)
  }

  /** Each level of recursion costs the first layer at least 146 bytes, so the depth is bounded by its size. */
  lemma {:induction false} DepthBound(H: Hasher, n: Node, r: Request)
    ensures 146 * (Entries(H, n, r) - 1) <= Size(r) + 4
    ensures r.layers == [] ==> Entries(H, n, r) == 1
    decreases Size(r)
  {
    hide Unwrap, DecodeRequest;
    if r.hops != 0 && r.layers != [] {
      var inner := Unwrap(H, n.id, r.layers[0]);
      if inner.Some? {
        var next := DecodeRequest(inner.value);
        if next.Some? {
          ShortInner(inner.value);
          DepthBound(H, n, next.value);
        }
      }
    }
  }

  lemma ShortInner(s: bytes)
    requires DecodeRequest(s).Some?
    ensures |s| >= 107
  {
  }

  /** The request under all the layers that this node can take off, if there is one with a hop left all the way. */
  function Innermost(H: Hasher, n: Node, r: Request): (q: Option<Request>)
    ensures q.Some? ==> q.value.layers == [] && q.value.hops > 0
    decreases Size(r)
  {
    if r.hops == 0 then None
    else if r.layers == [] then Some(r)
    else
      match Unwrap(H, n.id, r.layers[0])
      case None => None
      case Some(inner) =>
        match DecodeRequest(inner)
        case None => None
        case Some(next) => Innermost(H, n, next)
  }

  /**
   What a node does with the innermost request: content it serves is always answered;
   otherwise it is passed on with exactly one hop less and nothing else changed, or
   refused exactly if it has no hop to give away, is the node's own, or has no route.
   */
  lemma {:induction false} HandledExactly(H: Hasher, n: Node, r: Request)
    ensures var out := Handle(H, n, r);
            Innermost(H, n, r).None? <==> out.HopLimit? || out.BadLayer? || out.BadRequest?
    ensures Innermost(H, n, r).Some? ==>
              var q, out := Innermost(H, n, r).value, Handle(H, n, r);
              && (out.Local? <==> n.serves(q.content)) && (out.Local? ==> out.request == q)
              && (out.Refused? <==>
                    !n.serves(q.content) && (q.hops == 1 || q.requester == n.id || !n.routes(q.content)))
              && (out.Refused? ==> out.request == q)
              && (out.Forward? <==> !out.Local? && !out.Refused?)
              && (out.Forward? ==>
                    && out.request.hops == q.hops - 1 && out.request.content == q.content
                    && out.request.requester == q.requester && out.request.id == q.id
                    && out.request.timestamp == q.timestamp && out.request.layers == [])
    decreases Size(r)
  {
    hide Unwrap, DecodeRequest;
    if r.hops != 0 && r.layers != [] {
      var inner := Unwrap(H, n.id, r.layers[0]);
      if inner.Some? && DecodeRequest(inner.value).Some? {
        HandledExactly(H, n, DecodeRequest(inner.value).value);
      }
    }
  }

  /** Whatever comes in, what goes out is a layerless request with a hop left that was not forwarded to its own
    requester. */
  lemma ForwardsArePlain(H: Hasher, n: Node, r: Request)
    requires Handle(H, n, r).Forward?
    ensures var out := Handle(H, n, r).request;
            && out.layers == [] && out.hops >= 1 && out.requester != n.id
            && n.routes(out.content) && !n.serves(out.content)
  {
    hide Handle, Innermost;
    HandledExactly(H, n, r);
  }

  // ------------------------------------------------------- chains of routers

  /** How often a request is passed on when it goes from node to node. */
  function Forwards(H: Hasher, nodes: seq<Node>, r: Request): nat
    decreases |nodes|
  {
    if nodes == [] || !Handle(H, nodes[0], r).Forward? then 0
    else 1 + Forwards(H, nodes[1..], Handle(H, nodes[0], r).request)
  }

  /** Along any chain of routers, circular or not, a request with limit `h` is passed on at most h - 1 times. */
  lemma {:induction false} HopsRunOut(H: Hasher, nodes: seq<Node>, r: Request)
    requires r.layers == []
    ensures Forwards(H, nodes, r) <= (if r.hops == 0 then 0 else r.hops - 1)
    decreases |nodes|
  {
    hide Handle, Innermost;
    if nodes != [] && Handle(H, nodes[0], r).Forward? {
      HandledExactly(H, nodes[0], r);
      PlainIsInnermost(H, nodes[0], r);
      HopsRunOut(H, nodes[1..], Handle(H, nodes[0], r).request);
    }
  }

  lemma PlainIsInnermost(H: Hasher, n: Node, r: Request)
    requires r.layers == []
    ensures Innermost(H, n, r) == if r.hops == 0 then None else Some(r)
  {
  }

  /** With layers, the limit is that of the request under them. */
  lemma LayeredHopsRunOut(H: Hasher, nodes: seq<Node>, r: Request)
    ensures Forwards(H, nodes, r) <= 254
    ensures nodes != [] && Innermost(H, nodes[0], r).Some? ==>
              Forwards(H, nodes, r) <= Innermost(H, nodes[0], r).value.hops - 1
    ensures nodes != [] && Innermost(H, nodes[0], r).None? ==> Forwards(H, nodes, r) == 0
  {
    hide Handle, Innermost;
    if nodes != [] {
      HandledExactly(H, nodes[0], r);
      if Handle(H, nodes[0], r).Forward? { HopsRunOut(H, nodes[1..], Handle(H, nodes[0], r).request); }
    }
  }

  /** A node that passes requests for the content on. */
  predicate Relays(n: Node, r: Request) {
    !n.serves(r.content) && n.routes(r.content) && r.requester != n.id
  }

  /** And along a chain of nodes that all pass it on, it gets exactly that far. */
  lemma {:induction false} HopsAreUsed(H: Hasher, nodes: seq<Node>, r: Request)
    requires r.layers == [] && r.hops > 0 && forall i :: 0 <= i < |nodes| ==> Relays(nodes[i], r)
    ensures Forwards(H, nodes, r) == if |nodes| < r.hops - 1 then |nodes| else r.hops - 1
    decreases |nodes|
  {
    hide Handle, Innermost;
    if nodes != [] {
      HandledExactly(H, nodes[0], r);
      PlainIsInnermost(H, nodes[0], r);
      assert Relays(nodes[0], r);
      if r.hops > 1 {
        var out := Handle(H, nodes[0], r).request;
        forall i | 0 <= i < |nodes[1..]| ensures Relays(nodes[1..][i], out) {
          assert Relays(nodes[i + 1], r);
        }
        HopsAreUsed(H, nodes[1..], out);
      }
    }
  }

  /** The request as `request_content_with_onion_routing` sends it to the first hop of a route. */
  function Routed(H: Hasher, route: seq<Hash>, r: Request): Request {
    r.(layers := if route == [] then [] else [Onion(H, route, EncodeRequest(r))])
  }

  /** Over a one-hop route, the hop handles exactly the request that was wrapped. */
  lemma OneHopDelivers(H: Hasher, n: Node, r: Request)
    requires r.layers == [] && r.hops > 0
    ensures Handle(H, n, Routed(H, [n.id], r)) == Handle(H, n, r)
  {
    hide EncodeRequest, DecodeRequest, Wrap, Unwrap, Plain;
    var packet := EncodeRequest(r);
    assert Onion(H, [n.id], packet) == Wrap(H, n.id, ZERO_HASH, packet) by { assert [n.id][1..] == []; }
    UnwrapWrap(H, n.id, ZERO_HASH, packet);
    RequestRoundTrip(r);
  }

  /**
   The first hop finds the packet meant for the hop after it, and reads the original
   request out of it exactly if that packet happens to begin with the request: always
   over a one-hop route, and over a longer one only if the content hash begins with
   the mark of a layer.
   */
  lemma FirstHopReadsIff(H: Hasher, route: seq<Hash>, r: Request)
    requires route != [] && r.layers == []
    ensures var inner := Unwrap(H, route[0], Onion(H, route, EncodeRequest(r)));
            && inner == Some(Onion(H, route[1..], EncodeRequest(r)))
            && (DecodeRequest(inner.value) == Some(r) <==> EncodeRequest(r) <= inner.value)
            && (|route| == 1 ==> DecodeRequest(inner.value) == Some(r))
            && (|route| > 1 && Bytes32(r.content)[..3] != MAGIC ==> DecodeRequest(inner.value) != Some(r))
  {
    hide EncodeRequest, DecodeRequest, Unwrap, Bytes32, Wrap, Onion;
    var packet := EncodeRequest(r);
    var rest := Onion(H, route[1..], packet);
    OnionStarts(H, route, packet);
    UnwrapWrap(H, route[0], if |route| > 1 then route[1] else ZERO_HASH, rest);
    RequestDecodesIff(rest, r);
    if |route| == 1 {
      OnionEnds(H, packet);
      assert route[1..] == [];
    } else {
      OnionMarked(H, route[1..], packet);
      if DecodeRequest(rest) == Some(r) { ContentPrefix(rest); }
    }
  }

  lemma OnionStarts(H: Hasher, route: seq<Hash>, payload: bytes)
    requires route != []
    ensures Onion(H, route, payload)
         == Wrap(H, route[0], if |route| > 1 then route[1] else ZERO_HASH, Onion(H, route[1..], payload))
  {
  }

  lemma OnionEnds(H: Hasher, payload: bytes)
    ensures Onion(H, [], payload) == payload
  {
  }

  lemma OnionMarked(H: Hasher, route: seq<Hash>, payload: bytes)
    requires route != []
    ensures MAGIC <= Onion(H, route, payload)
  {
    hide Mask, Bytes32;
  }

  lemma HeaderDetermined(s: bytes, r: Request)
    requires |s| >= 107 && Read16(s, 105) == |r.layers|
    requires Read256(s, 0) == r.content && Read256(s, 32) == r.requester && Read256(s, 64) == r.id
    requires s[96] == r.hops && Read64(s, 97) == r.timestamp
    ensures RequestHeader(r) == s[..107]
  {
    hide Read256, Read64, Read16, Bytes32, ToLe;
    WritesBack256(s, 0);
    WritesBack256(s, 32);
    WritesBack256(s, 64);
    WritesBack64(s, 97);
    WritesBack16(s, 105);
    var parts := s[0..32] + s[32..64] + s[64..96] + [s[96]] + s[97..105] + s[105..107];
    assert parts == s[..107];
  }

  lemma ContentPrefix(s: bytes)
    requires DecodeRequest(s).Some?
    ensures |s| >= 107 && Bytes32(DecodeRequest(s).value.content)[..3] == s[..3]
  {
    hide Read16, Read64, ReadFrames;
    ToFromLe(s[0..32]);
    assert s[..3] == s[0..32][..3];
  }

  class ContentRouter {
    const H: Hasher
    const node: Node
    var received: nat
    var forwards: nat

    constructor (H: Hasher, node: Node)
      ensures this.H == H && this.node == node && received == 0 && forwards == 0
    {
      this.H, this.node := H, node;
      received, forwards := 0, 0;
    }

    method HandleContentRequest(r: Request) returns (outcome: Outcome)
      modifies this
      ensures outcome == Handle(H, node, r)
      ensures received == old(received) + Entries(H, node, r)
      ensures forwards == old(forwards) + if outcome.Forward? then 1 else 0
      decreases Size(r)
    {
      hide Mask, ReadFrames;
      received := received + 1;
      if r.hops == 0 { return HopLimit; }
      if r.layers != [] {
        var inner := Unwrap(H, node.id, r.layers[0]);
        if inner.None? { return BadLayer; }
        var next := ParseRequest(inner.value);
        if next.None? { return BadRequest; }
        outcome := HandleContentRequest(next.value);
        return;
      }
      if node.serves(r.content) { return Local(r); }
      if r.hops <= 1 || r.requester == node.id || !node.routes(r.content) { return Refused(r); }
      forwards := forwards + 1;
      return Forward(r.(hops := r.hops - 1));
    }
  }
}
