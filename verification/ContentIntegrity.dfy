/**
 Merkle trees over chunked content and the integrity metadata built on them
 (src/security/content_integrity.cpp:38-108, 118-174).
 */
module ContentIntegrity {
  import opened Bytes

  const DEFAULT_CHUNK: nat := 65536

  function Min(a: nat, b: nat): nat {
    if a < b then a else b
  }

  /** The content cut into pieces of `size` bytes, the last one possibly shorter. */
  function Chunks(content: bytes, size: nat): seq<bytes>
    requires size > 0
  {
    if content == [] then []
    else [content[..Min(size, |content|)]] + Chunks(content[Min(size, |content|)..], size)
  }

  function Leaves(H: Hasher, chunks: seq<bytes>): (r: seq<Hash>)
    ensures |r| == |chunks| && forall i :: 0 <= i < |chunks| ==> r[i] == H(chunks[i])
  {
    seq(|chunks|, i requires 0 <= i < |chunks| => H(chunks[i]))
  }

  function Pair(a: Hash, b: Hash): bytes {
    Bytes32(a) + Bytes32(b)
  }

  /** One level up: neighbours are hashed together, a last odd one moves up as it is. */
  function Reduce(H: Hasher, level: seq<Hash>): (r: seq<Hash>)
    ensures |level| > 1 ==> |r| < |level|
    ensures |r| == (|level| + 1) / 2
  {
    if |level| <= 1 then level
    else [H(Pair(level[0], level[1]))] + Reduce(H, level[2..])
  }

  /** The root hash of a level; the empty tree has the zero hash. */
  function Root(H: Hasher, level: seq<Hash>): Hash
    decreases |level|
  {
    if level == [] then ZERO_HASH
    else if |level| == 1 then level[0]
    else Root(H, Reduce(H, level))
  }

  function MerkleRoot(H: Hasher, content: bytes, size: nat): Hash
    requires size > 0
  {
    Root(H, Leaves(H, Chunks(content, size)))
  }

  // ---------------------------------------------------------------- binding

  /** What is hashed to go up one level. */
  function PairInputs(level: seq<Hash>): set<bytes> {
    if |level| <= 1 then {} else {Pair(level[0], level[1])} + PairInputs(level[2..])
  }

  /** What is hashed on the way from a level to the root. */
  function TreeInputs(H: Hasher, level: seq<Hash>): set<bytes>
    decreases |level|
  {
    if |level| <= 1 then {} else PairInputs(level) + TreeInputs(H, Reduce(H, level))
  }

  /** Everything hashed to compute a Merkle root. */
  function Inputs(H: Hasher, content: bytes, size: nat): set<bytes>
    requires size > 0
  {
    (set c | c in Chunks(content, size)) + TreeInputs(H, Leaves(H, Chunks(content, size)))
  }

  lemma CollisionFreeSubset(H: Hasher, small: set<bytes>, large: set<bytes>)
    requires small <= large && CollisionFree(H, large)
    ensures CollisionFree(H, small)
  {
  }

  lemma PairInjective(a: Hash, b: Hash, x: Hash, y: Hash)
    requires Pair(a, b) == Pair(x, y)
    ensures a == x && b == y
  {
    hide Bytes32;
    assert Bytes32(a) == Pair(a, b)[..32] == Bytes32(x);
    assert Bytes32(b) == Pair(a, b)[32..] == Bytes32(y);
    Bytes32Injective(a, x);
    Bytes32Injective(b, y);
  }

  lemma {:induction false} ReduceInjective(H: Hasher, a: seq<Hash>, b: seq<Hash>)
    requires |a| == |b| && Reduce(H, a) == Reduce(H, b)
    requires CollisionFree(H, PairInputs(a) + PairInputs(b))
    ensures a == b
  {
    hide Pair;
    if |a| > 1 {
      assert Reduce(H, a)[0] == Reduce(H, b)[0];
      assert Pair(a[0], a[1]) in PairInputs(a) + PairInputs(b) && Pair(b[0], b[1]) in PairInputs(a) + PairInputs(b);
      PairInjective(a[0], a[1], b[0], b[1]);
      assert Reduce(H, a)[1..] == Reduce(H, a[2..]) && Reduce(H, b)[1..] == Reduce(H, b[2..]);
      CollisionFreeSubset(H, PairInputs(a[2..]) + PairInputs(b[2..]), PairInputs(a) + PairInputs(b));
      ReduceInjective(H, a[2..], b[2..]);
      assert a == [a[0], a[1]] + a[2..] && b == [b[0], b[1]] + b[2..];
    }
  }

  lemma {:induction false} RootInjective(H: Hasher, a: seq<Hash>, b: seq<Hash>)
    requires |a| == |b| && Root(H, a) == Root(H, b)
    requires CollisionFree(H, TreeInputs(H, a) + TreeInputs(H, b))
    ensures a == b
    decreases |a|
  {
    hide PairInputs, Reduce;
    if |a| > 1 {
      var all := TreeInputs(H, a) + TreeInputs(H, b);
      CollisionFreeSubset(H, TreeInputs(H, Reduce(H, a)) + TreeInputs(H, Reduce(H, b)), all);
      CollisionFreeSubset(H, PairInputs(a) + PairInputs(b), all);
      RootInjective(H, Reduce(H, a), Reduce(H, b));
      ReduceInjective(H, a, b);
    }
  }

  lemma {:induction false} SameChunksSameContent(a: bytes, b: bytes, size: nat)
    requires size > 0 && Chunks(a, size) == Chunks(b, size)
    ensures a == b
  {
    if a != [] && b != [] {
      assert Chunks(a, size)[0] == Chunks(b, size)[0];
      assert Chunks(a, size)[1..] == Chunks(a[Min(size, |a|)..], size);
      assert Chunks(b, size)[1..] == Chunks(b[Min(size, |b|)..], size);
      SameChunksSameContent(a[Min(size, |a|)..], b[Min(size, |b|)..], size);
      assert a == a[..Min(size, |a|)] + a[Min(size, |a|)..];
      assert b == b[..Min(size, |b|)] + b[Min(size, |b|)..];
    }
  }

  lemma {:induction false} SameLengthSameChunkCount(a: bytes, b: bytes, size: nat)
    requires size > 0 && |a| == |b|
    ensures |Chunks(a, size)| == |Chunks(b, size)|
  {
    if a != [] { SameLengthSameChunkCount(a[Min(size, |a|)..], b[Min(size, |b|)..], size); }
  }

  lemma SameLeavesSameChunks(H: Hasher, a: seq<bytes>, b: seq<bytes>)
    requires |a| == |b| && Leaves(H, a) == Leaves(H, b)
    requires CollisionFree(H, (set c | c in a) + (set c | c in b))
    ensures a == b
  {
    forall i | 0 <= i < |a| ensures a[i] == b[i] {
      assert Leaves(H, a)[i] == Leaves(H, b)[i];
      assert a[i] in (set c | c in a) + (set c | c in b) && b[i] in (set c | c in a) + (set c | c in b);
    }
  }

  /** Merkle binding: contents of equal length have equal roots exactly if they are equal. */
  lemma MerkleBinding(H: Hasher, a: bytes, b: bytes, size: nat)
    requires size > 0 && |a| == |b| && CollisionFree(H, Inputs(H, a, size) + Inputs(H, b, size))
    ensures MerkleRoot(H, a, size) == MerkleRoot(H, b, size) <==> a == b
  {
    hide Chunks, Leaves, TreeInputs, Root;
    if MerkleRoot(H, a, size) == MerkleRoot(H, b, size) {
      var x, y := Chunks(a, size), Chunks(b, size);
      var all := Inputs(H, a, size) + Inputs(H, b, size);
      SameLengthSameChunkCount(a, b, size);
      CollisionFreeSubset(H, TreeInputs(H, Leaves(H, x)) + TreeInputs(H, Leaves(H, y)), all);
      RootInjective(H, Leaves(H, x), Leaves(H, y));
      CollisionFreeSubset(H, (set c | c in x) + (set c | c in y), all);
      SameLeavesSameChunks(H, x, y);
      SameChunksSameContent(a, b, size);
    }
  }

  // ------------------------------------------------ contents of any lengths

  /** The tree that a root stands for. */
  datatype Tree = Leaf(chunk: bytes) | Node(left: Tree, right: Tree)

  function Digest(H: Hasher, t: Tree): Hash {
    match t
    case Leaf(c) => H(c)
    case Node(l, r) => H(Pair(Digest(H, l), Digest(H, r)))
  }

  /** The chunks at the leaves, from left to right. */
  function Fringe(t: Tree): seq<bytes> {
    match t
    case Leaf(c) => [c]
    case Node(l, r) => Fringe(l) + Fringe(r)
  }

  function HashedIn(H: Hasher, t: Tree): set<bytes> {
    match t
    case Leaf(c) => {c}
    case Node(l, r) => HashedIn(H, l) + HashedIn(H, r) + {Pair(Digest(H, l), Digest(H, r))}
  }

  function Digests(H: Hasher, ts: seq<Tree>): (r: seq<Hash>)
    ensures |r| == |ts| && forall i :: 0 <= i < |ts| ==> r[i] == Digest(H, ts[i])
  {
    seq(|ts|, i requires 0 <= i < |ts| => Digest(H, ts[i]))
  }

  function Fringes(ts: seq<Tree>): seq<bytes> {
    if ts == [] then [] else Fringe(ts[0]) + Fringes(ts[1..])
  }

  function AllHashed(H: Hasher, ts: seq<Tree>): set<bytes> {
    if ts == [] then {} else HashedIn(H, ts[0]) + AllHashed(H, ts[1..])
  }

  /** One level up, as `Reduce` does it to the digests. */
  function Up(ts: seq<Tree>): (r: seq<Tree>)
    ensures |ts| > 1 ==> |r| < |ts|
    ensures ts != [] ==> r != []
  {
    if |ts| <= 1 then ts else [Node(ts[0], ts[1])] + Up(ts[2..])
  }

  function Top(ts: seq<Tree>): Tree
    requires ts != []
    decreases |ts|
  {
    if |ts| == 1 then ts[0] else Top(Up(ts))
  }

  function Planted(chunks: seq<bytes>): (r: seq<Tree>)
    ensures |r| == |chunks| && forall i :: 0 <= i < |chunks| ==> r[i] == Leaf(chunks[i])
  {
    seq(|chunks|, i requires 0 <= i < |chunks| => Leaf(chunks[i]))
  }

  lemma {:induction false} UpDigests(H: Hasher, ts: seq<Tree>)
    ensures Digests(H, Up(ts)) == Reduce(H, Digests(H, ts))
  {
    hide Pair;
    var ds := Digests(H, ts);
    if |ts| > 1 {
      UpDigests(H, ts[2..]);
      assert ds[2..] == Digests(H, ts[2..]);
      assert Up(ts) == [Node(ts[0], ts[1])] + Up(ts[2..]);
    }
  }

  lemma AllHashedTwo(H: Hasher, ts: seq<Tree>)
    requires |ts| > 1
    ensures AllHashed(H, ts) == HashedIn(H, ts[0]) + HashedIn(H, ts[1]) + AllHashed(H, ts[2..])
  {
    hide HashedIn;
    assert ts[1..][1..] == ts[2..];
  }

  lemma {:induction false} UpHashed(H: Hasher, ts: seq<Tree>)
    ensures AllHashed(H, Up(ts)) == AllHashed(H, ts) + PairInputs(Digests(H, ts))
  {
    if |ts| > 1 {
      UpHashed(H, ts[2..]);
      hide Pair, Digest, AllHashed;
      var ds, up := Digests(H, ts), Up(ts);
      AllHashedTwo(H, ts);
      assert ds[2..] == Digests(H, ts[2..]);
      assert up[1..] == Up(ts[2..]) && up[0] == Node(ts[0], ts[1]);
      AllHashedOne(H, up);
    }
  }

  lemma AllHashedOne(H: Hasher, ts: seq<Tree>)
    requires ts != []
    ensures AllHashed(H, ts) == HashedIn(H, ts[0]) + AllHashed(H, ts[1..])
  {
  }

  lemma {:induction false} UpFringes(ts: seq<Tree>)
    ensures Fringes(Up(ts)) == Fringes(ts)
  {
    if |ts| > 1 {
      UpFringes(ts[2..]);
      assert ts[1..][1..] == ts[2..] && Up(ts)[1..] == Up(ts[2..]);
    }
  }

  /** The root hash is the digest of the tree, whose leaves are those of the level. */
  lemma {:induction false} TopStands(H: Hasher, ts: seq<Tree>)
    requires ts != []
    ensures Digest(H, Top(ts)) == Root(H, Digests(H, ts))
    ensures Fringe(Top(ts)) == Fringes(ts)
    ensures HashedIn(H, Top(ts)) <= AllHashed(H, ts) + TreeInputs(H, Digests(H, ts))
    decreases |ts|
  {
    hide Digest, Fringe, HashedIn, PairInputs, Reduce, Up;
    if |ts| == 1 {
      assert ts[1..] == [];
    } else {
      UpDigests(H, ts);
      UpHashed(H, ts);
      UpFringes(ts);
      TopStands(H, Up(ts));
    }
  }

  lemma {:induction false} PlantedFringes(chunks: seq<bytes>)
    ensures Fringes(Planted(chunks)) == chunks
  {
    if chunks != [] {
      PlantedFringes(chunks[1..]);
      assert Planted(chunks)[1..] == Planted(chunks[1..]);
    }
  }

  lemma {:induction false} PlantedHashed(H: Hasher, chunks: seq<bytes>)
    ensures AllHashed(H, Planted(chunks)) == set c | c in chunks
    ensures Digests(H, Planted(chunks)) == Leaves(H, chunks)
  {
    if chunks != [] {
      PlantedHashed(H, chunks[1..]);
      assert Planted(chunks)[1..] == Planted(chunks[1..]);
      assert chunks == [chunks[0]] + chunks[1..];
    }
  }

  /** The tree over a content that is not empty. */
  function TreeOf(content: bytes, size: nat): Tree
    requires size > 0 && content != []
  {
    Top(Planted(Chunks(content, size)))
  }

  lemma TreeStands(H: Hasher, content: bytes, size: nat)
    requires size > 0 && content != []
    ensures Digest(H, TreeOf(content, size)) == MerkleRoot(H, content, size)
    ensures Fringe(TreeOf(content, size)) == Chunks(content, size)
    ensures HashedIn(H, TreeOf(content, size)) <= Inputs(H, content, size)
  {
    hide Digest, Fringe, HashedIn, AllHashed, Fringes, Top, Root, TreeInputs, Leaves;
    var chunks := Chunks(content, size);
    TopStands(H, Planted(chunks));
    PlantedFringes(chunks);
    PlantedHashed(H, chunks);
  }

  /** A chunk of 64 bytes can be taken for a pair of digests. */
  ghost predicate NoPairSized(chunks: seq<bytes>) {
    forall c :: c in chunks ==> |c| != 64
  }

  lemma {:induction false} DigestInjective(H: Hasher, t: Tree, u: Tree)
    requires CollisionFree(H, HashedIn(H, t) + HashedIn(H, u)) && Digest(H, t) == Digest(H, u)
    requires NoPairSized(Fringe(t)) && NoPairSized(Fringe(u))
    ensures t == u
  {
    hide Bytes32, NoPairSized;
    match (t, u)
    case (Leaf(c), Leaf(d)) =>
      assert c in HashedIn(H, t) && d in HashedIn(H, u);
    case (Leaf(c), Node(l, r)) =>
      LeafIsNoPair(H, c, l, r);
    case (Node(l, r), Leaf(c)) =>
      LeafIsNoPair(H, c, l, r);
    case (Node(l, r), Node(m, n)) =>
      assert Pair(Digest(H, l), Digest(H, r)) in HashedIn(H, t) && Pair(Digest(H, m), Digest(H, n)) in HashedIn(H, u);
      PairInjective(Digest(H, l), Digest(H, r), Digest(H, m), Digest(H, n));
      CollisionFreeSubset(H, HashedIn(H, l) + HashedIn(H, m), HashedIn(H, t) + HashedIn(H, u));
      CollisionFreeSubset(H, HashedIn(H, r) + HashedIn(H, n), HashedIn(H, t) + HashedIn(H, u));
      HalvesNotPairSized(Fringe(l), Fringe(r));
      HalvesNotPairSized(Fringe(m), Fringe(n));
      DigestInjective(H, l, m);
      DigestInjective(H, r, n);
  }

  lemma LeafIsNoPair(H: Hasher, c: bytes, l: Tree, r: Tree)
    requires NoPairSized([c])
    ensures c != Pair(Digest(H, l), Digest(H, r))
    ensures c in HashedIn(H, Leaf(c)) && Pair(Digest(H, l), Digest(H, r)) in HashedIn(H, Node(l, r))
  {
    hide Bytes32, Digest;
    assert c in [c];
  }

  lemma HalvesNotPairSized(a: seq<bytes>, b: seq<bytes>)
    requires NoPairSized(a + b)
    ensures NoPairSized(a) && NoPairSized(b)
  {
    assert forall c :: c in a ==> c in a + b;
    assert forall c :: c in b ==> c in a + b;
  }

  lemma {:induction false} RootIsDigest(H: Hasher, t: Tree)
    ensures exists x :: x in HashedIn(H, t) && Digest(H, t) == H(x)
  {
    match t
    case Leaf(c) => assert c in HashedIn(H, t);
    case Node(l, r) => assert Pair(Digest(H, l), Digest(H, r)) in HashedIn(H, t);
  }

  /** No digest of the given inputs is the zero hash, which stands for empty content. */
  ghost predicate NeverZero(H: Hasher, xs: set<bytes>) {
    forall x :: x in xs ==> H(x) != ZERO_HASH
  }

  lemma RootNotZero(H: Hasher, content: bytes, size: nat)
    requires size > 0 && content != [] && NeverZero(H, Inputs(H, content, size))
    ensures MerkleRoot(H, content, size) != ZERO_HASH
  {
    hide TreeOf, MerkleRoot, Inputs;
    TreeStands(H, content, size);
    RootIsDigest(H, TreeOf(content, size));
  }

  lemma EmptyRoot(H: Hasher, size: nat)
    requires size > 0
    ensures MerkleRoot(H, [], size) == ZERO_HASH && Chunks([], size) == []
  {
  }

  lemma ChunksEmptyIff(content: bytes, size: nat)
    requires size > 0
    ensures Chunks(content, size) == [] <==> content == []
  {
  }

  /**
   Without chunks of 64 bytes a root determines the chunks: contents of any lengths,
   cut at any two sizes, have equal roots exactly if they are cut into the same chunks.
   */
  lemma RootsAgreeIff(H: Hasher, a: bytes, m: nat, b: bytes, n: nat)
    requires m > 0 && n > 0 && NoPairSized(Chunks(a, m)) && NoPairSized(Chunks(b, n))
    requires CollisionFree(H, Inputs(H, a, m) + Inputs(H, b, n)) && NeverZero(H, Inputs(H, a, m) + Inputs(H, b, n))
    ensures MerkleRoot(H, a, m) == MerkleRoot(H, b, n) <==> Chunks(a, m) == Chunks(b, n)
  {
    hide Inputs, Digest, HashedIn, TreeOf, NoPairSized, Chunks, Fringe, Root, Leaves, CollisionFree;
    EmptyRoot(H, m);
    EmptyRoot(H, n);
    ChunksEmptyIff(a, m);
    ChunksEmptyIff(b, n);
    if a != [] { RootNotZero(H, a, m); }
    if b != [] { RootNotZero(H, b, n); }
    if a != [] && b != [] {
      TreeStands(H, a, m);
      TreeStands(H, b, n);
      var t, u := TreeOf(a, m), TreeOf(b, n);
      CollisionFreeSubset(H, HashedIn(H, t) + HashedIn(H, u), Inputs(H, a, m) + Inputs(H, b, n));
      if MerkleRoot(H, a, m) == MerkleRoot(H, b, n) { DigestInjective(H, t, u); }
    }
  }

  /** Merkle binding for contents of any two lengths, if no chunk has 64 bytes. */
  lemma MerkleBindingAnyLength(H: Hasher, a: bytes, b: bytes, size: nat)
    requires size > 0 && NoPairSized(Chunks(a, size)) && NoPairSized(Chunks(b, size))
    requires CollisionFree(H, Inputs(H, a, size) + Inputs(H, b, size))
    requires NeverZero(H, Inputs(H, a, size) + Inputs(H, b, size))
    ensures MerkleRoot(H, a, size) == MerkleRoot(H, b, size) <==> a == b
  {
    hide Inputs, MerkleRoot, Chunks, NoPairSized, CollisionFree;
    RootsAgreeIff(H, a, size, b, size);
    if Chunks(a, size) == Chunks(b, size) { SameChunksSameContent(a, b, size); }
  }

  /**
   And a chunk of 64 bytes does break it: leaves and inner nodes are hashed alike, so
   the two leaf digests of a content of two chunks are a content with the same root.
   */
  lemma PairForges(H: Hasher, a: bytes, size: nat)
    requires 64 <= size < |a| <= 2 * size
    ensures var b := Pair(H(a[..size]), H(a[size..]));
            b != a && |b| == 64 && MerkleRoot(H, b, size) == MerkleRoot(H, a, size)
  {
    hide Bytes32;
    var b := Pair(H(a[..size]), H(a[size..]));
    OneChunk(b, size);
    ChunksUnfold(a, size);
    OneChunk(a[size..], size);
    assert Chunks(a, size) == [a[..size], a[size..]];
    var leaves := Leaves(H, Chunks(a, size));
    assert leaves[2..] == [];
    assert Reduce(H, leaves) == [H(b)];
    assert Leaves(H, Chunks(b, size)) == [H(b)];
  }

  /** Every chunk has the chunk size, but for the last one, which has what is left. */
  lemma {:induction false} ChunkLengths(content: bytes, size: nat)
    requires size > 0
    ensures forall c :: c in Chunks(content, size) ==> 0 < |c| <= size
  {
    if content != [] { ChunkLengths(content[Min(size, |content|)..], size); }
  }

  /** A content of `n` bytes has a chunk of 64 bytes. */
  predicate CutsAPair(n: nat, size: nat)
    requires size > 0
  {
    n % size == 64 || (size == 64 && n >= 64)
  }

  /** Whether some chunk has 64 bytes is a matter of the two sizes alone. */
  lemma {:induction false} NoPairSizedIff(content: bytes, size: nat)
    requires size > 0
    ensures NoPairSized(Chunks(content, size)) <==> !CutsAPair(|content|, size)
  {
    if content != [] {
      var m := Min(size, |content|);
      var head, rest := content[..m], content[m..];
      NoPairSizedIff(rest, size);
      ChunksUnfold(content, size);
      assert NoPairSized(Chunks(content, size)) <==> |head| != 64 && NoPairSized(Chunks(rest, size)) by {
        assert head in Chunks(content, size);
        assert forall c :: c in Chunks(content, size) <==> c == head || c in Chunks(rest, size);
      }
      if m == size { ModMinus(|content|, size); }
    }
  }

  lemma ModMinus(n: nat, size: nat)
    requires 0 < size <= n
    ensures n % size == (n - size) % size
  {
    ModPlus(n - size, size);
  }

  lemma ModPlus(k: nat, size: nat)
    requires size > 0
    ensures (k + size) % size == k % size
  {
    assert k + size == size * (k / size + 1) + k % size by { assert size * (k / size + 1) == size * (k / size) + size; }
    EuclidUnique(k + size, size, k / size + 1, k % size);
  }

  function Zeros(n: nat): (s: bytes)
    ensures |s| == n
  {
    seq(n, _ => 0)
  }

  lemma ForgingPair(H: Hasher, size: nat) returns (b: bytes)
    requires size >= 64
    ensures b != Zeros(size + 1) && MerkleRoot(H, b, size) == MerkleRoot(H, Zeros(size + 1), size)
    ensures Inputs(H, b, size) <= Inputs(H, Zeros(size + 1), size)
  {
    hide Bytes32, MerkleRoot;
    var a := Zeros(size + 1);
    PairForges(H, a, size);
    b := Pair(H(a[..size]), H(a[size..]));
    OneChunk(b, size);
    ChunksUnfold(a, size);
    OneChunk(a[size..], size);
    var leaves := Leaves(H, Chunks(a, size));
    assert Chunks(a, size) == [a[..size], a[size..]];
    assert leaves[2..] == [];
    assert b in PairInputs(leaves);
  }

  ghost predicate Trusted(H: Hasher, xs: set<bytes>) {
    CollisionFree(H, xs) && NeverZero(H, xs)
  }

  /** Roots bind contents of whatever lengths exactly if the chunk size is under 64 bytes. */
  lemma BindsAnyLengthIff(H: Hasher, size: nat)
    requires size > 0 && Trusted(H, Inputs(H, Zeros(size + 1), size))
    ensures size < 64
       <==> forall a, b :: Trusted(H, Inputs(H, a, size) + Inputs(H, b, size)) ==>
              (MerkleRoot(H, a, size) == MerkleRoot(H, b, size) <==> a == b)
  {
    hide MerkleRoot, Inputs, Trusted, Chunks;
    if size < 64 {
      forall a, b | Trusted(H, Inputs(H, a, size) + Inputs(H, b, size))
        ensures MerkleRoot(H, a, size) == MerkleRoot(H, b, size) <==> a == b
      {
        SmallChunksBind(H, a, b, size);
      }
    } else {
      var b := ForgingPair(H, size);
      assert Inputs(H, b, size) + Inputs(H, Zeros(size + 1), size) == Inputs(H, Zeros(size + 1), size);
    }
  }

  lemma SmallChunksBind(H: Hasher, a: bytes, b: bytes, size: nat)
    requires 0 < size < 64 && Trusted(H, Inputs(H, a, size) + Inputs(H, b, size))
    ensures MerkleRoot(H, a, size) == MerkleRoot(H, b, size) <==> a == b
  {
    hide MerkleRoot, Inputs, Chunks, CollisionFree, NeverZero;
    ChunkLengths(a, size);
    ChunkLengths(b, size);
    MerkleBindingAnyLength(H, a, b, size);
  }

  // --------------------------------------------------------------- metadata

  datatype Metadata = Metadata(contentHash: Hash, size: nat, root: Hash, createdAt: Clock, chunkHashes: seq<Hash>)

  function Generate(H: Hasher, content: bytes, size: nat, now: Clock): Metadata
    requires size > 0
  {
    Metadata(H(content), |content|, MerkleRoot(H, content, size), now, Leaves(H, Chunks(content, size)))
  }

  /** The check always rebuilds the tree with the default chunk size. */
  predicate Verifies(H: Hasher, content: bytes, m: Metadata) {
    |content| == m.size && H(content) == m.contentHash && MerkleRoot(H, content, DEFAULT_CHUNK) == m.root
  }

  /** Metadata made at the default chunk size is accepted for the content it was made of, and for no other. */
  lemma MetadataBinding(H: Hasher, a: bytes, b: bytes, now: Clock)
    requires CollisionFree(H, {a, b})
    ensures Verifies(H, b, Generate(H, a, DEFAULT_CHUNK, now)) <==> a == b
  {
    hide MerkleRoot, Leaves, Chunks;
    assert a in {a, b} && b in {a, b};
  }

  lemma OneChunk(content: bytes, size: nat)
    requires size > 0 && 0 < |content| <= size
    ensures Chunks(content, size) == [content]
  {
    assert content[..|content|] == content && content[|content|..] == [];
  }

  /** Two sizes cut a content alike exactly if they are equal or each takes it whole. */
  lemma SameChunksIff(content: bytes, m: nat, n: nat)
    requires m > 0 && n > 0
    ensures Chunks(content, m) == Chunks(content, n) <==> m == n || (|content| <= m && |content| <= n)
  {
    if content != [] {
      if |content| <= m { OneChunk(content, m); }
      if |content| <= n { OneChunk(content, n); }
      if Chunks(content, m) == Chunks(content, n) {
        assert |Chunks(content, m)[0]| == |Chunks(content, n)[0]|;
      }
    }
  }

  /** Metadata of a content that is a single chunk either way is always accepted for it. */
  lemma SmallContentVerifies(H: Hasher, content: bytes, size: nat, now: Clock)
    requires size > 0 && |content| <= size && |content| <= DEFAULT_CHUNK
    ensures Verifies(H, content, Generate(H, content, size, now))
  {
    hide Leaves, Root;
    SameChunksIff(content, size, DEFAULT_CHUNK);
  }

  /**
   Metadata is accepted for the very content it was made of if it was made at the
   default chunk size or the content is a single chunk at both sizes; and unless one of
   the sizes cuts off a chunk of 64 bytes, only then: the check does not know at which
   size the tree was built.
   */
  lemma OtherSizeVerifiesIff(H: Hasher, content: bytes, size: nat, now: Clock)
    requires size > 0 && Trusted(H, Inputs(H, content, size) + Inputs(H, content, DEFAULT_CHUNK))
    ensures var alike := size == DEFAULT_CHUNK || (|content| <= size && |content| <= DEFAULT_CHUNK);
            var accepted := Verifies(H, content, Generate(H, content, size, now));
            && (alike ==> accepted)
            && (!CutsAPair(|content|, size) && !CutsAPair(|content|, DEFAULT_CHUNK) ==> (accepted <==> alike))
  {
    hide Inputs, Chunks, NoPairSized, CollisionFree, NeverZero, Leaves, Root, CutsAPair;
    SameChunksIff(content, size, DEFAULT_CHUNK);
    NoPairSizedIff(content, size);
    NoPairSizedIff(content, DEFAULT_CHUNK);
    if !CutsAPair(|content|, size) && !CutsAPair(|content|, DEFAULT_CHUNK) {
      RootsAgreeIff(H, content, size, content, DEFAULT_CHUNK);
    }
  }

  /** Metadata whose size, digest or root was changed is refused for the content it was made of. */
  lemma TamperedRefused(H: Hasher, content: bytes, now: Clock, m: Metadata)
    requires var good := Generate(H, content, DEFAULT_CHUNK, now);
             m.size != good.size || m.contentHash != good.contentHash || m.root != good.root
    ensures !Verifies(H, content, m)
  {
  }

  /** The chunk digests, too, belong to one content only: one for each chunk begun. */
  lemma ChunkHashesBind(H: Hasher, a: bytes, b: bytes, size: nat, now: Clock)
    requires size > 0 && CollisionFree(H, (set c | c in Chunks(a, size)) + (set c | c in Chunks(b, size)))
    ensures Generate(H, a, size, now).chunkHashes == Generate(H, b, size, now).chunkHashes <==> a == b
    ensures |Generate(H, a, size, now).chunkHashes| == (|a| + size - 1) / size
  {
    hide MerkleRoot, Chunks, CollisionFree;
    var x, y := Chunks(a, size), Chunks(b, size);
    ChunkCount(a, size);
    if Leaves(H, x) == Leaves(H, y) {
      assert |x| == |y|;
      SameLeavesSameChunks(H, x, y);
      SameChunksSameContent(a, b, size);
    }
  }

  /** `n` divided by `size`, rounded up. */
  function CeilDiv(n: nat, size: nat): nat
    requires size > 0
  {
    (n + size - 1) / size
  }

  lemma CeilDivNext(n: nat, size: nat)
    requires size > 0
    ensures CeilDiv(0, size) == 0
    ensures 0 < n <= size ==> CeilDiv(n, size) == 1
    ensures n >= size ==> CeilDiv(n, size) == CeilDiv(n - size, size) + 1
  {
    EuclidUnique(size - 1, size, 0, size - 1);
    if 0 < n <= size { EuclidUnique(n + size - 1, size, 1, n - 1); }
    if n >= size {
      var q, r := (n - 1) / size, (n - 1) % size;
      var m := n - size + size - 1;
      assert m == size * q + r;
      EuclidUnique(m, size, q, r);
      assert size * (q + 1) == size * q + size;
      EuclidUnique(n + size - 1, size, q + 1, r);
    }
  }

  lemma {:induction false} ChunkCount(content: bytes, size: nat)
    requires size > 0
    ensures |Chunks(content, size)| == CeilDiv(|content|, size)
  {
    hide CeilDiv;
    CeilDivNext(|content|, size);
    if content != [] {
      ChunkCount(content[Min(size, |content|)..], size);
    }
  }

  // ------------------------------------------------- the code as it executes

  /** The leaf loop: an offset that moves by the chunk size. */
  method HashChunks(H: Hasher, content: bytes, size: nat) returns (leaves: seq<Hash>)
    requires size > 0
    ensures leaves == Leaves(H, Chunks(content, size))
  {
    hide Chunks;
    leaves := [];
    var offset := 0;
    ghost var done: seq<bytes> := [];
    assert content[0..] == content;
    while offset < |content|
      invariant offset <= |content|
      invariant Chunks(content, size) == done + Chunks(content[offset..], size)
      invariant leaves == Leaves(H, done)
      decreases |content| - offset
    {
      var length := Min(size, |content| - offset);
      var chunk := content[offset..offset + length];
      ChunksUnfold(content[offset..], size);
      assert content[offset..][..length] == chunk && content[offset..][length..] == content[offset + length..];
      leaves := leaves + [H(chunk)];
      done := done + [chunk];
      offset := offset + length;
    }
    assert content[offset..] == [];
    ChunksOfNothing(size);
    assert done + [] == done;
  }

  lemma ChunksUnfold(content: bytes, size: nat)
    requires size > 0 && content != []
    ensures Chunks(content, size) == [content[..Min(size, |content|)]] + Chunks(content[Min(size, |content|)..], size)
  {
  }

  lemma ChunksOfNothing(size: nat)
    requires size > 0
    ensures Chunks([], size) == []
  {
  }

  lemma ReduceUnfold(H: Hasher, level: seq<Hash>)
    ensures |level| > 1 ==> Reduce(H, level) == [H(Pair(level[0], level[1]))] + Reduce(H, level[2..])
    ensures |level| <= 1 ==> Reduce(H, level) == level
  {
  }

  /** The level loop: always ends, because every pass at least halves the level, rounding up. */
  method BuildMerkleTree(H: Hasher, content: bytes, size: nat) returns (root: Hash)
    requires size > 0
    ensures root == MerkleRoot(H, content, size)
  {
    hide Chunks, Leaves, Reduce;
    var level := HashChunks(H, content, size);
    while |level| > 1
      invariant Root(H, level) == MerkleRoot(H, content, size)
      decreases |level|
    {
      level := NextLevel(H, level);
    }
    return if level == [] then ZERO_HASH else level[0];
  }

  method NextLevel(H: Hasher, level: seq<Hash>) returns (next: seq<Hash>)
    ensures next == Reduce(H, level)
  {
    hide Pair, Reduce;
    next := [];
    var i := 0;
    assert level[0..] == level;
    while i < |level|
      invariant i <= |level| ==> Reduce(H, level) == next + Reduce(H, level[i..])
      invariant i > |level| ==> next == Reduce(H, level)
    {
      var rest := level[i..];
      ReduceUnfold(H, rest);
      if i + 1 < |level| {
        assert rest[2..] == level[i + 2..];
        next := next + [H(Pair(level[i], level[i + 1]))];
      } else {
        assert rest == [level[i]];
        next := next + [level[i]];
      }
      i := i + 2;
    }
    if i == |level| {
      assert level[i..] == [];
      ReduceUnfold(H, []);
    }
  }

  method VerifyMetadata(H: Hasher, content: bytes, m: Metadata) returns (ok: bool)
    ensures ok == Verifies(H, content, m)
  {
    if |content| != m.size { return false; }
    if H(content) != m.contentHash { return false; }
    var root := BuildMerkleTree(H, content, DEFAULT_CHUNK);
    return root == m.root;
  }

  method GenerateMetadata(H: Hasher, content: bytes, size: nat, now: Clock) returns (m: Metadata)
    requires size > 0
    ensures m == Generate(H, content, size, now)
  {
    var root := BuildMerkleTree(H, content, size);
    var hashes := HashChunks(H, content, size);
    m := Metadata(H(content), |content|, root, now, hashes);
  }
}
