/**
 Bytes, 32-byte digests and the little-endian integers that every wire format
 of the system is built from.  A hash function is a value of type `Hasher`:
 nothing is known about it except what a lemma assumes explicitly.
 */
module Bytes {

  datatype Option<+T> = None | Some(value: T)

  type byte = x: int | 0 <= x < 256
  type bytes = seq<byte>

  /**
   A fixed 32-byte array (digest, node id, public key, session key), represented
   by the number its bytes spell; `Bytes32` and `Read256` convert.
   */
  type Hash = x: int | 0 <= x < 0x1_0000000000000000_0000000000000000_0000000000000000_0000000000000000

  /** A fixed 64-byte array, as two halves. */
  datatype Signature = Signature(first: Hash, second: Hash)

  type Hasher = bytes -> Hash

  const ZERO_HASH: Hash := 0
  const TWO_16: nat := 0x1_0000
  const TWO_32: nat := 0x1_0000_0000
  const TWO_64: nat := 0x1_0000_0000_0000_0000

  const TWO_256: nat := 0x1_0000000000000000_0000000000000000_0000000000000000_0000000000000000

  type u32 = x: int | 0 <= x < 0x1_0000_0000
  type u64 = x: int | 0 <= x < 0x1_0000_0000_0000_0000

  /** A reading of the system clock in seconds: a non-negative signed 64-bit value. */
  type Clock = t: int | 0 <= t < 0x8000_0000_0000_0000

  /** No two different members of `xs` have the same digest. */
  ghost predicate CollisionFree(H: Hasher, xs: set<bytes>) {
    forall x, y :: x in xs && y in xs && H(x) == H(y) ==> x == y
  }

  /** Unsigned 64-bit subtraction. */
  function SubU64(a: u64, b: u64): (r: u64)
    ensures b <= a ==> r == a - b
    ensures a < b ==> r == TWO_64 + a - b
  {
    (a - b) % TWO_64
  }

  function Pow256(n: nat): (p: nat)
    ensures p > 0
  {
    if n == 0 then 1 else 256 * Pow256(n - 1)
  }

  lemma Pow256Values()
    ensures Pow256(2) == TWO_16 && Pow256(4) == TWO_32 && Pow256(8) == TWO_64
  {
    assert Pow256(2) == 256 * Pow256(1) == 65536;
    assert Pow256(4) == 256 * Pow256(3) == 65536 * Pow256(2);
    assert Pow256(6) == 256 * Pow256(5) == 65536 * Pow256(4);
    assert Pow256(8) == 256 * Pow256(7) == 65536 * Pow256(6);
  }

  lemma {:induction false} Pow256Add(m: nat, n: nat)
    ensures Pow256(m + n) == Pow256(m) * Pow256(n)
  {
    if m != 0 {
      Pow256Add(m - 1, n);
      assert 256 * (Pow256(m - 1) * Pow256(n)) == (256 * Pow256(m - 1)) * Pow256(n);
    }
  }

  lemma Pow256Of32()
    ensures Pow256(32) == TWO_256
  {
    hide Pow256;
    Pow256Values();
    Pow256Add(8, 8);
    Pow256Add(16, 16);
  }

  /** The low `n` bytes of `v`, least significant first; higher bytes are cut off. */
  function ToLe(v: nat, n: nat): (s: bytes)
    ensures |s| == n
  {
    if n == 0 then [] else [v % 256] + ToLe(v / 256, n - 1)
  }

  function FromLe(s: bytes): (v: nat)
  {
    if s == [] then 0 else s[0] + 256 * FromLe(s[1..])
  }

  lemma ModSplit(v: nat, p: nat)
    requires p > 0
    ensures v % (256 * p) == v % 256 + 256 * ((v / 256) % p)
  {
    var q, r := v / 256, v % 256;
    var a, b := q / p, q % p;
    assert q == a * p + b;
    assert v == 256 * (a * p + b) + r == (256 * p) * a + (256 * b + r) by {
      assert 256 * (a * p) == (256 * p) * a;
    }
    assert 256 * b + r < 256 * p;
    EuclidUnique(v, 256 * p, a, 256 * b + r);
  }

  lemma EuclidUnique(v: int, d: int, q: int, r: int)
    requires d > 0 && v == d * q + r && 0 <= r < d
    ensures v % d == r && v / d == q
  {
    var k := q - v / d;
    assert d * k == v % d - r by {
      assert v == d * (v / d) + v % d;
      assert d * k == d * q - d * (v / d);
    }
    if k > 0 { MulAtLeast(d, k); }
    if k < 0 { MulAtLeast(d, -k); }
  }

  lemma {:induction false} MulAtLeast(d: int, k: int)
    requires d > 0 && k > 0
    ensures d * k >= d
    decreases k
  {
    if k > 1 {
      MulAtLeast(d, k - 1);
      assert d * k == d * (k - 1) + d;
    }
  }

  /** Decoding an encoding gives the value back, reduced modulo 256^n. */
  lemma {:induction false} FromToLe(v: nat, n: nat)
    ensures FromLe(ToLe(v, n)) == v % Pow256(n)
  {
    if n != 0 {
      FromToLe(v / 256, n - 1);
      assert ToLe(v, n)[1..] == ToLe(v / 256, n - 1);
      ModSplit(v, Pow256(n - 1));
    }
  }

  lemma {:induction false} ToFromLe(s: bytes)
    ensures FromLe(s) < Pow256(|s|)
    ensures ToLe(FromLe(s), |s|) == s
  {
    if s != [] {
      ToFromLe(s[1..]);
      assert s == [s[0]] + s[1..];
    }
  }

  lemma Le16(v: nat)
    requires v < TWO_16
    ensures FromLe(ToLe(v, 2)) == v
  {
    FromToLe(v, 2);
    Pow256Values();
  }

  lemma Le32(v: nat)
    ensures FromLe(ToLe(v, 4)) == v % TWO_32
  {
    FromToLe(v, 4);
    Pow256Values();
  }

  lemma Le64(v: nat)
    ensures FromLe(ToLe(v, 8)) == v % TWO_64
  {
    FromToLe(v, 8);
    Pow256Values();
  }

  lemma FromLeBound(s: bytes)
    ensures FromLe(s) < Pow256(|s|)
    ensures |s| == 2 ==> FromLe(s) < TWO_16
    ensures |s| == 4 ==> FromLe(s) < TWO_32
    ensures |s| == 8 ==> FromLe(s) < TWO_64
  {
    ToFromLe(s);
    Pow256Values();
  }

  lemma {:induction false} FromLeSnoc(s: bytes, b: byte)
    ensures FromLe(s + [b]) == FromLe(s) + b * Pow256(|s|)
  {
    if s == [] {
      assert s + [b] == [b];
    } else {
      FromLeSnoc(s[1..], b);
      assert (s + [b])[1..] == s[1..] + [b];
      assert 256 * (b * Pow256(|s| - 1)) == b * Pow256(|s|);
    }
  }

  function Bytes32(h: Hash): (s: bytes)
    ensures |s| == 32
  {
    ToLe(h, 32)
  }

  function Bytes64(g: Signature): (s: bytes)
    ensures |s| == 64
  {
    Bytes32(g.first) + Bytes32(g.second)
  }

  function Read256(s: bytes, offset: nat): (h: Hash)
    requires offset + 32 <= |s|
  {
    ToFromLe(s[offset..offset + 32]);
    Pow256Of32();
    FromLe(s[offset..offset + 32])
  }

  function ReadSignature(s: bytes, offset: nat): (g: Signature)
    requires offset + 64 <= |s|
  {
    Signature(Read256(s, offset), Read256(s, offset + 32))
  }

  lemma Le256(h: Hash)
    ensures FromLe(Bytes32(h)) == h
  {
    hide ToLe, FromLe, Pow256;
    FromToLe(h, 32);
    Pow256Of32();
  }

  lemma Read256At(s: bytes, offset: nat, h: Hash)
    requires offset + 32 <= |s| && s[offset..offset + 32] == Bytes32(h)
    ensures Read256(s, offset) == h
  {
    hide Bytes32, FromLe;
    Le256(h);
  }

  lemma Bytes32Injective(a: Hash, b: Hash)
    requires Bytes32(a) == Bytes32(b)
    ensures a == b
  {
    hide Bytes32, FromLe;
    Le256(a);
    Le256(b);
  }

  lemma ReadSignatureAt(s: bytes, offset: nat, g: Signature)
    requires offset + 64 <= |s| && s[offset..offset + 64] == Bytes64(g)
    ensures ReadSignature(s, offset) == g
  {
    assert s[offset..offset + 32] == s[offset..offset + 64][..32] == Bytes32(g.first);
    assert s[offset + 32..offset + 64] == s[offset..offset + 64][32..] == Bytes32(g.second);
    Read256At(s, offset, g.first);
    Read256At(s, offset + 32, g.second);
  }

  function Read16(s: bytes, offset: nat): (v: nat)
    requires offset + 2 <= |s|
    ensures v < TWO_16
  {
    FromLeBound(s[offset..offset + 2]);
    FromLe(s[offset..offset + 2])
  }

  function Read32(s: bytes, offset: nat): (v: u32)
    requires offset + 4 <= |s|
  {
    FromLeBound(s[offset..offset + 4]);
    FromLe(s[offset..offset + 4])
  }

  function Read64(s: bytes, offset: nat): (v: u64)
    requires offset + 8 <= |s|
  {
    FromLeBound(s[offset..offset + 8]);
    FromLe(s[offset..offset + 8])
  }

  lemma Read64At(s: bytes, offset: nat, v: u64)
    requires offset + 8 <= |s| && s[offset..offset + 8] == ToLe(v, 8)
    ensures Read64(s, offset) == v
  {
    Le64(v);
  }

  lemma Read32At(s: bytes, offset: nat, v: nat)
    requires offset + 4 <= |s| && s[offset..offset + 4] == ToLe(v, 4)
    ensures Read32(s, offset) == v % TWO_32
  {
    Le32(v);
  }

  lemma WritesBack256(s: bytes, at: nat)
    requires at + 32 <= |s|
    ensures Bytes32(Read256(s, at)) == s[at..at + 32]
  {
    ToFromLe(s[at..at + 32]);
  }

  lemma WritesBack64(s: bytes, at: nat)
    requires at + 8 <= |s|
    ensures ToLe(Read64(s, at), 8) == s[at..at + 8]
  {
    ToFromLe(s[at..at + 8]);
  }

  lemma WritesBack32(s: bytes, at: nat)
    requires at + 4 <= |s|
    ensures ToLe(Read32(s, at), 4) == s[at..at + 4]
  {
    ToFromLe(s[at..at + 4]);
  }

  lemma WritesBack16(s: bytes, at: nat)
    requires at + 2 <= |s|
    ensures ToLe(Read16(s, at), 2) == s[at..at + 2]
  {
    ToFromLe(s[at..at + 2]);
  }

  lemma WritesBackSignature(s: bytes, at: nat)
    requires at + 64 <= |s|
    ensures Bytes64(ReadSignature(s, at)) == s[at..at + 64]
  {
    hide Read256, Bytes32;
    WritesBack256(s, at);
    WritesBack256(s, at + 32);
    assert s[at..at + 64] == s[at..at + 32] + s[at + 32..at + 64];
  }

  lemma Read16At(s: bytes, at: nat, v: nat)
    requires v < TWO_16 && at + 2 <= |s| && s[at..at + 2] == ToLe(v, 2)
    ensures Read16(s, at) == v
  {
    hide ToLe, FromLe;
    Le16(v);
  }

  /** The shift-and-push loop that all encoders share. */
  method AppendLe(out: bytes, v: nat, n: nat) returns (r: bytes)
    ensures r == out + ToLe(v, n)
  {
    r := out;
    var rest := v;
    for i := 0 to n
      invariant r + ToLe(rest, n - i) == out + ToLe(v, n)
    {
      ghost var before := r;
      assert ToLe(rest, n - i) == [rest % 256] + ToLe(rest / 256, n - i - 1);
      r := r + [rest % 256];
      assert before + ([rest % 256] + ToLe(rest / 256, n - i - 1)) == r + ToLe(rest / 256, n - i - 1);
      rest := rest / 256;
    }
  }

  /** The or-and-shift loop that all decoders share; each byte lands on bits still zero, so `|` is `+`. */
  method ReadLe(s: bytes, offset: nat, n: nat) returns (v: nat)
    requires offset + n <= |s|
    ensures v == FromLe(s[offset..offset + n])
  {
    v := 0;
    var weight: nat := 1;
    for i := 0 to n
      invariant weight == Pow256(i)
      invariant v == FromLe(s[offset..offset + i])
    {
      FromLeSnoc(s[offset..offset + i], s[offset + i]);
      assert s[offset..offset + i + 1] == s[offset..offset + i] + [s[offset + i]];
      v := v + s[offset + i] * weight;
      weight := weight * 256;
    }
  }

  // ------------------------------------------------------------ byte order

  /** The order of byte strings and of fixed arrays as map keys: bytewise, a proper prefix first. */
  predicate Less(a: bytes, b: bytes) {
    if b == [] then false
    else if a == [] then true
    else if a[0] != b[0] then a[0] < b[0]
    else Less(a[1..], b[1..])
  }

  lemma {:induction false} LessIrreflexive(a: bytes)
    ensures !Less(a, a)
  {
    if a != [] { LessIrreflexive(a[1..]); }
  }

  lemma {:induction false} LessTransitive(a: bytes, b: bytes, c: bytes)
    requires Less(a, b) && Less(b, c)
    ensures Less(a, c)
  {
    if a != [] && a[0] == b[0] == c[0] { LessTransitive(a[1..], b[1..], c[1..]); }
  }

  lemma {:induction false} LessTotal(a: bytes, b: bytes)
    ensures a == b || Less(a, b) || Less(b, a)
  {
    if a != [] && b != [] && a[0] == b[0] {
      LessTotal(a[1..], b[1..]);
      assert a == [a[0]] + a[1..] && b == [b[0]] + b[1..];
    }
  }
}
