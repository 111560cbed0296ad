/** The Merkle tree hash of RFC 6962 section 2.1, over an arbitrary digest. */
module Merkle {
  import opened Numbers

  type Bytes = seq<byte>
  type Hash = h: Bytes | |h| == 32 witness seq(32, _ => 0)
  /** Nothing is assumed about the digest `H`. Soundness results therefore never say "no
      collision exists": they name a function that computes two distinct preimages of
      one digest from the data at hand. */
  type Digest = Bytes -> Hash
  type Log = seq<Bytes>

  const MAX_PROOF_NODES: nat := 65
  const MAX_INCLUSION_NODES: nat := 64

  function EmptyRoot(H: Digest): Hash { H([]) }

  function LeafPreimage(entry: Bytes): Bytes { [0] + entry }

  function NodePreimage(left: Hash, right: Hash): Bytes { [1] + left + right }

  function LeafHash(H: Digest, entry: Bytes): Hash { H(LeafPreimage(entry)) }

  function NodeHash(H: Digest, left: Hash, right: Hash): Hash { H(NodePreimage(left, right)) }

  /** Two distinct inputs that the digest does not tell apart. */
  datatype Collision = Collision(x: Bytes, y: Bytes) {
    predicate Breaks(H: Digest) { x != y && H(x) == H(y) }
  }

  lemma NodePreimageInjective(a: Hash, b: Hash, c: Hash, d: Hash)
    requires NodePreimage(a, b) == NodePreimage(c, d)
    ensures a == c && b == d
  {
    assert a == NodePreimage(a, b)[1..33] && c == NodePreimage(c, d)[1..33];
    assert b == NodePreimage(a, b)[33..] && d == NodePreimage(c, d)[33..];
  }

  lemma LeafPreimageInjective(a: Bytes, b: Bytes)
    requires LeafPreimage(a) == LeafPreimage(b)
    ensures a == b
  {
    assert a == LeafPreimage(a)[1..] && b == LeafPreimage(b)[1..];
  }

  /** MTH(D), word for word as section 2.1 of RFC 6962 gives it. */
  function MTH(H: Digest, D: Log): Hash
    requires |D| < U64_LIMIT
  {
    if |D| == 0 then EmptyRoot(H)
    else if |D| == 1 then LeafHash(H, D[0])
    else
      var k := Split(|D|);
      NodeHash(H, MTH(H, D[..k]), MTH(H, D[k..]))
  }

  /** MTH of the leaves `start .. start + size`, without building slices. */
  function Root(H: Digest, D: Log, start: nat, size: u64): Hash
    requires 0 < size && start + size <= |D|
    decreases size
  {
    if size == 1 then LeafHash(H, D[start])
    else
      var k := Split(size);
      NodeHash(H, Root(H, D, start, k), Root(H, D, start + k, size - k))
  }

  lemma RootSplit(H: Digest, D: Log, start: nat, size: u64)
    requires size > 1 && start + size <= |D|
    ensures
      var k := Split(size);
      Root(H, D, start, size) == NodeHash(H, Root(H, D, start, k), Root(H, D, start + k, size - k))
  {
    hide Split, NodeHash;
  }

  lemma MTHSplit(H: Digest, D: Log)
    requires 1 < |D| < U64_LIMIT
    ensures
      var k := Split(|D|);
      MTH(H, D) == NodeHash(H, MTH(H, D[..k]), MTH(H, D[k..]))
  {
    hide Split, NodeHash;
  }

  lemma SliceSplit(D: Log, start: nat, size: nat, k: nat)
    requires k <= size && start + size <= |D|
    ensures D[start..start + size][..k] == D[start..start + k]
    ensures D[start..start + size][k..] == D[start + k..start + k + (size - k)]
  {
  }

  lemma {:induction false} RootIsMTH(H: Digest, D: Log, start: nat, size: u64)
    requires 0 < size && start + size <= |D|
    ensures Root(H, D, start, size) == MTH(H, D[start..start + size])
    decreases size
  {
    if size > 1 {
      hide Split, IsPowerOfTwo, NodeHash, Root, MTH;
      var k := Split(size);
      RootSplit(H, D, start, size);
      MTHSplit(H, D[start..start + size]);
      SliceSplit(D, start, size, k);
      RootIsMTH(H, D, start, k);
      RootIsMTH(H, D, start + k, size - k);
    }
  }

  lemma RootIsWhole(H: Digest, D: Log)
    requires 0 < |D| < U64_LIMIT
    ensures Root(H, D, 0, |D|) == MTH(H, D)
  {
    RootIsMTH(H, D, 0, |D|);
    assert D[0..|D|] == D;
  }

  /** A subtree hash reads only its own leaves. */
  lemma {:induction false} RootOfExtension(H: Digest, D: Log, E: Log, start: nat, size: u64)
    requires D <= E && 0 < size && start + size <= |D|
    ensures Root(H, D, start, size) == Root(H, E, start, size)
    decreases size
  {
    hide Split;
    if size > 1 {
      var k := Split(size);
      RootOfExtension(H, D, E, start, k);
      RootOfExtension(H, D, E, start + k, size - k);
    }
  }
}
