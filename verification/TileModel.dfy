/** C2SP tlog-tiles: what a hash tile holds, what a source may answer, and the
    arithmetic that locates a perfect subtree inside a tile.

    A source may answer anything. Two assumptions are named and never built in: that
    it is faithful, so every well-sized body is a tile of this log or of an extension
    of it, and that it serves, so every tile of the tree can be fetched. */
module TileModel {
  import opened Numbers
  import opened Merkle
  import opened TilePaths
  import opened Subtrees

  const TILE_BYTES: nat := 256 * 32

  /** A source's answer to one request: a body, not found, or a failure. */
  datatype Fetch = Body(bytes: Bytes) | Missing | Failed

  /** Answers may depend on how many requests came before. */
  type TileSource = (string, nat) -> Fetch

  /** Leaves under one node of a tile level. */
  function Base(level: nat): (b: nat)
    ensures b > 0
  {
    Pow2(8 * level)
  }

  lemma {:induction false} ProductAtLeast(p: nat, q: nat)
    requires p > 0
    ensures p * q >= q
    decreases p
  {
    if p > 1 {
      ProductAtLeast(p - 1, q);
      assert p * q == (p - 1) * q + q;
    }
  }

  lemma QuotientFits(x: nat, p: nat)
    requires p > 0
    ensures x / p <= x
  {
    var q, r := x / p, x % p;
    assert x == p * q + r;
    ProductAtLeast(p, q);
  }

  function Quotient(x: nat, p: nat): (q: nat)
    requires p > 0
    ensures q <= x
  {
    QuotientFits(x, p);
    x / p
  }

  /** `x >> n` */
  function Shr(x: u64, n: nat): u64
    requires n < 64
  {
    Quotient(x, Pow2(n))
  }

  /** How many nodes of tile `index` are complete in a tree of this size. */
  function Width(treeSize: nat, level: nat, index: nat): int {
    var left := treeSize / Base(level) - 256 * index;
    if left < 256 then left else 256
  }

  predicate NodeInside(D: Log, level: nat, node: nat) { level <= 7 && Base(level) * node + Base(level) <= |D| }

  /** The root of block `node` among blocks of `b` leaves. */
  function BlockRoot(H: Digest, D: Log, b: u64, node: nat): Hash
    requires 0 < b && b as int * node + b <= |D|
  {
    Root(H, D, b as int * node, b)
  }

  lemma BaseFits(level: nat)
    requires level <= 7
    ensures Base(level) < U64_LIMIT && IsPowerOfTwo(Base(level))
  {
    Pow2At64();
    Pow2Monotone(8 * level, 63);
    Pow2IsPowerOfTwo(8 * level);
  }

  /** Node `node` of a tile level: the root of its block of leaves. */
  function TileNode(H: Digest, D: Log, level: nat, node: nat): Hash
    requires NodeInside(D, level, node)
  {
    BaseFits(level);
    BlockRoot(H, D, Base(level), node)
  }

  predicate NodeIs(H: Digest, D: Log, level: nat, node: nat, hash: Hash) {
    NodeInside(D, level, node) && hash == TileNode(H, D, level, node)
  }

  function Chunk(bytes: Bytes, j: nat): Hash
    requires 32 * j + 32 <= |bytes|
  {
    bytes[32 * j..32 * j + 32]
  }

  /** `as_chunks::<32>().0` */
  function Hashes(bytes: Bytes): (hs: seq<Hash>)
    ensures |hs| == |bytes| / 32
    ensures forall j :: 0 <= j < |hs| ==> hs[j] == Chunk(bytes, j)
  {
    seq(|bytes| / 32, j requires 0 <= j < |bytes| / 32 => Chunk(bytes, j))
  }

  /** `bytes` is the tile of `width` nodes that a log with leaves `E` publishes. */
  predicate HoldsTile(H: Digest, E: Log, level: nat, index: nat, width: nat, bytes: Bytes) {
    && |bytes| == 32 * width
    && forall j :: 0 <= j < width ==> NodeIs(H, E, level, 256 * index + j, Chunk(bytes, j))
  }

  /** Every well-sized body is a tile of `D` or of some later extension of it. */
  ghost predicate Faithful(H: Digest, D: Log, source: TileSource) {
    forall level: nat, index: nat, width: nat, t: nat ::
      level <= 7 && ValidCoordinates(level, width) ==>
        var f := source(TilePath(level, index, width), t);
        f.Body? && |f.bytes| == 32 * width ==>
          exists E: Log :: D <= E && HoldsTile(H, E, level, index, width, f.bytes)
  }

  predicate Answers(f: Fetch, width: nat) { f.Body? && |f.bytes| == 32 * width }

  /** Every tile of the tree is available, as itself or, once removed, as a full tile. */
  ghost predicate Serving(treeSize: nat, source: TileSource) {
    forall level: nat, index: nat, t: nat ::
      level <= 7 && Width(treeSize, level, index) > 0 ==>
        var w := Width(treeSize, level, index);
        || Answers(source(TilePath(level, index, w), t), w)
        || (&& w < 256
            && source(TilePath(level, index, w), t) == Missing
            && Answers(source(TilePath(level, index, 256), t + 1), 256))
  }

  /** The nodes of a tile that the tree itself has completed. */
  predicate TileHolds(H: Digest, D: Log, level: nat, index: nat, hashes: seq<Hash>) {
    forall j :: 0 <= j < Width(|D|, level, index) && j < |hashes| ==>
      NodeIs(H, D, level, 256 * index + j, hashes[j])
  }

  lemma MultipleBelow(x: nat, b: nat, n: nat)
    requires b > 0 && n <= x / b
    ensures b * n <= x
  {
    assert b * (x / b) <= x;
    assert b * n <= b * (x / b);
  }

  lemma WidthInside(D: Log, level: nat, index: nat, j: nat)
    requires level <= 7 && j < Width(|D|, level, index)
    ensures NodeInside(D, level, 256 * index + j)
  {
    hide Pow2;
    var b, n := Base(level), 256 * index + j;
    MultipleBelow(|D|, b, n + 1);
    assert b * (n + 1) == b * n + b;
  }

  lemma BlockOfExtension(H: Digest, D: Log, E: Log, b: u64, node: nat)
    requires D <= E && 0 < b && b as int * node + b <= |D|
    ensures BlockRoot(H, E, b, node) == BlockRoot(H, D, b, node)
  {
    RootOfExtension(H, D, E, b as int * node, b);
  }

  lemma NodeOfExtension(H: Digest, D: Log, E: Log, level: nat, node: nat)
    requires D <= E && NodeInside(D, level, node)
    ensures NodeInside(E, level, node) && TileNode(H, E, level, node) == TileNode(H, D, level, node)
  {
    hide Base, BlockRoot;
    BaseFits(level);
    BlockOfExtension(H, D, E, Base(level), node);
  }

  lemma TileOfExtension(H: Digest, D: Log, E: Log, level: nat, index: nat, width: nat, bytes: Bytes)
    requires D <= E && level <= 7 && HoldsTile(H, E, level, index, width, bytes)
    ensures TileHolds(H, D, level, index, Hashes(bytes))
  {
    hide TileNode, Width, NodeInside;
    var hashes := Hashes(bytes);
    forall j | 0 <= j < Width(|D|, level, index) && j < |hashes|
      ensures NodeIs(H, D, level, 256 * index + j, hashes[j])
    {
      WidthInside(D, level, index, j);
      NodeOfExtension(H, D, E, level, 256 * index + j);
      assert NodeIs(H, E, level, 256 * index + j, Chunk(bytes, j));
    }
  }

  /** What a faithful source returned describes the tree, as far as the tree goes. */
  lemma FaithfulTile(H: Digest, D: Log, source: TileSource, level: nat, index: nat, width: nat, t: nat)
    requires Faithful(H, D, source) && level <= 7 && ValidCoordinates(level, width)
    requires Answers(source(TilePath(level, index, width), t), width)
    ensures TileHolds(H, D, level, index, Hashes(source(TilePath(level, index, width), t).bytes))
  {
    hide TilePath, HoldsTile, TileHolds, Hashes;
    var f := source(TilePath(level, index, width), t);
    assert exists E: Log :: D <= E && HoldsTile(H, E, level, index, width, f.bytes);
    var E: Log :| D <= E && HoldsTile(H, E, level, index, width, f.bytes);
    TileOfExtension(H, D, E, level, index, width, f.bytes);
  }

  /** A height in whole tile levels and a rest. */
  lemma HeightParts(l: nat, r: nat)
    requires r < 8
    ensures Pow2(r) <= 128 && Pow2(8 * l + r) == Base(l) * Pow2(r) && 256 == Pow2(r) * Pow2(8 - r)
  {
    hide Pow2;
    Pow2At64();
    Pow2Add(8 * l, r);
    Pow2Monotone(r, 7);
    Pow2Add(r, 8 - r);
  }

  lemma HeightFits(size: u64)
    requires IsPowerOfTwo(size)
    ensures
      var h := TrailingZeros(size);
      && h <= 63 && Pow2(h % 8) <= 128
      && size == Base(h / 8) * Pow2(h % 8)
      && 256 == Pow2(h % 8) * Pow2(8 - h % 8)
  {
    PowerOfTwoForm(size);
    hide Pow2, IsPowerOfTwo, TrailingZeros;
    var h := TrailingZeros(size);
    Pow2At64();
    if h >= 64 { Pow2Monotone(64, h); }
    assert 8 * (h / 8) + h % 8 == h;
    hide Base;
    HeightParts(h / 8, h % 8);
  }

  lemma QuotientAtLeast(x: nat, b: nat, n: nat)
    requires b > 0 && b * n <= x
    ensures n <= x / b
  {
    var q := x / b;
    assert x < b * (q + 1);
    ProductGrows(b, n - q - 1);
    assert b * (n - q - 1) == b * n - b * (q + 1);
  }

  lemma Multiples(start: nat, size: nat, treeSize: nat, b: nat, c: nat)
    requires b > 0 && c > 0 && size == b * c && start % size == 0 && start + size <= treeSize
    ensures start == b * (start / b) && (start / b) % c == 0 && start / b + c <= treeSize / b
  {
    var m := start / size;
    assert start == b * c * m;
    assert start == b * (c * m);
    MultipleMod(b, c * m);
    MultipleMod(c, m);
    assert b * (c * m + c) == start + size;
    QuotientAtLeast(treeSize, b, c * m + c);
  }

  /** An aligned run of `c` nodes does not cross a tile boundary. */
  lemma RunInBlock(q: nat, c: nat, m: nat)
    requires c > 0 && m > 0 && q % c == 0
    ensures q % (c * m) + c <= c * m
  {
    var a, d := q / c, q / (c * m);
    var r := a - m * d;
    assert q == c * a;
    assert c * r == q - c * m * d;
    assert q == (c * m) * d + q % (c * m);
    assert c * r == q % (c * m) < c * m;
    ProductGrows(c, r - m);
    assert c * (r - m) == c * r - c * m;
    assert r < m;
    ProductGrows(c, m - r);
    assert c * (m - r) == c * m - c * r;
  }

  /** A run of `c` blocks of `b` leaves from leaf `start`, in one tile and inside the tree. */
  predicate Located(start: nat, treeSize: nat, b: nat, c: nat)
    requires b > 0 && c > 0
  {
    var node := start / b;
    && start == b * node
    && node + c <= treeSize / b
    && node % 256 + c <= 256
    && node == 256 * (node / 256) + node % 256
  }

  lemma LocatedNat(start: nat, size: nat, treeSize: nat, b: nat, c: nat, m: nat)
    requires b > 0 && c > 0 && m > 0 && size == b * c && c * m == 256
    requires start % size == 0 && start + size <= treeSize
    ensures Located(start, treeSize, b, c)
  {
    Multiples(start, size, treeSize, b, c);
    RunInBlock(start / b, c, m);
  }

  /** Where a perfect subtree lies: its tile level, node index and node count. */
  lemma Geometry(start: u64, size: u64, treeSize: u64)
    requires IsPowerOfTwo(size) && start % size == 0 && start + size <= treeSize
    ensures
      var h := TrailingZeros(size);
      var b, c := Base(h / 8), Pow2(h % 8);
      && h <= 63 && c <= 128 && size == b * c
      && Located(start, treeSize, b, c)
  {
    hide Pow2, IsPowerOfTwo, TrailingZeros, Located, Base;
    HeightFits(size);
    var h := TrailingZeros(size);
    LocatedNat(start, size, treeSize, Base(h / 8), Pow2(h % 8), Pow2(8 - h % 8));
  }

  /** `as_chunks::<2>()` mapped over `node_hash`. */
  function PairUp(H: Digest, nodes: seq<Hash>): (r: seq<Hash>)
    ensures |r| == |nodes| / 2
    ensures forall j :: 0 <= j < |r| ==> r[j] == NodeHash(H, nodes[2 * j], nodes[2 * j + 1])
  {
    seq(|nodes| / 2, j requires 0 <= j < |nodes| / 2 => NodeHash(H, nodes[2 * j], nodes[2 * j + 1]))
  }

  predicate BlockAt(H: Digest, D: Log, start: nat, unit: nat, j: nat, node: Hash) {
    0 < unit < U64_LIMIT && start + unit * j + unit <= |D| && node == Root(H, D, start + unit * j, unit)
  }

  /** `nodes` are the roots of consecutive blocks of `unit` leaves from `start`. */
  predicate Blocks(H: Digest, D: Log, start: nat, unit: nat, nodes: seq<Hash>) {
    forall j :: 0 <= j < |nodes| ==> BlockAt(H, D, start, unit, j, nodes[j])
  }

  lemma PairPositions(start: nat, unit: nat, j: nat)
    ensures start + unit * (2 * j) == start + 2 * unit * j
    ensures start + unit * (2 * j + 1) == start + 2 * unit * j + unit
  {
  }

  lemma RootOfPair(H: Digest, D: Log, at: nat, unit: nat)
    requires IsPowerOfTwo(unit) && 2 * unit < U64_LIMIT && at + 2 * unit <= |D|
    ensures Root(H, D, at, 2 * unit) == NodeHash(H, Root(H, D, at, unit), Root(H, D, at + unit, unit))
  {
    hide NodeHash;
    assert 2 * unit / 2 == unit;
    SplitOfPowerOfTwo(2 * unit);
  }

  lemma PairedNodes(H: Digest, D: Log, start: nat, unit: nat, j: nat, left: Hash, right: Hash)
    requires IsPowerOfTwo(unit) && 2 * unit < U64_LIMIT
    requires BlockAt(H, D, start, unit, 2 * j, left) && BlockAt(H, D, start, unit, 2 * j + 1, right)
    ensures BlockAt(H, D, start, 2 * unit, j, NodeHash(H, left, right))
  {
    hide Root, NodeHash, IsPowerOfTwo;
    PairPositions(start, unit, j);
    RootOfPair(H, D, start + 2 * unit * j, unit);
  }

  lemma PairedAt(H: Digest, D: Log, start: nat, unit: nat, nodes: seq<Hash>, j: nat)
    requires IsPowerOfTwo(unit) && 2 * unit < U64_LIMIT && j < |nodes| / 2
    requires Blocks(H, D, start, unit, nodes)
    ensures BlockAt(H, D, start, 2 * unit, j, NodeHash(H, nodes[2 * j], nodes[2 * j + 1]))
  {
    var left, right := nodes[2 * j], nodes[2 * j + 1];
    assert BlockAt(H, D, start, unit, 2 * j, left);
    assert BlockAt(H, D, start, unit, 2 * j + 1, right);
    PairedNodes(H, D, start, unit, j, left, right);
  }

  /** Pairing blocks of `unit` leaves gives blocks of twice as many. */
  lemma PairedBlocks(H: Digest, D: Log, start: nat, unit: nat, nodes: seq<Hash>)
    requires IsPowerOfTwo(unit) && 2 * unit < U64_LIMIT
    requires Blocks(H, D, start, unit, nodes)
    ensures Blocks(H, D, start, 2 * unit, PairUp(H, nodes))
  {
    assert unit > 0;
    hide Root, NodeHash, IsPowerOfTwo;
    var pairs := PairUp(H, nodes);
    forall j | 0 <= j < |pairs|
      ensures BlockAt(H, D, start, 2 * unit, j, pairs[j])
    {
      PairedAt(H, D, start, unit, nodes, j);
    }
  }
}
