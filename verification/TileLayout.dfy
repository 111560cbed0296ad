/** Where subtrees lie in tiles, and lists of ranges read one by one. */
module TileLayout {
  import opened Numbers
  import opened Merkle
  import opened LogProofs
  import opened LogSoundness
  import opened Subtrees
  import opened TileModel

  predicate RangesAligned(ranges: seq<Range>) {
    forall r <- ranges :: r.size > 0 && Aligned(r.start, r.size)
  }

  lemma ZeroAligned(size: u64)
    requires size > 0
    ensures Aligned(0, size)
  {
  }

  lemma RangesStart(H: Digest, D: Log, ranges: seq<Range>)
    ensures AllWithin(ranges[..0], 0, |D|) && TotalPieces(ranges[..0]) == 0
    ensures RangeRoots(H, D, ranges[..0]) == []
  {
  }

  lemma RangesPrefix(ranges: seq<Range>, i: nat, n: nat)
    requires AllWithin(ranges, 0, n) && i < |ranges|
    ensures AllWithin(ranges[..i], 0, n) && AllWithin(ranges[..i + 1], 0, n) && ranges[i].Within(0, n)
    ensures ranges[..i + 1] == ranges[..i] + [ranges[i]]
  {
  }

  lemma RangeRootsSnoc(H: Digest, D: Log, rs: seq<Range>, r: Range)
    requires AllWithin(rs, 0, |D|) && r.Within(0, |D|)
    ensures AllWithin(rs + [r], 0, |D|)
    ensures RangeRoots(H, D, rs + [r]) == RangeRoots(H, D, rs) + [Root(H, D, r.start, r.size)]
  {
    hide Root;
    RangeRootsPrefix(H, D, rs, r);
    var hs := RangeRoots(H, D, rs + [r]);
    assert (rs + [r])[|rs|] == r;
    assert hs[|rs|] == Root(H, D, r.start, r.size);
    assert hs == hs[..|rs|] + [hs[|rs|]];
  }

  lemma {:induction false} TotalPiecesGrow(ranges: seq<Range>, i: nat)
    requires i <= |ranges|
    ensures TotalPieces(ranges[..i]) <= TotalPieces(ranges)
    decreases |ranges| - i
  {
    if i < |ranges| {
      assert ranges[..i + 1] == ranges[..i] + [ranges[i]];
      TotalPiecesSnoc(ranges[..i], ranges[i]);
      TotalPiecesGrow(ranges, i + 1);
    } else {
      assert ranges[..i] == ranges;
    }
  }

  lemma RangesStep(H: Digest, D: Log, ranges: seq<Range>, i: nat)
    requires AllWithin(ranges, 0, |D|) && i < |ranges|
    ensures AllWithin(ranges[..i], 0, |D|) && AllWithin(ranges[..i + 1], 0, |D|)
    ensures 0 < ranges[i].size && ranges[i].start + ranges[i].size <= |D|
    ensures TotalPieces(ranges[..i + 1]) == TotalPieces(ranges[..i]) + Pieces(ranges[i].size)
    ensures TotalPieces(ranges[..i + 1]) <= TotalPieces(ranges)
    ensures RangeRoots(H, D, ranges[..i + 1])
         == RangeRoots(H, D, ranges[..i]) + [Root(H, D, ranges[i].start, ranges[i].size)]
  {
    hide Root, Pieces, RangeRoots, TotalPieces, AllWithin;
    RangesPrefix(ranges, i, |D|);
    RangeRootsSnoc(H, D, ranges[..i], ranges[i]);
    TotalPiecesSnoc(ranges[..i], ranges[i]);
    TotalPiecesGrow(ranges, i + 1);
  }

  lemma ConsistencyRangesFit(oldSize: u64, newSize: u64, treeSize: u64)
    requires oldSize <= newSize <= treeSize
    ensures
      var rs := ConsistencyRangesOf(oldSize, newSize);
      AllWithin(rs, 0, newSize) && AllWithin(rs, 0, treeSize) && RangesAligned(rs) && TotalPieces(rs) <= 128
  {
    hide Aligned, AllWithin, TotalPieces;
    WithinEmpty(newSize);
    TotalPiecesEmpty();
    if 0 < oldSize {
      ZeroAligned(newSize);
      ConsistencyAligned(oldSize, 0, newSize, true);
      if oldSize < newSize { ConsistencyPieces(oldSize, 0, newSize, true); }
    }
    Widen(ConsistencyRangesOf(oldSize, newSize), 0, newSize, treeSize);
  }

  lemma RootsOfPrefix(H: Digest, D: Log, n: nat, rs: seq<Range>)
    requires n <= |D| && AllWithin(rs, 0, n) && AllWithin(rs, 0, |D|)
    ensures AllWithin(rs, 0, |D[..n]|) && RangeRoots(H, D[..n], rs) == RangeRoots(H, D, rs)
  {
    hide Root;
    forall i | 0 <= i < |rs| ensures RangeRoots(H, D[..n], rs)[i] == RangeRoots(H, D, rs)[i] {
      assert rs[i].Within(0, n);
      RootOfExtension(H, D[..n], D, rs[i].start, rs[i].size);
    }
  }

  predicate Placed(start: u64, size: u64, treeSize: nat, level: nat, nodeIndex: nat, count: nat) {
    && size > 0 && level <= 7 && count > 0
    && count == Pow2(TrailingZeros(size) % 8)
    && size == Base(level) * count && IsPowerOfTwo(Base(level))
    && Located(start, treeSize, Base(level), count)
    && nodeIndex == start / Base(level)
  }

  /** The arithmetic of `perfect_root`: no subtraction underflows, the tile is a
      real one, and the width check cannot fail. */
  lemma Placement(start: u64, size: u64, treeSize: u64)
    requires IsPowerOfTwo(size) && start % size == 0 && start + size <= treeSize
    ensures
      var h := TrailingZeros(size);
      var level, count := h / 8, Pow2(h % 8);
      level <= 7 &&
      var node := Shr(start, 8 * level);
      var left := Shr(treeSize, 8 * level) - node / 256 * 256;
      && Placed(start, size, treeSize, level, node, count)
      && node % 256 + count <= left && node % 256 + count <= 256
      && Width(treeSize, level, node / 256) == if left < 256 then left else 256
  {
    Geometry(start, size, treeSize);
    var h := TrailingZeros(size);
    hide Pow2, IsPowerOfTwo, TrailingZeros;
    BaseFits(h / 8);
    assert Shr(start, 8 * (h / 8)) == start / Base(h / 8);
    assert Shr(treeSize, 8 * (h / 8)) == treeSize / Base(h / 8);
  }

  lemma LastBlock(H: Digest, D: Log, start: nat, unit: nat, nodes: seq<Hash>)
    requires Blocks(H, D, start, unit, nodes) && |nodes| == 1
    ensures 0 < unit < U64_LIMIT && start + unit <= |D| && nodes[0] == Root(H, D, start, unit)
  {
    hide Root;
    assert BlockAt(H, D, start, unit, 0, nodes[0]);
  }

  lemma FoldStep(u: nat, h: nat, n: nat, total: nat)
    requires n == Pow2(h) && n > 1 && IsPowerOfTwo(u) && u * n == total < U64_LIMIT
    ensures h > 0 && n / 2 == Pow2(h - 1) && IsPowerOfTwo(2 * u)
    ensures 2 * u * (n / 2) == total && 2 * u < U64_LIMIT
  {
    assert n == 2 * (n / 2);
    assert 2 * u / 2 == u;
    ProductAtLeast(n / 2, 2 * u);
    assert 2 * u * (n / 2) == u * n;
  }

  lemma TileNodeAt(H: Digest, D: Log, tile: seq<Hash>, level: nat, index: nat, at: nat)
    requires TileHolds(H, D, level, index, tile)
    requires at < Width(|D|, level, index) && at < |tile|
    ensures NodeIs(H, D, level, 256 * index + at, tile[at])
  {
    hide Base, Width, NodeIs;
  }

  lemma BlockRootIs(H: Digest, D: Log, b: u64, node: nat, j: nat, start: u64, hash: Hash)
    requires 0 < b && start == b as int * node && b as int * (node + j) + b <= |D|
    requires hash == BlockRoot(H, D, b, node + j)
    ensures BlockAt(H, D, start, b, j, hash)
  {
    hide Root;
    assert b as int * (node + j) == b as int * node + b as int * j;
  }

  lemma NodeIsBlock(H: Digest, D: Log, level: nat, node: nat, j: nat, start: u64, hash: Hash)
    requires level <= 7 && start == Base(level) * node
    requires NodeIs(H, D, level, node + j, hash)
    ensures BlockAt(H, D, start, Base(level), j, hash)
  {
    hide Base, BlockRoot, BlockAt;
    BaseFits(level);
    BlockRootIs(H, D, Base(level), node, j, start, hash);
  }

  /** The nodes of a tile from `node` on are the block roots from leaf `start` on. */
  lemma NodesAreBlocks(H: Digest, D: Log, tile: seq<Hash>, level: nat, node: nat, start: u64, count: nat)
    requires level <= 7 && start == Base(level) * node
    requires TileHolds(H, D, level, node / 256, tile)
    requires node % 256 + count <= Width(|D|, level, node / 256) <= |tile|
    ensures Blocks(H, D, start, Base(level), tile[node % 256..node % 256 + count])
  {
    hide Base, Width, BlockAt, NodeIs, TileHolds;
    var offset := node % 256;
    var nodes := tile[offset..offset + count];
    forall j | 0 <= j < count
      ensures BlockAt(H, D, start, Base(level), j, nodes[j])
    {
      TileNodeAt(H, D, tile, level, node / 256, offset + j);
      NodeIsBlock(H, D, level, node, j, start, nodes[j]);
    }
  }

  lemma TileReach(start: u64, size: u64, treeSize: nat, level: nat, node: nat, count: nat)
    requires Placed(start, size, treeSize, level, node, count)
    ensures node % 256 + count <= Width(treeSize, level, node / 256) && start == Base(level) * node
  {
    hide Pow2, IsPowerOfTwo;
  }
}
