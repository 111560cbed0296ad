/** `TileReader` of `publication/tiles.rs`: subtree hashes computed from cached
    tiles by a two-stack machine, and the proofs assembled from them. */
module TileReading {
  import opened Numbers
  import opened Outcome
  import opened Merkle
  import opened LogProofs
  import opened LogSoundness
  import opened Subtrees
  import opened TilePaths
  import opened TileModel
  import opened TileStack
  import opened TileLayout

  const MAX_TILES: nat := 512

  class TileReader {
    const H: Digest
    const source: TileSource
    /** Must come from an authenticated checkpoint. */
    const treeSize: u64
    var requests: nat
    var cache: map<(nat, u64), seq<Hash>>

    constructor (H: Digest, source: TileSource, authenticatedTreeSize: u64)
      ensures this.H == H && this.source == source && treeSize == authenticatedTreeSize
      ensures cache == map[] && Valid()
    {
      this.H, this.source, treeSize := H, source, authenticatedTreeSize;
      requests, cache := 0, map[];
    }

    /** Each cached tile reaches as far as the authenticated tree does. */
    ghost predicate Valid()
      reads this
    {
      forall key <- cache :: key.0 <= 7 && Width(treeSize, key.0, key.1) <= |cache[key]|
    }

    /** Within the authenticated width, cached tiles are those of `D`. */
    ghost predicate CacheHolds(D: Log)
      reads this
    {
      forall key <- cache :: TileHolds(H, D, key.0, key.1, cache[key])
    }

    /** Fetches a tile, falling back to the full tile when a partial one is gone. */
    method FetchTile(level: nat, index: u64, width: nat, ghost D: Log) returns (hashes: Result<seq<Hash>>)
      requires level <= 7 && 1 <= width <= 256 && |D| == treeSize
      modifies this`requests
      ensures hashes.Ok? ==> width <= |hashes.value|
      ensures hashes.Ok? && Faithful(H, D, source) ==> TileHolds(H, D, level, index, hashes.value)
      ensures width == Width(treeSize, level, index) && Serving(treeSize, source) ==> hashes.Ok?
    {
      hide TilePath, TileHolds, Width;
      ghost var t := requests;
      var path := MakeTilePath(level, index, width);
      var answer := source(path.value, requests);
      requests := requests + 1;
      var bytes, received;
      match answer {
        case Body(b) =>
          bytes, received := b, width;
        case Missing =>
          if width >= 256 { return Err; }
          var full := MakeTilePath(level, index, 256);
          var second := source(full.value, requests);
          requests := requests + 1;
          if !second.Body? { return Err; }
          bytes, received := second.bytes, 256;
        case Failed =>
          return Err;
      }
      if !(|bytes| == received * 32 && |bytes| <= TILE_BYTES) { return Err; }
      if Faithful(H, D, source) {
        FaithfulTile(H, D, source, level, index, received, if answer.Body? then t else t + 1);
      }
      return Ok(Hashes(bytes));
    }

    /** Folds consecutive block roots pairwise up to one root. */
    method FoldBlocks(nodes: seq<Hash>, ghost D: Log, ghost start: nat, ghost unit: nat, ghost height: nat,
                      ghost total: u64)
      returns (root: Hash)
      requires |nodes| == Pow2(height) && IsPowerOfTwo(unit) && unit * |nodes| == total
      ensures Blocks(H, D, start, unit, nodes) ==> 0 < total && start + total <= |D| && root == Root(H, D, start, total)
    {
      hide Blocks, BlockAt, Root, PairUp;
      var level := nodes;
      ghost var u: nat, h: nat := unit, height;
      while |level| > 1
        invariant |level| == Pow2(h) && IsPowerOfTwo(u) && u * |level| == total
        invariant Blocks(H, D, start, unit, nodes) ==> Blocks(H, D, start, u, level)
      {
        FoldStep(u, h, |level|, total);
        if Blocks(H, D, start, u, level) { PairedBlocks(H, D, start, u, level); }
        level := PairUp(H, level);
        u, h := 2 * u, h - 1;
      }
      root := level[0];
      if Blocks(H, D, start, u, level) { LastBlock(H, D, start, u, level); }
    }

    /** Makes sure the tile is cached. */
    method LoadTile(level: nat, index: u64, width: nat, ghost D: Log) returns (loaded: Result<()>)
      requires Valid() && |D| == treeSize && level <= 7
      requires 1 <= width <= 256 && width == Width(treeSize, level, index)
      modifies this`requests, this`cache
      ensures Valid() && |cache| <= old(|cache|) + 1
      ensures Faithful(H, D, source) && old(CacheHolds(D)) ==> CacheHolds(D)
      ensures loaded.Ok? ==> (level, index) in cache
      ensures Serving(treeSize, source) && old(|cache|) < MAX_TILES ==> loaded.Ok?
    {
      hide Serving, Faithful, TileHolds, Width;
      if (level, index) in cache { return Ok(()); }
      if !(|cache| < MAX_TILES) { return Err; }
      var hashes := FetchTile(level, index, width, D);
      if hashes.Err? { return Err; }
      cache := cache[(level, index) := hashes.value];
      return Ok(());
    }

    /** Second half of `perfect_root`: loads the tile and folds the nodes of the subtree. */
    method FoldFromTile(start: u64, size: u64, level: nat, nodeIndex: u64, count: nat, width: nat, ghost D: Log)
      returns (root: Result<Hash>)
      requires Valid() && |D| == treeSize && 0 < size && start + size <= treeSize
      requires Placed(start, size, treeSize, level, nodeIndex, count)
      requires 1 <= width <= 256 && width == Width(treeSize, level, nodeIndex / 256)
      requires nodeIndex % 256 + count <= width
      modifies this`requests, this`cache
      ensures Valid() && |cache| <= old(|cache|) + 1
      ensures Faithful(H, D, source) && old(CacheHolds(D)) ==> CacheHolds(D)
      ensures root.Ok? && Faithful(H, D, source) && old(CacheHolds(D)) ==> root.value == Root(H, D, start, size)
      ensures Serving(treeSize, source) && old(|cache|) < MAX_TILES ==> root.Ok?
    {
      hide Serving, Faithful, TileHolds, Width, Blocks, Pow2, IsPowerOfTwo, TrailingZeros, Located, Root, Base;
      var tileIndex, offset := nodeIndex / 256, nodeIndex % 256;
      var loaded := LoadTile(level, tileIndex, width, D);
      if loaded.Err? { return Err; }
      var tile := cache[(level, tileIndex)];
      var nodes := tile[offset..offset + count];
      var folded := FoldBlocks(nodes, D, start, Base(level), TrailingZeros(size) % 8, size);
      if Faithful(H, D, source) && old(CacheHolds(D)) {
        assert TileHolds(H, D, level, tileIndex, tile);
        TileReach(start, size, treeSize, level, nodeIndex, count);
        NodesAreBlocks(H, D, tile, level, nodeIndex, start, count);
      }
      return Ok(folded);
    }

    /** The root of a perfect subtree, read from its tile. */
    method PerfectRoot(start: u64, size: u64, ghost D: Log) returns (root: Result<Hash>)
      requires Valid() && |D| == treeSize
      modifies this`requests, this`cache
      ensures Valid() && |cache| <= old(|cache|) + 1
      ensures Faithful(H, D, source) && old(CacheHolds(D)) ==> CacheHolds(D)
      ensures root.Ok? ==> 0 < size && start + size <= treeSize
      ensures root.Ok? && Faithful(H, D, source) && old(CacheHolds(D)) ==> root.value == Root(H, D, start, size)
      ensures (Serving(treeSize, source) && old(|cache|) < MAX_TILES
               && IsPowerOfTwo(size) && start % size == 0 && start + size <= treeSize) ==> root.Ok?
    {
      hide Serving, Faithful, CacheHolds, Valid, Width, Pow2, IsPowerOfTwo, TrailingZeros, Placed, Shr, Root;
      if !IsPowerOfTwo(size) { return Err; }
      PowerOfTwoForm(size);
      if !(start % size == 0 && start as int + size as int <= treeSize) { return Err; }
      Placement(start, size, treeSize);
      var height := TrailingZeros(size);
      var level := height / 8;
      var nodeIndex := Shr(start, 8 * level);
      var count := Pow2(height % 8);
      var left: nat := Shr(treeSize, 8 * level) - nodeIndex / 256 * 256;
      var width := if left < 256 then left else 256;
      if !(nodeIndex % 256 + count <= width) { return Err; }
      root := FoldFromTile(start, size, level, nodeIndex, count, width, D);
    }

    /** The root of any range: `pending` holds work, `roots` the finished subtrees. */
    method RangeRoot(start: u64, size: u64, ghost D: Log) returns (root: Result<Hash>)
      requires Valid() && |D| == treeSize
      modifies this`requests, this`cache
      ensures Valid() && |cache| <= old(|cache|) + Pieces(size)
      ensures Faithful(H, D, source) && old(CacheHolds(D)) ==> CacheHolds(D)
      ensures root.Ok? ==> 0 < size && start + size <= treeSize
      ensures root.Ok? && Faithful(H, D, source) && old(CacheHolds(D)) ==> root.value == Root(H, D, start, size)
      ensures (Serving(treeSize, source) && old(|cache|) + Pieces(size) <= MAX_TILES
               && 0 < size && start + size <= treeSize && Aligned(start, size)) ==> root.Ok?
    {
      hide Serving, Faithful, CacheHolds, Valid, IsPowerOfTwo, Root, Aligned, Pieces, Drain, Ahead, Fuel, Split,
           NodeHash, Expanded, Sane, Tally;
      if !(size > 0 && start as int + size as int <= treeSize) { return Err; }
      var pending := [Work(start, size, false)];
      var roots: seq<Hash> := [];
      ghost var honest := Faithful(H, D, source) && old(CacheHolds(D));
      ghost var aligned := Aligned(start, size);
      StackStart(H, D, start, size);
      while pending != []
        invariant Valid() && Sane(pending, treeSize)
        invariant |cache| + Ahead(pending) <= old(|cache|) + Pieces(size)
        invariant aligned ==> AllAligned(pending)
        invariant Tally(pending, |roots|) == Some(1)
        invariant honest ==> CacheHolds(D) && Drain(H, D, pending, roots) == Some([Root(H, D, start, size)])
        decreases FuelOf(pending, treeSize)
      {
        var n := |pending| - 1;
        var w, below := pending[n], pending[..n];
        assert pending == below + [w];
        StackPop(H, D, below, w, roots);
        if w.join {
          if |roots| < 2 { assert false; }
          var right, left := roots[|roots| - 1], roots[|roots| - 2];
          roots := roots[..|roots| - 2] + [NodeHash(H, left, right)];
          pending := below;
        } else if IsPowerOfTwo(w.size) {
          if aligned { PerfectAligned(w.start, w.size); }
          var node := PerfectRoot(w.start, w.size, D);
          if node.Err? { return Err; }
          roots := roots + [node.value];
          pending := below;
        } else {
          StackExpand(H, D, below, w, roots);
          pending := Expanded(below, w.start, w.size);
        }
      }
      StackEnd(H, D, roots);
      if |roots| != 1 { assert false; }
      return Ok(roots[0]);
    }

    /** The hashes of a list of ranges, in order. */
    method ReadRanges(ranges: seq<Range>, ghost D: Log) returns (hashes: Result<seq<Hash>>)
      requires Valid() && |D| == treeSize && AllWithin(ranges, 0, treeSize)
      modifies this`requests, this`cache
      ensures Valid() && |cache| <= old(|cache|) + TotalPieces(ranges)
      ensures Faithful(H, D, source) && old(CacheHolds(D)) ==> CacheHolds(D)
      ensures hashes.Ok? && Faithful(H, D, source) && old(CacheHolds(D)) ==> hashes.value == RangeRoots(H, D, ranges)
      ensures (Serving(treeSize, source) && old(|cache|) + TotalPieces(ranges) <= MAX_TILES
               && RangesAligned(ranges)) ==> hashes.Ok?
    {
      hide Serving, Faithful, CacheHolds, Valid, Root, Aligned, Pieces, TotalPieces, RangeRoots, AllWithin;
      var out: seq<Hash> := [];
      ghost var honest := Faithful(H, D, source) && old(CacheHolds(D));
      RangesStart(H, D, ranges);
      for i := 0 to |ranges|
        invariant Valid() && AllWithin(ranges[..i], 0, |D|)
        invariant |cache| <= old(|cache|) + TotalPieces(ranges[..i])
        invariant honest ==> CacheHolds(D) && out == RangeRoots(H, D, ranges[..i])
      {
        RangesStep(H, D, ranges, i);
        var hash := RangeRoot(ranges[i].start, ranges[i].size, D);
        if hash.Err? { return Err; }
        out := out + [hash.value];
      }
      assert ranges[..|ranges|] == ranges;
      return Ok(out);
    }

    method Inclusion(index: u64, ghost D: Log) returns (path: Result<seq<Hash>>)
      requires Valid() && |D| == treeSize
      modifies this`requests, this`cache
      ensures Valid()
      ensures path.Ok? ==> index < treeSize
      ensures path.Ok? && Faithful(H, D, source) && old(CacheHolds(D)) ==>
        path.value == RangeRoots(H, D, InclusionPath(index, 0, treeSize))
      ensures (Serving(treeSize, source) && old(|cache|) <= MAX_TILES - 128 && index < treeSize) ==>
        path.Ok? && |cache| <= old(|cache|) + 128
    {
      hide Serving, Faithful, CacheHolds, Valid, TotalPieces, RangeRoots, Aligned, AllWithin;
      var ranges := InclusionRanges(index, treeSize);
      if ranges.Err? { return Err; }
      InclusionPieces(index, 0, treeSize);
      ZeroAligned(treeSize);
      InclusionAligned(index, 0, treeSize);
      path := ReadRanges(ranges.value, D);
    }

    method Consistency(oldSize: u64, newSize: u64, ghost D: Log) returns (path: Result<seq<Hash>>)
      requires Valid() && |D| == treeSize
      modifies this`requests, this`cache
      ensures Valid()
      ensures path.Ok? ==> oldSize <= newSize <= treeSize
      ensures path.Ok? && Faithful(H, D, source) && old(CacheHolds(D)) ==>
        path.value == RangeRoots(H, D[..newSize], ConsistencyRangesOf(oldSize, newSize))
      ensures (Serving(treeSize, source) && old(|cache|) <= MAX_TILES - 128 && oldSize <= newSize <= treeSize) ==>
        path.Ok? && |cache| <= old(|cache|) + 128
    {
      hide Serving, Faithful, CacheHolds, Valid, TotalPieces, RangeRoots, Aligned, AllWithin, ConsistencyRangesOf;
      if !(newSize <= treeSize) { return Err; }
      var ranges := ConsistencyRanges(oldSize, newSize);
      if ranges.Err? { return Err; }
      ConsistencyRangesFit(oldSize, newSize, treeSize);
      path := ReadRanges(ranges.value, D);
      RootsOfPrefix(H, D, newSize, ranges.value);
    }
  }

  /** A fresh reader over a source: the path it assembles, checked as the client does. */
  method ReadAndVerifyInclusion(H: Digest, source: TileSource, treeSize: u64, root: Hash, entry: Bytes, index: u64,
                                ghost D: Log)
    returns (path: Result<seq<Hash>>, verdict: Result<()>)
    requires |D| == treeSize
    ensures verdict.Ok? ==> path.Ok? && InclusionHolds(H, entry, index, treeSize, path.value, root)
    ensures (Faithful(H, D, source) && Serving(treeSize, source) && root == MTH(H, D)
             && index < treeSize && entry == D[index]) ==>
      verdict.Ok? && path == Ok(RangeRoots(H, D, InclusionPath(index, 0, treeSize)))
  {
    hide Serving, Faithful, InclusionHolds, RangeRoots, InclusionPath, MTH;
    var reader := new TileReader(H, source, treeSize);
    path := reader.Inclusion(index, D);
    if path.Err? { return path, Err; }
    verdict := VerifyInclusion(H, entry, index, treeSize, path.value, root);
    if index < treeSize && entry == D[index] { InclusionComplete(H, D, index); }
  }

  /** As above for two sizes of one log. */
  method ReadAndVerifyConsistency(H: Digest, source: TileSource, treeSize: u64, oldSize: u64, newSize: u64,
                                  oldRoot: Hash, newRoot: Hash, ghost D: Log)
    returns (path: Result<seq<Hash>>, verdict: Result<()>)
    requires |D| == treeSize
    ensures verdict.Ok? ==> path.Ok? && ConsistencyHolds(H, oldSize, newSize, oldRoot, newRoot, path.value)
    ensures (Faithful(H, D, source) && Serving(treeSize, source) && oldSize <= newSize <= treeSize
             && oldRoot == MTH(H, D[..oldSize]) && newRoot == MTH(H, D[..newSize])) ==>
      verdict.Ok? && path == Ok(RangeRoots(H, D[..newSize], ConsistencyRangesOf(oldSize, newSize)))
  {
    hide Serving, Faithful, ConsistencyHolds, RangeRoots, ConsistencyRangesOf, MTH;
    var reader := new TileReader(H, source, treeSize);
    path := reader.Consistency(oldSize, newSize, D);
    if path.Err? { return path, Err; }
    verdict := VerifyConsistency(H, oldSize, newSize, oldRoot, newRoot, path.value);
    ConsistencyComplete(H, D[..newSize], oldSize);
    assert D[..newSize][..oldSize] == D[..oldSize];
  }
}
