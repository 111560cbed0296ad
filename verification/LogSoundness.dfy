/** What an accepted proof means for the log behind a root: soundness by collision
    extraction, and completeness. */
module LogSoundness {
  import opened Numbers
  import opened Outcome
  import opened Merkle
  import opened LogProofs

  /** The subtree hashes a list of ranges names. */
  function RangeRoots(H: Digest, D: Log, rs: seq<Range>): (hs: seq<Hash>)
    requires AllWithin(rs, 0, |D|)
    ensures |hs| == |rs|
    ensures forall i :: 0 <= i < |rs| ==> rs[i].Within(0, |D|) && hs[i] == Root(H, D, rs[i].start, rs[i].size)
  {
    seq(|rs|, i requires 0 <= i < |rs| => assert rs[i].Within(0, |D|); Root(H, D, rs[i].start, rs[i].size))
  }

  lemma PrefixStep(path: seq<Hash>, hs: seq<Hash>)
    requires 0 < |hs| <= |path|
    ensures
      var n := |hs| - 1;
      path[..n + 1] == hs <==> path[..n] == hs[..n] && path[n] == hs[n]
  {
    var n := |hs| - 1;
    assert path[..n + 1] == path[..n] + [path[n]];
    assert hs == hs[..n] + [hs[n]];
  }

  lemma RangeRootsPrefix(H: Digest, D: Log, rs: seq<Range>, r: Range)
    requires AllWithin(rs, 0, |D|)
    requires r.Within(0, |D|)
    ensures RangeRoots(H, D, rs + [r])[..|rs|] == RangeRoots(H, D, rs)
  {
    hide Root;
    var longer, shorter := RangeRoots(H, D, rs + [r]), RangeRoots(H, D, rs);
    forall i | 0 <= i < |rs| ensures longer[i] == shorter[i] {
      assert (rs + [r])[i] == rs[i];
    }
  }

  lemma SnocStep(H: Digest, D: Log, rs: seq<Range>, r: Range, path: seq<Hash>)
    requires AllWithin(rs, 0, |D|)
    requires r.Within(0, |D|) && |rs| < |path|
    ensures path[..|rs| + 1] == RangeRoots(H, D, rs + [r])
       <==> path[..|rs|] == RangeRoots(H, D, rs) && path[|rs|] == Root(H, D, r.start, r.size)
  {
    hide Root;
    RangeRootsPrefix(H, D, rs, r);
    var hs := RangeRoots(H, D, rs + [r]);
    PrefixStep(path, hs);
    assert (rs + [r])[|rs|] == r;
    assert hs[|rs|] == Root(H, D, r.start, r.size);
  }

  /** `path` carries the log's own sibling at every level from leaf to root. */
  predicate HonestInclusion(H: Digest, D: Log, start: u64, index: u64, size: u64, path: seq<Hash>)
    requires index < size && start + size <= |D| && start + size < U64_LIMIT
    requires PathLength(index, size) <= |path|
    decreases size
  {
    size == 1 ||
    var k, sibling := Split(size), path[PathLength(index, size) - 1];
    if index < k then sibling == Root(H, D, start + k, size - k) && HonestInclusion(H, D, start, index, k, path)
    else sibling == Root(H, D, start, k) && HonestInclusion(H, D, start + k, index - k, size - k, path)
  }

  lemma InclusionSteps(H: Digest, D: Log, start: u64, index: u64, size: u64, path: seq<Hash>)
    requires index < size && start + size <= |D| && start + size < U64_LIMIT && size > 1
    requires PathLength(index, size) <= |path|
    ensures
      var k, n := Split(size), PathLength(index, size) - 1;
      if index < k then
        && n == PathLength(index, k)
        && InclusionPath(index, start, size) == InclusionPath(index, start, k) + [Range(start + k, size - k)]
        && (HonestInclusion(H, D, start, index, size, path) <==>
              path[n] == Root(H, D, start + k, size - k) && HonestInclusion(H, D, start, index, k, path))
      else
        && n == PathLength(index - k, size - k)
        && InclusionPath(index, start, size) == InclusionPath(index - k, start + k, size - k) + [Range(start, k)]
        && (HonestInclusion(H, D, start, index, size, path) <==>
              path[n] == Root(H, D, start, k) && HonestInclusion(H, D, start + k, index - k, size - k, path))
  {
    hide Split, IsPowerOfTwo, Root, AllWithin;
  }

  lemma HonestLeaf(H: Digest, D: Log, start: u64, path: seq<Hash>)
    requires start + 1 <= |D| && start + 1 < U64_LIMIT
    ensures PathLength(0, 1) == 0 && HonestInclusion(H, D, start, 0, 1, path)
    ensures RangeRoots(H, D, InclusionPath(0, start, 1)) == []
  {
    hide Root;
  }

  lemma {:induction false} HonestInclusionIsRanges(H: Digest, D: Log, start: u64, index: u64, size: u64,
                                                   path: seq<Hash>)
    requires index < size && start + size <= |D| && start + size < U64_LIMIT
    requires PathLength(index, size) <= |path|
    ensures HonestInclusion(H, D, start, index, size, path)
       <==> path[..PathLength(index, size)] == RangeRoots(H, D, InclusionPath(index, start, size))
    decreases size
  {
    hide Split, IsPowerOfTwo, Root, RangeRoots, AllWithin, PathLength, InclusionPath, HonestInclusion;
    if size == 1 {
      HonestLeaf(H, D, start, path);
    } else {
      var k := Split(size);
      InclusionSteps(H, D, start, index, size, path);
      if index < k {
        HonestInclusionIsRanges(H, D, start, index, k, path);
        Widen(InclusionPath(index, start, k), start, start + k, |D|);
        SnocStep(H, D, InclusionPath(index, start, k), Range(start + k, size - k), path);
      } else {
        HonestInclusionIsRanges(H, D, start + k, index - k, size - k, path);
        Widen(InclusionPath(index - k, start + k, size - k), start + k, start + size, |D|);
        SnocStep(H, D, InclusionPath(index - k, start + k, size - k), Range(start, k), path);
      }
    }
  }

  predicate HonestConsistency(H: Digest, D: Log, start: u64, prior: u64, size: u64, complete: bool, path: seq<Hash>)
    requires 0 < prior <= size && start + size <= |D| && start + size < U64_LIMIT
    requires ConsistencyLength(prior, size, complete) <= |path|
    decreases size
  {
    if prior == size then complete || path[0] == Root(H, D, start, size)
    else
      var k, sibling := Split(size), path[ConsistencyLength(prior, size, complete) - 1];
      if prior <= k then
        sibling == Root(H, D, start + k, size - k) && HonestConsistency(H, D, start, prior, k, complete, path)
      else
        sibling == Root(H, D, start, k) && HonestConsistency(H, D, start + k, prior - k, size - k, false, path)
  }

  lemma ConsistencySteps(H: Digest, D: Log, start: u64, prior: u64, size: u64, complete: bool, path: seq<Hash>)
    requires 0 < prior < size && start + size <= |D| && start + size < U64_LIMIT
    requires ConsistencyLength(prior, size, complete) <= |path|
    ensures ConsistencyLength(prior, size, complete) > 0
    ensures
      var k, n := Split(size), ConsistencyLength(prior, size, complete) - 1;
      if prior <= k then
        && n == ConsistencyLength(prior, k, complete)
        && ConsistencyPath(prior, start, size, complete)
             == ConsistencyPath(prior, start, k, complete) + [Range(start + k, size - k)]
        && (HonestConsistency(H, D, start, prior, size, complete, path) <==>
              path[n] == Root(H, D, start + k, size - k) && HonestConsistency(H, D, start, prior, k, complete, path))
      else
        && n == ConsistencyLength(prior - k, size - k, false)
        && ConsistencyPath(prior, start, size, complete)
             == ConsistencyPath(prior - k, start + k, size - k, false) + [Range(start, k)]
        && (HonestConsistency(H, D, start, prior, size, complete, path) <==>
              && path[n] == Root(H, D, start, k)
              && HonestConsistency(H, D, start + k, prior - k, size - k, false, path))
  {
    hide Split, IsPowerOfTwo, Root, AllWithin;
  }

  lemma HonestWhole(H: Digest, D: Log, start: u64, size: u64, complete: bool, path: seq<Hash>)
    requires 0 < size && start + size <= |D| && start + size < U64_LIMIT
    requires ConsistencyLength(size, size, complete) <= |path|
    ensures HonestConsistency(H, D, start, size, size, complete, path)
       <==> path[..ConsistencyLength(size, size, complete)]
              == RangeRoots(H, D, ConsistencyPath(size, start, size, complete))
  {
    hide Root, RangeRoots, AllWithin;
    if complete {
      assert RangeRoots(H, D, []) == [] by { WithinEmpty(|D|); }
    } else {
      WithinEmpty(|D|);
      SnocStep(H, D, [], Range(start, size), path);
      assert [] + [Range(start, size)] == [Range(start, size)];
    }
  }

  lemma {:induction false} HonestConsistencyIsRanges(H: Digest, D: Log, start: u64, prior: u64, size: u64,
                                                     complete: bool, path: seq<Hash>)
    requires 0 < prior <= size && start + size <= |D| && start + size < U64_LIMIT
    requires ConsistencyLength(prior, size, complete) <= |path|
    ensures HonestConsistency(H, D, start, prior, size, complete, path)
       <==> path[..ConsistencyLength(prior, size, complete)]
              == RangeRoots(H, D, ConsistencyPath(prior, start, size, complete))
    decreases size
  {
    hide Split, IsPowerOfTwo, Root, RangeRoots, AllWithin, ConsistencyLength, ConsistencyPath, HonestConsistency;
    if prior < size {
      var k := Split(size);
      ConsistencySteps(H, D, start, prior, size, complete, path);
      if prior <= k {
        HonestConsistencyIsRanges(H, D, start, prior, k, complete, path);
        Widen(ConsistencyPath(prior, start, k, complete), start, start + k, |D|);
        SnocStep(H, D, ConsistencyPath(prior, start, k, complete), Range(start + k, size - k), path);
      } else {
        HonestConsistencyIsRanges(H, D, start + k, prior - k, size - k, false, path);
        Widen(ConsistencyPath(prior - k, start + k, size - k, false), start + k, start + size, |D|);
        SnocStep(H, D, ConsistencyPath(prior - k, start + k, size - k, false), Range(start, k), path);
      }
    } else {
      HonestWhole(H, D, start, size, complete, path);
    }
  }

  /** Compares a recomputed node with the log's node: `None` when the children
      agree, otherwise their preimages. */
  function NodeCollision(l: Hash, r: Hash, left: Hash, right: Hash): Option<Collision> {
    if l == left && r == right then None
    else Some(Collision(NodePreimage(l, r), NodePreimage(left, right)))
  }

  lemma NodeCollisionBreaks(H: Digest, l: Hash, r: Hash, left: Hash, right: Hash)
    requires NodeHash(H, l, r) == NodeHash(H, left, right)
    ensures
      var c := NodeCollision(l, r, left, right);
      if c.None? then l == left && r == right else c.value.Breaks(H)
  {
    if NodePreimage(l, r) == NodePreimage(left, right) { NodePreimageInjective(l, r, left, right); }
  }

  /** Walks an accepted inclusion path beside the log's own tree and returns the
      first digest collision, if the two differ anywhere. */
  function InclusionCollision(H: Digest, D: Log, start: nat, index: u64, size: u64, entry: Bytes,
                              path: seq<Hash>): Option<Collision>
    requires index < size && start + size <= |D| && PathLength(index, size) <= |path|
    decreases size
  {
    if size == 1 then
      if entry == D[start] then None
      else Some(Collision(LeafPreimage(entry), LeafPreimage(D[start])))
    else
      var k, sibling := Split(size), path[PathLength(index, size) - 1];
      var left, right := Root(H, D, start, k), Root(H, D, start + k, size - k);
      if index < k then
        var c := NodeCollision(Climb(H, index, k, LeafHash(H, entry), path), sibling, left, right);
        if c.Some? then c else InclusionCollision(H, D, start, index, k, entry, path)
      else
        var c := NodeCollision(sibling, Climb(H, index - k, size - k, LeafHash(H, entry), path), left, right);
        if c.Some? then c else InclusionCollision(H, D, start + k, index - k, size - k, entry, path)
  }

  lemma {:induction false} ClimbSound(H: Digest, D: Log, start: u64, index: u64, size: u64, entry: Bytes,
                                      path: seq<Hash>)
    requires index < size && start + size <= |D| && start + size < U64_LIMIT && PathLength(index, size) <= |path|
    requires Climb(H, index, size, LeafHash(H, entry), path) == Root(H, D, start, size)
    ensures
      var c := InclusionCollision(H, D, start, index, size, entry, path);
      if c.Some? then c.value.Breaks(H)
      else entry == D[start + index] && HonestInclusion(H, D, start, index, size, path)
    decreases size
  {
    hide Split, IsPowerOfTwo, NodeHash, NodeCollision;
    if size == 1 {
      if LeafPreimage(entry) == LeafPreimage(D[start]) { LeafPreimageInjective(entry, D[start]); }
    } else {
      var k, sibling := Split(size), path[PathLength(index, size) - 1];
      var left, right := Root(H, D, start, k), Root(H, D, start + k, size - k);
      if index < k {
        var l := Climb(H, index, k, LeafHash(H, entry), path);
        NodeCollisionBreaks(H, l, sibling, left, right);
        if l == left && sibling == right { ClimbSound(H, D, start, index, k, entry, path); }
      } else {
        var r := Climb(H, index - k, size - k, LeafHash(H, entry), path);
        NodeCollisionBreaks(H, sibling, r, left, right);
        if sibling == left && r == right { ClimbSound(H, D, start + k, index - k, size - k, entry, path); }
      }
    }
  }

  /** Inclusion soundness and position binding: what the verifier accepts against
      the root of `D` is the leaf at `index` and the one honest path, or the
      acceptance itself yields a digest collision. */
  lemma InclusionSound(H: Digest, D: Log, entry: Bytes, index: u64, path: seq<Hash>)
    requires |D| < U64_LIMIT
    requires InclusionHolds(H, entry, index, |D|, path, MTH(H, D))
    ensures
      var c := InclusionCollision(H, D, 0, index, |D|, entry, path);
      if c.Some? then c.value.Breaks(H)
      else entry == D[index] && path == RangeRoots(H, D, InclusionPath(index, 0, |D|))
  {
    hide Root, MTH, RangeRoots, Climb, PathLength, InclusionCollision, HonestInclusion, InclusionPath;
    RootIsWhole(H, D);
    ClimbSound(H, D, 0, index, |D|, entry, path);
    HonestInclusionIsRanges(H, D, 0, index, |D|, path);
    assert path[..|path|] == path;
  }

  lemma {:induction false} ClimbComplete(H: Digest, D: Log, start: u64, index: u64, size: u64, path: seq<Hash>)
    requires index < size && start + size <= |D| && start + size < U64_LIMIT && PathLength(index, size) <= |path|
    requires HonestInclusion(H, D, start, index, size, path)
    ensures Climb(H, index, size, LeafHash(H, D[start + index]), path) == Root(H, D, start, size)
    decreases size
  {
    hide Split, IsPowerOfTwo;
    if size > 1 {
      var k := Split(size);
      if index < k {
        ClimbComplete(H, D, start, index, k, path);
      } else {
        ClimbComplete(H, D, start + k, index - k, size - k, path);
      }
    }
  }

  /** Inclusion completeness: the named subtree hashes are always accepted. */
  lemma InclusionComplete(H: Digest, D: Log, index: u64)
    requires index < |D| < U64_LIMIT
    ensures InclusionHolds(H, D[index], index, |D|, RangeRoots(H, D, InclusionPath(index, 0, |D|)), MTH(H, D))
  {
    hide Root, RangeRoots, Climb, HonestInclusion, InclusionPath, PathLength, MTH;
    var path := RangeRoots(H, D, InclusionPath(index, 0, |D|));
    assert path[..|path|] == path;
    HonestInclusionIsRanges(H, D, 0, index, |D|, path);
    ClimbComplete(H, D, 0, index, |D|, path);
    RootIsWhole(H, D);
  }

  /** The root of a prefix that reaches past the split shares the left subtree. */
  lemma RootOfPrefix(H: Digest, D: Log, start: nat, m: u64, n: u64)
    requires 2 <= n && Split(n) < m <= n && start + n <= |D|
    ensures Root(H, D, start, m) == NodeHash(H, Root(H, D, start, Split(n)), Root(H, D, start + Split(n), m - Split(n)))
  {
    SplitOfPrefix(m, n);
  }

  /** As `InclusionCollision`, for a consistency path. */
  function ConsistencyCollision(H: Digest, D: Log, start: nat, prior: u64, size: u64, known: Hash, complete: bool,
                                path: seq<Hash>): Option<Collision>
    requires 0 < prior <= size && start + size <= |D| && ConsistencyLength(prior, size, complete) <= |path|
    decreases size
  {
    if prior == size then None
    else
      var k, sibling := Split(size), path[ConsistencyLength(prior, size, complete) - 1];
      var left, right := Root(H, D, start, k), Root(H, D, start + k, size - k);
      if prior <= k then
        var c := NodeCollision(ConnectNew(H, prior, k, known, complete, path), sibling, left, right);
        if c.Some? then c else ConsistencyCollision(H, D, start, prior, k, known, complete, path)
      else
        var c := NodeCollision(sibling, ConnectNew(H, prior - k, size - k, known, false, path), left, right);
        if c.Some? then c else ConsistencyCollision(H, D, start + k, prior - k, size - k, known, false, path)
  }

  /** The recursions over a consistency path, one level down. */
  lemma ConnectSteps(H: Digest, prior: u64, size: u64, known: Hash, complete: bool, path: seq<Hash>)
    requires 0 < prior < size && ConsistencyLength(prior, size, complete) <= |path|
    ensures
      var k, n := Split(size), ConsistencyLength(prior, size, complete) - 1;
      && n >= 0
      && if prior <= k then
           && ConsistencyLength(prior, k, complete) == n
           && ConnectNew(H, prior, size, known, complete, path)
                == NodeHash(H, ConnectNew(H, prior, k, known, complete, path), path[n])
           && ConnectOld(H, prior, size, known, complete, path) == ConnectOld(H, prior, k, known, complete, path)
         else
           && ConsistencyLength(prior - k, size - k, false) == n
           && ConnectNew(H, prior, size, known, complete, path)
                == NodeHash(H, path[n], ConnectNew(H, prior - k, size - k, known, false, path))
           && ConnectOld(H, prior, size, known, complete, path)
                == NodeHash(H, path[n], ConnectOld(H, prior - k, size - k, known, false, path))
  {
    hide Split, IsPowerOfTwo, NodeHash;
  }

  lemma ConnectWhole(H: Digest, D: Log, start: u64, size: u64, known: Hash, complete: bool, path: seq<Hash>)
    requires 0 < size && start + size <= |D| && start + size < U64_LIMIT
    requires ConsistencyLength(size, size, complete) <= |path|
    ensures ConnectNew(H, size, size, known, complete, path) == ConnectOld(H, size, size, known, complete, path)
    ensures complete ==> ConnectNew(H, size, size, known, complete, path) == known
    ensures HonestConsistency(H, D, start, size, size, complete, path)
       <==> complete || ConnectNew(H, size, size, known, complete, path) == Root(H, D, start, size)
    ensures ConsistencyCollision(H, D, start, size, size, known, complete, path) == None
  {
    hide Root;
  }

  lemma {:induction false} ConnectSound(H: Digest, D: Log, start: u64, prior: u64, size: u64, known: Hash,
                                        complete: bool, path: seq<Hash>)
    requires 0 < prior <= size && start + size <= |D| && start + size < U64_LIMIT
    requires ConsistencyLength(prior, size, complete) <= |path|
    requires ConnectNew(H, prior, size, known, complete, path) == Root(H, D, start, size)
    ensures
      var c := ConsistencyCollision(H, D, start, prior, size, known, complete, path);
      if c.Some? then c.value.Breaks(H)
      else
        && ConnectOld(H, prior, size, known, complete, path) == Root(H, D, start, prior)
        && HonestConsistency(H, D, start, prior, size, complete, path)
    decreases size
  {
    hide Split, IsPowerOfTwo, NodeHash, NodeCollision, Root, ConsistencyLength, ConsistencyPath, ConnectNew, ConnectOld,
         HonestConsistency;
    if prior == size {
      ConnectWhole(H, D, start, size, known, complete, path);
    } else {
      ConnectSteps(H, prior, size, known, complete, path);
      ConsistencySteps(H, D, start, prior, size, complete, path);
      RootSplit(H, D, start, size);
      var k, sibling := Split(size), path[ConsistencyLength(prior, size, complete) - 1];
      var left, right := Root(H, D, start, k), Root(H, D, start + k, size - k);
      if prior <= k {
        var l := ConnectNew(H, prior, k, known, complete, path);
        NodeCollisionBreaks(H, l, sibling, left, right);
        if l == left && sibling == right { ConnectSound(H, D, start, prior, k, known, complete, path); }
      } else {
        var r := ConnectNew(H, prior - k, size - k, known, false, path);
        NodeCollisionBreaks(H, sibling, r, left, right);
        if sibling == left && r == right {
          ConnectSound(H, D, start + k, prior - k, size - k, known, false, path);
          RootOfPrefix(H, D, start, prior, size);
        }
      }
    }
  }

  /** The collision an accepted consistency proof yields when the old root is
      not the prefix root. */
  function PrefixCollision(H: Digest, D: Log, prior: u64, oldRoot: Hash, path: seq<Hash>): Option<Collision>
    requires |D| < U64_LIMIT && prior <= |D|
    requires 0 < prior < |D| ==> |path| == ConsistencyLength(prior, |D|, true)
  {
    if 0 < prior < |D| then ConsistencyCollision(H, D, 0, prior, |D|, oldRoot, true, path) else None
  }

  lemma PrefixRoot(H: Digest, D: Log, prior: u64)
    requires 0 < prior <= |D| < U64_LIMIT
    ensures Root(H, D, 0, prior) == MTH(H, D[..prior])
  {
    RootIsMTH(H, D, 0, prior);
    assert D[0..prior] == D[..prior];
  }

  lemma ProperPrefixSound(H: Digest, D: Log, prior: u64, oldRoot: Hash, path: seq<Hash>)
    requires 0 < prior < |D| < U64_LIMIT
    requires ConsistencyHolds(H, prior, |D|, oldRoot, MTH(H, D), path)
    ensures
      var c := ConsistencyCollision(H, D, 0, prior, |D|, oldRoot, true, path);
      if c.Some? then c.value.Breaks(H)
      else
        && oldRoot == MTH(H, D[..prior])
        && path == RangeRoots(H, D, ConsistencyPath(prior, 0, |D|, true))
  {
    hide Root, MTH, RangeRoots, ConnectOld, ConnectNew, ConsistencyCollision, HonestConsistency, ConsistencyPath,
         ConsistencyLength;
    RootIsWhole(H, D);
    ConnectSound(H, D, 0, prior, |D|, oldRoot, true, path);
    PrefixRoot(H, D, prior);
    HonestConsistencyIsRanges(H, D, 0, prior, |D|, true, path);
    assert path[..|path|] == path;
  }

  /** With nothing old, or nothing new, there is nothing to prove. */
  lemma NoRanges(H: Digest, D: Log, prior: u64)
    requires (prior == 0 || prior == |D|) && |D| < U64_LIMIT
    ensures ConsistencyRangesOf(prior, |D|) == [] && RangeRoots(H, D, []) == []
  {
    hide Root;
  }

  lemma RootOfNothing(H: Digest)
    ensures MTH(H, []) == EmptyRoot(H)
  {
  }

  lemma EdgeSound(H: Digest, D: Log, prior: u64, oldRoot: Hash, path: seq<Hash>)
    requires (prior == 0 || prior == |D|) && |D| < U64_LIMIT
    requires ConsistencyHolds(H, prior, |D|, oldRoot, MTH(H, D), path)
    ensures oldRoot == MTH(H, D[..prior]) && path == RangeRoots(H, D, ConsistencyRangesOf(prior, |D|))
  {
    hide RangeRoots, ConnectOld, ConnectNew, ConsistencyRangesOf, ConsistencyLength, MTH;
    NoRanges(H, D, prior);
    RootOfNothing(H);
    assert prior == |D| ==> D[..prior] == D;
    assert prior == 0 ==> D[..prior] == [];
  }

  /** Consistency soundness: an accepted proof against the root of `D` makes the
      old root the root of the first `prior` leaves of `D`. */
  lemma ConsistencySound(H: Digest, D: Log, prior: u64, oldRoot: Hash, path: seq<Hash>)
    requires |D| < U64_LIMIT
    requires ConsistencyHolds(H, prior, |D|, oldRoot, MTH(H, D), path)
    ensures
      var c := PrefixCollision(H, D, prior, oldRoot, path);
      if c.Some? then c.value.Breaks(H)
      else
        && oldRoot == MTH(H, D[..prior])
        && path == RangeRoots(H, D, ConsistencyRangesOf(prior, |D|))
  {
    hide Root, MTH, RangeRoots, ConnectOld, ConnectNew, ConsistencyCollision, ConsistencyPath, ConsistencyLength;
    if 0 < prior < |D| {
      ProperPrefixSound(H, D, prior, oldRoot, path);
    } else {
      EdgeSound(H, D, prior, oldRoot, path);
    }
  }

  lemma {:induction false} ConnectComplete(H: Digest, D: Log, start: u64, prior: u64, size: u64, known: Hash,
                                           complete: bool, path: seq<Hash>)
    requires 0 < prior <= size && start + size <= |D| && start + size < U64_LIMIT
    requires ConsistencyLength(prior, size, complete) <= |path|
    requires HonestConsistency(H, D, start, prior, size, complete, path)
    requires complete ==> known == Root(H, D, start, prior)
    ensures ConnectOld(H, prior, size, known, complete, path) == Root(H, D, start, prior)
    ensures ConnectNew(H, prior, size, known, complete, path) == Root(H, D, start, size)
    decreases size
  {
    hide Split, IsPowerOfTwo, NodeHash, Root, ConsistencyLength, ConsistencyPath, ConnectNew, ConnectOld,
         HonestConsistency;
    if prior == size {
      ConnectWhole(H, D, start, size, known, complete, path);
    } else {
      ConnectSteps(H, prior, size, known, complete, path);
      ConsistencySteps(H, D, start, prior, size, complete, path);
      RootSplit(H, D, start, size);
      var k := Split(size);
      if prior <= k {
        ConnectComplete(H, D, start, prior, k, known, complete, path);
      } else {
        ConnectComplete(H, D, start + k, prior - k, size - k, known, false, path);
        RootOfPrefix(H, D, start, prior, size);
      }
    }
  }

  lemma ProperPrefixComplete(H: Digest, D: Log, prior: u64)
    requires 0 < prior < |D| < U64_LIMIT
    ensures ConsistencyHolds(H, prior, |D|, MTH(H, D[..prior]), MTH(H, D),
                             RangeRoots(H, D, ConsistencyRangesOf(prior, |D|)))
  {
    hide Root, MTH, RangeRoots, ConnectOld, ConnectNew, HonestConsistency, ConsistencyPath, ConsistencyLength;
    var path := RangeRoots(H, D, ConsistencyRangesOf(prior, |D|));
    assert path[..|path|] == path;
    HonestConsistencyIsRanges(H, D, 0, prior, |D|, true, path);
    PrefixRoot(H, D, prior);
    ConnectComplete(H, D, 0, prior, |D|, MTH(H, D[..prior]), true, path);
    RootIsWhole(H, D);
  }

  /** Consistency completeness: the named subtree hashes are always accepted. */
  lemma ConsistencyComplete(H: Digest, D: Log, prior: u64)
    requires prior <= |D| < U64_LIMIT
    ensures ConsistencyHolds(H, prior, |D|, MTH(H, D[..prior]), MTH(H, D),
                             RangeRoots(H, D, ConsistencyRangesOf(prior, |D|)))
  {
    hide Root, RangeRoots, ConnectOld, ConnectNew, ConsistencyPath, ConsistencyRangesOf, ConsistencyLength;
    if 0 < prior < |D| {
      ProperPrefixComplete(H, D, prior);
    } else {
      NoRanges(H, D, prior);
      assert D[..|D|] == D && D[..0] == [];
    }
  }
}
