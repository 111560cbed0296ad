/** The verifier of `publication/merkle.rs` and its generator of ranges (RFC 6962, section 2.1). */
module LogProofs {
  import opened Numbers
  import opened Outcome
  import opened Merkle

  // ---------------------------------------------------------------------
  // What a proof of exactly the right length recomputes
  // ---------------------------------------------------------------------

  /** How many siblings lie between leaf `index` and the root. */
  function PathLength(index: u64, size: u64): (n: nat)
    requires index < size
    decreases size
  {
    if size == 1 then 0
    else
      var k := Split(size);
      if index < k then PathLength(index, k) + 1 else PathLength(index - k, size - k) + 1
  }

  lemma {:induction false} PathLengthBound(index: u64, size: u64)
    requires index < size
    ensures PathLength(index, size) <= BitLength(size - 1) && PathLength(index, size) <= MAX_INCLUSION_NODES
    decreases size
  {
    hide BitLength, Split, IsPowerOfTwo;
    if size > 1 {
      SplitHeights(size);
      var k := Split(size);
      if index < k { PathLengthBound(index, k); } else { PathLengthBound(index - k, size - k); }
    }
  }

  /** The root that `path`, ordered from leaf to root, gives to `leaf`. */
  function Climb(H: Digest, index: u64, size: u64, leaf: Hash, path: seq<Hash>): Hash
    requires index < size && PathLength(index, size) <= |path|
    decreases size
  {
    if size == 1 then leaf
    else
      var k, sibling := Split(size), path[PathLength(index, size) - 1];
      if index < k then NodeHash(H, Climb(H, index, k, leaf, path), sibling)
      else NodeHash(H, sibling, Climb(H, index - k, size - k, leaf, path))
  }

  predicate InclusionHolds(H: Digest, entry: Bytes, index: u64, size: u64, path: seq<Hash>, root: Hash) {
    && index < size
    && |path| == PathLength(index, size)
    && Climb(H, index, size, LeafHash(H, entry), path) == root
  }

  /** Nodes in the proof that `old` leaves are a prefix of `size` leaves; a
      `complete` prefix is already known to the verifier. */
  function ConsistencyLength(prior: u64, size: u64, complete: bool): (n: nat)
    requires 0 < prior <= size
    decreases size
  {
    if prior == size then (if complete then 0 else 1)
    else
      var k := Split(size);
      if prior <= k then ConsistencyLength(prior, k, complete) + 1
      else ConsistencyLength(prior - k, size - k, false) + 1
  }

  lemma {:induction false} ConsistencyLengthBound(prior: u64, size: u64, complete: bool)
    requires 0 < prior <= size
    ensures ConsistencyLength(prior, size, complete) <= BitLength(size - 1) + 1
    ensures ConsistencyLength(prior, size, complete) <= MAX_PROOF_NODES
    decreases size
  {
    hide BitLength, Split, IsPowerOfTwo;
    if prior < size {
      SplitHeights(size);
      var k := Split(size);
      if prior <= k { ConsistencyLengthBound(prior, k, complete); }
      else { ConsistencyLengthBound(prior - k, size - k, false); }
    }
  }

  /** The new root that `path` gives, from leaf side to root. */
  function ConnectNew(H: Digest, prior: u64, size: u64, known: Hash, complete: bool, path: seq<Hash>): Hash
    requires 0 < prior <= size && ConsistencyLength(prior, size, complete) <= |path|
    decreases size
  {
    if prior == size then (if complete then known else path[0])
    else
      var k, sibling := Split(size), path[ConsistencyLength(prior, size, complete) - 1];
      if prior <= k then NodeHash(H, ConnectNew(H, prior, k, known, complete, path), sibling)
      else NodeHash(H, sibling, ConnectNew(H, prior - k, size - k, known, false, path))
  }

  /** The old root that `path` gives. */
  function ConnectOld(H: Digest, prior: u64, size: u64, known: Hash, complete: bool, path: seq<Hash>): Hash
    requires 0 < prior <= size && ConsistencyLength(prior, size, complete) <= |path|
    decreases size
  {
    if prior == size then (if complete then known else path[0])
    else
      var k, sibling := Split(size), path[ConsistencyLength(prior, size, complete) - 1];
      if prior <= k then ConnectOld(H, prior, k, known, complete, path)
      else NodeHash(H, sibling, ConnectOld(H, prior - k, size - k, known, false, path))
  }

  predicate ConsistencyHolds(H: Digest, prior: u64, size: u64, oldRoot: Hash, newRoot: Hash, path: seq<Hash>) {
    && prior <= size
    && (prior == size ==> path == [] && oldRoot == newRoot)
    && (prior == 0 ==> path == [] && oldRoot == EmptyRoot(H))
    && (0 < prior < size ==>
          && |path| == ConsistencyLength(prior, size, true)
          && ConnectOld(H, prior, size, oldRoot, true, path) == oldRoot
          && ConnectNew(H, prior, size, oldRoot, true, path) == newRoot)
  }

  // ---------------------------------------------------------------------
  // The verifier, consuming an iterator over the path
  // ---------------------------------------------------------------------

  /** `std::slice::Iter` over a proof path: the nodes before `pos` are consumed. */
  class PathIter {
    const path: seq<Hash>
    var pos: nat

    constructor (path: seq<Hash>)
      ensures this.path == path && pos == 0
    {
      this.path := path;
      pos := 0;
    }

    method Next() returns (node: Option<Hash>)
      requires pos <= |path|
      modifies this
      ensures old(pos) == |path| ==> node == None && pos == old(pos)
      ensures old(pos) < |path| ==> node == Some(path[old(pos)]) && pos == old(pos) + 1
    {
      if pos == |path| {
        node := None;
      } else {
        node, pos := Some(path[pos]), pos + 1;
      }
    }
  }

  /** Every call starts at the first node: the recursive call consumes its nodes
      before the caller takes the next one. */
  method InclusionRoot(H: Digest, index: u64, size: u64, leaf: Hash, iter: PathIter) returns (root: Result<Hash>)
    requires index < size && iter.pos == 0
    modifies iter
    ensures PathLength(index, size) <= |iter.path| ==>
      root == Ok(Climb(H, index, size, leaf, iter.path)) && iter.pos == PathLength(index, size)
    ensures PathLength(index, size) > |iter.path| ==> root == Err
    decreases size
  {
    hide Split, IsPowerOfTwo, NodeHash;
    if size == 1 { return Ok(leaf); }
    var leftSize := Split(size);
    if index < leftSize {
      var left := InclusionRoot(H, index, leftSize, leaf, iter);
      if left.Err? { return Err; }
      var right := iter.Next();
      if right.None? { return Err; }
      root := Ok(NodeHash(H, left.value, right.value));
    } else {
      var right := InclusionRoot(H, index - leftSize, size - leftSize, leaf, iter);
      if right.Err? { return Err; }
      var left := iter.Next();
      if left.None? { return Err; }
      root := Ok(NodeHash(H, left.value, right.value));
    }
  }

  method VerifyInclusion(H: Digest, entry: Bytes, index: u64, size: u64, path: seq<Hash>, root: Hash)
    returns (verdict: Result<()>)
    ensures verdict.Ok? <==> InclusionHolds(H, entry, index, size, path, root)
  {
    if !(size > 0 && index < size) { return Err; }
    PathLengthBound(index, size);
    if !(|path| <= MAX_INCLUSION_NODES) { return Err; }
    var remaining := new PathIter(path);
    var calculated := InclusionRoot(H, index, size, LeafHash(H, entry), remaining);
    if calculated.Err? { return Err; }
    var extra := remaining.Next();
    if extra.Some? { return Err; }
    if calculated.value != root { return Err; }
    return Ok(());
  }

  method ConsistencyRoots(H: Digest, oldSize: u64, newSize: u64, known: Hash, complete: bool, iter: PathIter)
    returns (roots: Result<(Hash, Hash)>)
    requires 0 < oldSize <= newSize && iter.pos == 0
    modifies iter
    ensures ConsistencyLength(oldSize, newSize, complete) <= |iter.path| ==>
      && roots == Ok((ConnectOld(H, oldSize, newSize, known, complete, iter.path),
                      ConnectNew(H, oldSize, newSize, known, complete, iter.path)))
      && iter.pos == ConsistencyLength(oldSize, newSize, complete)
    ensures ConsistencyLength(oldSize, newSize, complete) > |iter.path| ==> roots == Err
    decreases newSize
  {
    hide Split, IsPowerOfTwo, NodeHash;
    if oldSize == newSize {
      if complete { return Ok((known, known)); }
      var node := iter.Next();
      if node.None? { return Err; }
      return Ok((node.value, node.value));
    }
    var leftSize := Split(newSize);
    if oldSize <= leftSize {
      var below := ConsistencyRoots(H, oldSize, leftSize, known, complete, iter);
      if below.Err? { return Err; }
      var right := iter.Next();
      if right.None? { return Err; }
      roots := Ok((below.value.0, NodeHash(H, below.value.1, right.value)));
    } else {
      var below := ConsistencyRoots(H, oldSize - leftSize, newSize - leftSize, known, false, iter);
      if below.Err? { return Err; }
      var left := iter.Next();
      if left.None? { return Err; }
      roots := Ok((NodeHash(H, left.value, below.value.0), NodeHash(H, left.value, below.value.1)));
    }
  }

  method VerifyConsistency(H: Digest, oldSize: u64, newSize: u64, oldRoot: Hash, newRoot: Hash, path: seq<Hash>)
    returns (verdict: Result<()>)
    ensures verdict.Ok? <==> ConsistencyHolds(H, oldSize, newSize, oldRoot, newRoot, path)
  {
    if !(oldSize <= newSize) { return Err; }
    if 0 < oldSize { ConsistencyLengthBound(oldSize, newSize, true); }
    if !(|path| <= MAX_PROOF_NODES) { return Err; }
    if oldSize == newSize {
      if path != [] { return Err; }
      if oldRoot != newRoot { return Err; }
      if oldSize == 0 && oldRoot != EmptyRoot(H) { return Err; }
      return Ok(());
    }
    if oldSize == 0 {
      if oldRoot != EmptyRoot(H) { return Err; }
      if path != [] { return Err; }
      return Ok(());
    }
    var remaining := new PathIter(path);
    var calculated := ConsistencyRoots(H, oldSize, newSize, oldRoot, true, remaining);
    if calculated.Err? { return Err; }
    var extra := remaining.Next();
    if extra.Some? { return Err; }
    if !(calculated.value.0 == oldRoot && calculated.value.1 == newRoot) { return Err; }
    return Ok(());
  }

  // ---------------------------------------------------------------------
  // Subtree ranges
  // ---------------------------------------------------------------------

  datatype Range = Range(start: u64, size: u64) {
    predicate Within(lo: nat, hi: nat) { size > 0 && lo <= start && start + size <= hi }
    predicate Holds(leaf: nat) { start <= leaf < start + size }
  }

  predicate AllWithin(rs: seq<Range>, lo: nat, hi: nat) {
    forall r <- rs :: r.Within(lo, hi)
  }

  lemma Widen(rs: seq<Range>, lo: nat, hi: nat, n: nat)
    requires AllWithin(rs, lo, hi) && hi <= n
    ensures AllWithin(rs, 0, n)
  {
    forall r <- rs ensures r.Within(0, n) { assert r.Within(lo, hi); }
  }

  lemma WithinEmpty(n: nat)
    ensures AllWithin([], 0, n)
  {
  }

  function InclusionPath(index: u64, start: u64, size: u64): (rs: seq<Range>)
    requires index < size && start + size < U64_LIMIT
    ensures |rs| == PathLength(index, size)
    ensures AllWithin(rs, start, start + size)
    decreases size
  {
    if size == 1 then []
    else
      var k := Split(size);
      if index < k then InclusionPath(index, start, k) + [Range(start + k, size - k)]
      else InclusionPath(index - k, start + k, size - k) + [Range(start, k)]
  }

  lemma InclusionPathStep(index: u64, start: u64, size: u64)
    requires index < size && start + size < U64_LIMIT && size > 1
    ensures
      var k := Split(size);
      InclusionPath(index, start, size)
        == if index < k then InclusionPath(index, start, k) + [Range(start + k, size - k)]
           else InclusionPath(index - k, start + k, size - k) + [Range(start, k)]
  {
    hide Split, IsPowerOfTwo, AllWithin;
  }

  function ConsistencyPath(prior: u64, start: u64, size: u64, complete: bool): (rs: seq<Range>)
    requires 0 < prior <= size && start + size < U64_LIMIT
    ensures |rs| == ConsistencyLength(prior, size, complete)
    ensures AllWithin(rs, start, start + size)
    decreases size
  {
    if prior == size then (if complete then [] else [Range(start, size)])
    else
      var k := Split(size);
      if prior <= k then ConsistencyPath(prior, start, k, complete) + [Range(start + k, size - k)]
      else ConsistencyPath(prior - k, start + k, size - k, false) + [Range(start, k)]
  }

  lemma ConsistencyPathStep(prior: u64, start: u64, size: u64, complete: bool)
    requires 0 < prior < size && start + size < U64_LIMIT
    ensures
      var k := Split(size);
      ConsistencyPath(prior, start, size, complete)
        == if prior <= k then ConsistencyPath(prior, start, k, complete) + [Range(start + k, size - k)]
           else ConsistencyPath(prior - k, start + k, size - k, false) + [Range(start, k)]
  {
    hide Split, IsPowerOfTwo, AllWithin;
  }

  method WalkInclusion(index: u64, start: u64, size: u64, sofar: seq<Range>) returns (out: seq<Range>)
    requires index < size && start + size < U64_LIMIT
    ensures out == sofar + InclusionPath(index, start, size)
    decreases size
  {
    hide Split, IsPowerOfTwo, AllWithin;
    out := sofar;
    if size == 1 { return; }
    var k := Split(size);
    if index < k {
      out := WalkInclusion(index, start, k, out);
      out := out + [Range(start + k, size - k)];
    } else {
      out := WalkInclusion(index - k, start + k, size - k, out);
      out := out + [Range(start, k)];
    }
  }

  method InclusionRanges(index: u64, size: u64) returns (ranges: Result<seq<Range>>)
    ensures index >= size ==> ranges == Err
    ensures index < size ==> ranges == Ok(InclusionPath(index, 0, size))
  {
    if !(size > 0 && index < size) { return Err; }
    var out := WalkInclusion(index, 0, size, []);
    assert [] + InclusionPath(index, 0, size) == InclusionPath(index, 0, size);
    return Ok(out);
  }

  method WalkConsistency(prior: u64, start: u64, size: u64, complete: bool, sofar: seq<Range>) returns (out: seq<Range>)
    requires 0 < prior <= size && start + size < U64_LIMIT
    ensures out == sofar + ConsistencyPath(prior, start, size, complete)
    decreases size
  {
    hide Split, IsPowerOfTwo, AllWithin;
    out := sofar;
    if prior == size {
      if !complete { out := out + [Range(start, size)]; }
      return;
    }
    var k := Split(size);
    if prior <= k {
      out := WalkConsistency(prior, start, k, complete, out);
      out := out + [Range(start + k, size - k)];
    } else {
      out := WalkConsistency(prior - k, start + k, size - k, false, out);
      out := out + [Range(start, k)];
    }
  }

  function ConsistencyRangesOf(oldSize: u64, newSize: u64): seq<Range>
    requires oldSize <= newSize
  {
    if oldSize == 0 then [] else ConsistencyPath(oldSize, 0, newSize, true)
  }

  method ConsistencyRanges(oldSize: u64, newSize: u64) returns (ranges: Result<seq<Range>>)
    ensures oldSize > newSize ==> ranges == Err
    ensures oldSize <= newSize ==> ranges == Ok(ConsistencyRangesOf(oldSize, newSize))
  {
    if !(oldSize <= newSize) { return Err; }
    var out: seq<Range> := [];
    if oldSize != 0 {
      out := WalkConsistency(oldSize, 0, newSize, true, out);
      assert [] + ConsistencyPath(oldSize, 0, newSize, true) == ConsistencyPath(oldSize, 0, newSize, true);
    }
    return Ok(out);
  }

  /** How many of the ranges hold leaf `p`. */
  function Cover(rs: seq<Range>, p: nat): nat {
    if rs == [] then 0
    else Cover(rs[..|rs| - 1], p) + if rs[|rs| - 1].Holds(p) then 1 else 0
  }

  lemma CoverEmpty(p: nat)
    ensures Cover([], p) == 0
  {
  }

  lemma CoverSnoc(rs: seq<Range>, r: Range, p: nat)
    ensures Cover(rs + [r], p) == Cover(rs, p) + if r.Holds(p) then 1 else 0
  {
    assert (rs + [r])[..|rs|] == rs;
  }

  /** The inclusion ranges and the leaf itself partition the subtree. */
  lemma {:induction false} InclusionPartition(index: u64, start: u64, size: u64, p: nat)
    requires index < size && start + size < U64_LIMIT
    ensures Cover(InclusionPath(index, start, size), p)
         == if start <= p < start + size && p != start + index then 1 else 0
    decreases size
  {
    CoverEmpty(p);
    hide Split, IsPowerOfTwo, Cover, AllWithin;
    if size > 1 {
      var k := Split(size);
      if index < k {
        InclusionPartition(index, start, k, p);
        CoverSnoc(InclusionPath(index, start, k), Range(start + k, size - k), p);
      } else {
        InclusionPartition(index - k, start + k, size - k, p);
        CoverSnoc(InclusionPath(index - k, start + k, size - k), Range(start, k), p);
      }
    }
  }

  /** Which leaves of a subtree a consistency path has to describe: all of them,
      unless the prefix is itself a subtree the verifier already holds. */
  predicate MustCover(prior: nat, start: nat, size: nat, complete: bool, p: nat) {
    (if complete && (prior == size || IsPowerOfTwo(prior)) then start + prior else start) <= p < start + size
  }

  /** The consistency ranges cover each leaf the verifier lacks exactly once. */
  lemma {:induction false} ConsistencyPartition(prior: u64, start: u64, size: u64, complete: bool, p: nat)
    requires 0 < prior <= size && start + size < U64_LIMIT
    ensures Cover(ConsistencyPath(prior, start, size, complete), p)
         == if MustCover(prior, start, size, complete, p) then 1 else 0
    decreases size
  {
    CoverEmpty(p);
    hide Split, IsPowerOfTwo, Cover, AllWithin;
    if prior < size {
      var k := Split(size);
      if prior <= k {
        ConsistencyPartition(prior, start, k, complete, p);
        CoverSnoc(ConsistencyPath(prior, start, k, complete), Range(start + k, size - k), p);
      } else {
        ConsistencyPartition(prior - k, start + k, size - k, false, p);
        CoverSnoc(ConsistencyPath(prior - k, start + k, size - k, false), Range(start, k), p);
        if IsPowerOfTwo(prior) { PowerOfTwoUnique(k, prior); }
      }
    } else if !complete {
      CoverSnoc([], Range(start, size), p);
      assert [] + [Range(start, size)] == [Range(start, size)];
    }
  }

  /** No consistency range straddles the old boundary. */
  lemma {:induction false} ConsistencyBoundary(prior: u64, start: u64, size: u64, complete: bool, r: Range)
    requires 0 < prior <= size && start + size < U64_LIMIT
    requires r in ConsistencyPath(prior, start, size, complete)
    ensures r.start + r.size <= start + prior || start + prior <= r.start
    decreases size
  {
    hide Split, IsPowerOfTwo;
    if prior < size {
      var k := Split(size);
      if prior <= k {
        if r in ConsistencyPath(prior, start, k, complete) { ConsistencyBoundary(prior, start, k, complete, r); }
      } else {
        if r in ConsistencyPath(prior - k, start + k, size - k, false) {
          ConsistencyBoundary(prior - k, start + k, size - k, false, r);
        }
      }
    }
  }
}
