/** The two-stack machine of `range_root` (`publication/tiles.rs`): what it leaves and costs. */
module TileStack {
  import opened Numbers
  import opened Outcome
  import opened Merkle
  import opened Subtrees

  /** One entry of the `pending` stack. */
  datatype Work = Work(start: u64, size: u64, join: bool)

  ghost predicate Sane(pending: seq<Work>, treeSize: nat) {
    forall w <- pending :: 0 < w.size && w.start + w.size <= treeSize
  }

  /** What the two stacks will leave on the root stack when every hash read is the log's own. */
  ghost function Drain(H: Digest, D: Log, pending: seq<Work>, roots: seq<Hash>): Option<seq<Hash>>
    requires Sane(pending, |D|)
    decreases |pending|
  {
    if pending == [] then Some(roots)
    else
      var n, r := |pending| - 1, |roots|;
      var w := pending[n];
      if w.join then
        if r < 2 then None
        else Drain(H, D, pending[..n], roots[..r - 2] + [NodeHash(H, roots[r - 2], roots[r - 1])])
      else Drain(H, D, pending[..n], roots + [Root(H, D, w.start, w.size)])
  }

  /** Replacing a range by its two halves and a join changes nothing. */
  function Expanded(below: seq<Work>, start: u64, size: u64): seq<Work>
    requires size >= 2 && start + size < U64_LIMIT
  {
    var k := Split(size);
    below + [Work(start, size, true), Work(start + k, size - k, false), Work(start, k, false)]
  }

  lemma ExpandedText(below: seq<Work>, start: u64, size: u64)
    requires size >= 2 && start + size < U64_LIMIT
    ensures
      var k := Split(size);
      Expanded(below, start, size)
        == below + [Work(start, size, true)] + [Work(start + k, size - k, false)] + [Work(start, k, false)]
  {
    hide Split;
  }

  /** How many roots the two stacks will leave, whatever the hashes are; `None` when a join would
      find fewer than two. */
  ghost function Tally(pending: seq<Work>, r: nat): Option<nat>
    decreases |pending|
  {
    if pending == [] then Some(r)
    else
      var n := |pending| - 1;
      if !pending[n].join then Tally(pending[..n], r + 1)
      else if r < 2 then None
      else Tally(pending[..n], r - 1)
  }

  lemma TallySnoc(below: seq<Work>, w: Work, r: nat)
    ensures Tally(below + [w], r)
         == if !w.join then Tally(below, r + 1) else if r < 2 then None else Tally(below, r - 1)
  {
    assert (below + [w])[..|below|] == below;
  }

  lemma TallyExpanded(below: seq<Work>, start: u64, size: u64, r: nat)
    requires size >= 2 && start + size < U64_LIMIT
    ensures Tally(Expanded(below, start, size), r) == Tally(below + [Work(start, size, false)], r)
  {
    hide Split, Tally, Expanded;
    var k := Split(size);
    ExpandedText(below, start, size);
    var j, b, a := Work(start, size, true), Work(start + k, size - k, false), Work(start, k, false);
    TallySnoc(below + [j] + [b], a, r);
    TallySnoc(below + [j], b, r + 1);
    TallySnoc(below, j, r + 2);
    TallySnoc(below, Work(start, size, false), r);
  }

  /** Subtree reads still ahead. */
  ghost function Ahead(pending: seq<Work>): nat {
    if pending == [] then 0
    else
      var n := |pending| - 1;
      Ahead(pending[..n]) + if pending[n].join then 0 else Pieces(pending[n].size)
  }

  /** Bounds the number of loop rounds still ahead. */
  ghost function Fuel(pending: seq<Work>): nat
    requires forall w <- pending :: 0 < w.size
  {
    if pending == [] then 0
    else Fuel(pending[..|pending| - 1]) + if pending[|pending| - 1].join then 1 else 3 * pending[|pending| - 1].size - 2
  }

  ghost predicate AllAligned(pending: seq<Work>) {
    forall w <- pending :: 0 < w.size && (!w.join ==> Aligned(w.start, w.size))
  }

  lemma DrainStep(H: Digest, D: Log, below: seq<Work>, w: Work, roots: seq<Hash>)
    requires Sane(below, |D|) && 0 < w.size && w.start + w.size <= |D| && !w.join
    ensures Sane(below + [w], |D|)
    ensures Drain(H, D, below + [w], roots) == Drain(H, D, below, roots + [Root(H, D, w.start, w.size)])
  {
    hide Root;
    assert (below + [w])[..|below|] == below;
  }

  lemma DrainJoin(H: Digest, D: Log, below: seq<Work>, w: Work, roots: seq<Hash>, left: Hash, right: Hash)
    requires Sane(below, |D|) && 0 < w.size && w.start + w.size <= |D| && w.join
    ensures Sane(below + [w], |D|)
    ensures Drain(H, D, below + [w], roots + [left] + [right]) == Drain(H, D, below, roots + [NodeHash(H, left, right)])
  {
    hide Root, NodeHash;
    assert (below + [w])[..|below|] == below;
    assert (roots + [left] + [right])[..|roots|] == roots;
  }

  lemma DrainExpanded(H: Digest, D: Log, below: seq<Work>, start: u64, size: u64, roots: seq<Hash>)
    requires size >= 2 && start + size < U64_LIMIT && start + size <= |D| && Sane(below, |D|)
    ensures Sane(Expanded(below, start, size), |D|) && Sane(below + [Work(start, size, false)], |D|)
    ensures Drain(H, D, Expanded(below, start, size), roots) == Drain(H, D, below + [Work(start, size, false)], roots)
  {
    hide Split, Root, Drain, NodeHash, Sane, Expanded;
    RootSplit(H, D, start, size);
    var k := Split(size);
    ExpandedText(below, start, size);
    var left, right := Root(H, D, start, k), Root(H, D, start + k, size - k);
    var j, b, a := Work(start, size, true), Work(start + k, size - k, false), Work(start, k, false);
    DrainStep(H, D, below, Work(start, size, false), roots);
    DrainJoin(H, D, below, j, roots, left, right);
    DrainStep(H, D, below + [j], b, roots + [left]);
    DrainStep(H, D, below + [j] + [b], a, roots);
  }

  lemma AheadSnoc(below: seq<Work>, w: Work)
    ensures Ahead(below + [w]) == Ahead(below) + if w.join then 0 else Pieces(w.size)
  {
    assert (below + [w])[..|below|] == below;
  }

  lemma FuelSnoc(below: seq<Work>, w: Work)
    requires 0 < w.size && forall v <- below :: 0 < v.size
    ensures Fuel(below + [w]) == Fuel(below) + if w.join then 1 else 3 * w.size - 2
  {
    assert (below + [w])[..|below|] == below;
  }

  lemma CountersExpanded(below: seq<Work>, start: u64, size: u64)
    requires size >= 2 && start + size < U64_LIMIT && !IsPowerOfTwo(size)
    requires forall v <- below :: 0 < v.size
    ensures forall v <- Expanded(below, start, size) :: 0 < v.size
    ensures Ahead(Expanded(below, start, size)) == Ahead(below) + Pieces(size)
    ensures Fuel(Expanded(below, start, size)) < Fuel(below) + 3 * size - 2
  {
    assert Pieces(size) == Pieces(Split(size)) + Pieces(size - Split(size));
    hide Split, IsPowerOfTwo, Pieces, Ahead, Fuel;
    var k := Split(size);
    ExpandedText(below, start, size);
    var j, b, a := Work(start, size, true), Work(start + k, size - k, false), Work(start, k, false);
    AheadSnoc(below + [j] + [b], a);
    AheadSnoc(below + [j], b);
    AheadSnoc(below, j);
    FuelSnoc(below + [j] + [b], a);
    FuelSnoc(below + [j], b);
    FuelSnoc(below, j);
  }

  lemma AlignedExpanded(below: seq<Work>, start: u64, size: u64)
    requires size >= 2 && start + size < U64_LIMIT && Aligned(start, size)
    requires AllAligned(below)
    ensures AllAligned(Expanded(below, start, size))
  {
    AlignedSplit(start, size);
    hide Split, Aligned;
  }

  lemma PerfectAligned(start: u64, size: u64)
    requires IsPowerOfTwo(size) && Aligned(start, size)
    ensures start % size == 0
  {
    CeilingIsPower(size);
  }

  /** `Fuel`, made total for use as a loop variant. */
  ghost function FuelOf(pending: seq<Work>, treeSize: nat): nat {
    if Sane(pending, treeSize) then Fuel(pending) else 0
  }

  lemma StackEnd(H: Digest, D: Log, roots: seq<Hash>)
    ensures Drain(H, D, [], roots) == Some(roots) && Tally([], |roots|) == Some(|roots|) && Ahead([]) == 0
  {
  }

  lemma StackStart(H: Digest, D: Log, start: u64, size: u64)
    requires 0 < size && start + size <= |D|
    ensures
      var p := [Work(start, size, false)];
      && Sane(p, |D|) && Ahead(p) == Pieces(size) && Tally(p, 0) == Some(1)
      && (Aligned(start, size) ==> AllAligned(p))
      && Drain(H, D, p, []) == Some([Root(H, D, start, size)])
  {
    hide Root, Pieces, Aligned, Drain, Tally, Ahead;
    var w, root := Work(start, size, false), Root(H, D, start, size);
    assert [] + [w] == [w] && [] + [root] == [root];
    StackEnd(H, D, [root]);
    AheadSnoc([], w);
    TallySnoc([], w, 0);
    DrainStep(H, D, [], w, []);
  }

  /** What popping `w` means for every measure of the stacks. */
  lemma StackPop(H: Digest, D: Log, below: seq<Work>, w: Work, roots: seq<Hash>)
    requires Sane(below + [w], |D|)
    ensures Sane(below, |D|) && 0 < w.size && w.start + w.size <= |D|
    ensures AllAligned(below + [w]) ==> AllAligned(below) && (!w.join ==> Aligned(w.start, w.size))
    ensures Ahead(below + [w]) == Ahead(below) + if w.join then 0 else Pieces(w.size)
    ensures Fuel(below) < Fuel(below + [w])
    ensures Tally(below + [w], |roots|) != None ==>
      (w.join ==> |roots| >= 2)
      && Tally(below + [w], |roots|) == Tally(below, if w.join then |roots| - 1 else |roots| + 1)
    ensures !w.join ==> Drain(H, D, below + [w], roots) == Drain(H, D, below, roots + [Root(H, D, w.start, w.size)])
    ensures w.join && |roots| < 2 ==> Drain(H, D, below + [w], roots) == None
    ensures w.join && |roots| >= 2 ==>
      var n := |roots|;
      Drain(H, D, below + [w], roots) == Drain(H, D, below, roots[..n - 2] + [NodeHash(H, roots[n - 2], roots[n - 1])])
  {
    hide Root, Pieces, Aligned, NodeHash;
    assert w in below + [w];
    forall v <- below ensures 0 < v.size && v.start + v.size <= |D| { assert v in below + [w]; }
    AheadSnoc(below, w);
    FuelSnoc(below, w);
    TallySnoc(below, w, |roots|);
    assert (below + [w])[..|below|] == below;
    if AllAligned(below + [w]) {
      forall v <- below ensures 0 < v.size && (!v.join ==> Aligned(v.start, v.size)) { assert v in below + [w]; }
    }
  }

  lemma StackExpand(H: Digest, D: Log, below: seq<Work>, w: Work, roots: seq<Hash>)
    requires Sane(below, |D|) && 0 < w.size && w.start + w.size <= |D| < U64_LIMIT && !w.join && !IsPowerOfTwo(w.size)
    ensures w.size >= 2
    ensures
      var p := Expanded(below, w.start, w.size);
      && Sane(p, |D|)
      && Ahead(p) == Ahead(below) + Pieces(w.size)
      && (AllAligned(below) && Aligned(w.start, w.size) ==> AllAligned(p))
      && Fuel(p) < Fuel(below + [w])
      && Tally(p, |roots|) == Tally(below, |roots| + 1)
      && Drain(H, D, p, roots) == Drain(H, D, below, roots + [Root(H, D, w.start, w.size)])
  {
    assert w.size >= 2;
    hide Root, Pieces, Aligned, IsPowerOfTwo, AllAligned, Expanded, Drain, Split, Ahead, Fuel, Tally;
    TallyExpanded(below, w.start, w.size, |roots|);
    TallySnoc(below, w, |roots|);
    CountersExpanded(below, w.start, w.size);
    FuelSnoc(below, w);
    DrainExpanded(H, D, below, w.start, w.size, roots);
    DrainStep(H, D, below, w, roots);
    assert w == Work(w.start, w.size, false);
    if AllAligned(below) && Aligned(w.start, w.size) { AlignedExpanded(below, w.start, w.size); }
  }
}
