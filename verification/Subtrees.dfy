/** How a range of leaves decomposes into perfect subtrees: alignment, and the
    number of subtree reads a proof needs.

    Ranges of a proof start at multiples of their size rounded up to a power of two,
    which is what the tile reader asks of a range it can read. */
module Subtrees {
  import opened Numbers
  import opened LogProofs

  /** The smallest power of two that is at least `size`. */
  function Ceiling(size: u64): nat
    requires size > 0
  {
    if size == 1 then 1 else 2 * Split(size)
  }

  /** Subtrees start at multiples of their own (rounded up) size. */
  predicate Aligned(start: nat, size: u64)
    requires size > 0
  {
    start % Ceiling(size) == 0
  }

  lemma CeilingIsPower(size: u64)
    requires size > 0
    ensures IsPowerOfTwo(Ceiling(size))
    ensures size <= Ceiling(size)
    ensures IsPowerOfTwo(size) ==> Ceiling(size) == size
  {
    if size > 1 {
      var k: nat := Split(size);
      assert (2 * k) / 2 == k && (2 * k) % 2 == 0;
      if IsPowerOfTwo(size) { SplitOfPowerOfTwo(size); }
    }
  }

  lemma CeilingBelow(size: u64, p: nat)
    requires 0 < size <= p && IsPowerOfTwo(p)
    ensures Ceiling(size) <= p
  {
    if size > 1 {
      var k := Split(size);
      PowerOfTwoForm(k);
      PowerOfTwoForm(p);
      var i, j := TrailingZeros(k), TrailingZeros(p);
      if i < j { Pow2Monotone(i, j); } else { Pow2Monotone(j, i); }
    }
  }

  lemma ProductGrows(p: int, d: int)
    requires p > 0
    ensures d > 0 ==> p * d >= p
    ensures d < 0 ==> p * d <= -p
  {
  }

  lemma DivModUnique(x: nat, p: nat, q: nat, r: nat)
    requires x == p * q + r && r < p
    ensures x / p == q && x % p == r
  {
    var d := x / p - q;
    assert x == p * (x / p) + x % p;
    assert p * d == p * (x / p) - p * q;
    ProductGrows(p, d);
  }

  lemma MultipleMod(p: nat, n: nat)
    requires p > 0
    ensures (p * n) % p == 0 && (p * n) / p == n
  {
    DivModUnique(p * n, p, n, 0);
  }

  lemma DividesThrough(x: nat, q: nat, p: nat, m: nat)
    requires p > 0 && m > 0 && q == p * m && x % q == 0
    ensures x % p == 0
  {
    var d := x / q;
    assert x == q * d;
    assert x == p * (m * d);
    MultipleMod(p, m * d);
  }

  /** Powers of two divide the larger ones. */
  lemma PowerDivides(p: nat, q: nat, x: nat)
    requires IsPowerOfTwo(p) && IsPowerOfTwo(q) && p <= q && x % q == 0
    ensures x % p == 0
  {
    PowerOfTwoForm(p);
    PowerOfTwoForm(q);
    hide IsPowerOfTwo, TrailingZeros, Pow2;
    var i, j := TrailingZeros(p), TrailingZeros(q);
    if i > j { Pow2Monotone(j, i); }
    Pow2Add(i, j - i);
    DividesThrough(x, q, p, Pow2(j - i));
  }

  lemma SumMod(x: nat, y: nat, p: nat)
    requires p > 0 && x % p == 0 && y % p == 0
    ensures (x + y) % p == 0
  {
    var a, b := x / p, y / p;
    assert x + y == p * (a + b);
    MultipleMod(p, a + b);
  }

  /** Both halves of an aligned subtree are aligned. */
  lemma AlignedSplit(start: nat, size: u64)
    requires size >= 2 && Aligned(start, size)
    ensures Aligned(start, Split(size))
    ensures Aligned(start + Split(size), size - Split(size))
  {
    var k: nat := Split(size);
    CeilingIsPower(size);
    CeilingIsPower(k);
    CeilingIsPower(size - k);
    PowerDivides(k, 2 * k, start);
    CeilingBelow(size - k, k);
    var c := Ceiling(size - k);
    MultipleMod(k, 1);
    SumMod(start, k, k);
    PowerDivides(c, k, start + k);
  }

  /** How many perfect subtrees a range of this size is folded from. */
  function Pieces(size: u64): (n: nat)
    ensures n > 0
  {
    if size == 0 || IsPowerOfTwo(size) then 1 else Pieces(Split(size)) + Pieces(size - Split(size))
  }

  lemma {:induction false} PiecesBound(size: u64)
    requires size > 0
    ensures Pieces(size) <= BitLength(size)
  {
    BitLengthBounds(size);
    if !IsPowerOfTwo(size) {
      var k: nat := Split(size);
      PowerOfTwoForm(k);
      PowerOfTwoForm(Ceiling(size)) by { CeilingIsPower(size); }
      PiecesBound(size - k);
      assert size != 2 * k by { CeilingIsPower(size); }
      BitLengthBelow(size - k, TrailingZeros(k));
      BitLengthMonotone(k, size);
    }
  }

  function TotalPieces(rs: seq<Range>): nat {
    if rs == [] then 0 else TotalPieces(rs[..|rs| - 1]) + Pieces(rs[|rs| - 1].size)
  }

  lemma TotalPiecesSnoc(rs: seq<Range>, r: Range)
    ensures TotalPieces(rs + [r]) == TotalPieces(rs) + Pieces(r.size)
  {
    assert (rs + [r])[..|rs|] == rs;
  }

  /** Every range of an inclusion proof is aligned. */
  lemma {:induction false} InclusionAligned(index: u64, start: u64, size: u64)
    requires index < size && start + size < U64_LIMIT && Aligned(start, size)
    ensures forall r <- InclusionPath(index, start, size) :: r.size > 0 && Aligned(r.start, r.size)
    decreases size
  {
    hide Split, IsPowerOfTwo, Aligned, AllWithin;
    if size > 1 {
      hide InclusionPath, PathLength;
      var k := Split(size);
      InclusionPathStep(index, start, size);
      AlignedSplit(start, size);
      if index < k {
        InclusionAligned(index, start, k);
      } else {
        InclusionAligned(index - k, start + k, size - k);
      }
    }
  }

  lemma {:induction false} ConsistencyAligned(prior: u64, start: u64, size: u64, complete: bool)
    requires 0 < prior <= size && start + size < U64_LIMIT && Aligned(start, size)
    ensures forall r <- ConsistencyPath(prior, start, size, complete) :: r.size > 0 && Aligned(r.start, r.size)
    decreases size
  {
    hide Split, IsPowerOfTwo, Aligned, AllWithin;
    if prior < size {
      hide ConsistencyPath, ConsistencyLength;
      var k := Split(size);
      ConsistencyPathStep(prior, start, size, complete);
      AlignedSplit(start, size);
      if prior <= k {
        ConsistencyAligned(prior, start, k, complete);
      } else {
        ConsistencyAligned(prior - k, start + k, size - k, false);
      }
    }
  }

  lemma PerfectHalf(size: u64)
    requires IsPowerOfTwo(size) && size >= 2
    ensures
      var k := Split(size);
      && IsPowerOfTwo(k) && size - k == k && Pieces(k) == 1
      && BitLength(size - 1) == 1 + BitLength(k - 1)
  {
    SplitOfPowerOfTwo(size);
  }

  lemma PiecesOfOne(size: u64)
    requires IsPowerOfTwo(size)
    ensures Pieces(size) == 1
  {
  }

  lemma TotalPiecesEmpty()
    ensures TotalPieces([]) == 0
  {
  }

  /** Below a split, a proof meets perfect subtrees only: one read per level. */
  lemma LeafPieces(start: u64)
    requires start + 1 < U64_LIMIT
    ensures TotalPieces(InclusionPath(0, start, 1)) == BitLength(0)
  {
  }

  lemma {:induction false} PerfectInclusionPieces(index: u64, start: u64, size: u64)
    requires index < size && start + size < U64_LIMIT && IsPowerOfTwo(size)
    ensures TotalPieces(InclusionPath(index, start, size)) == BitLength(size - 1)
    decreases size
  {
    hide Split, Pieces, TotalPieces, IsPowerOfTwo, AllWithin, InclusionPath, PathLength, BitLength;
    if size == 1 {
      LeafPieces(start);
    } else {
      var k := Split(size);
      PerfectHalf(size);
      InclusionPathStep(index, start, size);
      if index < k {
        PerfectInclusionPieces(index, start, k);
        TotalPiecesSnoc(InclusionPath(index, start, k), Range(start + k, k));
      } else {
        PerfectInclusionPieces(index - k, start + k, k);
        TotalPiecesSnoc(InclusionPath(index - k, start + k, k), Range(start, k));
      }
    }
  }

  lemma RemainderPieces(size: u64)
    requires size >= 2
    ensures Pieces(size - Split(size)) <= BitLength(size - 1)
    ensures BitLength(Split(size) - 1) < BitLength(size - 1)
    ensures Pieces(Split(size)) == 1
  {
    hide Split, BitLength, Pieces, IsPowerOfTwo;
    var k := Split(size);
    SplitHeights(size);
    PiecesOfOne(k);
    PiecesBound(size - k);
    BitLengthMonotone(size - k, size - 1);
  }

  lemma HeightBound(size: u64)
    requires size > 0
    ensures BitLength(size - 1) <= 64
  {
    Pow2At64();
    BitLengthBelow(size - 1, 64);
  }

  /** An inclusion proof needs at most two subtree reads per level. */
  lemma {:induction false} InclusionPieces(index: u64, start: u64, size: u64)
    requires index < size && start + size < U64_LIMIT
    ensures TotalPieces(InclusionPath(index, start, size)) <= 2 * BitLength(size - 1) <= 128
    decreases size
  {
    TotalPiecesEmpty();
    hide Split, IsPowerOfTwo, BitLength, Pieces, TotalPieces, AllWithin;
    HeightBound(size);
    if size > 1 {
      var k := Split(size);
      SplitHeights(size);
      RemainderPieces(size);
      if index < k {
        PerfectInclusionPieces(index, start, k);
        TotalPiecesSnoc(InclusionPath(index, start, k), Range(start + k, size - k));
      } else {
        InclusionPieces(index - k, start + k, size - k);
        TotalPiecesSnoc(InclusionPath(index - k, start + k, size - k), Range(start, k));
      }
    }
  }

  lemma {:induction false} PerfectConsistencyPieces(prior: u64, start: u64, size: u64, complete: bool)
    requires 0 < prior <= size && start + size < U64_LIMIT && IsPowerOfTwo(size)
    ensures TotalPieces(ConsistencyPath(prior, start, size, complete)) <= BitLength(size - 1) + 1
    decreases size
  {
    TotalPiecesEmpty();
    hide Split, Pieces, TotalPieces, IsPowerOfTwo, BitLength, AllWithin;
    if prior < size {
      var k := Split(size);
      PerfectHalf(size);
      if prior <= k {
        PerfectConsistencyPieces(prior, start, k, complete);
        TotalPiecesSnoc(ConsistencyPath(prior, start, k, complete), Range(start + k, k));
      } else {
        PerfectConsistencyPieces(prior - k, start + k, k, false);
        TotalPiecesSnoc(ConsistencyPath(prior - k, start + k, k, false), Range(start, k));
      }
    } else {
      PiecesOfOne(size);
      TotalPiecesSnoc([], Range(start, size));
      assert [] + [Range(start, size)] == [Range(start, size)];
    }
  }

  /** A consistency proof between different sizes needs no more than two reads per level. */
  lemma {:induction false} ConsistencyPieces(prior: u64, start: u64, size: u64, complete: bool)
    requires 0 < prior < size && start + size < U64_LIMIT
    ensures TotalPieces(ConsistencyPath(prior, start, size, complete)) <= 2 * BitLength(size - 1) <= 128
    decreases size
  {
    hide Split, IsPowerOfTwo, BitLength, Pieces, TotalPieces, AllWithin;
    var k := Split(size);
    SplitHeights(size);
    RemainderPieces(size);
    if prior <= k {
      PerfectConsistencyPieces(prior, start, k, complete);
      TotalPiecesSnoc(ConsistencyPath(prior, start, k, complete), Range(start + k, size - k));
    } else {
      ConsistencyPieces(prior - k, start + k, size - k, false);
      TotalPiecesSnoc(ConsistencyPath(prior - k, start + k, size - k, false), Range(start, k));
    }
  }
}
