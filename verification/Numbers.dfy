/** Machine integers and powers of two, as the log code uses them.

    Sizes, indices and starts of ranges are 64-bit. The split point of a tree is computed
    with a shift by leading zeros; that it is the power of two RFC 6962 asks for, and
    that nothing overflows on the way, is shown here once for all that follows. */
module Numbers {

  const U64_LIMIT: int := 0x1_0000_0000_0000_0000

  type byte = x: int | 0 <= x < 256
  type u64 = x: int | 0 <= x < U64_LIMIT

  function Pow2(e: nat): (p: nat)
    ensures p >= 1
  {
    if e == 0 then 1 else 2 * Pow2(e - 1)
  }

  /** Number of bits needed to write `x`; `64 - BitLength(x)` is Rust's `leading_zeros`. */
  function BitLength(x: nat): (b: nat)
    ensures x > 0 ==> b > 0
  {
    if x == 0 then 0 else 1 + BitLength(x / 2)
  }

  function TrailingZeros(x: nat): nat
    requires x > 0
  {
    if x % 2 == 1 then 0 else 1 + TrailingZeros(x / 2)
  }

  predicate IsPowerOfTwo(x: nat) {
    x == 1 || (x > 1 && x % 2 == 0 && IsPowerOfTwo(x / 2))
  }

  lemma {:induction false} Pow2Monotone(a: nat, b: nat)
    requires a <= b
    ensures Pow2(a) <= Pow2(b)
    ensures a < b ==> 2 * Pow2(a) <= Pow2(b)
    decreases b
  {
    if a < b { Pow2Monotone(a, b - 1); }
  }

  lemma DoubleProduct(x: nat, y: nat)
    ensures 2 * (x * y) == (2 * x) * y
  {
  }

  lemma {:induction false} Pow2Add(a: nat, b: nat)
    ensures Pow2(a + b) == Pow2(a) * Pow2(b)
  {
    if a > 0 {
      Pow2Add(a - 1, b);
      var x, y := Pow2(a - 1), Pow2(b);
      DoubleProduct(x, y);
    }
  }

  lemma {:induction false} BitLengthBounds(x: nat)
    requires x > 0
    ensures Pow2(BitLength(x) - 1) <= x < Pow2(BitLength(x))
  {
    if x > 1 { BitLengthBounds(x / 2); }
  }

  lemma {:induction false} BitLengthMonotone(x: nat, y: nat)
    requires x <= y
    ensures BitLength(x) <= BitLength(y)
  {
    if x > 0 { BitLengthMonotone(x / 2, y / 2); }
  }

  lemma {:induction false} BitLengthBelow(x: nat, e: nat)
    requires x < Pow2(e)
    ensures BitLength(x) <= e
  {
    if e > 0 && x > 0 { BitLengthBelow(x / 2, e - 1); }
  }

  lemma Pow2Double(e: nat)
    ensures Pow2(e + 1) == 2 * Pow2(e)
  {
  }

  lemma Pow2At8()
    ensures Pow2(7) == 128 && Pow2(8) == 256
  {
    assert Pow2(0) == 1;
    hide Pow2;
    Pow2Double(0);
    Pow2Double(1);
    Pow2Double(2);
    Pow2Double(3);
    Pow2Double(7);
    Pow2Add(4, 4);
  }

  lemma Pow2At64()
    ensures Pow2(7) == 128 && Pow2(8) == 256
    ensures Pow2(63) == 0x8000_0000_0000_0000
    ensures Pow2(64) == U64_LIMIT
  {
    hide Pow2;
    Pow2At8();
    Pow2Double(63);
    Pow2Add(8, 8);
    Pow2Add(16, 16);
    Pow2Add(32, 32);
  }

  lemma {:induction false} PowerOfTwoForm(x: nat)
    requires IsPowerOfTwo(x)
    ensures x == Pow2(TrailingZeros(x))
    ensures BitLength(x) == TrailingZeros(x) + 1
  {
    if x > 1 { PowerOfTwoForm(x / 2); }
  }

  lemma {:induction false} Pow2IsPowerOfTwo(e: nat)
    ensures IsPowerOfTwo(Pow2(e))
    ensures TrailingZeros(Pow2(e)) == e
  {
    if e > 0 { Pow2IsPowerOfTwo(e - 1); }
  }

  /** Two powers of two whose ratio lies below two are the same one. */
  lemma PowerOfTwoUnique(a: nat, b: nat)
    requires IsPowerOfTwo(a) && IsPowerOfTwo(b)
    requires a < 2 * b && b < 2 * a
    ensures a == b
  {
    PowerOfTwoForm(a);
    PowerOfTwoForm(b);
    var i, j := TrailingZeros(a), TrailingZeros(b);
    if i < j { Pow2Monotone(i, j); }
    if j < i { Pow2Monotone(j, i); }
  }

  /** `1u64 << (63 - (size - 1).leading_zeros())`: the largest power of two below `size`. */
  function Split(size: u64): (k: u64)
    requires size >= 2
    ensures IsPowerOfTwo(k) && k < size <= 2 * k
  {
    BitLengthBounds(size - 1);
    Pow2At64();
    BitLengthBelow(size - 1, 64);
    Pow2Monotone(BitLength(size - 1) - 1, 63);
    Pow2IsPowerOfTwo(BitLength(size - 1) - 1);
    var leadingZeros := 64 - BitLength(size - 1);
    Pow2(63 - leadingZeros)
  }

  /** RFC 6962 fixes the split point: no other power of two meets its two bounds. */
  lemma SplitUnique(size: u64, k: nat)
    requires size >= 2
    requires IsPowerOfTwo(k) && k < size <= 2 * k
    ensures k == Split(size)
  {
    PowerOfTwoUnique(k, Split(size));
  }

  /** The split point of a prefix that reaches past the split point is unchanged. */
  lemma SplitOfPrefix(m: u64, n: u64)
    requires 2 <= n && Split(n) < m <= n
    ensures m >= 2 && Split(m) == Split(n)
  {
    SplitUnique(m, Split(n));
  }

  lemma SplitOfPowerOfTwo(n: u64)
    requires IsPowerOfTwo(n) && n >= 2
    ensures Split(n) == n / 2 && IsPowerOfTwo(n / 2)
  {
    SplitUnique(n, n / 2);
  }

  lemma SplitIsPow2(n: u64)
    requires n >= 2
    ensures Split(n) == Pow2(BitLength(n - 1) - 1)
  {
    hide Pow2, BitLength, IsPowerOfTwo;
  }

  /** Height of a subtree falls by at least one on either side of the split. */
  lemma SplitHeights(n: u64)
    requires n >= 2
    ensures BitLength(Split(n) - 1) < BitLength(n - 1)
    ensures BitLength(n - Split(n) - 1) < BitLength(n - 1)
    ensures BitLength(n - 1) <= 64
  {
    hide BitLength, Pow2, Split, IsPowerOfTwo;
    var k, b := Split(n), BitLength(n - 1);
    SplitIsPow2(n);
    BitLengthBelow(k - 1, b - 1);
    BitLengthBelow(n - k - 1, b - 1);
    Pow2At64();
    BitLengthBelow(n - 1, 64);
  }
}
