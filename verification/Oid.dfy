/** `oid_to_dotted` (`crypto/timestamp.rs`): base-128 arcs into 64-bit numbers. */
module ObjectIdentifiers {
  import opened Numbers
  import opened Outcome
  import opened Merkle
  import opened Text

  /** The number that base-128 digits denote, continuation bits ignored. */
  function Base128(b: Bytes): nat {
    if b == [] then 0 else 128 * Base128(b[..|b| - 1]) + b[|b| - 1] % 128
  }

  /** The bytes of the arc still open at the end. */
  function Open(b: Bytes): Bytes {
    if b == [] || b[|b| - 1] < 128 then [] else Open(b[..|b| - 1]) + [b[|b| - 1]]
  }

  /** The values of the complete arcs, unbounded. */
  function Arcs(b: Bytes): seq<nat> {
    if b == [] then []
    else
      var n := |b| - 1;
      if b[n] < 128 then Arcs(b[..n]) + [Base128(Open(b[..n]) + [b[n]])] else Arcs(b[..n])
  }

  lemma Base128Snoc(b: Bytes, x: byte)
    ensures Base128(b + [x]) == 128 * Base128(b) + x % 128
  {
    assert (b + [x])[..|b|] == b;
  }

  /** One byte more. */
  lemma OneByte(b: Bytes, x: byte)
    ensures x >= 128 ==> Open(b + [x]) == Open(b) + [x] && Arcs(b + [x]) == Arcs(b)
    ensures x < 128 ==> Open(b + [x]) == [] && Arcs(b + [x]) == Arcs(b) + [Base128(Open(b) + [x])]
  {
    assert (b + [x])[..|b|] == b;
  }

  predicate AllFit(arcs: seq<nat>) { forall a <- arcs :: a < U64_LIMIT }

  /** What decodes: every complete arc below 2^64, and nothing of value left open. */
  predicate Decodable(rest: Bytes) { AllFit(Arcs(rest)) && Base128(Open(rest)) == 0 }

  lemma {:induction false} ArcsStay(rest: Bytes, i: nat, a: nat)
    requires i <= |rest| && a in Arcs(rest[..i])
    ensures a in Arcs(rest)
    decreases |rest| - i
  {
    hide Arcs, Open, Base128;
    if i == |rest| {
      assert rest[..i] == rest;
    } else {
      OneByte(rest[..i], rest[i]);
      assert rest[..i + 1] == rest[..i] + [rest[i]];
      ArcsStay(rest, i + 1, a);
    }
  }

  /** An open arc at 2^57 or more with a byte to come never decodes. */
  lemma {:induction false} Doomed(rest: Bytes, i: nat)
    requires i < |rest| && Base128(Open(rest[..i])) >= 0x200_0000_0000_0000
    ensures !Decodable(rest)
    decreases |rest| - i
  {
    var open := Open(rest[..i]);
    Base128Snoc(open, rest[i]);
    OneByte(rest[..i], rest[i]);
    assert rest[..i + 1] == rest[..i] + [rest[i]];
    if rest[i] < 128 {
      var arcs := Arcs(rest[..i + 1]);
      assert arcs[|arcs| - 1] in arcs && arcs[|arcs| - 1] >= U64_LIMIT;
      ArcsStay(rest, i + 1, arcs[|arcs| - 1]);
    } else if i + 1 < |rest| {
      Doomed(rest, i + 1);
    } else {
      assert rest[..i + 1] == rest;
    }
  }

  lemma LowSeven(value: nat, byte7: nat)
    requires value < 0x200_0000_0000_0000 && byte7 < 128
    ensures 128 * value + byte7 < U64_LIMIT
  {
  }

  lemma NothingOpen()
    ensures Base128([]) == 0
  {
  }

  /** One turn of the loop. */
  lemma Turn(rest: Bytes, i: nat)
    requires i < |rest| && Base128(Open(rest[..i])) < 0x200_0000_0000_0000
    ensures
      var next := 128 * Base128(Open(rest[..i])) + rest[i] % 128;
      && next < U64_LIMIT
      && (rest[i] >= 128 ==> Base128(Open(rest[..i + 1])) == next && Arcs(rest[..i + 1]) == Arcs(rest[..i]))
      && (rest[i] < 128 ==> Base128(Open(rest[..i + 1])) == 0 && Arcs(rest[..i + 1]) == Arcs(rest[..i]) + [next])
  {
    NothingOpen();
    hide Arcs, Open, Base128;
    Base128Snoc(Open(rest[..i]), rest[i]);
    OneByte(rest[..i], rest[i]);
    assert rest[..i + 1] == rest[..i] + [rest[i]];
    LowSeven(Base128(Open(rest[..i])), rest[i] % 128);
  }

  lemma NothingYet()
    ensures Arcs([]) == [] && Open([]) == [] && Base128([]) == 0
  {
  }

  /** The numbers that are printed, dots apart. Decoding is exact for complete arcs below
      2^64, and refused exactly when an arc reaches 2^64 or a value is left open. */
  method OidToDotted(raw: Bytes) returns (parts: Result<seq<nat>>)
    ensures parts.Ok? <==> raw != [] && Decodable(raw[1..])
    ensures parts.Ok? ==> parts.value == [raw[0] / 40, raw[0] % 40] + Arcs(raw[1..])
  {
    hide Arcs, Open, Base128;
    if raw == [] { return Err; }
    var first, rest := raw[0], raw[1..];
    var value: u64 := 0;
    var head: seq<nat> := [first / 40, first % 40];
    var arcs: seq<nat> := [];
    NothingYet();
    assert rest[..0] == [];
    for i := 0 to |rest|
      invariant arcs == Arcs(rest[..i]) && AllFit(arcs) && value == Base128(Open(rest[..i]))
    {
      if value >= 0x200_0000_0000_0000 {
        Doomed(rest, i);
        return Err;
      }
      Turn(rest, i);
      value := 128 * value + rest[i] % 128;
      if rest[i] < 128 {
        arcs := arcs + [value];
        value := 0;
      }
    }
    assert rest[..|rest|] == rest;
    if value != 0 { return Err; }
    return Ok(head + arcs);
  }

  function Printed(arcs: seq<nat>): seq<string> { seq(|arcs|, i requires 0 <= i < |arcs| => Decimal(arcs[i])) }

  /** `parts.join(".")` of the printed numbers. */
  function Dotted(arcs: seq<nat>): string { Join(Printed(arcs), '.') }

  lemma DecimalHasNoDot(n: nat)
    ensures '.' !in Decimal(n)
  {
  }

  lemma PrintedFree(arcs: seq<nat>)
    ensures Free(Printed(arcs), '.')
  {
    hide Decimal;
    forall p <- Printed(arcs) ensures '.' !in p {
      var i :| 0 <= i < |arcs| && Printed(arcs)[i] == p;
      DecimalHasNoDot(arcs[i]);
    }
  }

  /** Dotted text names one list of numbers. */
  lemma DottedUnique(arcs: seq<nat>, others: seq<nat>)
    requires arcs != [] && others != [] && Dotted(arcs) == Dotted(others)
    ensures arcs == others
  {
    hide Decimal;
    PrintedFree(arcs);
    PrintedFree(others);
    JoinUnique(Printed(arcs), Printed(others), '.');
    forall i | 0 <= i < |arcs| ensures arcs[i] == others[i] {
      assert Printed(arcs)[i] == Printed(others)[i];
      DecimalInjective(arcs[i], others[i]);
    }
  }

  // ---------------------------------------------------------------------
  // Round trip
  // ---------------------------------------------------------------------

  /** Base-128 digits, all with the continuation bit. */
  function HighDigits(n: nat): (b: Bytes)
    ensures forall x <- b :: x >= 128
  {
    if n == 0 then [] else HighDigits(n / 128) + [128 + n % 128]
  }

  /** The shortest encoding of an arc. */
  function Arc(n: nat): (b: Bytes)
    ensures b != [] && b[|b| - 1] < 128
  {
    HighDigits(n / 128) + [n % 128]
  }

  function Encoded(arcs: seq<nat>): Bytes {
    if arcs == [] then [] else Encoded(arcs[..|arcs| - 1]) + Arc(arcs[|arcs| - 1])
  }

  lemma {:induction false} ValueOfHigh(n: nat)
    ensures Base128(HighDigits(n)) == n
  {
    if n > 0 {
      assert HighDigits(n) == HighDigits(n / 128) + [128 + n % 128];
      assert 128 * (n / 128) + n % 128 == n;
      hide HighDigits, Base128;
      ValueOfHigh(n / 128);
      Base128Snoc(HighDigits(n / 128), 128 + n % 128);
    }
  }

  lemma SevenBits(n: nat)
    ensures 128 * (n / 128) + n % 128 == n && n % 128 % 128 == n % 128
  {
  }

  lemma ValueOfArc(n: nat)
    ensures Base128(HighDigits(n / 128) + [n % 128]) == n
  {
    hide Base128, HighDigits;
    SevenBits(n);
    ValueOfHigh(n / 128);
    Base128Snoc(HighDigits(n / 128), n % 128);
  }

  lemma {:induction false} HighStaysOpen(b: Bytes, high: Bytes)
    requires Open(b) == [] && forall i :: 0 <= i < |high| ==> high[i] >= 128
    ensures Open(b + high) == high && Arcs(b + high) == Arcs(b)
    decreases |high|
  {
    hide Open, Arcs;
    if high == [] {
      assert b + high == b;
    } else {
      var n := |high| - 1;
      assert high == high[..n] + [high[n]];
      HighStaysOpen(b, high[..n]);
      assert b + high == (b + high[..n]) + [high[n]];
      OneByte(b + high[..n], high[n]);
    }
  }

  lemma ArcCloses(before: Bytes, a: nat)
    requires Open(before) == []
    ensures Open(before + Arc(a)) == [] && Arcs(before + Arc(a)) == Arcs(before) + [a]
  {
    hide Open, Arcs, HighDigits;
    var high := HighDigits(a / 128);
    assert forall i :: 0 <= i < |high| ==> high[i] in high;
    HighStaysOpen(before, high);
    OneByte(before + high, a % 128);
    ValueOfArc(a);
    assert before + Arc(a) == (before + high) + [a % 128];
  }

  lemma {:induction false} ArcsOfEncoded(arcs: seq<nat>)
    ensures Open(Encoded(arcs)) == [] && Arcs(Encoded(arcs)) == arcs
  {
    hide Open, Arcs, Arc;
    NothingYet();
    if arcs != [] {
      var n := |arcs| - 1;
      ArcsOfEncoded(arcs[..n]);
      ArcCloses(Encoded(arcs[..n]), arcs[n]);
      assert arcs == arcs[..n] + [arcs[n]];
    }
  }

  /** Complete arcs decode back exactly, or are refused precisely when one is at least 2^64. */
  lemma EncodedDecodes(arcs: seq<nat>)
    ensures Decodable(Encoded(arcs)) <==> AllFit(arcs)
    ensures Arcs(Encoded(arcs)) == arcs
  {
    ArcsOfEncoded(arcs);
  }

  /** The first two arcs of section 8.19.4 of ITU-T X.690: 40 times the first, which is
      at most 2, plus the second. */
  function FirstTwo(subidentifier: nat): (nat, nat) {
    if subidentifier < 80 then (subidentifier / 40, subidentifier % 40) else (2, subidentifier - 80)
  }

  /** The split by 40 is the standard one exactly below 120. */
  lemma FirstByteExact(first: byte)
    ensures (first / 40, first % 40) == FirstTwo(first) <==> first < 120
  {
  }

  /** An arc cut off while its value is zero is accepted and not printed. */
  lemma ZeroTailAccepted(arcs: seq<nat>)
    requires AllFit(arcs)
    ensures Decodable(Encoded(arcs) + [128]) && Arcs(Encoded(arcs) + [128]) == arcs
  {
    hide Open, Arcs;
    ArcsOfEncoded(arcs);
    OneByte(Encoded(arcs), 128);
    Base128Snoc([], 128);
    NothingOpen();
  }
}
