/** The two definite-length DER readers: the strict one of `identity.rs` and the lax one
    of `crypto/timestamp.rs`, with `retag_as_set`. Sizes are 64-bit. */
module DerReading {
  import opened Numbers
  import opened Outcome
  import opened Merkle

  // ---------------------------------------------------------------------
  // Big-endian numbers
  // ---------------------------------------------------------------------

  /** The number that bytes denote, most significant first. */
  function Value(b: Bytes): nat {
    if b == [] then 0 else 256 * Value(b[..|b| - 1]) + b[|b| - 1]
  }

  /** The shortest big-endian form. */
  function Digits(n: nat): (b: Bytes)
    ensures b != [] && (n > 0 ==> b[0] != 0)
  {
    if n < 256 then [n] else Digits(n / 256) + [n % 256]
  }

  lemma {:induction false} ValueOfDigits(n: nat)
    ensures Value(Digits(n)) == n
  {
    if n < 256 {
      assert Digits(n)[..0] == [];
    } else {
      ValueOfDigits(n / 256);
      assert Digits(n)[..|Digits(n)| - 1] == Digits(n / 256);
    }
  }

  lemma LowByte(q: nat, r: byte)
    ensures (256 * q + r) / 256 == q && (256 * q + r) % 256 == r
  {
  }

  lemma {:induction false} DigitsOfValue(b: Bytes)
    requires b != [] && b[0] != 0
    ensures Digits(Value(b)) == b && Value(b) > 0
    decreases |b|
  {
    var n := |b| - 1;
    if n == 0 {
      assert b[..0] == [] && Value(b) == b[0];
    } else {
      DigitsOfValue(b[..n]);
      LowByte(Value(b[..n]), b[n]);
      assert b == b[..n] + [b[n]];
    }
  }

  function Power(k: nat): (p: nat)
    ensures p > 0
  {
    if k == 0 then 1 else 256 * Power(k - 1)
  }

  /** How many octets a number needs. */
  lemma {:induction false} DigitsFit(n: nat, k: nat)
    requires k > 0
    ensures |Digits(n)| <= k <==> n < Power(k)
    decreases k
  {
    if k == 1 {
      assert Power(1) == 256 * Power(0);
      if n >= 256 { assert |Digits(n)| == |Digits(n / 256)| + 1; }
    } else {
      assert Power(k) == 256 * Power(k - 1);
      if n < 256 {
        assert Power(k - 1) >= 1;
      } else {
        DigitsFit(n / 256, k - 1);
        LowByte(n / 256, n % 256);
        assert n / 256 < Power(k - 1) <==> n < 256 * Power(k - 1);
      }
    }
  }

  lemma {:induction false} ValueBound(b: Bytes)
    ensures Value(b) < Power(|b|)
  {
    if b != [] { ValueBound(b[..|b| - 1]); }
  }

  const LENGTH_LIMIT: nat := 0x1_0000_0000

  lemma PowersUsed()
    ensures Power(1) == 0x100 && Power(2) == 0x1_0000 && Power(3) == 0x100_0000
    ensures Power(4) == LENGTH_LIMIT && Power(8) == U64_LIMIT
  {
    assert Power(2) == 256 * Power(1);
    assert Power(4) == 256 * Power(3);
    assert Power(6) == 256 * Power(5);
    assert Power(8) == 256 * Power(7);
  }

  // ---------------------------------------------------------------------
  // The encoding (sections 8.1.3 and 10.1 of ITU-T X.690)
  // ---------------------------------------------------------------------

  lemma LongFits(n: nat)
    requires n < U64_LIMIT
    ensures |Digits(n)| <= 8
  {
    PowersUsed();
    DigitsFit(n, 8);
  }

  /** The shortest definite length. */
  function LengthOctets(n: nat): (b: Bytes)
    requires n < U64_LIMIT
    ensures b != []
  {
    if n < 128 then [n]
    else
      var d := Digits(n);
      LongFits(n);
      [128 + |d|] + d
  }

  function Tlv(tag: byte, contents: Bytes): Bytes
    requires |contents| < U64_LIMIT
  {
    [tag] + LengthOctets(|contents|) + contents
  }

  datatype Taken = Taken(contents: Bytes, rest: Bytes)

  function Cut(b: Bytes, header: nat, len: nat): Option<Taken> {
    if |b| < header + len then None else Some(Taken(b[header..header + len], b[header + len..]))
  }

  /** The strict reader: shortest lengths of at most four octets. */
  function Strict(tag: byte, b: Bytes): Option<Taken> {
    if |b| < 2 || b[0] != tag then None
    else if b[1] < 128 then Cut(b, 2, b[1])
    else
      var count: nat := b[1] - 128;
      if count == 0 || count > 4 || |b| < 2 + count then None
      else
        var raw := b[2..2 + count];
        if raw[0] == 0 || Value(raw) < 128 then None else Cut(b, 2 + count, Value(raw))
  }

  /** The lax reader: any length of one to four octets. */
  function Lax(tag: byte, b: Bytes): Option<Taken> {
    if |b| < 2 || b[0] != tag then None
    else if b[1] < 128 then Cut(b, 2, b[1])
    else
      var count: nat := b[1] - 128;
      if count == 0 || count > 4 || |b| < 2 + count then None
      else Cut(b, 2 + count, Value(b[2..2 + count]))
  }

  // ---------------------------------------------------------------------
  // The strict reader takes exactly the shortest forms
  // ---------------------------------------------------------------------

  lemma Layout(tag: byte, contents: Bytes, rest: Bytes)
    requires |contents| < U64_LIMIT
    ensures
      var b, n := Tlv(tag, contents) + rest, |LengthOctets(|contents|)|;
      && |b| >= 1 + n + |contents| && b[0] == tag && b[1..1 + n] == LengthOctets(|contents|)
      && b[1 + n..1 + n + |contents|] == contents && b[1 + n + |contents|..] == rest
  {
    hide LengthOctets;
    var l := LengthOctets(|contents|);
    assert Tlv(tag, contents) + rest == [tag] + (l + (contents + rest));
  }

  lemma Reassemble(b: Bytes, header: nat, len: nat)
    requires 0 < header && header + len <= |b| && len < U64_LIMIT && b[1..header] == LengthOctets(len)
    ensures b == Tlv(b[0], b[header..header + len]) + b[header + len..]
  {
    hide LengthOctets;
    assert b == [b[0]] + (b[1..header] + (b[header..header + len] + b[header + len..]));
  }

  lemma FourAtMost(raw: Bytes)
    requires 0 < |raw| <= 4
    ensures Value(raw) < LENGTH_LIMIT
  {
    PowersUsed();
    ValueBound(raw);
  }

  /** What the strict reader returns rebuilds its input. */
  lemma StrictRebuilds(tag: byte, b: Bytes)
    requires Strict(tag, b).Some?
    ensures
      var t := Strict(tag, b).value;
      |t.contents| < LENGTH_LIMIT && b == Tlv(tag, t.contents) + t.rest
  {
    PowersUsed();
    if b[1] < 128 {
      assert b[1..2] == [b[1]];
      Reassemble(b, 2, b[1]);
    } else {
      hide Digits, Value;
      var count: nat := b[1] - 128;
      var raw := b[2..2 + count];
      DigitsOfValue(raw);
      ValueBound(raw);
      FourAtMost(raw);
      assert b[1..2 + count] == [b[1]] + raw;
      Reassemble(b, 2 + count, Value(raw));
    }
  }

  lemma LengthShape(n: nat)
    requires n < LENGTH_LIMIT
    ensures n < 128 ==> LengthOctets(n) == [n]
    ensures n >= 128 ==>
      LengthOctets(n) == [128 + |Digits(n)|] + Digits(n) && 1 <= |Digits(n)| <= 4 && Digits(n)[0] != 0
  {
    PowersUsed();
    DigitsFit(n, 4);
  }

  /** Every shortest form below 2^32 is read back, whatever follows it. */
  lemma StrictTakes(tag: byte, contents: Bytes, rest: Bytes)
    requires |contents| < LENGTH_LIMIT
    ensures Strict(tag, Tlv(tag, contents) + rest) == Some(Taken(contents, rest))
  {
    hide Tlv, Digits, Value;
    var b := Tlv(tag, contents) + rest;
    Layout(tag, contents, rest);
    LengthShape(|contents|);
    var l := LengthOctets(|contents|);
    assert b[1] == b[1..1 + |l|][0];
    if |contents| >= 128 {
      var d := Digits(|contents|);
      assert b[2..2 + |d|] == b[1..1 + |l|][1..];
      ValueOfDigits(|contents|);
    }
  }

  /** The strict reader succeeds exactly on shortest-form lengths of at most four octets. */
  lemma StrictExactly(tag: byte, b: Bytes, contents: Bytes, rest: Bytes)
    ensures Strict(tag, b) == Some(Taken(contents, rest))
       <==> |contents| < LENGTH_LIMIT && b == Tlv(tag, contents) + rest
  {
    hide Strict, Tlv;
    if Strict(tag, b) == Some(Taken(contents, rest)) { StrictRebuilds(tag, b); }
    if |contents| < LENGTH_LIMIT && b == Tlv(tag, contents) + rest { StrictTakes(tag, contents, rest); }
  }

  /** No encoding is a prefix of another. */
  lemma TlvUnique(tag: byte, c: Bytes, x: Bytes, tag': byte, c': Bytes, x': Bytes)
    requires |c| < LENGTH_LIMIT && |c'| < LENGTH_LIMIT && Tlv(tag, c) + x == Tlv(tag', c') + x'
    ensures tag == tag' && c == c' && x == x'
  {
    hide Strict, LengthOctets;
    Layout(tag, c, x);
    Layout(tag', c', x');
    StrictTakes(tag, c, x);
    StrictTakes(tag, c', x');
  }

  // ---------------------------------------------------------------------
  // The lax reader
  // ---------------------------------------------------------------------

  /** Whatever the strict reader takes, the lax reader takes alike. */
  lemma LaxAgrees(tag: byte, b: Bytes)
    requires Strict(tag, b).Some?
    ensures Lax(tag, b) == Strict(tag, b)
  {
  }

  /** A length in one of the forms the lax reader knows, not always the shortest. */
  predicate LaxLength(h: Bytes, n: nat) {
    || (|h| == 1 && h[0] < 128 && n == h[0])
    || (2 <= |h| <= 5 && h[0] == 127 + |h| && n == Value(h[1..]))
  }

  lemma LaxRebuilds(tag: byte, b: Bytes) returns (h: Bytes)
    requires Lax(tag, b).Some?
    ensures
      var t := Lax(tag, b).value;
      LaxLength(h, |t.contents|) && b == [tag] + h + t.contents + t.rest
  {
    hide Value;
    var n := if b[1] < 128 then 1 else b[1] - 127;
    h := b[1..1 + n];
    assert h[0] == b[1] && (n > 1 ==> h[1..] == b[2..1 + n]);
    var t := Lax(tag, b).value;
    assert b == [tag] + (h + (t.contents + t.rest));
  }

  lemma LaxTakes(tag: byte, h: Bytes, contents: Bytes, rest: Bytes)
    requires LaxLength(h, |contents|)
    ensures Lax(tag, [tag] + h + contents + rest) == Some(Taken(contents, rest))
  {
    hide Value;
    var b := [tag] + h + contents + rest;
    assert b == [tag] + (h + (contents + rest));
    assert b[1..1 + |h|] == h && b[1] == h[0];
    assert b[2..1 + |h|] == h[1..];
    assert b[1 + |h|..1 + |h| + |contents|] == contents && b[1 + |h| + |contents|..] == rest;
  }

  /** The lax reader succeeds exactly on tag, known length form, contents, and leaves the rest. */
  lemma LaxExactly(tag: byte, b: Bytes, contents: Bytes, rest: Bytes)
    ensures Lax(tag, b) == Some(Taken(contents, rest))
       <==> exists h :: LaxLength(h, |contents|) && b == [tag] + h + contents + rest
  {
    hide Lax, LaxLength;
    if Lax(tag, b) == Some(Taken(contents, rest)) { var h := LaxRebuilds(tag, b); }
    if h :| LaxLength(h, |contents|) && b == [tag] + h + contents + rest { LaxTakes(tag, h, contents, rest); }
  }

  const TAG_SET: byte := 0x31

  /** Both readers read a retagged block back when it is below 2^32 bytes, and at 2^32
      bytes and more both refuse it. */
  lemma RetagReadBack(tag: byte, contents: Bytes, rest: Bytes)
    requires |contents| < U64_LIMIT
    ensures |contents| < LENGTH_LIMIT ==>
      Strict(tag, Tlv(tag, contents) + rest) == Lax(tag, Tlv(tag, contents) + rest) == Some(Taken(contents, rest))
    ensures |contents| >= LENGTH_LIMIT ==>
      Strict(tag, Tlv(tag, contents) + rest) == Lax(tag, Tlv(tag, contents) + rest) == None
  {
    hide Digits, Value;
    var b := Tlv(tag, contents) + rest;
    if |contents| < LENGTH_LIMIT {
      StrictTakes(tag, contents, rest);
      LaxAgrees(tag, b);
    } else {
      PowersUsed();
      DigitsFit(|contents|, 4);
      LongFits(|contents|);
      Layout(tag, contents, rest);
      assert b[1] == b[1..1 + |LengthOctets(|contents|)|][0];
    }
  }

  // ---------------------------------------------------------------------
  // The readers as objects
  // ---------------------------------------------------------------------

  lemma PowerFour(i: nat)
    requires i <= 4
    ensures Power(i) <= Power(4)
  {
    PowersUsed();
  }

  /** Folding octets into a length, which cannot overflow for at most four of them. */
  method FoldLength(raw: Bytes) returns (len: u64)
    requires |raw| <= 4
    ensures len == Value(raw)
  {
    len := 0;
    PowersUsed();
    for i := 0 to |raw|
      invariant len == Value(raw[..i]) && i <= 4 && len < Power(i) <= Power(4)
    {
      assert raw[..i + 1][..i] == raw[..i];
      assert Power(i + 1) == 256 * Power(i);
      PowerFour(i + 1);
      len := 256 * len + raw[i];
    }
    assert raw[..|raw|] == raw;
  }

  /** The strict reader holds what is left to read. */
  class Der {
    var bytes: Bytes

    constructor (bytes: Bytes)
      ensures this.bytes == bytes
    {
      this.bytes := bytes;
    }

    /** Succeeds exactly on a shortest form; a failure leaves the reader where it was. */
    method Take(tag: byte) returns (taken: Result<Bytes>)
      modifies this
      ensures taken.Ok? <==> Strict(tag, old(bytes)).Some?
      ensures taken.Ok? ==> Strict(tag, old(bytes)) == Some(Taken(taken.value, bytes))
      ensures taken.Err? ==> bytes == old(bytes)
    {
      hide Value, Power;
      if bytes == [] || bytes[0] != tag { return Err; }
      if |bytes| < 2 { return Err; }
      var first := bytes[1];
      var len, header := 0, 2;
      if first < 128 {
        len := first;
      } else {
        var count: nat := first - 128;
        if count == 0 || count > 4 { return Err; }
        if |bytes| < 2 + count { return Err; }
        var raw := bytes[2..2 + count];
        if raw[0] == 0 { return Err; }
        len := FoldLength(raw);
        if len < 128 { return Err; }
        header := 2 + count;
      }
      if |bytes| < header + len { return Err; }
      var contents := bytes[header..header + len];
      bytes := bytes[header + len..];
      return Ok(contents);
    }
  }

  lemma LaxSuffix(tag: byte, b: Bytes)
    requires Lax(tag, b).Some?
    ensures
      var rest := Lax(tag, b).value.rest;
      |rest| <= |b| && b[|b| - |rest|..] == rest
  {
    hide Value;
  }

  /** The reader of the timestamp module. */
  class LaxDer {
    var bytes: Bytes

    constructor (bytes: Bytes)
      ensures this.bytes == bytes
    {
      this.bytes := bytes;
    }

    method Take(tag: byte) returns (taken: Result<Bytes>)
      modifies this
      ensures taken.Ok? <==> Lax(tag, old(bytes)).Some?
      ensures taken.Ok? ==> Lax(tag, old(bytes)) == Some(Taken(taken.value, bytes))
      ensures taken.Err? ==> bytes == old(bytes)
    {
      hide Value, Power;
      if bytes == [] || bytes[0] != tag { return Err; }
      var rest := bytes[1..];
      if rest == [] { return Err; }
      var first := rest[0];
      rest := rest[1..];
      var len := first;
      var header: nat := 2;
      if first >= 128 {
        var count: nat := first - 128;
        if count == 0 || count > 4 { return Err; }
        if |rest| < count { return Err; }
        assert rest[..count] == bytes[2..2 + count];
        len := FoldLength(rest[..count]);
        rest := rest[count..];
        header := 2 + count;
      }
      assert rest == bytes[header..];
      if |rest| < len { return Err; }
      assert rest[..len] == bytes[header..header + len] && rest[len..] == bytes[header + len..];
      bytes := rest[len..];
      return Ok(rest[..len]);
    }

    /** Steps over the next element, whatever its tag. */
    method SkipAny() returns (skipped: Result<()>)
      modifies this
      ensures skipped.Ok? <==> old(bytes) != [] && Lax(old(bytes)[0], old(bytes)).Some?
      ensures skipped.Ok? ==> bytes == Lax(old(bytes)[0], old(bytes)).value.rest
      ensures skipped.Err? ==> bytes == old(bytes)
    {
      hide Lax;
      if bytes == [] { return Err; }
      var taken := Take(bytes[0]);
      if taken.Err? { return Err; }
      return Ok(());
    }

    /** One element whole, header included: with what is left, exactly the input. */
    method Element(tag: byte) returns (whole: Result<Bytes>)
      modifies this
      ensures whole.Ok? <==> Lax(tag, old(bytes)).Some?
      ensures whole.Ok? ==> whole.value + bytes == old(bytes) && bytes == Lax(tag, old(bytes)).value.rest
      ensures whole.Err? ==> bytes == old(bytes)
    {
      hide Lax;
      var start := bytes;
      var taken := Take(tag);
      if taken.Err? { return Err; }
      LaxSuffix(tag, start);
      var consumed := |start| - |bytes|;
      return Ok(start[..consumed]);
    }
  }

  // ---------------------------------------------------------------------
  // retag_as_set
  // ---------------------------------------------------------------------

  /** `to_be_bytes` of a 64-bit length. */
  function BigEndian(n: nat, width: nat): (b: Bytes)
    requires n < Power(width)
    ensures |b| == width
    decreases width
  {
    if width == 0 then [] else
      assert Power(width) == 256 * Power(width - 1);
      BigEndian(n / 256, width - 1) + [n % 256]
  }

  lemma {:induction false} AllZero(n: nat, width: nat)
    requires n < Power(width) && forall i :: 0 <= i < width ==> BigEndian(n, width)[i] == 0
    ensures n == 0
  {
    if width > 0 {
      assert Power(width) == 256 * Power(width - 1);
      var high := BigEndian(n / 256, width - 1);
      assert BigEndian(n, width)[width - 1] == n % 256;
      forall i | 0 <= i < width - 1 ensures high[i] == 0 { assert BigEndian(n, width)[i] == high[i]; }
      AllZero(n / 256, width - 1);
    }
  }

  lemma {:induction false} ZerosOnly(width: nat)
    ensures forall i :: 0 <= i < width ==> BigEndian(0, width)[i] == 0
  {
    if width > 0 {
      assert Power(width) == 256 * Power(width - 1);
      ZerosOnly(width - 1);
    }
  }

  /** Past the leading zeros a fixed-width number is its shortest form. */
  lemma {:induction false} TrimmedIsDigits(n: nat, width: nat, k: nat)
    requires n < Power(width) && k < width && n > 0
    requires (forall i :: 0 <= i < k ==> BigEndian(n, width)[i] == 0) && BigEndian(n, width)[k] != 0
    ensures BigEndian(n, width)[k..] == Digits(n)
    decreases width
  {
    var b := BigEndian(n, width);
    assert Power(width) == 256 * Power(width - 1);
    var high := BigEndian(n / 256, width - 1);
    if n < 256 {
      ZerosOnly(width - 1);
      assert high == BigEndian(0, width - 1);
      assert forall i | 0 <= i < width - 1 :: b[i] == high[i];
      assert b[k..] == [n];
    } else {
      if k == width - 1 {
        forall i | 0 <= i < width - 1 ensures high[i] == 0 { assert b[i] == high[i]; }
        AllZero(n / 256, width - 1);
      }
      assert forall i :: 0 <= i < k ==> high[i] == b[i];
      assert high[k] == b[k];
      TrimmedIsDigits(n / 256, width - 1, k);
      assert b[k..] == high[k..] + [n % 256];
    }
  }

  /** Drops the leading zeros of the eight length bytes: the result is the shortest form. */
  method RetagAsSet(contents: Bytes) returns (out: Bytes)
    requires |contents| < U64_LIMIT
    ensures out == Tlv(TAG_SET, contents)
  {
    hide BigEndian, Digits;
    out := [TAG_SET];
    var len := |contents|;
    if len < 0x80 {
      out := out + [len];
    } else {
      PowersUsed();
      var bytes := BigEndian(len, 8);
      var significant := 0;
      while significant < 7 && bytes[significant] == 0
        invariant significant <= 7 && forall i :: 0 <= i < significant ==> bytes[i] == 0
      {
        significant := significant + 1;
      }
      if bytes[significant] == 0 { AllZero(len, 8); }
      TrimmedIsDigits(len, 8, significant);
      var trimmed := bytes[significant..];
      out := out + [0x80 + |trimmed|];
      out := out + trimmed;
      assert out == [TAG_SET] + LengthOctets(len);
    }
    out := out + contents;
  }
}
