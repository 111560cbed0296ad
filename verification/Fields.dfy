/** `hash_field`: named fields fed into a hasher.

    Each length precedes what it measures, the name's as well as the value's, so that no
    bytes inside a name or a value can be taken for a boundary. A reader takes the digits
    and then exactly that many bytes. */
module FieldEncoding {
  import opened Numbers
  import opened Merkle
  import opened Text

  datatype Field = Field(name: Bytes, value: Bytes)

  const COLON: byte := 58

  const NEWLINE: byte := 10

  function DigitByte(c: char): (b: byte)
    requires IsDigit(c)
    ensures b == c as int && b != COLON
  {
    c as int
  }

  /** ASCII bytes of a decimal length. */
  function LengthBytes(n: nat): (bytes: Bytes)
    ensures COLON !in bytes
  {
    var s := Decimal(n);
    seq(|s|, i requires 0 <= i < |s| => DigitByte(s[i]))
  }

  lemma LengthInjective(n: nat, m: nat)
    requires LengthBytes(n) == LengthBytes(m)
    ensures n == m
  {
    var s, t := Decimal(n), Decimal(m);
    assert |s| == |LengthBytes(n)| == |LengthBytes(m)| == |t|;
    forall i | 0 <= i < |s| ensures s[i] == t[i] {
      assert LengthBytes(n)[i] == s[i] as int && LengthBytes(m)[i] == t[i] as int;
    }
    assert s == t;
    DecimalInjective(n, m);
  }

  /** A length, a colon, and exactly that many bytes. */
  function Sized(bytes: Bytes): Bytes { LengthBytes(|bytes|) + [COLON] + bytes }

  function FieldBytes(f: Field): Bytes { Sized(f.name) + [COLON] + Sized(f.value) + [NEWLINE] }

  function StreamBytes(fields: seq<Field>): Bytes {
    if fields == [] then [] else StreamBytes(fields[..|fields| - 1]) + FieldBytes(fields[|fields| - 1])
  }

  /** `blake3::Hasher`, which sees only the concatenation of its updates. */
  class Hasher {
    var absorbed: Bytes

    constructor ()
      ensures absorbed == []
    {
      absorbed := [];
    }

    method Update(bytes: Bytes)
      modifies this
      ensures absorbed == old(absorbed) + bytes
    {
      absorbed := absorbed + bytes;
    }
  }

  lemma Regroup(s: Bytes, a: Bytes, b: Bytes, c: Bytes, d: Bytes)
    ensures s + a + [COLON] + b + [COLON] + c + [COLON] + d + [NEWLINE]
         == s + (a + [COLON] + b + [COLON] + c + [COLON] + d + [NEWLINE])
  {
  }

  method HashField(hasher: Hasher, name: Bytes, value: Bytes)
    modifies hasher
    ensures hasher.absorbed == old(hasher.absorbed) + FieldBytes(Field(name, value))
  {
    ghost var before := hasher.absorbed;
    hasher.Update(LengthBytes(|name|));
    hasher.Update([COLON]);
    hasher.Update(name);
    hasher.Update([COLON]);
    hasher.Update(LengthBytes(|value|));
    hasher.Update([COLON]);
    hasher.Update(value);
    hasher.Update([NEWLINE]);
    var a, b, c, d := LengthBytes(|name|), name, LengthBytes(|value|), value;
    assert FieldBytes(Field(name, value)) == a + [COLON] + b + [COLON] + c + [COLON] + d + [NEWLINE];
    Regroup(before, a, b, c, d);
  }

  lemma Regrouped(a: Bytes, b: Bytes, c: Bytes)
    ensures (a + b) + c == a + (b + c)
  {
  }

  lemma StreamSnoc(fields: seq<Field>, i: nat)
    requires i < |fields|
    ensures StreamBytes(fields[..i + 1]) == StreamBytes(fields[..i]) + FieldBytes(fields[i])
  {
    hide FieldBytes;
    assert fields[..i + 1][..i] == fields[..i];
  }

  method HashFields(hasher: Hasher, fields: seq<Field>)
    modifies hasher
    ensures hasher.absorbed == old(hasher.absorbed) + StreamBytes(fields)
  {
    assert StreamBytes(fields[..0]) == [];
    hide StreamBytes, FieldBytes;
    for i := 0 to |fields|
      invariant hasher.absorbed == old(hasher.absorbed) + StreamBytes(fields[..i])
    {
      HashField(hasher, fields[i].name, fields[i].value);
      StreamSnoc(fields, i);
      Regrouped(old(hasher.absorbed), StreamBytes(fields[..i]), FieldBytes(fields[i]));
    }
    assert fields[..|fields|] == fields;
  }

  // ---------------------------------------------------------------------
  // Unique decodability
  // ---------------------------------------------------------------------

  /** Whatever follows, a sized block says where it ends. */
  lemma SizedUnique(a: Bytes, x: Bytes, b: Bytes, y: Bytes)
    requires Sized(a) + x == Sized(b) + y
    ensures a == b && x == y
  {
    var n, m := LengthBytes(|a|), LengthBytes(|b|);
    assert n + [COLON] + (a + x) == Sized(a) + x && m + [COLON] + (b + y) == Sized(b) + y;
    CutUnique(n, a + x, m, b + y, COLON);
    LengthInjective(|a|, |b|);
    assert a == (a + x)[..|a|] && b == (b + y)[..|b|];
    assert x == (a + x)[|a|..] && y == (b + y)[|b|..];
  }

  lemma FieldLayout(f: Field, x: Bytes)
    ensures FieldBytes(f) + x == Sized(f.name) + ([COLON] + (Sized(f.value) + ([NEWLINE] + x)))
  {
  }

  lemma Behead(b: byte, x: Bytes, y: Bytes)
    requires [b] + x == [b] + y
    ensures x == y
  {
    assert x == ([b] + x)[1..] && y == ([b] + y)[1..];
  }

  /** No field is a prefix of a different field, whatever follows either. */
  lemma FieldUnique(f: Field, x: Bytes, g: Field, y: Bytes)
    requires FieldBytes(f) + x == FieldBytes(g) + y
    ensures f == g && x == y
  {
    FieldLayout(f, x);
    FieldLayout(g, y);
    SizedUnique(f.name, [COLON] + (Sized(f.value) + ([NEWLINE] + x)),
                g.name, [COLON] + (Sized(g.value) + ([NEWLINE] + y)));
    Behead(COLON, Sized(f.value) + ([NEWLINE] + x), Sized(g.value) + ([NEWLINE] + y));
    SizedUnique(f.value, [NEWLINE] + x, g.value, [NEWLINE] + y);
    Behead(NEWLINE, x, y);
  }

  function Suffix(fields: seq<Field>): Bytes {
    if fields == [] then [] else FieldBytes(fields[0]) + Suffix(fields[1..])
  }

  lemma {:induction false} SuffixSnoc(fields: seq<Field>, f: Field)
    ensures Suffix(fields + [f]) == Suffix(fields) + FieldBytes(f)
  {
    hide FieldBytes;
    if fields == [] {
      assert fields + [f] == [f] && [f][1..] == [];
      assert Suffix([f]) == FieldBytes(f) + Suffix([]);
    } else {
      assert (fields + [f])[1..] == fields[1..] + [f];
      SuffixSnoc(fields[1..], f);
    }
  }

  /** Both readings of a stream, field by field from either end. */
  lemma {:induction false} StreamIsSuffix(fields: seq<Field>)
    ensures StreamBytes(fields) == Suffix(fields)
  {
    if fields != [] {
      var n := |fields| - 1;
      StreamIsSuffix(fields[..n]);
      SuffixSnoc(fields[..n], fields[n]);
      assert fields == fields[..n] + [fields[n]];
    }
  }

  lemma FieldNotEmpty(f: Field)
    ensures |FieldBytes(f)| > 0
  {
  }

  lemma {:induction false} SuffixUnique(fields: seq<Field>, others: seq<Field>)
    requires Suffix(fields) == Suffix(others)
    ensures fields == others
  {
    hide FieldBytes;
    if fields != [] { FieldNotEmpty(fields[0]); }
    if others != [] { FieldNotEmpty(others[0]); }
    if fields != [] && others != [] {
      FieldUnique(fields[0], Suffix(fields[1..]), others[0], Suffix(others[1..]));
      SuffixUnique(fields[1..], others[1..]);
      assert fields == [fields[0]] + fields[1..] && others == [others[0]] + others[1..];
    }
  }

  /** A stream of fields decodes to one list of fields. */
  lemma StreamUnique(fields: seq<Field>, others: seq<Field>)
    requires StreamBytes(fields) == StreamBytes(others)
    ensures fields == others
  {
    StreamIsSuffix(fields);
    StreamIsSuffix(others);
    SuffixUnique(fields, others);
  }

  /** Equal hashes of field lists mean equal lists, or the digest collides. */
  lemma FieldHashBinds(H: Digest, fields: seq<Field>, others: seq<Field>)
    requires H(StreamBytes(fields)) == H(StreamBytes(others))
    ensures fields == others || Collision(StreamBytes(fields), StreamBytes(others)).Breaks(H)
  {
    if StreamBytes(fields) == StreamBytes(others) { StreamUnique(fields, others); }
  }
}
