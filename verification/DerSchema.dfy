/** Rows of DER elements, some of them optional, read in order with the strict reader. */
module DerSchema {
  import opened Numbers
  import opened Outcome
  import opened Merkle
  import opened DerReading

  datatype Item = Item(tag: byte, required: bool)

  type Schema = seq<Item>

  type Parts = seq<Option<Bytes>>

  datatype Read = Read(parts: Parts, rest: Bytes)

  /** Takes the items from `i` on; an optional one only when its tag comes next. */
  function ReadItems(schema: Schema, i: nat, b: Bytes): (read: Option<Read>)
    requires i <= |schema|
    ensures read.Some? ==> |read.value.parts| == |schema| - i
    decreases |schema| - i
  {
    if i == |schema| then Some(Read([], b))
    else if !schema[i].required && (b == [] || b[0] != schema[i].tag) then
      var tail := ReadItems(schema, i + 1, b);
      if tail.None? then None else Some(Read([None] + tail.value.parts, tail.value.rest))
    else
      var taken := Strict(schema[i].tag, b);
      if taken.None? then None
      else
        var tail := ReadItems(schema, i + 1, taken.value.rest);
        if tail.None? then None else Some(Read([Some(taken.value.contents)] + tail.value.parts, tail.value.rest))
  }

  predicate Fits(schema: Schema, i: nat, parts: Parts)
    requires i <= |schema|
  {
    && |parts| == |schema| - i
    && forall k :: 0 <= k < |parts| ==>
         (schema[i + k].required ==> parts[k].Some?) && (parts[k].Some? ==> |parts[k].value| < LENGTH_LIMIT)
  }

  function PartBytes(tag: byte, part: Option<Bytes>): Bytes
    requires part.Some? ==> |part.value| < LENGTH_LIMIT
  {
    if part.None? then [] else Tlv(tag, part.value)
  }

  function PrintItems(schema: Schema, i: nat, parts: Parts): Bytes
    requires i <= |schema| && Fits(schema, i, parts)
    decreases |schema| - i
  {
    if i == |schema| then [] else PartBytes(schema[i].tag, parts[0]) + PrintItems(schema, i + 1, parts[1..])
  }

  /** An optional item is told apart from everything that can follow it. */
  predicate Separate(schema: Schema, i: nat) {
    i < |schema| && !schema[i].required ==>
      exists j :: i < j < |schema| && schema[j].required && forall k :: i < k <= j ==> schema[k].tag != schema[i].tag
  }

  lemma TlvStart(tag: byte, contents: Bytes)
    requires |contents| < U64_LIMIT
    ensures Tlv(tag, contents) != [] && Tlv(tag, contents)[0] == tag
  {
  }

  lemma {:induction false} OtherStart(schema: Schema, i: nat, j: nat, parts: Parts, tag: byte, rest: Bytes)
    requires i <= j < |schema| && Fits(schema, i, parts) && schema[j].required
    requires forall k :: i <= k <= j ==> schema[k].tag != tag
    ensures
      var b := PrintItems(schema, i, parts) + rest;
      b != [] && b[0] != tag
    decreases j - i
  {
    if parts[0].Some? {
      TlvStart(schema[i].tag, parts[0].value);
    } else {
      OtherStart(schema, i + 1, j, parts[1..], tag, rest);
      assert PrintItems(schema, i, parts) == PrintItems(schema, i + 1, parts[1..]);
    }
  }

  lemma Assemble(a: Bytes, b: Bytes, c: Bytes)
    ensures (a + b) + c == a + (b + c)
  {
  }

  lemma FitsCons(schema: Schema, i: nat, parts: Parts)
    requires i < |schema| && parts != [] && Fits(schema, i + 1, parts[1..])
    requires (schema[i].required ==> parts[0].Some?) && (parts[0].Some? ==> |parts[0].value| < LENGTH_LIMIT)
    ensures Fits(schema, i, parts)
  {
    assert forall k | 0 < k < |parts| :: parts[k] == parts[1..][k - 1];
  }

  /** What is read is what would be printed, and the rest is untouched. */
  lemma {:induction false} ReadRebuilds(schema: Schema, i: nat, b: Bytes)
    requires i <= |schema| && ReadItems(schema, i, b).Some?
    ensures
      var r := ReadItems(schema, i, b).value;
      Fits(schema, i, r.parts) && b == PrintItems(schema, i, r.parts) + r.rest
    decreases |schema| - i
  {
    hide Strict, Tlv;
    if i < |schema| {
      var r := ReadItems(schema, i, b).value;
      if r.parts[0].None? {
        ReadRebuilds(schema, i + 1, b);
        var tail := ReadItems(schema, i + 1, b).value;
        assert r.parts[1..] == tail.parts;
        FitsCons(schema, i, r.parts);
      } else {
        StrictRebuilds(schema[i].tag, b);
        var taken := Strict(schema[i].tag, b).value;
        ReadRebuilds(schema, i + 1, taken.rest);
        var tail := ReadItems(schema, i + 1, taken.rest).value;
        assert r.parts[1..] == tail.parts;
        FitsCons(schema, i, r.parts);
        Assemble(Tlv(schema[i].tag, taken.contents), PrintItems(schema, i + 1, tail.parts), tail.rest);
      }
    }
  }

  lemma ReadAbsent(schema: Schema, i: nat, b: Bytes, parts: Parts, rest: Bytes)
    requires i < |schema| && !schema[i].required && (b == [] || b[0] != schema[i].tag)
    requires parts != [] && parts[0].None? && ReadItems(schema, i + 1, b) == Some(Read(parts[1..], rest))
    ensures ReadItems(schema, i, b) == Some(Read(parts, rest))
  {
    assert parts == [None] + parts[1..];
  }

  lemma ReadPresent(schema: Schema, i: nat, b: Bytes, parts: Parts, tail: Bytes, rest: Bytes)
    requires i < |schema| && b != [] && b[0] == schema[i].tag && parts != [] && parts[0].Some?
    requires Strict(schema[i].tag, b) == Some(Taken(parts[0].value, tail))
    requires ReadItems(schema, i + 1, tail) == Some(Read(parts[1..], rest))
    ensures ReadItems(schema, i, b) == Some(Read(parts, rest))
  {
    hide Strict;
    assert parts == [Some(parts[0].value)] + parts[1..];
  }

  lemma NextDiffers(schema: Schema, i: nat, parts: Parts, rest: Bytes)
    requires i < |schema| && Fits(schema, i, parts) && parts[0].None? && Separate(schema, i)
    ensures
      var b := PrintItems(schema, i + 1, parts[1..]) + rest;
      !schema[i].required && b != [] && b[0] != schema[i].tag
  {
    var j :| i < j < |schema| && schema[j].required && forall k :: i < k <= j ==> schema[k].tag != schema[i].tag;
    OtherStart(schema, i + 1, j, parts[1..], schema[i].tag, rest);
  }

  /** Everything printed is read back, whatever follows. */
  lemma {:induction false} PrintReadsBack(schema: Schema, i: nat, parts: Parts, rest: Bytes)
    requires i <= |schema| && Fits(schema, i, parts) && forall k :: i <= k < |schema| ==> Separate(schema, k)
    ensures ReadItems(schema, i, PrintItems(schema, i, parts) + rest) == Some(Read(parts, rest))
    decreases |schema| - i
  {
    hide Strict, Tlv, Separate;
    var b := PrintItems(schema, i, parts) + rest;
    if i == |schema| {
      assert b == rest;
    } else {
      PrintReadsBack(schema, i + 1, parts[1..], rest);
      hide ReadItems;
      var tail := PrintItems(schema, i + 1, parts[1..]);
      if parts[0].None? {
        assert PrintItems(schema, i, parts) == tail;
        NextDiffers(schema, i, parts, rest);
        ReadAbsent(schema, i, b, parts, rest);
      } else {
        var c := parts[0].value;
        Assemble(Tlv(schema[i].tag, c), tail, rest);
        StrictTakes(schema[i].tag, c, tail + rest);
        TlvStart(schema[i].tag, c);
        ReadPresent(schema, i, b, parts, tail + rest, rest);
      }
    }
  }

  function Prepend(parts: Parts, read: Option<Read>): Option<Read> {
    if read.None? then None else Some(Read(parts + read.value.parts, read.value.rest))
  }

  lemma PrependNone(read: Option<Read>)
    ensures Prepend([], read) == read
  {
    if read.Some? { assert [] + read.value.parts == read.value.parts; }
  }

  lemma PrependMore(parts: Parts, part: Option<Bytes>, read: Option<Read>)
    ensures Prepend(parts, Prepend([part], read)) == Prepend(parts + [part], read)
  {
    if read.Some? { assert parts + ([part] + read.value.parts) == (parts + [part]) + read.value.parts; }
  }

  /** The `take` calls of one level, in a row. */
  method TakeItems(der: Der, schema: Schema) returns (taken: Result<Parts>)
    modifies der
    ensures taken.Ok? <==> ReadItems(schema, 0, old(der.bytes)).Some?
    ensures taken.Ok? ==> ReadItems(schema, 0, old(der.bytes)) == Some(Read(taken.value, der.bytes))
  {
    hide Strict;
    var parts: Parts := [];
    PrependNone(ReadItems(schema, 0, der.bytes));
    for i := 0 to |schema|
      invariant |parts| == i
      invariant ReadItems(schema, 0, old(der.bytes)) == Prepend(parts, ReadItems(schema, i, der.bytes))
    {
      if !schema[i].required && (der.bytes == [] || der.bytes[0] != schema[i].tag) {
        PrependMore(parts, None, ReadItems(schema, i + 1, der.bytes));
        parts := parts + [None];
      } else {
        var contents := der.Take(schema[i].tag);
        if contents.Err? { return Err; }
        PrependMore(parts, Some(contents.value), ReadItems(schema, i + 1, der.bytes));
        parts := parts + [Some(contents.value)];
      }
    }
    assert parts + [] == parts;
    return Ok(parts);
  }
}
