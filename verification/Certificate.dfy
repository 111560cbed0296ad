/** `certificate_source` (`identity.rs`): repository and revision out of a workflow
    certificate, read with the strict DER reader.

    A certificate is accepted only as the strict encoding of its structure at every
    level, and its two texts are taken from extensions that occur once each. */
module WorkflowCertificate {
  import opened Numbers
  import opened Outcome
  import opened Merkle
  import opened DerReading
  import opened DerSchema

  // ---------------------------------------------------------------------
  // Extensions
  // ---------------------------------------------------------------------

  datatype Extension = Extension(oid: Bytes, critical: Option<Bytes>, value: Bytes)

  const EXTENSION: Schema := [Item(0x06, true), Item(0x01, false), Item(0x04, true)]

  function ExtensionParts(e: Extension): Parts { [Some(e.oid), e.critical, Some(e.value)] }

  predicate SmallExtension(e: Extension) {
    Fits(EXTENSION, 0, ExtensionParts(e)) && |PrintItems(EXTENSION, 0, ExtensionParts(e))| < LENGTH_LIMIT
  }

  function ExtensionBytes(e: Extension): Bytes
    requires SmallExtension(e)
  {
    Tlv(0x30, PrintItems(EXTENSION, 0, ExtensionParts(e)))
  }

  function ExtensionsBytes(es: seq<Extension>): Bytes
    requires forall e <- es :: SmallExtension(e)
  {
    if es == [] then [] else ExtensionBytes(es[0]) + ExtensionsBytes(es[1..])
  }

  datatype OneExtension = OneExtension(extension: Extension, rest: Bytes)

  function ParseExtension(b: Bytes): Option<OneExtension> {
    var outer := Strict(0x30, b);
    if outer.None? then None
    else
      var read := ReadItems(EXTENSION, 0, outer.value.contents);
      if read.None? || read.value.rest != [] then None
      else
        var p := read.value.parts;
        if p[0].Some? && p[2].Some?
        then Some(OneExtension(Extension(p[0].value, p[1], p[2].value), outer.value.rest))
        else None
  }

  lemma ExtensionSeparate()
    ensures forall k :: 0 <= k < |EXTENSION| ==> Separate(EXTENSION, k)
  {
    assert EXTENSION[2].required && forall k :: 1 < k <= 2 ==> EXTENSION[k].tag != EXTENSION[1].tag;
  }

  /** One extension, exactly. */
  lemma ParseExtensionExactly(b: Bytes, e: Extension, rest: Bytes)
    ensures ParseExtension(b) == Some(OneExtension(e, rest)) <==> SmallExtension(e) && b == ExtensionBytes(e) + rest
  {
    hide Strict, Tlv, ReadItems, PrintItems;
    ExtensionSeparate();
    if ParseExtension(b) == Some(OneExtension(e, rest)) {
      StrictRebuilds(0x30, b);
      var body := Strict(0x30, b).value.contents;
      ReadRebuilds(EXTENSION, 0, body);
      var p := ReadItems(EXTENSION, 0, body).value.parts;
      assert p == ExtensionParts(e);
      assert body == PrintItems(EXTENSION, 0, p) + [] == PrintItems(EXTENSION, 0, p);
    }
    if SmallExtension(e) && b == ExtensionBytes(e) + rest {
      var body := PrintItems(EXTENSION, 0, ExtensionParts(e));
      StrictTakes(0x30, body, rest);
      PrintReadsBack(EXTENSION, 0, ExtensionParts(e), []);
      assert body + [] == body;
    }
  }

  lemma ParseExtensionShrinks(b: Bytes)
    requires ParseExtension(b).Some?
    ensures |ParseExtension(b).value.rest| < |b|
  {
    hide ReadItems;
  }

  function ParseExtensions(b: Bytes): Option<seq<Extension>>
    decreases |b|
  {
    if b == [] then Some([])
    else
      var one := ParseExtension(b);
      if one.None? then None
      else
        ParseExtensionShrinks(b);
        var tail := ParseExtensions(one.value.rest);
        if tail.None? then None else Some([one.value.extension] + tail.value)
  }

  lemma ExtensionNotEmpty(e: Extension)
    requires SmallExtension(e)
    ensures ExtensionBytes(e) != []
  {
  }

  lemma {:induction false} ParseExtensionsExactly(b: Bytes, es: seq<Extension>)
    ensures ParseExtensions(b) == Some(es) <==> (forall e <- es :: SmallExtension(e)) && b == ExtensionsBytes(es)
    decreases |b|
  {
    hide ParseExtension, SmallExtension, ExtensionBytes;
    if b == [] {
      if es != [] && forall e <- es :: SmallExtension(e) { ExtensionNotEmpty(es[0]); }
    } else {
      if ParseExtensions(b) == Some(es) {
        var one := ParseExtension(b).value;
        ParseExtensionExactly(b, one.extension, one.rest);
        ParseExtensionShrinks(b);
        ParseExtensionsExactly(one.rest, es[1..]);
        assert es == [one.extension] + es[1..];
      }
      if (forall e <- es :: SmallExtension(e)) && b == ExtensionsBytes(es) {
        ParseExtensionExactly(b, es[0], ExtensionsBytes(es[1..]));
        ParseExtensionShrinks(b);
        ParseExtensionsExactly(ExtensionsBytes(es[1..]), es[1..]);
        assert es == [es[0]] + es[1..];
      }
    }
  }

  // ---------------------------------------------------------------------
  // The certificate
  // ---------------------------------------------------------------------

  const CERTIFICATE: Schema := [Item(0x30, true), Item(0x30, true), Item(0x03, true)]

  const TBS: Schema :=
    [Item(0xa0, false), Item(0x02, true), Item(0x30, true), Item(0x30, true), Item(0x30, true), Item(0x30, true),
     Item(0x30, true), Item(0x81, false), Item(0x82, false), Item(0xa3, true)]

  /** The contents of an element that fills its input. */
  function Whole(tag: byte, b: Bytes): Option<Bytes> {
    var taken := Strict(tag, b);
    if taken.None? || taken.value.rest != [] then None else Some(taken.value.contents)
  }

  function WholeItems(schema: Schema, b: Bytes): (parts: Option<Parts>)
    ensures parts.Some? ==> |parts.value| == |schema|
  {
    var read := ReadItems(schema, 0, b);
    if read.None? || read.value.rest != [] then None else Some(read.value.parts)
  }

  lemma WholeExactly(tag: byte, b: Bytes, contents: Bytes)
    ensures Whole(tag, b) == Some(contents) <==> |contents| < LENGTH_LIMIT && b == Tlv(tag, contents)
  {
    hide Strict, Tlv;
    if |contents| < LENGTH_LIMIT { assert Tlv(tag, contents) + [] == Tlv(tag, contents); }
    StrictExactly(tag, b, contents, []);
    if Strict(tag, b).Some? { StrictExactly(tag, b, Strict(tag, b).value.contents, Strict(tag, b).value.rest); }
  }

  lemma WholeItemsExactly(schema: Schema, b: Bytes, parts: Parts)
    requires forall k :: 0 <= k < |schema| ==> Separate(schema, k)
    ensures WholeItems(schema, b) == Some(parts) <==> Fits(schema, 0, parts) && b == PrintItems(schema, 0, parts)
  {
    hide ReadItems, PrintItems, Separate;
    if WholeItems(schema, b) == Some(parts) {
      ReadRebuilds(schema, 0, b);
      assert PrintItems(schema, 0, parts) + [] == PrintItems(schema, 0, parts);
    }
    if Fits(schema, 0, parts) && b == PrintItems(schema, 0, parts) {
      assert PrintItems(schema, 0, parts) + [] == PrintItems(schema, 0, parts);
      PrintReadsBack(schema, 0, parts, []);
    }
  }

  /** The structure of a certificate: two layers of elements around a list of extensions. */
  datatype Certificate = Certificate(outer: Parts, tbs: Parts, extensions: seq<Extension>)

  function ParseCertificate(b: Bytes): Option<Certificate> {
    var body := Whole(0x30, b);
    if body.None? then None
    else
      var outer := WholeItems(CERTIFICATE, body.value);
      if outer.None? || outer.value[0].None? then None
      else
        var tbs := WholeItems(TBS, outer.value[0].value);
        if tbs.None? || tbs.value[9].None? then None
        else
          var list := Whole(0x30, tbs.value[9].value);
          if list.None? then None
          else
            var es := ParseExtensions(list.value);
            if es.None? then None else Some(Certificate(outer.value, tbs.value, es.value))
  }

  /** Every length fits its octets at every level. */
  predicate SmallCertificate(c: Certificate) {
    && Fits(CERTIFICATE, 0, c.outer) && Fits(TBS, 0, c.tbs) && (forall e <- c.extensions :: SmallExtension(e))
    && |ExtensionsBytes(c.extensions)| < LENGTH_LIMIT
    && c.tbs[9] == Some(Tlv(0x30, ExtensionsBytes(c.extensions)))
    && c.outer[0] == Some(PrintItems(TBS, 0, c.tbs))
    && |PrintItems(CERTIFICATE, 0, c.outer)| < LENGTH_LIMIT
  }

  function CertificateBytes(c: Certificate): Bytes
    requires SmallCertificate(c)
  {
    Tlv(0x30, PrintItems(CERTIFICATE, 0, c.outer))
  }

  lemma SchemasSeparate()
    ensures forall k :: 0 <= k < |CERTIFICATE| ==> Separate(CERTIFICATE, k)
    ensures forall k :: 0 <= k < |TBS| ==> Separate(TBS, k)
  {
    assert TBS[1].required && forall k :: 0 < k <= 1 ==> TBS[k].tag != TBS[0].tag;
    assert TBS[9].required && forall k :: 7 < k <= 9 ==> TBS[k].tag != TBS[7].tag;
    assert TBS[9].required && forall k :: 8 < k <= 9 ==> TBS[k].tag != TBS[8].tag;
    assert Separate(TBS, 0) && Separate(TBS, 7) && Separate(TBS, 8);
  }

  /** A certificate is accepted by the reader exactly when it is the strict encoding of
      its structure: nothing missing, nothing trailing, no longer length than needed. */
  lemma ParseCertificateExactly(b: Bytes, c: Certificate)
    ensures ParseCertificate(b) == Some(c) <==> SmallCertificate(c) && b == CertificateBytes(c)
  {
    hide Whole, WholeItems, Tlv, PrintItems, ParseExtensions, SmallExtension, ExtensionsBytes, Fits, Separate;
    SchemasSeparate();
    if ParseCertificate(b) == Some(c) {
      var body := Whole(0x30, b).value;
      WholeExactly(0x30, b, body);
      WholeItemsExactly(CERTIFICATE, body, c.outer);
      WholeItemsExactly(TBS, c.outer[0].value, c.tbs);
      var list := Whole(0x30, c.tbs[9].value).value;
      WholeExactly(0x30, c.tbs[9].value, list);
      ParseExtensionsExactly(list, c.extensions);
    }
    if SmallCertificate(c) && b == CertificateBytes(c) {
      var body := PrintItems(CERTIFICATE, 0, c.outer);
      WholeExactly(0x30, b, body);
      WholeItemsExactly(CERTIFICATE, body, c.outer);
      WholeItemsExactly(TBS, c.outer[0].value, c.tbs);
      WholeExactly(0x30, c.tbs[9].value, ExtensionsBytes(c.extensions));
      ParseExtensionsExactly(ExtensionsBytes(c.extensions), c.extensions);
    }
  }

  /** No strict prefix or extension of an accepted certificate is accepted. */
  lemma CertificatePrefixFree(b: Bytes, more: Bytes)
    requires ParseCertificate(b).Some? && ParseCertificate(b + more).Some?
    ensures more == []
  {
    hide WholeItems, ParseExtensions, Strict, Tlv;
    var c, d := Whole(0x30, b).value, Whole(0x30, b + more).value;
    WholeExactly(0x30, b, c);
    WholeExactly(0x30, b + more, d);
    assert Tlv(0x30, d) + [] == Tlv(0x30, d);
    TlvUnique(0x30, c, more, 0x30, d, []);
  }

  // ---------------------------------------------------------------------
  // What the certificate says
  // ---------------------------------------------------------------------

  const REPOSITORY_OID: Bytes := [0x2b, 6, 1, 4, 1, 0x83, 0xbf, 0x30, 1, 12]

  const REVISION_OID: Bytes := [0x2b, 6, 1, 4, 1, 0x83, 0xbf, 0x30, 1, 13]

  predicate DistinctOids(es: seq<Extension>) {
    forall i, j :: 0 <= i < j < |es| ==> es[i].oid != es[j].oid
  }

  /** An extension of that kind holds the text, as a UTF-8 string element and no more. */
  predicate Holds(utf8: Bytes -> bool, e: Extension, oid: Bytes, text: Bytes) {
    e.oid == oid && Whole(0x0c, e.value) == Some(text) && utf8(text)
  }

  predicate Says(utf8: Bytes -> bool, es: seq<Extension>, oid: Bytes, text: Bytes) {
    exists e <- es :: Holds(utf8, e, oid, text)
  }

  ghost predicate Attests(utf8: Bytes -> bool, b: Bytes, repository: Bytes, revision: Bytes) {
    && ParseCertificate(b).Some?
    && DistinctOids(ParseCertificate(b).value.extensions)
    && Says(utf8, ParseCertificate(b).value.extensions, REPOSITORY_OID, repository)
    && Says(utf8, ParseCertificate(b).value.extensions, REVISION_OID, revision)
  }

  lemma SaysOnce(utf8: Bytes -> bool, es: seq<Extension>, oid: Bytes, text: Bytes, text': Bytes)
    requires DistinctOids(es) && Says(utf8, es, oid, text) && Says(utf8, es, oid, text')
    ensures text == text'
  {
    hide Whole;
    var e :| e in es && Holds(utf8, e, oid, text);
    var e' :| e' in es && Holds(utf8, e', oid, text');
    var i :| 0 <= i < |es| && es[i] == e;
    var j :| 0 <= j < |es| && es[j] == e';
    assert i == j;
  }

  /** A certificate says one thing only. */
  lemma AttestsOnce(utf8: Bytes -> bool, b: Bytes, r: Bytes, v: Bytes, r': Bytes, v': Bytes)
    requires Attests(utf8, b, r, v) && Attests(utf8, b, r', v')
    ensures r == r' && v == v'
  {
    hide ParseCertificate, Whole;
    var es := ParseCertificate(b).value.extensions;
    SaysOnce(utf8, es, REPOSITORY_OID, r, r');
    SaysOnce(utf8, es, REVISION_OID, v, v');
  }

  /** What has been found among the extensions read so far. */
  ghost predicate Found(utf8: Bytes -> bool, es: seq<Extension>, oid: Bytes, text: Option<Bytes>) {
    && (text.Some? ==> Says(utf8, es, oid, text.value))
    && (text.None? ==> forall e <- es :: e.oid != oid)
  }

  function Continue(es: seq<Extension>, tail: Option<seq<Extension>>): Option<seq<Extension>> {
    if tail.None? then None else Some(es + tail.value)
  }

  /** The loop over the extensions: `es` holds those read. */
  ghost predicate Scanned(utf8: Bytes -> bool, list: Bytes, es: seq<Extension>, left: Bytes, seen: set<Bytes>,
                          repository: Option<Bytes>, revision: Option<Bytes>) {
    && ParseExtensions(list) == Continue(es, ParseExtensions(left))
    && DistinctOids(es) && (forall o :: o in seen <==> exists e <- es :: e.oid == o)
    && Found(utf8, es, REPOSITORY_OID, repository) && Found(utf8, es, REVISION_OID, revision)
  }

  lemma FoundMore(utf8: Bytes -> bool, es: seq<Extension>, oid: Bytes, text: Option<Bytes>, e: Extension,
                  now: Option<Bytes>)
    requires Found(utf8, es, oid, text)
    requires e.oid != oid ==> now == text
    requires e.oid == oid ==> now.Some? && Holds(utf8, e, oid, now.value)
    ensures Found(utf8, es + [e], oid, now)
  {
    hide Holds;
    var more := es + [e];
    assert more[|es|] == e;
    if e.oid != oid {
      if text.Some? {
        var x :| x in es && Holds(utf8, x, oid, text.value);
        assert x in more;
      }
    } else {
      assert e in more;
    }
  }

  lemma SeenMore(es: seq<Extension>, seen: set<Bytes>, e: Extension)
    requires DistinctOids(es) && (forall o :: o in seen <==> exists x <- es :: x.oid == o) && e.oid !in seen
    ensures DistinctOids(es + [e])
    ensures forall o :: o in seen + {e.oid} <==> exists x <- es + [e] :: x.oid == o
  {
    var more := es + [e];
    forall i | 0 <= i < |es| ensures es[i].oid != e.oid { assert es[i] in es; }
    forall o ensures o in seen + {e.oid} <==> exists x <- more :: x.oid == o {
      if o in seen {
        var x :| x in es && x.oid == o;
        assert x in more;
      }
      if o == e.oid { assert more[|es|] == e && e in more; }
    }
  }

  lemma ContinueMore(b: Bytes, es: seq<Extension>)
    requires b != []
    ensures ParseExtension(b).None? ==> Continue(es, ParseExtensions(b)).None?
    ensures ParseExtension(b).Some? ==>
      var one := ParseExtension(b).value;
      Continue(es, ParseExtensions(b)) == Continue(es + [one.extension], ParseExtensions(one.rest))
  {
    hide ParseExtension;
    if ParseExtension(b).Some? {
      var one := ParseExtension(b).value;
      ParseExtensionShrinks(b);
      var tail := ParseExtensions(one.rest);
      if tail.Some? { assert es + ([one.extension] + tail.value) == (es + [one.extension]) + tail.value; }
    }
  }

  lemma ScanStep(utf8: Bytes -> bool, list: Bytes, es: seq<Extension>, left: Bytes, seen: set<Bytes>,
                 repository: Option<Bytes>, revision: Option<Bytes>,
                 repository': Option<Bytes>, revision': Option<Bytes>)
    requires Scanned(utf8, list, es, left, seen, repository, revision) && left != [] && ParseExtension(left).Some?
    requires
      var e := ParseExtension(left).value.extension;
      && e.oid !in seen
      && (e.oid != REPOSITORY_OID ==> repository' == repository)
      && (e.oid == REPOSITORY_OID ==> repository'.Some? && Holds(utf8, e, REPOSITORY_OID, repository'.value))
      && (e.oid != REVISION_OID ==> revision' == revision)
      && (e.oid == REVISION_OID ==> revision'.Some? && Holds(utf8, e, REVISION_OID, revision'.value))
    ensures
      var one := ParseExtension(left).value;
      Scanned(utf8, list, es + [one.extension], one.rest, seen + {one.extension.oid}, repository', revision')
  {
    hide ParseExtension, ParseExtensions, Found, Holds;
    var one := ParseExtension(left).value;
    ContinueMore(left, es);
    SeenMore(es, seen, one.extension);
    FoundMore(utf8, es, REPOSITORY_OID, repository, one.extension, repository');
    FoundMore(utf8, es, REVISION_OID, revision, one.extension, revision');
  }

  /** The next extension is new and, if of a wanted kind, holds the text wanted. */
  ghost predicate NextFits(utf8: Bytes -> bool, left: Bytes, seen: set<Bytes>, r: Bytes, v: Bytes) {
    && ParseExtension(left).Some?
    && var e := ParseExtension(left).value.extension;
       && e.oid !in seen
       && (e.oid == REPOSITORY_OID ==> Holds(utf8, e, REPOSITORY_OID, r))
       && (e.oid == REVISION_OID ==> Holds(utf8, e, REVISION_OID, v))
  }

  lemma OnlyHolder(utf8: Bytes -> bool, all: seq<Extension>, n: nat, oid: Bytes, text: Bytes)
    requires DistinctOids(all) && n < |all| && Says(utf8, all, oid, text)
    ensures all[n].oid == oid ==> Holds(utf8, all[n], oid, text)
  {
    hide Whole;
    var e :| e in all && Holds(utf8, e, oid, text);
    var i :| 0 <= i < |all| && all[i] == e;
    if all[n].oid == oid { assert i == n; }
  }

  lemma FirstOfTail(left: Bytes, es: seq<Extension>, all: seq<Extension>)
    requires left != [] && ParseExtension(left).Some? && Continue(es, ParseExtensions(left)) == Some(all)
    ensures |es| < |all| && all[|es|] == ParseExtension(left).value.extension && all[..|es|] == es
  {
    hide ParseExtension;
  }

  /** An extension that is repeated, or of a wanted kind and malformed, spoils the whole. */
  lemma Spoiled(utf8: Bytes -> bool, list: Bytes, es: seq<Extension>, left: Bytes, seen: set<Bytes>,
                repository: Option<Bytes>, revision: Option<Bytes>, r: Bytes, v: Bytes)
    requires Scanned(utf8, list, es, left, seen, repository, revision) && left != []
    requires ParseExtensions(list).Some? && DistinctOids(ParseExtensions(list).value)
    requires Says(utf8, ParseExtensions(list).value, REPOSITORY_OID, r)
    requires Says(utf8, ParseExtensions(list).value, REVISION_OID, v)
    ensures NextFits(utf8, left, seen, r, v)
  {
    hide ParseExtension, ParseExtensions, Holds, Found;
    var all := ParseExtensions(list).value;
    ContinueMore(left, es);
    var e := ParseExtension(left).value.extension;
    var n := |es|;
    FirstOfTail(left, es, all);
    assert all[n] == e && all[..n] == es;
    forall i | 0 <= i < n ensures es[i].oid != e.oid { assert all[i] == es[i] && all[i].oid != all[n].oid; }
    OnlyHolder(utf8, all, n, REPOSITORY_OID, r);
    OnlyHolder(utf8, all, n, REVISION_OID, v);
  }

  // ---------------------------------------------------------------------
  // The reader
  // ---------------------------------------------------------------------

  method TakeExtension(extensions: Der) returns (taken: Result<Extension>)
    modifies extensions
    ensures taken.Ok? <==> ParseExtension(old(extensions.bytes)).Some?
    ensures taken.Ok? ==> ParseExtension(old(extensions.bytes)) == Some(OneExtension(taken.value, extensions.bytes))
  {
    hide Strict, ReadItems;
    var body := extensions.Take(0x30);
    if body.Err? { return Err; }
    var extension := new Der(body.value);
    var parts := TakeItems(extension, EXTENSION);
    if parts.Err? { return Err; }
    ReadRebuilds(EXTENSION, 0, body.value);
    if extension.bytes != [] { return Err; }
    return Ok(Extension(parts.value[0].value, parts.value[1], parts.value[2].value));
  }

  /** The text of a wanted extension. */
  method TakeText(utf8: Bytes -> bool, value: Bytes) returns (text: Result<Bytes>)
    ensures text.Ok? <==> Whole(0x0c, value).Some? && utf8(Whole(0x0c, value).value)
    ensures text.Ok? ==> Whole(0x0c, value) == Some(text.value)
  {
    hide Strict;
    var der := new Der(value);
    text := der.Take(0x0c);
    if text.Ok? && (!utf8(text.value) || der.bytes != []) { text := Err; }
  }

  method TakeWhole(tag: byte, b: Bytes) returns (contents: Result<Bytes>)
    ensures contents.Ok? <==> Whole(tag, b).Some?
    ensures contents.Ok? ==> Whole(tag, b) == Some(contents.value)
  {
    hide Strict;
    var der := new Der(b);
    contents := der.Take(tag);
    if contents.Ok? && der.bytes != [] { contents := Err; }
  }

  method TakeWholeItems(schema: Schema, b: Bytes) returns (parts: Result<Parts>)
    ensures parts.Ok? <==> WholeItems(schema, b).Some?
    ensures parts.Ok? ==> WholeItems(schema, b) == Some(parts.value)
  {
    hide ReadItems;
    var der := new Der(b);
    parts := TakeItems(der, schema);
    if parts.Ok? && der.bytes != [] { parts := Err; }
  }

  ghost predicate ListSays(utf8: Bytes -> bool, list: Bytes, r: Bytes, v: Bytes) {
    && ParseExtensions(list).Some? && DistinctOids(ParseExtensions(list).value)
    && Says(utf8, ParseExtensions(list).value, REPOSITORY_OID, r)
    && Says(utf8, ParseExtensions(list).value, REVISION_OID, v)
  }

  lemma ScanStart(utf8: Bytes -> bool, list: Bytes)
    ensures Scanned(utf8, list, [], list, {}, None, None)
  {
    hide ParseExtensions;
    var all := ParseExtensions(list);
    if all.Some? { assert [] + all.value == all.value; }
  }

  lemma SaysHas(utf8: Bytes -> bool, es: seq<Extension>, oid: Bytes, text: Bytes)
    requires Says(utf8, es, oid, text)
    ensures exists e <- es :: e.oid == oid
  {
    var e :| e in es && Holds(utf8, e, oid, text);
  }

  lemma ScanEnd(utf8: Bytes -> bool, list: Bytes, es: seq<Extension>, seen: set<Bytes>,
                repository: Option<Bytes>, revision: Option<Bytes>)
    requires Scanned(utf8, list, es, [], seen, repository, revision)
    ensures repository.Some? && revision.Some? ==> ListSays(utf8, list, repository.value, revision.value)
    ensures repository.None? || revision.None? ==> forall r, v :: !ListSays(utf8, list, r, v)
  {
    hide Holds;
    assert es + [] == es;
    assert ParseExtensions(list) == Some(es);
    hide ParseExtensions;
    forall r, v | ListSays(utf8, list, r, v) ensures repository.Some? && revision.Some? {
      SaysHas(utf8, es, REPOSITORY_OID, r);
      SaysHas(utf8, es, REVISION_OID, v);
    }
  }

  lemma SpoiledAll(utf8: Bytes -> bool, list: Bytes, es: seq<Extension>, left: Bytes, seen: set<Bytes>,
                   repository: Option<Bytes>, revision: Option<Bytes>)
    requires Scanned(utf8, list, es, left, seen, repository, revision) && left != []
    ensures forall r, v :: ListSays(utf8, list, r, v) ==> NextFits(utf8, left, seen, r, v)
  {
    hide ParseExtension, ParseExtensions, Holds, Scanned;
    forall r, v | ListSays(utf8, list, r, v) ensures NextFits(utf8, left, seen, r, v) {
      Spoiled(utf8, list, es, left, seen, repository, revision, r, v);
    }
  }

  /** The loop over extensions. */
  method ScanExtensions(utf8: Bytes -> bool, list: Bytes) returns (source: Result<(Bytes, Bytes)>)
    ensures source.Ok? ==> ListSays(utf8, list, source.value.0, source.value.1)
    ensures source.Err? ==> forall r, v :: !ListSays(utf8, list, r, v)
  {
    hide ParseExtension, ParseExtensions, Whole, Scanned, ListSays;
    var extensions := new Der(list);
    var repository: Option<Bytes> := None;
    var revision: Option<Bytes> := None;
    var seen: set<Bytes> := {};
    ghost var es: seq<Extension> := [];
    ScanStart(utf8, list);
    while extensions.bytes != []
      invariant Scanned(utf8, list, es, extensions.bytes, seen, repository, revision)
      decreases |extensions.bytes|
    {
      ghost var left := extensions.bytes;
      SpoiledAll(utf8, list, es, left, seen, repository, revision);
      var extension := TakeExtension(extensions);
      if extension.Err? { return Err; }
      ParseExtensionShrinks(left);
      var e := extension.value;
      if e.oid in seen { return Err; }
      var repository', revision' := repository, revision;
      if e.oid == REPOSITORY_OID || e.oid == REVISION_OID {
        var text := TakeText(utf8, e.value);
        if text.Err? { return Err; }
        if e.oid == REPOSITORY_OID { repository' := Some(text.value); } else { revision' := Some(text.value); }
      }
      ScanStep(utf8, list, es, left, seen, repository, revision, repository', revision');
      seen := seen + {e.oid};
      repository, revision := repository', revision';
      es := es + [e];
    }
    ScanEnd(utf8, list, es, seen, repository, revision);
    if repository.None? || revision.None? { return Err; }
    return Ok((repository.value, revision.value));
  }

  lemma Required(schema: Schema, b: Bytes, k: nat)
    requires WholeItems(schema, b).Some? && k < |schema| && schema[k].required
    ensures WholeItems(schema, b).value[k].Some?
  {
    hide ReadItems;
    ReadRebuilds(schema, 0, b);
  }

  /** `certificate_source`: succeeds exactly on strict certificates whose extensions are
      distinct and name a repository and a revision, and returns those. */
  method CertificateSource(utf8: Bytes -> bool, bytes: Bytes) returns (source: Result<(Bytes, Bytes)>)
    ensures source.Ok? ==> Attests(utf8, bytes, source.value.0, source.value.1)
    ensures source.Err? ==> forall r, v :: !Attests(utf8, bytes, r, v)
  {
    hide Whole, WholeItems, ParseExtensions, Says, DistinctOids;
    var certificate := TakeWhole(0x30, bytes);
    if certificate.Err? { return Err; }
    var outer := TakeWholeItems(CERTIFICATE, certificate.value);
    if outer.Err? { return Err; }
    Required(CERTIFICATE, certificate.value, 0);
    var tbs := TakeWholeItems(TBS, outer.value[0].value);
    if tbs.Err? { return Err; }
    Required(TBS, outer.value[0].value, 9);
    var list := TakeWhole(0x30, tbs.value[9].value);
    if list.Err? { return Err; }
    source := ScanExtensions(utf8, list.value);
    assert forall r, v :: Attests(utf8, bytes, r, v) <==> ListSays(utf8, list.value, r, v);
  }
}
