/** The canonical manifest of `hashing.rs`: its text, its parser, and what a hash pins down. */
module Manifests {
  import opened Outcome
  import opened Merkle
  import opened Order
  import Hex

  const MANIFEST_HEADER: string := "attest-manifest/v1"

  /** The digest of a text, which stands for its UTF-8 bytes; nothing is assumed about it. */
  type TextDigest = string -> Hash

  datatype TextCollision = TextCollision(x: string, y: string) {
    predicate Breaks(H: TextDigest) { x != y && H(x) == H(y) }
  }

  function HexDigest(H: TextDigest, text: string): (s: string)
    ensures |s| == 64 && Hex.IsHex(s)
  {
    Hex.Encode(H(text))
  }

  /** Equal hexadecimal digests are equal digests. */
  lemma HexDigestInjective(H: TextDigest, x: string, y: string)
    requires HexDigest(H, x) == HexDigest(H, y)
    ensures H(x) == H(y)
  {
    Hex.DecodeOfEncode(H(x));
    Hex.DecodeOfEncode(H(y));
  }

  predicate IsDigestText(s: string) { |s| == 64 && Hex.IsHex(s) }

  /** `f:` for a file or `l:` for a link, then 64 lower-case digits. */
  predicate IsLine(line: string) { |line| == 66 && line[0] in {'f', 'l'} && line[1] == ':' && IsDigestText(line[2..]) }

  /** A path and its line, in the order of the B-tree map. */
  type Entry = (string, string)

  predicate Writable(e: Entry) { IsLine(e.1) && '\n' !in e.0 }

  function EntryText(e: Entry): string { e.1 + " " + e.0 + "\n" }

  function EntriesText(es: seq<Entry>): string {
    if es == [] then "" else EntryText(es[0]) + EntriesText(es[1..])
  }

  function OutputText(es: seq<Entry>): string { MANIFEST_HEADER + "\n" + EntriesText(es) }

  function InputText(runHash: string, es: seq<Entry>): string {
    MANIFEST_HEADER + "\n" + "run:" + runHash + "\n" + EntriesText(es)
  }

  // ---------------------------------------------------------------------
  // Parsing back
  // ---------------------------------------------------------------------

  /** Where the first newline is, or the length. */
  function LineEnd(t: string): (n: nat)
    ensures n <= |t| && '\n' !in t[..n] && (n < |t| ==> t[n] == '\n')
  {
    if t == "" || t[0] == '\n' then 0 else
      var n := LineEnd(t[1..]);
      assert t[..n + 1] == [t[0]] + t[1..][..n];
      n + 1
  }

  function ParseEntries(t: string): Option<seq<Entry>> {
    if t == "" then Some([])
    else if |t| < 67 || !IsLine(t[..66]) || t[66] != ' ' then None
    else
      var body := t[67..];
      var n := LineEnd(body);
      if n == |body| then None
      else
        var rest := ParseEntries(body[n + 1..]);
        if rest.None? then None else Some([(body[..n], t[..66])] + rest.value)
  }

  function ParseOutput(t: string): Option<seq<Entry>> {
    var h := |MANIFEST_HEADER|;
    if |t| > h && t[..h] == MANIFEST_HEADER && t[h] == '\n' then ParseEntries(t[h + 1..]) else None
  }

  function ParseInput(t: string): Option<(string, seq<Entry>)> {
    var h := |MANIFEST_HEADER|;
    if |t| < h + 70 || t[..h] != MANIFEST_HEADER || t[h] != '\n' || t[h + 1..h + 5] != "run:" then None
    else if !IsDigestText(t[h + 5..h + 69]) || t[h + 69] != '\n' then None
    else
      var entries := ParseEntries(t[h + 70..]);
      if entries.None? then None else Some((t[h + 5..h + 69], entries.value))
  }

  lemma LineEndAt(path: string, rest: string)
    requires '\n' !in path
    ensures LineEnd(path + "\n" + rest) == |path|
  {
    var t := path + "\n" + rest;
    var n := LineEnd(t);
    assert t[|path|] == '\n';
    assert forall k | 0 <= k < n :: t[..n][k] == t[k];
    assert forall k | 0 <= k < |path| :: t[k] == path[k];
  }

  lemma LineSize(line: string)
    requires IsLine(line)
    ensures |line| == 66
  {
  }

  lemma {:induction false} ParseOfEntries(es: seq<Entry>)
    requires forall e <- es :: Writable(e)
    ensures ParseEntries(EntriesText(es)) == Some(es)
  {
    hide IsLine, LineEnd;
    if es != [] {
      var e, rest := es[0], EntriesText(es[1..]);
      var t := EntriesText(es);
      assert Writable(e);
      LineSize(e.1);
      assert t == e.1 + (" " + e.0 + "\n" + rest);
      assert t[..66] == e.1 && t[66] == ' ';
      assert t[67..] == e.0 + "\n" + rest;
      LineEndAt(e.0, rest);
      assert t[67..][..|e.0|] == e.0 && t[67..][|e.0| + 1..] == rest;
      ParseOfEntries(es[1..]);
      assert es == [(e.0, e.1)] + es[1..];
    }
  }

  lemma Rejoin(t: string, n: nat, rest: seq<Entry>)
    requires |t| >= 67 && t[66] == ' ' && n < |t[67..]| && t[67..][n] == '\n' && EntriesText(rest) == t[67..][n + 1..]
    ensures EntriesText([(t[67..][..n], t[..66])] + rest) == t
  {
    var body := t[67..];
    var es := [(body[..n], t[..66])] + rest;
    assert es[0] == (body[..n], t[..66]) && es[1..] == rest;
    assert body == body[..n] + ("\n" + body[n + 1..]);
    assert t == t[..66] + (" " + body);
    assert EntryText(es[0]) + EntriesText(rest) == t[..66] + (" " + (body[..n] + ("\n" + body[n + 1..])));
  }

  /** What parses is exactly what is written back. */
  lemma {:induction false} EntriesOfParse(t: string)
    requires ParseEntries(t).Some?
    ensures EntriesText(ParseEntries(t).value) == t
    ensures forall e <- ParseEntries(t).value :: Writable(e)
  {
    hide IsLine, LineEnd;
    if t != "" {
      hide EntriesText, EntryText;
      var body := t[67..];
      var n := LineEnd(body);
      EntriesOfParse(body[n + 1..]);
      Rejoin(t, n, ParseEntries(body[n + 1..]).value);
    }
  }

  /** An output manifest parses to its path-to-entry map and nothing else. */
  lemma OutputRoundTrip(es: seq<Entry>, t: string)
    ensures (forall e <- es :: Writable(e)) ==> ParseOutput(OutputText(es)) == Some(es)
    ensures ParseOutput(t).Some? ==> OutputText(ParseOutput(t).value) == t
  {
    hide EntriesText, ParseEntries, Writable;
    var h := |MANIFEST_HEADER|;
    var written := OutputText(es);
    assert written == MANIFEST_HEADER + ("\n" + EntriesText(es));
    assert written[..h] == MANIFEST_HEADER && written[h] == '\n' && written[h + 1..] == EntriesText(es);
    if forall e <- es :: Writable(e) { ParseOfEntries(es); }
    if ParseOutput(t).Some? {
      EntriesOfParse(t[h + 1..]);
      assert t == t[..h] + "\n" + t[h + 1..];
    }
  }

  lemma InputLayout(runHash: string, es: seq<Entry>)
    requires IsDigestText(runHash)
    ensures
      var t, h := InputText(runHash, es), |MANIFEST_HEADER|;
      |t| >= h + 70 && t[..h] == MANIFEST_HEADER && t[h] == '\n' && t[h + 1..h + 5] == "run:"
      && t[h + 5..h + 69] == runHash && t[h + 69] == '\n' && t[h + 70..] == EntriesText(es)
  {
    hide EntriesText;
    var head, rest := MANIFEST_HEADER + "\n", EntriesText(es);
    var t := InputText(runHash, es);
    assert t == head + ("run:" + (runHash + ("\n" + rest)));
  }

  /** An input manifest parses to its run hash and its path-to-entry map. */
  lemma InputRoundTrip(runHash: string, es: seq<Entry>)
    requires IsDigestText(runHash) && forall e <- es :: Writable(e)
    ensures ParseInput(InputText(runHash, es)) == Some((runHash, es))
  {
    hide EntriesText, ParseEntries;
    InputLayout(runHash, es);
    ParseOfEntries(es);
  }

  lemma InputOfParse(t: string)
    requires ParseInput(t).Some?
    ensures InputText(ParseInput(t).value.0, ParseInput(t).value.1) == t
  {
    hide EntriesText, ParseEntries;
    var h := |MANIFEST_HEADER|;
    EntriesOfParse(t[h + 70..]);
    assert t == t[..h] + [t[h]] + t[h + 1..h + 5] + t[h + 5..h + 69] + [t[h + 69]] + t[h + 70..];
  }

  /** No text is both an input and an output manifest. */
  lemma KindsApart(t: string)
    ensures ParseInput(t).None? || ParseOutput(t).None?
  {
    hide EntriesText;
    var h := |MANIFEST_HEADER|;
    if ParseInput(t).Some? {
      assert t[h + 1] == t[h + 1..h + 5][0] == 'r';
      assert t[h + 1..][..66][0] == t[h + 1];
    }
  }

  // ---------------------------------------------------------------------
  // What the hashes pin down
  // ---------------------------------------------------------------------

  /** `hash_inputs`. */
  function HashInputs(H: TextDigest, run: string, es: seq<Entry>): string {
    HexDigest(H, InputText(HexDigest(H, run), es))
  }

  /** `hash_outputs`. */
  function HashOutputs(H: TextDigest, es: seq<Entry>): string { HexDigest(H, OutputText(es)) }

  function InputCollision(H: TextDigest, run: string, es: seq<Entry>, run': string, es': seq<Entry>): TextCollision {
    var a, b := InputText(HexDigest(H, run), es), InputText(HexDigest(H, run'), es');
    if a != b then TextCollision(a, b) else TextCollision(run, run')
  }

  /** An input hash fixes the command and every entry, or the digest collides. */
  lemma InputHashBinds(H: TextDigest, run: string, es: seq<Entry>, run': string, es': seq<Entry>)
    requires HashInputs(H, run, es) == HashInputs(H, run', es')
    requires (forall e <- es :: Writable(e)) && (forall e <- es' :: Writable(e))
    ensures (run == run' && es == es') || InputCollision(H, run, es, run', es').Breaks(H)
  {
    var a, b := InputText(HexDigest(H, run), es), InputText(HexDigest(H, run'), es');
    HexDigestInjective(H, a, b);
    if a == b {
      InputRoundTrip(HexDigest(H, run), es);
      InputRoundTrip(HexDigest(H, run'), es');
      HexDigestInjective(H, run, run');
    }
  }

  lemma OutputHashBinds(H: TextDigest, es: seq<Entry>, es': seq<Entry>)
    requires HashOutputs(H, es) == HashOutputs(H, es')
    requires (forall e <- es :: Writable(e)) && (forall e <- es' :: Writable(e))
    ensures es == es' || TextCollision(OutputText(es), OutputText(es')).Breaks(H)
  {
    HexDigestInjective(H, OutputText(es), OutputText(es'));
    OutputRoundTrip(es, OutputText(es));
    OutputRoundTrip(es', OutputText(es'));
  }

  // ---------------------------------------------------------------------
  // Building the text
  // ---------------------------------------------------------------------

  lemma {:induction false} EntriesSnoc(es: seq<Entry>, e: Entry)
    ensures EntriesText(es + [e]) == EntriesText(es) + EntryText(e)
  {
    if es == [] {
      assert es + [e] == [e] && EntriesText([e]) == EntryText(e) + EntriesText([]);
    } else {
      assert (es + [e])[1..] == es[1..] + [e];
      EntriesSnoc(es[1..], e);
    }
  }

  method PushEntries(manifest: string, entries: seq<Entry>) returns (text: string)
    ensures text == manifest + EntriesText(entries)
  {
    text := manifest;
    for i := 0 to |entries|
      invariant text == manifest + EntriesText(entries[..i])
    {
      EntriesSnoc(entries[..i], entries[i]);
      assert entries[..i + 1] == entries[..i] + [entries[i]];
      text := text + entries[i].1;
      text := text + " ";
      text := text + entries[i].0;
      text := text + "\n";
      assert text == manifest + (EntriesText(entries[..i]) + EntryText(entries[i]));
    }
    assert entries[..|entries|] == entries;
  }

  method OutputManifest(entries: seq<Entry>) returns (manifest: string)
    ensures manifest == OutputText(entries)
  {
    manifest := PushEntries(MANIFEST_HEADER + "\n", entries);
  }

  method InputManifest(H: TextDigest, run: string, entries: seq<Entry>) returns (manifest: string)
    ensures manifest == InputText(HexDigest(H, run), entries)
  {
    var runHash := HexDigest(H, run);
    manifest := PushEntries(MANIFEST_HEADER + "\n" + "run:" + runHash + "\n", entries);
  }

  // ---------------------------------------------------------------------
  // Collecting entries
  // ---------------------------------------------------------------------

  /** The map after visiting files and links in some order. */
  function Collected(visits: seq<Entry>): seq<Entry> {
    if visits == [] then []
    else
      var n := |visits| - 1;
      Put(StringLess(), Collected(visits[..n]), visits[n].0, visits[n].1)
  }

  /** One snapshot gives a path one line, however often it is visited. */
  ghost predicate OneSnapshot(visits: seq<Entry>) {
    forall e, e' :: e in visits && e' in visits && e.0 == e'.0 ==> e == e'
  }

  lemma {:induction false} CollectedMembers(visits: seq<Entry>)
    requires OneSnapshot(visits)
    ensures Sorted(StringLess(), Collected(visits))
    ensures forall e :: e in Collected(visits) <==> e in visits
  {
    StringsTotal();
    if visits != [] {
      hide StringLess;
      var n := |visits| - 1;
      assert visits == visits[..n] + [visits[n]];
      CollectedMembers(visits[..n]);
      PutMembers(StringLess(), Collected(visits[..n]), visits[n].0, visits[n].1);
    }
  }

  /** Order, repetition and overlap of the declarations do not change a manifest. */
  lemma DeclarationsDoNotMatter(visits: seq<Entry>, visits': seq<Entry>)
    requires OneSnapshot(visits) && forall e :: e in visits <==> e in visits'
    ensures Collected(visits) == Collected(visits')
  {
    StringsTotal();
    CollectedMembers(visits);
    CollectedMembers(visits');
    SortedUnique(StringLess(), Collected(visits), Collected(visits'));
  }

  method CollectEntries(visits: seq<Entry>) returns (entries: seq<Entry>)
    ensures entries == Collected(visits)
  {
    entries := [];
    for i := 0 to |visits|
      invariant entries == Collected(visits[..i])
    {
      assert visits[..i + 1][..i] == visits[..i];
      entries := Put(StringLess(), entries, visits[i].0, visits[i].1);
    }
    assert visits[..|visits|] == visits;
  }
}
