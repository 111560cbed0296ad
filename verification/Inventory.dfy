/** Recorded artifacts and the check that a signed inventory of them is complete. */
module ArtifactInventory {
  import opened Outcome
  import opened Order
  import opened Manifests

  datatype Artifact = Artifact(step: string, path: string, kind: string, digest: string, algorithm: string)

  datatype StepOutput = StepOutput(name: string, outputHash: string)

  // ---------------------------------------------------------------------
  // Safe paths
  // ---------------------------------------------------------------------

  /** The text up to the next slash, and whether a slash follows. */
  function PartEnd(path: string): (n: nat)
    ensures n <= |path| && '/' !in path[..n] && (n < |path| ==> path[n] == '/')
  {
    if path == "" || path[0] == '/' then 0 else
      var n := PartEnd(path[1..]);
      assert path[..n + 1] == [path[0]] + path[1..][..n];
      n + 1
  }

  /** `split('/')`. */
  function Parts(path: string): (parts: seq<string>)
    ensures parts != []
    decreases |path|
  {
    var n := PartEnd(path);
    if n == |path| then [path] else [path[..n]] + Parts(path[n + 1..])
  }

  predicate SafePart(part: string) { part != "" && part != "." && part != ".." }

  /** `safe_path`. Once every part is safe, Unix components are all normal. */
  predicate SafePath(path: string) {
    && path != ""
    && (forall c <- path :: c !in {'\\', ':', '\n', '\r', '\0'})
    && forall part <- Parts(path) :: SafePart(part)
  }

  // ---------------------------------------------------------------------
  // Artifacts of one step
  // ---------------------------------------------------------------------

  function ArtifactOf(step: string, e: Entry): Artifact
    requires IsLine(e.1)
  {
    Artifact(step, e.0, if e.1[0] == 'l' then "symlink" else "file", e.1[2..], "blake3")
  }

  /** The manifest line an artifact stands for. */
  function LineOf(a: Artifact): string { (if a.kind == "file" then "f" else "l") + ":" + a.digest }

  lemma LineOfArtifact(step: string, e: Entry)
    requires IsLine(e.1)
    ensures LineOf(ArtifactOf(step, e)) == e.1
  {
    assert e.1 == [e.1[0]] + ":" + e.1[2..];
  }

  function ArtifactsOf(step: string, entries: seq<Entry>): (artifacts: seq<Artifact>)
    requires forall e <- entries :: IsLine(e.1)
    ensures |artifacts| == |entries|
  {
    seq(|entries|, i requires 0 <= i < |entries| => assert entries[i] in entries; ArtifactOf(step, entries[i]))
  }

  /** `outputs_with_artifacts`: the hash and the inventory come from one snapshot. */
  method OutputsWithArtifacts(H: TextDigest, step: string, entries: seq<Entry>)
    returns (hash: string, artifacts: seq<Artifact>)
    requires forall e <- entries :: IsLine(e.1)
    ensures hash == HashOutputs(H, entries) && artifacts == ArtifactsOf(step, entries)
  {
    var manifest := MANIFEST_HEADER + "\n";
    artifacts := [];
    for i := 0 to |entries|
      invariant manifest == OutputText(entries[..i])
      invariant |artifacts| == i && forall k :: 0 <= k < i ==> artifacts[k] == ArtifactsOf(step, entries)[k]
    {
      var e := entries[i];
      assert e in entries;
      EntriesSnoc(entries[..i], e);
      assert entries[..i + 1] == entries[..i] + [e];
      manifest := manifest + EntryText(e);
      artifacts := artifacts + [ArtifactOf(step, e)];
    }
    assert entries[..|entries|] == entries;
    hash := HexDigest(H, manifest);
  }

  // ---------------------------------------------------------------------
  // The inventory check
  // ---------------------------------------------------------------------

  predicate ArtifactOk(names: set<string>, a: Artifact) {
    && SafePath(a.path) && a.step in names && a.algorithm == "blake3" && a.kind in {"file", "symlink"}
    && IsDigestText(a.digest)
  }

  /** The artifacts of one step, sorted by path. */
  function Listing(artifacts: seq<Artifact>, step: string): seq<(string, Artifact)> {
    if artifacts == [] then []
    else
      var n := |artifacts| - 1;
      var rest := Listing(artifacts[..n], step);
      if artifacts[n].step == step then Put(StringLess(), rest, artifacts[n].path, artifacts[n]) else rest
  }

  function Lines(listing: seq<(string, Artifact)>): (entries: seq<Entry>)
    ensures |entries| == |listing|
  {
    seq(|listing|, i requires 0 <= i < |listing| => (listing[i].0, LineOf(listing[i].1)))
  }

  predicate OncePerStep(artifacts: seq<Artifact>) {
    forall i, j :: 0 <= i < j < |artifacts| ==>
      artifacts[i].step != artifacts[j].step || artifacts[i].path != artifacts[j].path
  }

  predicate DistinctNames(steps: seq<StepOutput>) {
    forall i, j :: 0 <= i < j < |steps| ==> steps[i].name != steps[j].name
  }

  function Names(steps: seq<StepOutput>): set<string> { set s <- steps :: s.name }

  predicate Matches(H: TextDigest, artifacts: seq<Artifact>, s: StepOutput) {
    HashOutputs(H, Lines(Listing(artifacts, s.name))) == s.outputHash
  }

  /** What the check demands. */
  predicate Accepted(H: TextDigest, steps: seq<StepOutput>, artifacts: seq<Artifact>) {
    && DistinctNames(steps) && artifacts != []
    && (forall a <- artifacts :: ArtifactOk(Names(steps), a))
    && OncePerStep(artifacts)
    && forall s <- steps :: Matches(H, artifacts, s)
  }

  // ---------------------------------------------------------------------
  // Listings hold exactly the artifacts of their step
  // ---------------------------------------------------------------------

  lemma {:induction false} ListingMembers(artifacts: seq<Artifact>, step: string)
    requires OncePerStep(artifacts)
    ensures Sorted(StringLess(), Listing(artifacts, step))
    ensures forall e :: e in Listing(artifacts, step) <==> e.1 in artifacts && e.1.step == step && e.0 == e.1.path
    decreases |artifacts|
  {
    StringsTotal();
    hide StringLess;
    if artifacts != [] {
      var n := |artifacts| - 1;
      var last := artifacts[n];
      assert artifacts == artifacts[..n] + [last];
      assert OncePerStep(artifacts[..n]);
      ListingMembers(artifacts[..n], step);
      if last.step == step {
        PutMembers(StringLess(), Listing(artifacts[..n], step), last.path, last);
        forall a <- artifacts[..n] | a.step == step ensures a.path != last.path {
          var i :| 0 <= i < n && artifacts[i] == a;
        }
      }
    }
  }

  lemma LinesSorted(listing: seq<(string, Artifact)>)
    requires Sorted(StringLess(), listing)
    ensures Sorted(StringLess(), Lines(listing))
  {
    hide StringLess;
    forall i, j | 0 <= i < j < |listing| ensures StringLess()(Lines(listing)[i].0, Lines(listing)[j].0) {
      assert StringLess()(listing[i].0, listing[j].0);
    }
  }

  lemma LinesMembers(listing: seq<(string, Artifact)>, e: Entry)
    ensures e in Lines(listing) <==> exists x <- listing :: e == (x.0, LineOf(x.1))
  {
    if e in Lines(listing) {
      var i :| 0 <= i < |listing| && Lines(listing)[i] == e;
      assert listing[i] in listing;
    }
    if x :| x in listing && e == (x.0, LineOf(x.1)) {
      var i :| 0 <= i < |listing| && listing[i] == x;
      assert Lines(listing)[i] == e;
    }
  }

  lemma LineOfOk(names: set<string>, a: Artifact)
    requires ArtifactOk(names, a)
    ensures Writable((a.path, LineOf(a)))
  {
    assert LineOf(a)[2..] == a.digest;
  }

  lemma LinesWritable(names: set<string>, artifacts: seq<Artifact>, step: string)
    requires OncePerStep(artifacts) && forall a <- artifacts :: ArtifactOk(names, a)
    ensures forall e <- Lines(Listing(artifacts, step)) :: Writable(e)
  {
    hide ArtifactOk, Writable, Listing, LineOf, OncePerStep;
    ListingMembers(artifacts, step);
    forall e <- Lines(Listing(artifacts, step)) ensures Writable(e) {
      LinesMembers(Listing(artifacts, step), e);
      var x :| x in Listing(artifacts, step) && e == (x.0, LineOf(x.1));
      LineOfOk(names, x.1);
    }
  }

  /** Two acceptable artifacts of one step with one path and one line are the same. */
  lemma SameLineSameArtifact(names: set<string>, a: Artifact, b: Artifact)
    requires ArtifactOk(names, a) && ArtifactOk(names, b)
    requires a.step == b.step && a.path == b.path && LineOf(a) == LineOf(b)
    ensures a == b
  {
    assert LineOf(a)[2..] == a.digest && LineOf(b)[2..] == b.digest;
    assert LineOf(a)[0] == LineOf(b)[0];
  }

  // ---------------------------------------------------------------------
  // Binding
  // ---------------------------------------------------------------------

  /** The texts of the first step whose listings differ. */
  function InventoryCollision(steps: seq<StepOutput>, a: seq<Artifact>, b: seq<Artifact>): TextCollision {
    if steps == [] then TextCollision("", "")
    else
      var x, y := Lines(Listing(a, steps[0].name)), Lines(Listing(b, steps[0].name));
      if x != y then TextCollision(OutputText(x), OutputText(y)) else InventoryCollision(steps[1..], a, b)
  }

  lemma {:induction false} CollisionOrSameLines(H: TextDigest, names: set<string>, steps: seq<StepOutput>,
                                               a: seq<Artifact>, b: seq<Artifact>)
    requires OncePerStep(a) && OncePerStep(b)
    requires (forall x <- a :: ArtifactOk(names, x)) && (forall x <- b :: ArtifactOk(names, x))
    requires forall s <- steps :: Matches(H, a, s) && Matches(H, b, s)
    ensures InventoryCollision(steps, a, b).Breaks(H)
         || forall s <- steps :: Lines(Listing(a, s.name)) == Lines(Listing(b, s.name))
  {
    hide ArtifactOk, OncePerStep, Listing, Lines, OutputText;
    if steps != [] {
      var s := steps[0];
      assert s in steps && Matches(H, a, s) && Matches(H, b, s);
      assert steps == [s] + steps[1..];
      LinesWritable(names, a, s.name);
      LinesWritable(names, b, s.name);
      OutputHashBinds(H, Lines(Listing(a, s.name)), Lines(Listing(b, s.name)));
      CollisionOrSameLines(H, names, steps[1..], a, b);
    }
  }

  lemma SameLinesSameArtifact(names: set<string>, a: seq<Artifact>, b: seq<Artifact>, x: Artifact)
    requires OncePerStep(a) && OncePerStep(b) && x in a
    requires (forall y <- a :: ArtifactOk(names, y)) && (forall y <- b :: ArtifactOk(names, y))
    requires Lines(Listing(a, x.step)) == Lines(Listing(b, x.step))
    ensures x in b
  {
    hide ArtifactOk, OncePerStep, Listing, LineOf, Lines;
    ListingMembers(a, x.step);
    ListingMembers(b, x.step);
    assert (x.path, x) in Listing(a, x.step);
    LinesMembers(Listing(a, x.step), (x.path, LineOf(x)));
    LinesMembers(Listing(b, x.step), (x.path, LineOf(x)));
    var y :| y in Listing(b, x.step) && (x.path, LineOf(x)) == (y.0, LineOf(y.1));
    SameLineSameArtifact(names, x, y.1);
  }

  lemma StepOf(steps: seq<StepOutput>, x: Artifact)
    requires ArtifactOk(Names(steps), x)
    ensures exists s <- steps :: s.name == x.step
  {
  }

  lemma {:induction false} OnceEachCount(a: seq<Artifact>)
    requires OncePerStep(a)
    ensures forall x <- a :: multiset(a)[x] == 1
    decreases |a|
  {
    if a != [] {
      var n := |a| - 1;
      assert a == a[..n] + [a[n]];
      OnceEachCount(a[..n]);
      forall x <- a[..n] ensures x != a[n] { var i :| 0 <= i < n && a[i] == x; }
      assert a[n] !in multiset(a[..n]);
    }
  }

  /** The output hashes admit one inventory: two accepted lists have the same artifacts,
      so no artifact can be omitted, added or altered, or the digest collides. */
  lemma InventoryBinds(H: TextDigest, steps: seq<StepOutput>, a: seq<Artifact>, b: seq<Artifact>)
    requires Accepted(H, steps, a) && Accepted(H, steps, b)
    ensures InventoryCollision(steps, a, b).Breaks(H)
         || ((forall x :: x in a <==> x in b) && multiset(a) == multiset(b))
  {
    hide ArtifactOk, OncePerStep, Listing, Lines, Matches;
    CollisionOrSameLines(H, Names(steps), steps, a, b);
    if !InventoryCollision(steps, a, b).Breaks(H) {
      forall x ensures x in a <==> x in b {
        if x in a {
          StepOf(steps, x);
          SameLinesSameArtifact(Names(steps), a, b, x);
        }
        if x in b {
          StepOf(steps, x);
          SameLinesSameArtifact(Names(steps), b, a, x);
        }
      }
      OnceEachCount(a);
      OnceEachCount(b);
      forall x ensures multiset(a)[x] == multiset(b)[x] {
        assert x in a <==> x in multiset(a);
        assert x in b <==> x in multiset(b);
      }
    }
  }

  // ---------------------------------------------------------------------
  // Acceptance of honest inventories
  // ---------------------------------------------------------------------

  /** What the executor recorded: the sorted entries of every step. */
  ghost predicate HonestEntries(entries: seq<Entry>) {
    Sorted(StringLess(), entries) && forall e <- entries :: IsLine(e.1) && SafePath(e.0)
  }

  ghost predicate FromStep(outputs: map<string, seq<Entry>>, step: string, a: Artifact) {
    step in outputs && exists e <- outputs[step] :: IsLine(e.1) && a == ArtifactOf(step, e)
  }

  /** `artifacts` lists the outputs of every executed step, each once, in any order. */
  ghost predicate RecordedFor(steps: seq<StepOutput>, outputs: map<string, seq<Entry>>, artifacts: seq<Artifact>) {
    && OncePerStep(artifacts)
    && (forall s <- steps :: s.name in outputs && HonestEntries(outputs[s.name]))
    && (forall a :: a in artifacts <==> exists s <- steps :: FromStep(outputs, s.name, a))
  }

  lemma RecordedEntry(steps: seq<StepOutput>, outputs: map<string, seq<Entry>>, artifacts: seq<Artifact>, a: Artifact)
    requires RecordedFor(steps, outputs, artifacts) && a in artifacts
    ensures a.step in outputs && (a.path, LineOf(a)) in outputs[a.step]
  {
    var s :| s in steps && FromStep(outputs, s.name, a);
    var e :| e in outputs[s.name] && IsLine(e.1) && a == ArtifactOf(s.name, e);
    LineOfArtifact(s.name, e);
  }

  lemma EntryRecorded(steps: seq<StepOutput>, outputs: map<string, seq<Entry>>, artifacts: seq<Artifact>,
                      s: StepOutput, e: Entry)
    requires RecordedFor(steps, outputs, artifacts) && s in steps && s.name in outputs && e in outputs[s.name]
    ensures IsLine(e.1)
    ensures
      var a := ArtifactOf(s.name, e);
      a in artifacts && a.step == s.name && a.path == e.0 && LineOf(a) == e.1
  {
    assert HonestEntries(outputs[s.name]);
    LineOfArtifact(s.name, e);
    assert FromStep(outputs, s.name, ArtifactOf(s.name, e));
  }

  lemma ListingIsOutputs(steps: seq<StepOutput>, outputs: map<string, seq<Entry>>, artifacts: seq<Artifact>,
                         s: StepOutput)
    requires RecordedFor(steps, outputs, artifacts) && s in steps
    ensures Lines(Listing(artifacts, s.name)) == outputs[s.name]
  {
    hide OncePerStep, Listing, StringLess, SafePath;
    StringsTotal();
    var listing, entries := Listing(artifacts, s.name), outputs[s.name];
    ListingMembers(artifacts, s.name);
    LinesSorted(listing);
    forall e ensures e in Lines(listing) <==> e in entries {
      hide IsLine, Lines, RecordedFor, ArtifactOf, LineOf;
      LinesMembers(listing, e);
      if x :| x in listing && e == (x.0, LineOf(x.1)) { RecordedEntry(steps, outputs, artifacts, x.1); }
      if e in entries {
        EntryRecorded(steps, outputs, artifacts, s, e);
        assert (e.0, ArtifactOf(s.name, e)) in listing;
      }
    }
    SortedUnique(StringLess(), Lines(listing), entries);
  }

  lemma RecordedOk(steps: seq<StepOutput>, outputs: map<string, seq<Entry>>, artifacts: seq<Artifact>, a: Artifact)
    requires RecordedFor(steps, outputs, artifacts) && a in artifacts
    ensures ArtifactOk(Names(steps), a)
  {
    hide SafePath, OncePerStep, StringLess;
    var s :| s in steps && FromStep(outputs, s.name, a);
    var e :| e in outputs[s.name] && IsLine(e.1) && a == ArtifactOf(s.name, e);
    assert HonestEntries(outputs[s.name]);
    assert s.name in Names(steps);
  }

  /** Executed steps with safe output paths pass the inventory check. */
  lemma HonestInventoryAccepted(H: TextDigest, steps: seq<StepOutput>, outputs: map<string, seq<Entry>>,
                                artifacts: seq<Artifact>)
    requires DistinctNames(steps) && artifacts != [] && RecordedFor(steps, outputs, artifacts)
    requires forall s <- steps :: s.outputHash == HashOutputs(H, outputs[s.name])
    ensures Accepted(H, steps, artifacts)
  {
    hide ArtifactOk, Listing, Lines, HashOutputs, HonestEntries, FromStep;
    forall a <- artifacts ensures ArtifactOk(Names(steps), a) { RecordedOk(steps, outputs, artifacts, a); }
    forall s <- steps ensures Matches(H, artifacts, s) { ListingIsOutputs(steps, outputs, artifacts, s); }
  }

  // ---------------------------------------------------------------------
  // What a run records
  // ---------------------------------------------------------------------

  /** A step that ran, with the collected entries of its declared outputs. */
  datatype Ran = Ran(name: string, entries: seq<Entry>)

  /** Collected entries are sorted manifest lines. */
  ghost predicate Collected(entries: seq<Entry>) {
    Sorted(StringLess(), entries) && forall e <- entries :: Writable(e)
  }

  ghost predicate RanOnce(runs: seq<Ran>) {
    && (forall i, j :: 0 <= i < j < |runs| ==> runs[i].name != runs[j].name)
    && (forall r <- runs :: Collected(r.entries))
  }

  predicate AllSafe(runs: seq<Ran>) { forall r <- runs, e <- r.entries :: SafePath(e.0) }

  ghost function StepArtifacts(r: Ran): seq<Artifact>
    requires Collected(r.entries)
  {
    ArtifactsOf(r.name, r.entries)
  }

  /** The artifacts of one step after those of another. */
  ghost function AllArtifacts(runs: seq<Ran>): seq<Artifact>
    requires forall r <- runs :: Collected(r.entries)
  {
    if runs == [] then []
    else
      var n := |runs| - 1;
      assert runs[n] in runs;
      AllArtifacts(runs[..n]) + StepArtifacts(runs[n])
  }

  function OutputsOf(runs: seq<Ran>): map<string, seq<Entry>> {
    if runs == [] then map[] else OutputsOf(runs[..|runs| - 1])[runs[|runs| - 1].name := runs[|runs| - 1].entries]
  }

  lemma {:induction false} OutputsAt(runs: seq<Ran>, i: nat)
    requires RanOnce(runs) && i < |runs|
    ensures runs[i].name in OutputsOf(runs) && OutputsOf(runs)[runs[i].name] == runs[i].entries
    decreases |runs|
  {
    var n := |runs| - 1;
    if i < n { OutputsAt(runs[..n], i); }
  }

  /** One of the artifacts of a step that ran. */
  ghost predicate FromRun(r: Ran, a: Artifact) { exists e <- r.entries :: IsLine(e.1) && a == ArtifactOf(r.name, e) }

  lemma ArtifactsOfMembers(r: Ran, a: Artifact)
    requires Collected(r.entries)
    ensures a in StepArtifacts(r) <==> FromRun(r, a)
  {
    var artifacts := StepArtifacts(r);
    if a in artifacts {
      var i :| 0 <= i < |artifacts| && artifacts[i] == a;
      assert r.entries[i] in r.entries;
    }
    if e :| e in r.entries && IsLine(e.1) && a == ArtifactOf(r.name, e) {
      var i :| 0 <= i < |r.entries| && r.entries[i] == e;
      assert artifacts[i] == a;
    }
  }

  lemma {:induction false} AllArtifactsMembers(runs: seq<Ran>, a: Artifact)
    requires forall r <- runs :: Collected(r.entries)
    ensures a in AllArtifacts(runs) <==> exists r <- runs :: FromRun(r, a)
    decreases |runs|
  {
    hide Collected, FromRun;
    if runs != [] {
      var n := |runs| - 1;
      assert runs == runs[..n] + [runs[n]] && runs[n] in runs;
      AllArtifactsMembers(runs[..n], a);
      ArtifactsOfMembers(runs[n], a);
    }
  }

  lemma StepArtifactsOnce(r: Ran)
    requires Collected(r.entries)
    ensures OncePerStep(StepArtifacts(r))
  {
    StringsTotal();
    hide StringLess;
    forall i, j | 0 <= i < j < |r.entries| ensures r.entries[i].0 != r.entries[j].0 {
      assert StringLess()(r.entries[i].0, r.entries[j].0);
    }
  }

  lemma {:induction false} AllArtifactsOnce(runs: seq<Ran>)
    requires RanOnce(runs)
    ensures OncePerStep(AllArtifacts(runs))
    decreases |runs|
  {
    if runs != [] {
      var n := |runs| - 1;
      assert runs[n] in runs;
      hide Collected;
      var earlier, last := AllArtifacts(runs[..n]), StepArtifacts(runs[n]);
      assert forall r <- runs[..n] :: r in runs;
      AllArtifactsOnce(runs[..n]);
      StepArtifactsOnce(runs[n]);
      forall a <- earlier ensures a.step != runs[n].name {
        AllArtifactsMembers(runs[..n], a);
        var r :| r in runs[..n] && FromRun(r, a);
        var i :| 0 <= i < n && runs[i] == r;
      }
      assert forall a <- last :: a.step == runs[n].name;
    }
  }

  /** The steps of the receipt, as far as outputs go. */
  ghost predicate ReceiptOf(H: TextDigest, runs: seq<Ran>, steps: seq<StepOutput>) {
    && |steps| == |runs|
    && forall i :: 0 <= i < |runs| ==> steps[i] == StepOutput(runs[i].name, HashOutputs(H, runs[i].entries))
  }

  lemma FromRunIsFromStep(H: TextDigest, runs: seq<Ran>, steps: seq<StepOutput>, a: Artifact)
    requires RanOnce(runs) && ReceiptOf(H, runs, steps)
    ensures (exists r <- runs :: FromRun(r, a)) <==> exists s <- steps :: FromStep(OutputsOf(runs), s.name, a)
  {
    hide OutputsOf, Collected, HashOutputs;
    if r :| r in runs && FromRun(r, a) {
      var i :| 0 <= i < |runs| && runs[i] == r;
      OutputsAt(runs, i);
      assert FromStep(OutputsOf(runs), steps[i].name, a);
    }
    if s :| s in steps && FromStep(OutputsOf(runs), s.name, a) {
      var i :| 0 <= i < |steps| && steps[i] == s;
      OutputsAt(runs, i);
      assert runs[i] in runs && FromRun(runs[i], a);
    }
  }

  /** What a run concatenates, step by step, is a record of its outputs. */
  lemma RunIsRecorded(H: TextDigest, runs: seq<Ran>, steps: seq<StepOutput>)
    requires RanOnce(runs) && AllSafe(runs) && ReceiptOf(H, runs, steps)
    ensures DistinctNames(steps) && RecordedFor(steps, OutputsOf(runs), AllArtifacts(runs))
    ensures forall s <- steps :: s.outputHash == HashOutputs(H, OutputsOf(runs)[s.name])
  {
    hide OutputsOf, AllArtifacts, OncePerStep, HashOutputs, StringLess, SafePath;
    var outputs := OutputsOf(runs);
    AllArtifactsOnce(runs);
    forall s <- steps
      ensures s.name in outputs && HonestEntries(outputs[s.name]) && s.outputHash == HashOutputs(H, outputs[s.name])
    {
      var i :| 0 <= i < |steps| && steps[i] == s;
      OutputsAt(runs, i);
      assert runs[i] in runs;
    }
    forall a ensures a in AllArtifacts(runs) <==> exists s <- steps :: FromStep(outputs, s.name, a) {
      AllArtifactsMembers(runs, a);
      FromRunIsFromStep(H, runs, steps, a);
    }
  }

  lemma CollectedLine(r: Ran, e: Entry)
    requires Collected(r.entries) && e in r.entries
    ensures IsLine(e.1) && FromRun(r, ArtifactOf(r.name, e))
  {
  }

  /** The inventory of executed steps passes exactly when it is not empty and every output path
      is safe. */
  lemma ExecutedAcceptedIff(H: TextDigest, runs: seq<Ran>, steps: seq<StepOutput>)
    requires RanOnce(runs) && ReceiptOf(H, runs, steps)
    ensures Accepted(H, steps, AllArtifacts(runs)) <==> AllArtifacts(runs) != [] && AllSafe(runs)
  {
    hide AllArtifacts, OutputsOf, SafePath, Collected, Matches, OncePerStep;
    if AllArtifacts(runs) != [] && AllSafe(runs) {
      RunIsRecorded(H, runs, steps);
      HonestInventoryAccepted(H, steps, OutputsOf(runs), AllArtifacts(runs));
    }
    if Accepted(H, steps, AllArtifacts(runs)) {
      forall r <- runs, e <- r.entries ensures SafePath(e.0) {
        CollectedLine(r, e);
        AllArtifactsMembers(runs, ArtifactOf(r.name, e));
      }
    }
  }

  lemma {:induction false} NoListing(artifacts: seq<Artifact>, step: string)
    requires forall a <- artifacts :: a.step != step
    ensures Listing(artifacts, step) == []
  {
    if artifacts != [] {
      assert artifacts[|artifacts| - 1] in artifacts;
      NoListing(artifacts[..|artifacts| - 1], step);
    }
  }

  /** A step whose outputs were not recorded, as for a cache hit, fails the check as soon
      as it has an output. */
  lemma UnrecordedStepRefused(H: TextDigest, steps: seq<StepOutput>, artifacts: seq<Artifact>, s: StepOutput,
                              entries: seq<Entry>)
    requires s in steps && s.outputHash == HashOutputs(H, entries)
    requires entries != [] && (forall e <- entries :: Writable(e)) && forall a <- artifacts :: a.step != s.name
    ensures !Accepted(H, steps, artifacts) || TextCollision(OutputText([]), OutputText(entries)).Breaks(H)
  {
    hide ArtifactOk, OncePerStep, OutputText, Listing;
    if Accepted(H, steps, artifacts) {
      NoListing(artifacts, s.name);
      assert Matches(H, artifacts, s);
      assert Lines(Listing(artifacts, s.name)) == [];
      OutputHashBinds(H, [], entries);
    }
  }

  // ---------------------------------------------------------------------
  // Runs with cache hits
  // ---------------------------------------------------------------------

  /** One turn of the run: the outputs that stand when it comes, if they can be hashed, those
      that executing the step leaves, and the output hash of its cache entry, if there is one. */
  datatype Turn = Turn(name: string, standing: Option<seq<Entry>>, built: seq<Entry>, cached: Option<string>)

  /** The cached result is replayed only while its outputs still match. */
  predicate Hit(H: TextDigest, t: Turn) {
    t.cached.Some? && t.standing.Some? && HashOutputs(H, t.standing.value) == t.cached.value
  }

  /** What the receipt attests of a turn. */
  function Attested(H: TextDigest, t: Turn): Ran {
    Ran(t.name, if Hit(H, t) then t.standing.value else t.built)
  }

  function AttestedAll(H: TextDigest, turns: seq<Turn>): (runs: seq<Ran>)
    ensures |runs| == |turns|
  {
    seq(|turns|, i requires 0 <= i < |turns| => Attested(H, turns[i]))
  }

  /** The artifacts of the executed steps alone. */
  ghost function RecordedArtifacts(H: TextDigest, turns: seq<Turn>): seq<Artifact>
    requires forall t <- turns :: Collected(Attested(H, t).entries)
  {
    if turns == [] then []
    else
      var n := |turns| - 1;
      assert turns[n] in turns;
      RecordedArtifacts(H, turns[..n]) + if Hit(H, turns[n]) then [] else StepArtifacts(Attested(H, turns[n]))
  }

  ghost predicate TurnsOnce(H: TextDigest, turns: seq<Turn>) {
    && (forall i, j :: 0 <= i < j < |turns| ==> turns[i].name != turns[j].name)
    && (forall t <- turns :: Collected(Attested(H, t).entries))
  }

  /** Every output an executed step leaves has a safe path. */
  predicate ExecutedSafe(H: TextDigest, turns: seq<Turn>) {
    forall t <- turns, e <- t.built :: !Hit(H, t) ==> SafePath(e.0)
  }

  predicate HitWithOutputs(H: TextDigest, t: Turn) { Hit(H, t) && t.standing.value != [] }

  /** No cache hit has outputs. */
  predicate HitsBare(H: TextDigest, turns: seq<Turn>) { forall t <- turns :: !HitWithOutputs(H, t) }

  /** The texts of the first cache hit that has outputs. */
  function HitCollision(H: TextDigest, turns: seq<Turn>): TextCollision {
    if turns == [] then TextCollision("", "")
    else if HitWithOutputs(H, turns[0]) then
      TextCollision(OutputText([]), OutputText(turns[0].standing.value))
    else HitCollision(H, turns[1..])
  }

  lemma {:induction false} FirstBareless(H: TextDigest, turns: seq<Turn>) returns (i: nat)
    requires !HitsBare(H, turns)
    ensures i < |turns| && HitWithOutputs(H, turns[i])
    ensures HitCollision(H, turns) == TextCollision(OutputText([]), OutputText(turns[i].standing.value))
  {
    hide OutputText;
    if HitWithOutputs(H, turns[0]) {
      i := 0;
    } else {
      assert turns == [turns[0]] + turns[1..];
      i := FirstBareless(H, turns[1..]);
      i := i + 1;
    }
  }

  lemma {:induction false} RecordedMembers(H: TextDigest, turns: seq<Turn>, a: Artifact)
    requires forall t <- turns :: Collected(Attested(H, t).entries)
    ensures a in RecordedArtifacts(H, turns) <==> exists t <- turns :: !Hit(H, t) && FromRun(Attested(H, t), a)
    decreases |turns|
  {
    hide Collected, FromRun, Hit, Attested;
    if turns != [] {
      var n := |turns| - 1;
      assert turns == turns[..n] + [turns[n]] && turns[n] in turns;
      RecordedMembers(H, turns[..n], a);
      ArtifactsOfMembers(Attested(H, turns[n]), a);
    }
  }

  lemma AttestedOnce(H: TextDigest, turns: seq<Turn>)
    requires TurnsOnce(H, turns)
    ensures RanOnce(AttestedAll(H, turns))
  {
    hide Collected, Hit;
    var runs := AttestedAll(H, turns);
    forall r <- runs ensures Collected(r.entries) {
      var i :| 0 <= i < |runs| && runs[i] == r;
      assert turns[i] in turns;
    }
  }

  lemma AttestedSnoc(H: TextDigest, turns: seq<Turn>)
    requires turns != []
    ensures
      var n := |turns| - 1;
      AttestedAll(H, turns) == AttestedAll(H, turns[..n]) + [Attested(H, turns[n])]
  {
    hide Attested;
  }

  /** When no cache hit has outputs, all outputs of the run are recorded. */
  lemma {:induction false} BareRecordsAll(H: TextDigest, turns: seq<Turn>)
    requires TurnsOnce(H, turns) && HitsBare(H, turns)
    ensures RanOnce(AttestedAll(H, turns)) && RecordedArtifacts(H, turns) == AllArtifacts(AttestedAll(H, turns))
    decreases |turns|
  {
    hide Collected, Hit, AttestedAll;
    AttestedOnce(H, turns);
    if turns == [] {
      assert AttestedAll(H, turns) == [];
    } else {
      var n := |turns| - 1;
      assert turns[n] in turns;
      AttestedSnoc(H, turns);
      var runs := AttestedAll(H, turns);
      assert runs[..n] == AttestedAll(H, turns[..n]) && runs[n] == Attested(H, turns[n]);
      BareRecordsAll(H, turns[..n]);
      hide TurnsOnce, HitsBare, RanOnce;
      if Hit(H, turns[n]) { assert StepArtifacts(runs[n]) == []; }
    }
  }

  lemma BareSafe(H: TextDigest, turns: seq<Turn>)
    requires HitsBare(H, turns)
    ensures AllSafe(AttestedAll(H, turns)) <==> ExecutedSafe(H, turns)
  {
    hide SafePath, HashOutputs;
    var runs := AttestedAll(H, turns);
    if AllSafe(runs) {
      forall t <- turns, e <- t.built ensures !Hit(H, t) ==> SafePath(e.0) {
        var i :| 0 <= i < |turns| && turns[i] == t;
        assert runs[i] in runs;
      }
    }
    if ExecutedSafe(H, turns) {
      forall r <- runs, e <- r.entries ensures SafePath(e.0) {
        var i :| 0 <= i < |runs| && runs[i] == r;
        assert turns[i] in turns;
      }
    }
  }

  lemma HitUnrecorded(H: TextDigest, turns: seq<Turn>, i: nat)
    requires TurnsOnce(H, turns) && i < |turns| && Hit(H, turns[i])
    ensures forall a <- RecordedArtifacts(H, turns) :: a.step != turns[i].name
  {
    hide Collected, Hit;
    forall a <- RecordedArtifacts(H, turns) ensures a.step != turns[i].name {
      RecordedMembers(H, turns, a);
      var t :| t in turns && !Hit(H, t) && FromRun(Attested(H, t), a);
      var j :| 0 <= j < |turns| && turns[j] == t;
      assert i != j;
    }
  }

  lemma CollectedWritable(entries: seq<Entry>)
    requires Collected(entries)
    ensures forall e <- entries :: Writable(e)
  {
  }

  /** The inventory of a run passes exactly when it is not empty, the paths it records are safe
      and no cache hit has outputs, or the digest collides on the outputs of one that has. */
  lemma RunAcceptedIff(H: TextDigest, turns: seq<Turn>, steps: seq<StepOutput>)
    requires TurnsOnce(H, turns) && ReceiptOf(H, AttestedAll(H, turns), steps)
    ensures
      var artifacts := RecordedArtifacts(H, turns);
      if HitsBare(H, turns) then Accepted(H, steps, artifacts) <==> artifacts != [] && ExecutedSafe(H, turns)
      else !Accepted(H, steps, artifacts) || HitCollision(H, turns).Breaks(H)
  {
    hide RecordedArtifacts, AllArtifacts, ExecutedSafe, AllSafe, HashOutputs, OutputText, Collected;
    var artifacts, runs := RecordedArtifacts(H, turns), AttestedAll(H, turns);
    if HitsBare(H, turns) {
      hide Accepted;
      BareRecordsAll(H, turns);
      BareSafe(H, turns);
      ExecutedAcceptedIff(H, runs, steps);
    } else {
      hide Accepted, HitsBare, HitCollision;
      var i := FirstBareless(H, turns);
      HitUnrecorded(H, turns, i);
      CollectedWritable(Attested(H, turns[i]).entries);
      assert steps[i] in steps;
      UnrecordedStepRefused(H, steps, artifacts, steps[i], turns[i].standing.value);
    }
  }

  lemma RecordOne(H: TextDigest, turns: seq<Turn>, i: nat, steps: seq<StepOutput>)
    requires TurnsOnce(H, turns) && i < |turns| && ReceiptOf(H, AttestedAll(H, turns[..i]), steps)
    ensures forall t <- turns[..i + 1] :: Collected(Attested(H, t).entries)
    ensures
      var r := Attested(H, turns[i]);
      && ReceiptOf(H, AttestedAll(H, turns[..i + 1]), steps + [StepOutput(r.name, HashOutputs(H, r.entries))])
      && Collected(r.entries)
      && RecordedArtifacts(H, turns[..i + 1])
           == RecordedArtifacts(H, turns[..i]) + if Hit(H, turns[i]) then [] else StepArtifacts(r)
  {
    hide Collected, Hit, HashOutputs, StepArtifacts;
    assert turns[i] in turns && turns[..i + 1][..i] == turns[..i];
    assert forall t <- turns[..i + 1] :: t in turns;
    assert AttestedAll(H, turns[..i + 1]) == AttestedAll(H, turns[..i]) + [Attested(H, turns[i])];
  }

  lemma RecordedNone(H: TextDigest)
    ensures ReceiptOf(H, AttestedAll(H, []), []) && RecordedArtifacts(H, []) == []
  {
  }

  /** The run as it records outputs: a cache hit is replayed, an executed step is hashed and
      its artifacts added to those before. */
  method RecordRun(H: TextDigest, turns: seq<Turn>) returns (steps: seq<StepOutput>, artifacts: seq<Artifact>)
    requires TurnsOnce(H, turns)
    ensures ReceiptOf(H, AttestedAll(H, turns), steps) && artifacts == RecordedArtifacts(H, turns)
    ensures HitsBare(H, turns) ==> (Accepted(H, steps, artifacts) <==> artifacts != [] && ExecutedSafe(H, turns))
    ensures !HitsBare(H, turns) && Accepted(H, steps, artifacts) ==> HitCollision(H, turns).Breaks(H)
  {
    hide Accepted, ExecutedSafe, HitsBare, HashOutputs, HitCollision, ReceiptOf, AttestedAll, RecordedArtifacts,
         Collected;
    steps, artifacts := [], [];
    RecordedNone(H);
    assert turns[..0] == [];
    for i := 0 to |turns|
      invariant forall t <- turns[..i] :: Collected(Attested(H, t).entries)
      invariant ReceiptOf(H, AttestedAll(H, turns[..i]), steps) && artifacts == RecordedArtifacts(H, turns[..i])
    {
      var t := turns[i];
      RecordOne(H, turns, i, steps);
      var hash: string;
      if t.cached.Some? && t.standing.Some? && HashOutputs(H, t.standing.value) == t.cached.value {
        hash := t.cached.value;
      } else {
        CollectedWritable(t.built);
        var more;
        hash, more := OutputsWithArtifacts(H, t.name, t.built);
        artifacts := artifacts + more;
      }
      steps := steps + [StepOutput(t.name, hash)];
    }
    assert turns[..|turns|] == turns;
    RunAcceptedIff(H, turns, steps);
  }

  // ---------------------------------------------------------------------
  // The check itself
  // ---------------------------------------------------------------------

  type Shelf = map<string, seq<(string, Artifact)>>

  /** The nested map after some artifacts. */
  predicate Shelved(manifests: Shelf, artifacts: seq<Artifact>) {
    && (forall s <- manifests :: manifests[s] == Listing(artifacts, s))
    && forall a <- artifacts :: a.step in manifests
  }

  function Shelve(manifests: Shelf, a: Artifact): Shelf {
    manifests[a.step := Put(StringLess(), if a.step in manifests then manifests[a.step] else [], a.path, a)]
  }

  lemma ShelveOne(manifests: Shelf, artifacts: seq<Artifact>, a: Artifact)
    requires Shelved(manifests, artifacts)
    ensures Shelved(Shelve(manifests, a), artifacts + [a])
  {
    hide Put;
    var more := artifacts + [a];
    assert more[..|more| - 1] == artifacts;
    if a.step !in manifests { NoListing(artifacts, a.step); }
    forall s <- Shelve(manifests, a) ensures Shelve(manifests, a)[s] == Listing(more, s) {
      if s != a.step { assert s in manifests; }
    }
  }

  /** A key is taken exactly when an earlier artifact has the step and the path. */
  lemma KeyTaken(manifests: Shelf, artifacts: seq<Artifact>, a: Artifact)
    requires Shelved(manifests, artifacts) && OncePerStep(artifacts)
    ensures
      (a.step in manifests && exists e <- manifests[a.step] :: e.0 == a.path)
      <==> exists x <- artifacts :: x.step == a.step && x.path == a.path
  {
    hide OncePerStep, Listing;
    ListingMembers(artifacts, a.step);
    if x :| x in artifacts && x.step == a.step && x.path == a.path {
      assert (x.path, x) in Listing(artifacts, a.step);
    }
  }

  lemma OnceMore(artifacts: seq<Artifact>, a: Artifact)
    requires OncePerStep(artifacts)
    ensures OncePerStep(artifacts + [a]) <==> !exists x <- artifacts :: x.step == a.step && x.path == a.path
  {
    var more := artifacts + [a];
    if OncePerStep(more) {
      forall x <- artifacts ensures !(x.step == a.step && x.path == a.path) {
        var i :| 0 <= i < |artifacts| && artifacts[i] == x;
        assert more[i].step != more[|artifacts|].step || more[i].path != more[|artifacts|].path;
      }
    }
  }

  lemma OncePrefix(artifacts: seq<Artifact>, i: nat)
    requires i <= |artifacts| && !OncePerStep(artifacts[..i])
    ensures !OncePerStep(artifacts)
  {
  }

  lemma ShelvedNone()
    ensures Shelved(map[], []) && OncePerStep([])
  {
  }

  /** Fills the nested map; refuses what `ArtifactOk` refuses and any repeated key. */
  method FillManifests(steps: seq<StepOutput>, artifacts: seq<Artifact>) returns (filled: Result<Shelf>)
    ensures filled.Ok? <==> (forall a <- artifacts :: ArtifactOk(Names(steps), a)) && OncePerStep(artifacts)
    ensures filled.Ok? ==> Shelved(filled.value, artifacts)
  {
    hide ArtifactOk, OncePerStep, Listing, Shelved, Put;
    var names := set s <- steps :: s.name;
    var manifests: Shelf := map[];
    ShelvedNone();
    assert artifacts[..0] == [];
    for i := 0 to |artifacts|
      invariant Shelved(manifests, artifacts[..i]) && OncePerStep(artifacts[..i])
      invariant forall k :: 0 <= k < i ==> ArtifactOk(Names(steps), artifacts[k])
    {
      var a := artifacts[i];
      assert a in artifacts;
      assert artifacts[..i + 1] == artifacts[..i] + [a];
      if !ArtifactOk(names, a) { return Err; }
      KeyTaken(manifests, artifacts[..i], a);
      OnceMore(artifacts[..i], a);
      if a.step in manifests && exists e <- manifests[a.step] :: e.0 == a.path {
        OncePrefix(artifacts, i + 1);
        return Err;
      }
      ShelveOne(manifests, artifacts[..i], a);
      manifests := Shelve(manifests, a);
    }
    assert artifacts[..|artifacts|] == artifacts;
    return Ok(manifests);
  }

  lemma ShelfListing(manifests: Shelf, artifacts: seq<Artifact>, step: string)
    requires Shelved(manifests, artifacts)
    ensures Listing(artifacts, step) == if step in manifests then manifests[step] else []
  {
    if step !in manifests { NoListing(artifacts, step); }
  }

  lemma NamesSnoc(steps: seq<StepOutput>)
    requires steps != []
    ensures
      var n := |steps| - 1;
      && Names(steps) == Names(steps[..n]) + {steps[n].name}
      && (DistinctNames(steps) <==> DistinctNames(steps[..n]) && steps[n].name !in Names(steps[..n]))
  {
    var n := |steps| - 1;
    var last := steps[n].name;
    assert steps == steps[..n] + [steps[n]];
    assert forall s <- steps[..n] :: s in steps;
    assert forall i | 0 <= i < n :: steps[i] in steps[..n];
    if last in Names(steps[..n]) {
      var s :| s in steps[..n] && s.name == last;
      var i :| 0 <= i < n && steps[i] == s;
      assert steps[i].name == steps[n].name;
    }
  }

  /** A set of names is as large as the list exactly when no name repeats. */
  lemma {:induction false} NameCount(steps: seq<StepOutput>)
    ensures |Names(steps)| <= |steps|
    ensures |Names(steps)| == |steps| <==> DistinctNames(steps)
    decreases |steps|
  {
    if steps == [] {
      assert Names(steps) == {};
    } else {
      hide Names, DistinctNames;
      NamesSnoc(steps);
      NameCount(steps[..|steps| - 1]);
    }
  }

  /** `inventory` accepts exactly what `Accepted` says. */
  method Inventory(H: TextDigest, steps: seq<StepOutput>, artifacts: seq<Artifact>) returns (verdict: Result<()>)
    ensures verdict.Ok? <==> Accepted(H, steps, artifacts)
  {
    hide ArtifactOk, OncePerStep, Listing, Shelved, OutputText;
    var names := set s <- steps :: s.name;
    NameCount(steps);
    if |names| != |steps| || artifacts == [] { return Err; }
    var filled := FillManifests(steps, artifacts);
    if filled.Err? { return Err; }
    var manifests := filled.value;
    for i := 0 to |steps|
      invariant forall k :: 0 <= k < i ==> Matches(H, artifacts, steps[k])
    {
      var s := steps[i];
      assert s in steps;
      ShelfListing(manifests, artifacts, s.name);
      var manifest := OutputManifest(Lines(if s.name in manifests then manifests[s.name] else []));
      if HexDigest(H, manifest) != s.outputHash { return Err; }
    }
    return Ok(());
  }
}
