/** Retained evidence and the verdict on it (`publication/record.rs`, `publication/mod.rs`). */
module PublicationEvidence {
  import opened Numbers
  import opened Outcome
  import opened Merkle
  import opened LogProofs
  import opened LogSoundness
  import Hex
  import Text

  const MAX_SUBMISSIONS: nat := 3
  const MAX_RECORD_BYTES: nat := 512 * 1024
  const MAX_COMPARISON_BYTES: nat := 1024 * 1024
  const RECORD_FORMAT: string := "attest-publication/v1"
  const COMPARISON_FORMAT: string := "attest-log-comparison/v1"
  const DOMAIN_TEXT: string := "attest-causal-root/v1"

  function Ascii(s: string): (bytes: Bytes)
    ensures |bytes| == |s|
  {
    seq(|s|, i requires 0 <= i < |s| => (s[i] as int) % 256)
  }

  const ENTRY_PREFIX: Bytes := Ascii(DOMAIN_TEXT) + [10]
  const COMMITMENT_DOMAIN: Bytes := Ascii(DOMAIN_TEXT) + [0]

  // ---------------------------------------------------------------------
  // The commitment that is published
  // ---------------------------------------------------------------------

  function CommitmentPreimage(root: Hash, nonce: Hash): Bytes { COMMITMENT_DOMAIN + nonce + root }

  /** `entry_for_root`: the only bytes ever submitted. */
  function EntryForRoot(H: Digest, root: string, nonce: string): Option<Bytes> {
    var r, n := Hex.HashBytes(root), Hex.HashBytes(nonce);
    if r.None? || n.None? then None
    else Some(ENTRY_PREFIX + H(CommitmentPreimage(r.value, n.value)))
  }

  /** The collision two openings of one entry give away. */
  function OpeningCollision(root: string, nonce: string, root': string, nonce': string): Option<Collision> {
    var r, n, r', n' := Hex.HashBytes(root), Hex.HashBytes(nonce), Hex.HashBytes(root'), Hex.HashBytes(nonce');
    if r.None? || n.None? || r'.None? || n'.None? then None
    else if r == r' && n == n' then None
    else Some(Collision(CommitmentPreimage(r.value, n.value), CommitmentPreimage(r'.value, n'.value)))
  }

  lemma CommitmentPreimageInjective(r: Hash, n: Hash, r': Hash, n': Hash)
    requires CommitmentPreimage(r, n) == CommitmentPreimage(r', n')
    ensures r == r' && n == n'
  {
    var d := |COMMITMENT_DOMAIN|;
    assert n == CommitmentPreimage(r, n)[d..d + 32] && n' == CommitmentPreimage(r', n')[d..d + 32];
    assert r == CommitmentPreimage(r, n)[d + 32..] && r' == CommitmentPreimage(r', n')[d + 32..];
  }

  /** An entry opens to one causal root and one nonce, or the digest collides. */
  lemma EntryBinds(H: Digest, root: string, nonce: string, root': string, nonce': string)
    requires EntryForRoot(H, root, nonce).Some?
    requires EntryForRoot(H, root, nonce) == EntryForRoot(H, root', nonce')
    ensures
      var c := OpeningCollision(root, nonce, root', nonce');
      if c.Some? then c.value.Breaks(H) else root == root' && nonce == nonce'
  {
    var r, n := Hex.HashBytes(root).value, Hex.HashBytes(nonce).value;
    var r', n' := Hex.HashBytes(root').value, Hex.HashBytes(nonce').value;
    var x, y := H(CommitmentPreimage(r, n)), H(CommitmentPreimage(r', n'));
    assert x == (ENTRY_PREFIX + x)[|ENTRY_PREFIX|..] && y == (ENTRY_PREFIX + y)[|ENTRY_PREFIX|..];
    hide CommitmentPreimage, Hex.HashBytes;
    if CommitmentPreimage(r, n) == CommitmentPreimage(r', n') { CommitmentPreimageInjective(r, n, r', n'); }
    Hex.HashBytesExact(root, r);
    Hex.HashBytesExact(nonce, n);
    Hex.HashBytesExact(root', r');
    Hex.HashBytesExact(nonce', n');
  }

  // ---------------------------------------------------------------------
  // Records, comparisons and the recipient's trust
  // ---------------------------------------------------------------------

  datatype UnconfirmedReason =
    | Prepared | RequestFailed | ServiceRefused | AwaitingInclusion | InvalidProof | Deadline | AttemptLimit

  datatype Submission = Submission(startedAt: int, returnedIndex: Option<u64>)

  datatype PublicationState =
    | Unconfirmed(reason: UnconfirmedReason)
    | Confirmed(leafIndex: u64, checkpoint: string, inclusionPath: seq<string>)

  datatype PublicationRecord = PublicationRecord(
    format: string,
    causalRoot: string,
    openingNonce: string,
    entry: string,
    logId: string,
    submitUrl: string,
    createdAt: int,
    submissions: seq<Submission>,
    outcome: PublicationState)

  datatype CheckpointComparison = CheckpointComparison(
    format: string,
    logId: string,
    firstCheckpoint: string,
    secondCheckpoint: string,
    consistencyPath: seq<string>)

  datatype Checkpoint = Checkpoint(treeSize: u64, root: Hash, signedNote: string)

  /** A configured log: its identifier, absent when the configuration is invalid,
      and its judgement of a signed note. */
  datatype LogTrust = LogTrust(logId: Option<string>, verifyNote: string -> Option<Checkpoint>)

  /** JSON parsing of the two file formats. */
  datatype Parsers = Parsers(record: Bytes -> Option<PublicationRecord>,
                             comparison: Bytes -> Option<CheckpointComparison>)

  function Utf8Width(c: char): nat {
    if c as int < 0x80 then 1 else if c as int < 0x800 then 2 else if c as int < 0x1_0000 then 3 else 4
  }

  /** Length of the UTF-8 encoding. */
  function Utf8Length(s: string): nat {
    if s == "" then 0 else Utf8Width(s[0]) + Utf8Length(s[1..])
  }

  /** `hashes`: at most 65 canonical nodes. */
  function DecodeNodes(values: seq<string>): (nodes: Option<seq<Hash>>)
    ensures nodes.Some? ==> |nodes.value| == |values|
  {
    if |values| > MAX_PROOF_NODES || exists v <- values :: Hex.HashBytes(v).None? then None
    else Some(seq(|values|, i requires 0 <= i < |values| => Hex.HashBytes(values[i]).value))
  }

  function DecodeRecord(parsers: Parsers, bytes: Bytes): Option<PublicationRecord> {
    if |bytes| <= MAX_RECORD_BYTES then parsers.record(bytes) else None
  }

  function DecodeComparison(parsers: Parsers, bytes: Bytes): Option<CheckpointComparison> {
    if |bytes| <= MAX_COMPARISON_BYTES then parsers.comparison(bytes) else None
  }

  /** `PublicationRecord::entry_bytes` */
  function EntryBytes(H: Digest, record: PublicationRecord, receiptRoot: string): Option<Bytes> {
    if record.format != RECORD_FORMAT then None
    else if |record.submissions| > MAX_SUBMISSIONS then None
    else if Utf8Length(record.submitUrl) > 4096 || exists c <- record.submitUrl :: Text.IsControl(c) then None
    else if Hex.HashBytes(record.logId).None? then None
    else if Hex.HashBytes(receiptRoot).None? then None
    else if record.causalRoot != receiptRoot then None
    else
      var entry := EntryForRoot(H, receiptRoot, record.openingNonce);
      if entry.None? then None
      else if |record.entry| == (|ENTRY_PREFIX| + 32) * 2 && Hex.Encode(entry.value) == record.entry then entry
      else None
  }

  /** `PublicationRecord::verify` */
  function VerifyRecord(H: Digest, record: PublicationRecord, receiptRoot: string,
                        trust: LogTrust): Option<Checkpoint>
  {
    var entry := EntryBytes(H, record, receiptRoot);
    if entry.None? then None
    else if trust.logId.None? || record.logId != trust.logId.value then None
    else if !record.outcome.Confirmed? then None
    else
      var checkpoint := trust.verifyNote(record.outcome.checkpoint);
      var path := DecodeNodes(record.outcome.inclusionPath);
      if checkpoint.None? || path.None? then None
      else if InclusionHolds(H, entry.value, record.outcome.leafIndex, checkpoint.value.treeSize, path.value,
                             checkpoint.value.root)
      then checkpoint
      else None
  }

  predicate SameCheckpoint(a: Checkpoint, b: Checkpoint) { a.treeSize == b.treeSize && a.root == b.root }

  /** `CheckpointComparison::verify` */
  function VerifyComparison(H: Digest, comparison: CheckpointComparison,
                            trust: LogTrust): Option<(Checkpoint, Checkpoint)>
  {
    if comparison.format != COMPARISON_FORMAT then None
    else if trust.logId.None? || comparison.logId != trust.logId.value then None
    else
      var first, second := trust.verifyNote(comparison.firstCheckpoint), trust.verifyNote(comparison.secondCheckpoint);
      var path := DecodeNodes(comparison.consistencyPath);
      if first.None? || second.None? then None
      else if first.value.treeSize == second.value.treeSize && first.value.root != second.value.root then None
      else if path.None? then None
      else if ConsistencyHolds(H, first.value.treeSize, second.value.treeSize, first.value.root, second.value.root,
                               path.value)
      then Some((first.value, second.value))
      else None
  }

  // ---------------------------------------------------------------------
  // The verdict
  // ---------------------------------------------------------------------

  datatype CheckStatus = Pass | Fail | Skipped

  datatype Verdict = Verdict(inclusion: CheckStatus, consistency: CheckStatus)

  datatype Material = Material(trust: Option<LogTrust>, referenceCheckpoint: Option<string>, comparison: Option<Bytes>)

  /** The record and root that bind the receipt, if they do. */
  function Prepare(H: Digest, parsers: Parsers, receiptRoot: Option<string>,
                   bytes: Bytes): Option<(string, PublicationRecord)>
  {
    if receiptRoot.None? then None
    else
      var record := DecodeRecord(parsers, bytes);
      if record.None? || EntryBytes(H, record.value, receiptRoot.value).None? then None
      else Some((receiptRoot.value, record.value))
  }

  /** The comparison of `assess`: `Fail` for an error, `Skipped` when nothing connects the two. */
  function Compare(H: Digest, parsers: Parsers, publication: Checkpoint, note: string, material: Material,
                   trust: LogTrust): CheckStatus
  {
    var reference := trust.verifyNote(note);
    if reference.None? then Fail
    else if reference.value.treeSize == publication.treeSize && reference.value.root != publication.root then Fail
    else if material.comparison.Some? then
      var comparison := DecodeComparison(parsers, material.comparison.value);
      if comparison.None? then Fail
      else
        var pair := VerifyComparison(H, comparison.value, trust);
        if pair.None? then Fail
        else if (SameCheckpoint(pair.value.0, reference.value) && SameCheckpoint(pair.value.1, publication))
             || (SameCheckpoint(pair.value.1, reference.value) && SameCheckpoint(pair.value.0, publication))
        then Pass
        else Fail
    else if SameCheckpoint(reference.value, publication) then Pass
    else if reference.value.treeSize == 0 || publication.treeSize == 0 then
      var (first, second) := if reference.value.treeSize < publication.treeSize
                             then (reference.value, publication) else (publication, reference.value);
      if ConsistencyHolds(H, first.treeSize, second.treeSize, first.root, second.root, []) then Pass else Fail
    else Skipped
  }

  function Assess(H: Digest, parsers: Parsers, receiptRoot: Option<string>, record: Option<Bytes>,
                  material: Material): Verdict
  {
    if record.None? then Verdict(Skipped, Skipped)
    else
      var prepared := Prepare(H, parsers, receiptRoot, record.value);
      if prepared.None? then Verdict(Fail, Skipped)
      else if material.trust.None? then Verdict(Skipped, Skipped)
      else
        var (root, rec) := prepared.value;
        var trust := material.trust.value;
        if rec.outcome.Unconfirmed? then Verdict(Skipped, Skipped)
        else
          var publication := VerifyRecord(H, rec, root, trust);
          if publication.None? then Verdict(Fail, Skipped)
          else if material.referenceCheckpoint.None? then Verdict(Pass, Skipped)
          else
            Verdict(Pass, Compare(H, parsers, publication.value, material.referenceCheckpoint.value, material, trust))
  }

  /** What a passing inclusion check rests on. */
  datatype Evidence = Evidence(entry: Bytes, index: u64, path: seq<Hash>, publication: Checkpoint, nonce: string)

  /** The evidence inside an accepted record. */
  function EvidenceOf(H: Digest, parsers: Parsers, receiptRoot: Option<string>, record: Option<Bytes>,
                      material: Material): (e: Evidence)
    requires Assess(H, parsers, receiptRoot, record, material).inclusion == Pass
    ensures InclusionHolds(H, e.entry, e.index, e.publication.treeSize, e.path, e.publication.root)
    ensures receiptRoot.Some? && EntryForRoot(H, receiptRoot.value, e.nonce) == Some(e.entry)
  {
    var (root, rec) := Prepare(H, parsers, receiptRoot, record.value).value;
    Evidence(EntryBytes(H, rec, root).value, rec.outcome.leafIndex, DecodeNodes(rec.outcome.inclusionPath).value,
             VerifyRecord(H, rec, root, material.trust.value).value, rec.openingNonce)
  }

  /** The path that connects the recipient's checkpoint with the publication's. */
  function ConnectingPath(parsers: Parsers, material: Material): seq<Hash> {
    if material.comparison.None? then []
    else
      var comparison := DecodeComparison(parsers, material.comparison.value);
      if comparison.None? || DecodeNodes(comparison.value.consistencyPath).None? then []
      else DecodeNodes(comparison.value.consistencyPath).value
  }

  /** A passing comparison is a consistency proof between the two checkpoints. */
  lemma CompareConnects(H: Digest, parsers: Parsers, publication: Checkpoint, note: string, material: Material,
                        trust: LogTrust)
    requires Compare(H, parsers, publication, note, material, trust) == Pass
    requires publication.treeSize > 0
    ensures trust.verifyNote(note).Some?
    ensures
      var reference, path := trust.verifyNote(note).value, ConnectingPath(parsers, material);
      || ConsistencyHolds(H, reference.treeSize, publication.treeSize, reference.root, publication.root, path)
      || ConsistencyHolds(H, publication.treeSize, reference.treeSize, publication.root, reference.root, path)
  {
    hide ConsistencyLength, ConnectNew, ConnectOld;
  }

  /** The collision behind a passing verdict over a log `D` that does not hold the entry. */
  function VerdictCollision(H: Digest, D: Log, e: Evidence, path: seq<Hash>): Option<Collision>
    requires |D| < U64_LIMIT && e.publication.treeSize <= |D|
    requires InclusionHolds(H, e.entry, e.index, e.publication.treeSize, e.path, e.publication.root)
    requires ConsistencyHolds(H, e.publication.treeSize, |D|, e.publication.root, MTH(H, D), path)
  {
    var c := PrefixCollision(H, D, e.publication.treeSize, e.publication.root, path);
    if c.Some? then c
    else InclusionCollision(H, D[..e.publication.treeSize], 0, e.index, e.publication.treeSize, e.entry, e.path)
  }

  lemma VerdictBinds(H: Digest, D: Log, e: Evidence, path: seq<Hash>)
    requires |D| < U64_LIMIT && e.publication.treeSize <= |D|
    requires InclusionHolds(H, e.entry, e.index, e.publication.treeSize, e.path, e.publication.root)
    requires ConsistencyHolds(H, e.publication.treeSize, |D|, e.publication.root, MTH(H, D), path)
    ensures
      var c := VerdictCollision(H, D, e, path);
      if c.Some? then c.value.Breaks(H) else e.index < |D| && D[e.index] == e.entry
  {
    hide Climb, PathLength, ConnectOld, ConnectNew, ConsistencyLength, MTH, PrefixCollision, InclusionCollision,
         RangeRoots, InclusionPath;
    var n := e.publication.treeSize;
    ConsistencySound(H, D, n, e.publication.root, path);
    if PrefixCollision(H, D, n, e.publication.root, path).None? {
      InclusionSound(H, D[..n], e.entry, e.index, e.path);
    }
  }

  /** Verdict composition, reference at least as large: when both log checks pass
      and the recipient's reference is the root of `D`, then `D` holds, at the
      recorded index, the commitment to this receipt's causal root. */
  lemma AssessSound(H: Digest, parsers: Parsers, receiptRoot: Option<string>, record: Option<Bytes>,
                    material: Material, D: Log)
    requires Assess(H, parsers, receiptRoot, record, material) == Verdict(Pass, Pass)
    requires |D| < U64_LIMIT
    requires
      var reference := material.trust.value.verifyNote(material.referenceCheckpoint.value);
      reference.Some? && reference.value.treeSize == |D| && reference.value.root == MTH(H, D)
    requires EvidenceOf(H, parsers, receiptRoot, record, material).publication.treeSize <= |D|
    ensures
      var e := EvidenceOf(H, parsers, receiptRoot, record, material);
      var path := ConnectingPath(parsers, material);
      && ConsistencyHolds(H, e.publication.treeSize, |D|, e.publication.root, MTH(H, D), path)
      && var c := VerdictCollision(H, D, e, path);
         if c.Some? then c.value.Breaks(H)
         else e.index < |D| && EntryForRoot(H, receiptRoot.value, e.nonce) == Some(D[e.index])
  {
    hide MTH, Compare, InclusionCollision, PrefixCollision, ConsistencyLength, ConnectNew, ConnectOld, Climb,
         PathLength;
    var e := EvidenceOf(H, parsers, receiptRoot, record, material);
    CompareConnects(H, parsers, e.publication, material.referenceCheckpoint.value, material, material.trust.value);
    VerdictBinds(H, D, e, ConnectingPath(parsers, material));
  }

  /** Verdict composition, reference smaller: the recipient's checkpoint is a
      prefix of the tree the publication was made in, and that tree holds the
      commitment. */
  lemma AssessSoundSmaller(H: Digest, parsers: Parsers, receiptRoot: Option<string>, record: Option<Bytes>,
                           material: Material, D: Log)
    requires Assess(H, parsers, receiptRoot, record, material) == Verdict(Pass, Pass)
    requires |D| < U64_LIMIT
    requires
      var e := EvidenceOf(H, parsers, receiptRoot, record, material);
      e.publication.treeSize == |D| && e.publication.root == MTH(H, D)
    requires
      var reference := material.trust.value.verifyNote(material.referenceCheckpoint.value);
      reference.Some? && reference.value.treeSize <= |D|
    ensures
      var e := EvidenceOf(H, parsers, receiptRoot, record, material);
      var reference := material.trust.value.verifyNote(material.referenceCheckpoint.value).value;
      var path := ConnectingPath(parsers, material);
      && ConsistencyHolds(H, reference.treeSize, |D|, reference.root, MTH(H, D), path)
      && var c := PrefixCollision(H, D, reference.treeSize, reference.root, path);
         if c.Some? then c.value.Breaks(H) else reference.root == MTH(H, D[..reference.treeSize])
    ensures
      var e := EvidenceOf(H, parsers, receiptRoot, record, material);
      var c := InclusionCollision(H, D, 0, e.index, |D|, e.entry, e.path);
      if c.Some? then c.value.Breaks(H)
      else EntryForRoot(H, receiptRoot.value, e.nonce) == Some(D[e.index])
  {
    hide MTH, Compare, InclusionCollision, PrefixCollision, ConsistencyLength, ConnectNew, ConnectOld, Climb,
         PathLength, RangeRoots;
    var e := EvidenceOf(H, parsers, receiptRoot, record, material);
    var reference := material.trust.value.verifyNote(material.referenceCheckpoint.value).value;
    CompareConnects(H, parsers, e.publication, material.referenceCheckpoint.value, material, material.trust.value);
    ConsistencySound(H, D, reference.treeSize, reference.root, ConnectingPath(parsers, material));
    InclusionSound(H, D, e.entry, e.index, e.path);
  }

  function EncodeNodes(nodes: seq<Hash>): (values: seq<string>)
    ensures |values| == |nodes|
  {
    seq(|nodes|, i requires 0 <= i < |nodes| => Hex.Encode(nodes[i]))
  }

  lemma NodesRoundTrip(nodes: seq<Hash>)
    requires |nodes| <= MAX_PROOF_NODES
    ensures DecodeNodes(EncodeNodes(nodes)) == Some(nodes)
  {
    hide Hex.HashBytes, Hex.Encode;
    var values := EncodeNodes(nodes);
    forall i | 0 <= i < |nodes| ensures Hex.HashBytes(values[i]) == Some(nodes[i]) {
      Hex.HashBytesExact(values[i], nodes[i]);
    }
    forall v <- values ensures Hex.HashBytes(v).Some? {
      var i :| 0 <= i < |values| && values[i] == v;
    }
    assert DecodeNodes(values).Some?;
    assert DecodeNodes(values).value == nodes;
  }

  /** What an honest publisher stores is what the recipient accepts. */
  lemma HonestRecordPasses(H: Digest, parsers: Parsers, record: PublicationRecord, bytes: Bytes, material: Material,
                           D: Log)
    requires |D| < U64_LIMIT
    requires DecodeRecord(parsers, bytes) == Some(record) && record.outcome.Confirmed?
    requires record.outcome.leafIndex < |D|
    requires EntryBytes(H, record, record.causalRoot) == Some(D[record.outcome.leafIndex])
    requires record.outcome.inclusionPath
          == EncodeNodes(RangeRoots(H, D, InclusionPath(record.outcome.leafIndex, 0, |D|)))
    requires material.trust.Some? && material.trust.value.logId == Some(record.logId)
    requires
      var checkpoint := material.trust.value.verifyNote(record.outcome.checkpoint);
      checkpoint.Some? && checkpoint.value.treeSize == |D| && checkpoint.value.root == MTH(H, D)
    ensures VerifyRecord(H, record, record.causalRoot, material.trust.value)
         == material.trust.value.verifyNote(record.outcome.checkpoint)
    ensures Assess(H, parsers, Some(record.causalRoot), Some(bytes), material).inclusion == Pass
  {
    hide Compare, MTH, Climb, PathLength, EntryBytes, RangeRoots, InclusionPath, DecodeNodes, EncodeNodes;
    var i := record.outcome.leafIndex;
    PathLengthBound(i, |D|);
    NodesRoundTrip(RangeRoots(H, D, InclusionPath(i, 0, |D|)));
    InclusionComplete(H, D, i);
  }

  lemma ConsistencyPathShort(H: Digest, D: Log, prior: u64)
    requires prior <= |D| < U64_LIMIT
    ensures |RangeRoots(H, D, ConsistencyRangesOf(prior, |D|))| <= MAX_PROOF_NODES
  {
    hide MTH, ConnectNew, ConnectOld, RangeRoots, ConsistencyRangesOf, ConsistencyLength;
    ConsistencyComplete(H, D, prior);
    if 0 < prior < |D| { ConsistencyLengthBound(prior, |D|, true); }
  }

  /** `checkpoint` is the head of the log after its first `n` leaves. */
  predicate Heads(H: Digest, D: Log, n: nat, checkpoint: Option<Checkpoint>) {
    n <= |D| && checkpoint.Some? && checkpoint.value.treeSize == n && checkpoint.value.root == MTH(H, D[..n])
  }

  /** The honest comparison of an earlier head of `D` with its present one. */
  ghost predicate HonestComparison(H: Digest, D: Log, comparison: CheckpointComparison, small: nat, trust: LogTrust) {
    && |D| < U64_LIMIT && small <= |D|
    && comparison.format == COMPARISON_FORMAT && trust.logId == Some(comparison.logId)
    && Heads(H, D, small, trust.verifyNote(comparison.firstCheckpoint))
    && Heads(H, D, |D|, trust.verifyNote(comparison.secondCheckpoint))
    && comparison.consistencyPath == EncodeNodes(RangeRoots(H, D, ConsistencyRangesOf(small, |D|)))
  }

  lemma HonestComparisonVerifies(H: Digest, D: Log, comparison: CheckpointComparison, small: nat, trust: LogTrust)
    requires HonestComparison(H, D, comparison, small, trust)
    ensures
      var first, second := trust.verifyNote(comparison.firstCheckpoint), trust.verifyNote(comparison.secondCheckpoint);
      first.Some? && second.Some? && VerifyComparison(H, comparison, trust) == Some((first.value, second.value))
  {
    hide MTH, ConsistencyHolds, RangeRoots, ConsistencyRangesOf, DecodeNodes, EncodeNodes;
    assert D[..|D|] == D;
    ConsistencyPathShort(H, D, small);
    NodesRoundTrip(RangeRoots(H, D, ConsistencyRangesOf(small, |D|)));
    ConsistencyComplete(H, D, small);
  }

  /** An honest comparison of the publication's head and the recipient's passes, whichever of the
      two is the later. */
  lemma HonestComparisonPasses(H: Digest, parsers: Parsers, D: Log, published: nat, referred: nat,
                               publication: Checkpoint, note: string, comparison: CheckpointComparison,
                               bytes: Bytes, material: Material, trust: LogTrust)
    requires Heads(H, D, published, Some(publication)) && Heads(H, D, referred, trust.verifyNote(note))
    requires published == |D| || referred == |D|
    requires HonestComparison(H, D, comparison, if published < referred then published else referred, trust)
    requires material.comparison == Some(bytes) && DecodeComparison(parsers, bytes) == Some(comparison)
    ensures Compare(H, parsers, publication, note, material, trust) == Pass
  {
    hide MTH, VerifyComparison, RangeRoots, ConsistencyRangesOf, EncodeNodes;
    HonestComparisonVerifies(H, D, comparison, if published < referred then published else referred, trust);
  }

  /** Once the record verifies and there is a reference, the comparison decides. */
  lemma AssessCompares(H: Digest, parsers: Parsers, record: PublicationRecord, bytes: Bytes, material: Material)
    requires DecodeRecord(parsers, bytes) == Some(record) && EntryBytes(H, record, record.causalRoot).Some?
    requires record.outcome.Confirmed? && material.trust.Some? && material.referenceCheckpoint.Some?
    requires VerifyRecord(H, record, record.causalRoot, material.trust.value).Some?
    ensures
      var publication := VerifyRecord(H, record, record.causalRoot, material.trust.value).value;
      var note := material.referenceCheckpoint.value;
      Assess(H, parsers, Some(record.causalRoot), Some(bytes), material)
        == Verdict(Pass, Compare(H, parsers, publication, note, material, material.trust.value))
  {
    hide EntryBytes, VerifyRecord, Compare, DecodeRecord;
  }

  /** An honest record and an honest comparison pass both checks. */
  lemma HonestEvidencePasses(H: Digest, parsers: Parsers, record: PublicationRecord, bytes: Bytes, material: Material,
                             D: Log, published: nat, referred: nat, comparison: CheckpointComparison)
    requires |D| < U64_LIMIT && published <= |D| && referred <= |D| && (published == |D| || referred == |D|)
    requires DecodeRecord(parsers, bytes) == Some(record) && record.outcome.Confirmed?
    requires record.outcome.leafIndex < published
    requires EntryBytes(H, record, record.causalRoot) == Some(D[record.outcome.leafIndex])
    requires record.outcome.inclusionPath
          == EncodeNodes(RangeRoots(H, D[..published], InclusionPath(record.outcome.leafIndex, 0, published)))
    requires material.trust.Some? && material.trust.value.logId == Some(record.logId)
    requires Heads(H, D, published, material.trust.value.verifyNote(record.outcome.checkpoint))
    requires material.referenceCheckpoint.Some?
    requires Heads(H, D, referred, material.trust.value.verifyNote(material.referenceCheckpoint.value))
    requires
      var small := if published < referred then published else referred;
      HonestComparison(H, D, comparison, small, material.trust.value)
    requires material.comparison.Some? && DecodeComparison(parsers, material.comparison.value) == Some(comparison)
    ensures Assess(H, parsers, Some(record.causalRoot), Some(bytes), material) == Verdict(Pass, Pass)
  {
    var trust, log := material.trust.value, D[..published];
    assert log[record.outcome.leafIndex] == D[record.outcome.leafIndex];
    HonestRecordPasses(H, parsers, record, bytes, material, log);
    hide Assess, Compare, MTH, EntryBytes, VerifyRecord, HonestComparison, RangeRoots, InclusionPath, EncodeNodes;
    AssessCompares(H, parsers, record, bytes, material);
    HonestComparisonPasses(H, parsers, D, published, referred, trust.verifyNote(record.outcome.checkpoint).value,
                           material.referenceCheckpoint.value, comparison, material.comparison.value, material, trust);
  }
}
