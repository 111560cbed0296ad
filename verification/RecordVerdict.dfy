/** The verdict on retained evidence (`publication/record.rs` `assess`), outcome by outcome. */
module PublicationVerdict {
  import opened Outcome
  import opened Merkle
  import opened LogProofs
  import opened PublicationEvidence

  // ---------------------------------------------------------------------
  // The record
  // ---------------------------------------------------------------------

  /** A destination that fits a record. */
  predicate FitDestination(url: string) { Utf8Length(url) <= 4096 && forall c <- url :: !Text.IsControl(c) }

  /** The record holds these entry bytes, as its own opening of this root, for a nameable log. */
  predicate Opens(H: Digest, r: PublicationRecord, root: string, entry: Bytes) {
    && r.format == RECORD_FORMAT && |r.submissions| <= MAX_SUBMISSIONS && FitDestination(r.submitUrl)
    && Hex.HashBytes(r.logId).Some?
    && r.causalRoot == root && EntryForRoot(H, root, r.openingNonce) == Some(entry) && r.entry == Hex.Encode(entry)
  }

  /** `entry_bytes` answers for exactly the records that open to the root; its test of the text's
      length adds nothing. */
  lemma OpensExactly(H: Digest, r: PublicationRecord, root: string, entry: Bytes)
    ensures EntryBytes(H, r, root) == Some(entry) <==> Opens(H, r, root, entry)
  {
    hide Hex.HashBytes, Utf8Length, Text.IsControl, CommitmentPreimage;
    assert (exists c <- r.submitUrl :: Text.IsControl(c)) <==> !(forall c <- r.submitUrl :: !Text.IsControl(c));
  }

  /** The retained file opens to this receipt's causal root. */
  predicate Binds(H: Digest, parsers: Parsers, receiptRoot: Option<string>, bytes: Bytes) {
    && receiptRoot.Some? && DecodeRecord(parsers, bytes).Some?
    && EntryBytes(H, DecodeRecord(parsers, bytes).value, receiptRoot.value).Some?
  }

  /** The record is confirmed by the trusted log: the log's own head, and a path from the entry to it. */
  predicate Included(H: Digest, r: PublicationRecord, entry: Bytes, trust: LogTrust) {
    && r.outcome.Confirmed? && trust.logId == Some(r.logId)
    && var head, path := trust.verifyNote(r.outcome.checkpoint), DecodeNodes(r.outcome.inclusionPath);
       && head.Some? && path.Some?
       && InclusionHolds(H, entry, r.outcome.leafIndex, head.value.treeSize, path.value, head.value.root)
  }

  // ---------------------------------------------------------------------
  // The two checks
  // ---------------------------------------------------------------------

  /** The inclusion check, case by case, and what there is nothing to compare for. */
  lemma InclusionOutcome(H: Digest, parsers: Parsers, receiptRoot: Option<string>, record: Option<Bytes>,
                         material: Material)
    ensures
      var verdict := Assess(H, parsers, receiptRoot, record, material);
      && (record.None? ==> verdict.inclusion == Skipped)
      && (record.Some? && !Binds(H, parsers, receiptRoot, record.value) ==> verdict.inclusion == Fail)
      && (record.Some? && Binds(H, parsers, receiptRoot, record.value) ==>
            var r := DecodeRecord(parsers, record.value).value;
            var entry := EntryBytes(H, r, receiptRoot.value).value;
            if material.trust.None? || r.outcome.Unconfirmed? then verdict.inclusion == Skipped
            else verdict.inclusion == if Included(H, r, entry, material.trust.value) then Pass else Fail)
      && (verdict.inclusion != Pass || material.referenceCheckpoint.None? ==> verdict.consistency == Skipped)
  {
    hide EntryBytes, Compare, DecodeRecord, DecodeNodes, Climb, PathLength;
  }

  /** The recipient's reference cannot stand beside the publication: it is not authentic, or it
      shows another root at the same size. */
  predicate Conflicts(publication: Checkpoint, reference: Option<Checkpoint>) {
    reference.None? || (reference.value.treeSize == publication.treeSize && reference.value.root != publication.root)
  }

  /** The comparison shows `older` to be a prefix of `newer`, both heads of the trusted log. */
  predicate Shows(H: Digest, comparison: CheckpointComparison, trust: LogTrust, older: Checkpoint, newer: Checkpoint) {
    && comparison.format == COMPARISON_FORMAT && trust.logId == Some(comparison.logId)
    && var first, second := trust.verifyNote(comparison.firstCheckpoint), trust.verifyNote(comparison.secondCheckpoint);
       var path := DecodeNodes(comparison.consistencyPath);
       && first.Some? && SameCheckpoint(first.value, older) && second.Some? && SameCheckpoint(second.value, newer)
       && path.Some? && ConsistencyHolds(H, older.treeSize, newer.treeSize, older.root, newer.root, path.value)
  }

  /** A comparison file that connects the two checkpoints, whichever is the older. */
  predicate Connects(H: Digest, parsers: Parsers, bytes: Bytes, trust: LogTrust, a: Checkpoint, b: Checkpoint) {
    && DecodeComparison(parsers, bytes).Some?
    && (|| Shows(H, DecodeComparison(parsers, bytes).value, trust, a, b)
        || Shows(H, DecodeComparison(parsers, bytes).value, trust, b, a))
  }

  /** An empty tree that is what it should be. */
  predicate Empty(H: Digest, head: Checkpoint) { head.treeSize == 0 && head.root == EmptyRoot(H) }

  lemma ConflictFails(H: Digest, parsers: Parsers, publication: Checkpoint, note: string, material: Material,
                      trust: LogTrust)
    requires Conflicts(publication, trust.verifyNote(note))
    ensures Compare(H, parsers, publication, note, material, trust) == Fail
  {
    hide DecodeComparison, VerifyComparison, ConsistencyHolds;
  }

  /** With a comparison file, authentic checkpoints pass exactly when it connects them. */
  lemma ComparedOutcome(H: Digest, parsers: Parsers, publication: Checkpoint, note: string, material: Material,
                        trust: LogTrust)
    requires !Conflicts(publication, trust.verifyNote(note)) && material.comparison.Some?
    ensures Compare(H, parsers, publication, note, material, trust)
         == if Connects(H, parsers, material.comparison.value, trust, trust.verifyNote(note).value, publication)
            then Pass else Fail
  {
    hide DecodeComparison, DecodeNodes, ConsistencyLength, ConnectOld, ConnectNew;
  }

  /** Without one, the two checkpoints have to speak for themselves. */
  lemma UncomparedOutcome(H: Digest, parsers: Parsers, publication: Checkpoint, note: string, material: Material,
                          trust: LogTrust)
    requires !Conflicts(publication, trust.verifyNote(note)) && material.comparison.None?
    ensures
      var consistency := Compare(H, parsers, publication, note, material, trust);
      var reference := trust.verifyNote(note).value;
      && (SameCheckpoint(reference, publication) ==> consistency == Pass)
      && (reference.treeSize == 0 < publication.treeSize ==>
            consistency == if Empty(H, reference) then Pass else Fail)
      && (publication.treeSize == 0 < reference.treeSize ==>
            consistency == if Empty(H, publication) then Pass else Fail)
      && (consistency == Skipped <==>
            reference.treeSize > 0 && publication.treeSize > 0 && reference.treeSize != publication.treeSize)
  {
    hide ConsistencyLength, ConnectOld, ConnectNew;
  }

  /** Once inclusion passes and there is a reference, the comparison is the verdict. */
  lemma AssessedCompare(H: Digest, parsers: Parsers, receiptRoot: Option<string>, record: Option<Bytes>,
                        material: Material)
    requires Assess(H, parsers, receiptRoot, record, material).inclusion == Pass
    requires material.referenceCheckpoint.Some?
    ensures material.trust.Some?
    ensures Assess(H, parsers, receiptRoot, record, material).consistency
         == Compare(H, parsers, EvidenceOf(H, parsers, receiptRoot, record, material).publication,
                    material.referenceCheckpoint.value, material, material.trust.value)
  {
    hide EntryBytes, Compare, DecodeRecord, VerifyRecord;
  }

  /** Once inclusion passes and the recipient has a reference: a conflict fails whatever else there is;
      a comparison passes exactly when it connects the two, and fails otherwise; without one, equal heads
      pass, an empty tree passes exactly when its root is the empty root, and only two different heads
      of non-empty trees are left undecided. */
  lemma ConsistencyOutcome(H: Digest, parsers: Parsers, receiptRoot: Option<string>, record: Option<Bytes>,
                           material: Material)
    requires Assess(H, parsers, receiptRoot, record, material).inclusion == Pass
    requires material.referenceCheckpoint.Some?
    ensures
      var consistency := Assess(H, parsers, receiptRoot, record, material).consistency;
      var publication := EvidenceOf(H, parsers, receiptRoot, record, material).publication;
      var trust := material.trust.value;
      var reference := trust.verifyNote(material.referenceCheckpoint.value);
      && (Conflicts(publication, reference) ==> consistency == Fail)
      && (!Conflicts(publication, reference) && material.comparison.Some? ==>
            consistency
              == if Connects(H, parsers, material.comparison.value, trust, reference.value, publication)
                 then Pass else Fail)
      && (!Conflicts(publication, reference) && material.comparison.None? ==>
            && (SameCheckpoint(reference.value, publication) ==> consistency == Pass)
            && (reference.value.treeSize == 0 < publication.treeSize ==>
                  consistency == if Empty(H, reference.value) then Pass else Fail)
            && (publication.treeSize == 0 < reference.value.treeSize ==>
                  consistency == if Empty(H, publication) then Pass else Fail)
            && (consistency == Skipped <==>
                  && reference.value.treeSize > 0 && publication.treeSize > 0
                  && reference.value.treeSize != publication.treeSize))
  {
    hide Assess, Compare, VerifyComparison, DecodeComparison, ConsistencyHolds, EntryBytes, EvidenceOf, Empty,
         Connects;
    AssessedCompare(H, parsers, receiptRoot, record, material);
    var publication := EvidenceOf(H, parsers, receiptRoot, record, material).publication;
    var trust, note := material.trust.value, material.referenceCheckpoint.value;
    if Conflicts(publication, trust.verifyNote(note)) {
      ConflictFails(H, parsers, publication, note, material, trust);
    } else if material.comparison.Some? {
      ComparedOutcome(H, parsers, publication, note, material, trust);
    } else {
      UncomparedOutcome(H, parsers, publication, note, material, trust);
    }
  }
}
