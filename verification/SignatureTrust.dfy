/** How a verifier uses the store (`verify.rs` `key_trust_status`, `signature_check`). */
module SignatureTrust {
  import opened Outcome
  import opened TrustModel
  import opened TrustImport
  import opened TrustLattice
  import opened TrustHistory

  datatype KeyTrust = TrustedKey | RevokedKeySince(at: Time) | UnknownKey

  /** The public keys a directory scan collects, by derived id. When two files derive
      the same id the scan keeps one of them, whichever came last. */
  ghost predicate Scanned(c: Crypto, files: map<string, KeyFile>, managed: map<string, string>) {
    && (forall id <- managed :: exists f <- files :: files[f] == Pem(managed[id]) && c.keyId(managed[id]) == id)
    && (forall f <- files :: files[f].Pem? ==> c.keyId(files[f].key) in managed)
  }

  /** `key_trust_status`, for a trust store that exists. `loose` are the legacy key
      files, always trusted. */
  function KeyTrustStatus(c: Crypto, s: Store, managed: map<string, string>, loose: set<string>,
                          key: string): Option<KeyTrust>
  {
    if !Loads(c, s) then None
    else if exists id <- managed :: managed[id] == key then
      match StandingOf(s.policy, c.keyId(key))
      case Absent => Some(UnknownKey)
      case Valid => Some(TrustedKey)
      case RevokedFrom(at) => Some(RevokedKeySince(at))
    else if key in loose then Some(TrustedKey)
    else Some(UnknownKey)
  }

  /** What the signature check reads of a receipt: its own timestamp, and whether the
      Ed25519 signature verifies under the key it carries. */
  datatype SignedReceipt = SignedReceipt(signed: bool, key: string, canonical: bool, verifies: bool, timestamp: Time)

  /** When the signature may be taken to have been made, if anything says so. */
  function SigningTime(receipt: SignedReceipt, attested: Option<Time>, trustReceiptTimestamp: bool): Option<Time> {
    if attested.Some? then attested
    else if trustReceiptTimestamp then Some(receipt.timestamp)
    else None
  }

  /** `signature_check` */
  function SignaturePasses(receipt: SignedReceipt, trust: Option<KeyTrust>, attested: Option<Time>,
                           trustReceiptTimestamp: bool): bool
  {
    if !receipt.signed || !receipt.canonical || !receipt.verifies then false
    else
      match trust
      case None => false
      case Some(UnknownKey) => false
      case Some(TrustedKey) => true
      case Some(RevokedKeySince(at)) =>
        var when := SigningTime(receipt, attested, trustReceiptTimestamp);
        when.Some? && when.value <= at
  }

  /** Key files that derive the same id hold the same key. */
  predicate NoClash(c: Crypto, files: map<string, KeyFile>, id: string) {
    forall f, g | f in files && g in files ::
      files[f].Pem? && files[g].Pem? && c.keyId(files[f].key) == id && c.keyId(files[g].key) == id ==>
        files[f] == files[g]
  }

  /** The key files a store holds under an id that has an entry. */
  lemma ManagedKey(c: Crypto, s: Store, managed: map<string, string>, id: string)
    requires Loads(c, s) && Scanned(c, s.files, managed) && FindEntry(s.policy, id).Some? && NoClash(c, s.files, id)
    ensures id in managed && id in s.files && s.files[id] == Pem(managed[id])
  {
    FindEntrySome(s.policy, id);
    assert Backed(c, s.files, id);
    assert c.keyId(s.files[id].key) in managed;
    var f :| f in s.files && s.files[f] == Pem(managed[id]) && c.keyId(managed[id]) == id;
  }

  /** An import adds no second key under an id that already had an entry. */
  lemma ImportKeepsNoClash(c: Crypto, s: Store, b: TrustBundle, id: string)
    requires Sensible(c) && KeysSound(c, b) && Loads(c, s) && FindEntry(s.policy, id).Some? && NoClash(c, s.files, id)
    ensures NoClash(c, AddFiles(c, s.files, b.keys), id)
    ensures id in s.files ==> id in AddFiles(c, s.files, b.keys) && AddFiles(c, s.files, b.keys)[id] == s.files[id]
  {
    hide AddFiles;
    var files := AddFiles(c, s.files, b.keys);
    EntryIsBacked(c, s, id);
    AddFilesAt(c, s.files, b.keys, id);
    forall f | f in files && files[f].Pem? && c.keyId(files[f].key) == id ensures files[f] == s.files[id] {
      AddFilesAt(c, s.files, b.keys, f);
      if f !in s.files { ListedKeySound(c, b, f); }
    }
  }

  function TrustOf(a: Standing): KeyTrust {
    match a
    case Absent => UnknownKey
    case Valid => TrustedKey
    case RevokedFrom(at) => RevokedKeySince(at)
  }

  /** Passing is monotone in the key's standing, once there is a statement at all. */
  lemma PassingIsMonotone(receipt: SignedReceipt, a: Standing, b: Standing, attested: Option<Time>,
                          trustReceiptTimestamp: bool)
    requires Below(a, b) && !b.Absent?
    requires SignaturePasses(receipt, Some(TrustOf(a)), attested, trustReceiptTimestamp)
    ensures SignaturePasses(receipt, Some(TrustOf(b)), attested, trustReceiptTimestamp)
  {
  }

  /** For a key with an entry, the verifier's answer is the entry's standing, or the
      store does not load. */
  lemma StatusOfListedKey(c: Crypto, s: Store, managed: map<string, string>, loose: set<string>, key: string)
    requires Scanned(c, s.files, managed) && Loads(c, s)
    requires c.keyId(key) in managed && managed[c.keyId(key)] == key
    ensures KeyTrustStatus(c, s, managed, loose, key) == Some(TrustOf(StandingOf(s.policy, c.keyId(key))))
  {
    assert exists id <- managed :: managed[id] == key;
  }

  lemma OtherKeysUnmanaged(c: Crypto, files: map<string, KeyFile>, managed: map<string, string>, key: string)
    requires Scanned(c, files, managed)
    ensures (exists id <- managed :: managed[id] == key) <==> c.keyId(key) in managed && managed[c.keyId(key)] == key
  {
    if exists id <- managed :: managed[id] == key {
      var id :| id in managed && managed[id] == key;
      var f :| f in files && files[f] == Pem(managed[id]) && c.keyId(managed[id]) == id;
    }
  }

  lemma ListedStanding(policy: seq<TrustEntry>, id: string)
    ensures StandingOf(policy, id).Absent? <==> FindEntry(policy, id).None?
  {
  }

  /** What a verifier is told of a key after an import, from the store before it: nothing when a
      stray file stops the policy from loading, for the key of an entry the meet of the old
      standing and the bundle's statement, and for any other key what it is told anyway. */
  function StatusOnceImported(c: Crypto, s: Store, b: TrustBundle, managed: map<string, string>, loose: set<string>,
                              key: string): Option<KeyTrust>
  {
    var id := c.keyId(key);
    if !StrayFilesFit(c, s, b) then None
    else if id in managed && managed[id] == key then
      Some(TrustOf(Meet(StandingOf(s.policy, id), Statement(b.keys, id))))
    else Some(if key in loose then TrustedKey else UnknownKey)
  }

  /** The status of a key whose id has key files, in a store that loads. */
  lemma StatusOverLoaded(c: Crypto, s: Store, managed: map<string, string>, loose: set<string>, key: string)
    requires Scanned(c, s.files, managed) && Loads(c, s) && c.keyId(key) in managed
    ensures
      var id := c.keyId(key);
      KeyTrustStatus(c, s, managed, loose, key)
        == if managed[id] == key then Some(TrustOf(StandingOf(s.policy, id)))
           else Some(if key in loose then TrustedKey else UnknownKey)
  {
    OtherKeysUnmanaged(c, s.files, managed, key);
    hide Scanned, Loads;
  }

  lemma UnloadedStatus(c: Crypto, s: Store, managed: map<string, string>, loose: set<string>, key: string)
    requires !Loads(c, s)
    ensures KeyTrustStatus(c, s, managed, loose, key) == None
  {
    hide Loads;
  }

  lemma AcceptedMerges(c: Crypto, s: Store, b: TrustBundle, expected: Option<string>, now: Time)
    requires Decide(c, s, b, expected, now).Accepted?
    ensures KeysSound(c, b) && Loads(c, s) && Imported(c, s, b, expected, now) == Merged(c, s, b)
  {
    hide KeysSound, Loads, Merged;
  }

  lemma LoadsMergedIff(c: Crypto, s: Store, b: TrustBundle)
    requires Sensible(c) && KeysSound(c, b) && Loads(c, s)
    ensures Loads(c, Merged(c, s, b)) <==> StrayFilesFit(c, s, b)
  {
    hide KeysSound, MergeKeys, AddFiles, StrayFilesFit, Backed, UniqueEntries;
    SavedPolicyLoadsIff(c, s, b);
  }

  lemma MergedStanding(c: Crypto, s: Store, b: TrustBundle, id: string)
    requires KeysSound(c, b)
    ensures StandingOf(Merged(c, s, b).policy, id) == Meet(StandingOf(s.policy, id), Statement(b.keys, id))
  {
    hide AddFiles, MergeKeys, StandingOf, Statement, Meet, KeysSound;
    SoundDistinct(c, b);
    MergeIsMeet(s.policy, b.keys, id);
  }

  /** The status after an accepted import is the one told from the store before it. */
  lemma StatusAfterImport(c: Crypto, s: Store, b: TrustBundle, expected: Option<string>, now: Time,
                          managed: map<string, string>, managed': map<string, string>, loose: set<string>, key: string)
    requires Sensible(c) && Decide(c, s, b, expected, now).Accepted?
    requires FindEntry(s.policy, c.keyId(key)).Some? && NoClash(c, s.files, c.keyId(key))
    requires Scanned(c, s.files, managed) && Scanned(c, Imported(c, s, b, expected, now).files, managed')
    ensures KeyTrustStatus(c, Imported(c, s, b, expected, now), managed', loose, key)
         == StatusOnceImported(c, s, b, managed, loose, key)
  {
    hide Decide, KeysSound, Loads, AddFiles, MergeKeys, StandingOf, Statement, Meet, Imported, NoClash, Scanned,
         StrayFilesFit, KeyTrustStatus, TrustOf;
    AcceptedMerges(c, s, b, expected, now);
    var id, s' := c.keyId(key), Merged(c, s, b);
    LoadsMergedIff(c, s, b);
    MergedStanding(c, s, b, id);
    ImportKeepsNoClash(c, s, b, id);
    MergedIds(s.policy, b.keys, id);
    ManagedKey(c, s, managed, id);
    if Loads(c, s') {
      ManagedKey(c, s', managed', id);
      StatusOverLoaded(c, s', managed', loose, key);
    } else {
      UnloadedStatus(c, s', managed', loose, key);
    }
  }

  lemma FailsUntold(receipt: SignedReceipt, attested: Option<Time>, trustReceiptTimestamp: bool)
    ensures !SignaturePasses(receipt, None, attested, trustReceiptTimestamp)
  {
  }

  lemma MeetLower(a: Standing, b: Standing)
    ensures Below(Meet(a, b), a)
  {
    MeetIsGreatestLower(a, b, Meet(a, b));
    BelowReflexive(Meet(a, b));
  }

  lemma MeetListed(a: Standing, b: Standing)
    ensures !a.Absent? ==> !Meet(a, b).Absent?
  {
  }

  /** Tightening never rescues a signature: for a key whose id already has an entry,
      no accepted import turns a failing signature check into a passing one, for any
      receipt, timestamp evidence and option setting. */
  lemma TighteningNeverRescues(c: Crypto, s: Store, b: TrustBundle, expected: Option<string>, now: Time,
                               managed: map<string, string>, managed': map<string, string>, loose: set<string>,
                               receipt: SignedReceipt, attested: Option<Time>, trustReceiptTimestamp: bool)
    requires Sensible(c) && Decide(c, s, b, expected, now).Accepted?
    requires FindEntry(s.policy, c.keyId(receipt.key)).Some? && NoClash(c, s.files, c.keyId(receipt.key))
    requires Scanned(c, s.files, managed) && Scanned(c, Imported(c, s, b, expected, now).files, managed')
    requires
      var after := KeyTrustStatus(c, Imported(c, s, b, expected, now), managed', loose, receipt.key);
      SignaturePasses(receipt, after, attested, trustReceiptTimestamp)
    ensures SignaturePasses(receipt, KeyTrustStatus(c, s, managed, loose, receipt.key), attested, trustReceiptTimestamp)
  {
    hide Decide, KeysSound, Loads, MergeKeys, StandingOf, Statement, Meet, Imported, NoClash, Scanned, StrayFilesFit,
         KeyTrustStatus, SignaturePasses, TrustOf;
    var id := c.keyId(receipt.key);
    AcceptedMerges(c, s, b, expected, now);
    StatusAfterImport(c, s, b, expected, now, managed, managed', loose, receipt.key);
    ManagedKey(c, s, managed, id);
    StatusOverLoaded(c, s, managed, loose, receipt.key);
    FailsUntold(receipt, attested, trustReceiptTimestamp);
    if managed[id] == receipt.key {
      MeetLower(StandingOf(s.policy, id), Statement(b.keys, id));
      ListedStanding(s.policy, id);
      MeetListed(StandingOf(s.policy, id), Statement(b.keys, id));
      PassingIsMonotone(receipt, Meet(StandingOf(s.policy, id), Statement(b.keys, id)), StandingOf(s.policy, id),
                        attested, trustReceiptTimestamp);
    }
  }

  // ---------------------------------------------------------------------
  // What a revocation date does
  // ---------------------------------------------------------------------

  predicate Authentic(receipt: SignedReceipt) { receipt.signed && receipt.canonical && receipt.verifies }

  /** A key of this standing admits a signature: without reserve, or for what was signed no later
      than its revocation. A timestamp token says when that was; the receipt's own date says so only
      where there is no token and the verifier has opted for it. */
  predicate Admits(standing: Standing, timestamp: Time, attested: Option<Time>, trustReceiptTimestamp: bool) {
    || standing.Valid?
    || (standing.RevokedFrom? && attested.Some? && attested.value <= standing.at)
    || (standing.RevokedFrom? && attested.None? && trustReceiptTimestamp && timestamp <= standing.at)
  }

  /** The check on its own: what the standing of the key admits. */
  lemma SignatureOutcome(receipt: SignedReceipt, standing: Standing, attested: Option<Time>,
                         trustReceiptTimestamp: bool)
    ensures SignaturePasses(receipt, Some(TrustOf(standing)), attested, trustReceiptTimestamp) <==>
      Authentic(receipt) && Admits(standing, receipt.timestamp, attested, trustReceiptTimestamp)
  {
  }

  /** With a token, the receipt's own date and the option count for nothing. */
  lemma TokenDecides(receipt: SignedReceipt, at: Time, t: Time, trustReceiptTimestamp: bool)
    ensures SignaturePasses(receipt, Some(RevokedKeySince(at)), Some(t), trustReceiptTimestamp) <==>
      Authentic(receipt) && t <= at
  {
    SignatureOutcome(receipt, RevokedFrom(at), Some(t), trustReceiptTimestamp);
  }

  /** The check against a store: it has to load, and to admit the signature by the entry of a managed
      key, or to hold the key as a legacy file. */
  lemma StoreDecides(c: Crypto, s: Store, managed: map<string, string>, loose: set<string>, receipt: SignedReceipt,
                     attested: Option<Time>, trustReceiptTimestamp: bool)
    requires Scanned(c, s.files, managed)
    ensures
      var id := c.keyId(receipt.key);
      SignaturePasses(receipt, KeyTrustStatus(c, s, managed, loose, receipt.key), attested, trustReceiptTimestamp) <==>
        && Authentic(receipt) && Loads(c, s)
        && if id in managed && managed[id] == receipt.key
           then Admits(StandingOf(s.policy, id), receipt.timestamp, attested, trustReceiptTimestamp)
           else receipt.key in loose
  {
    OtherKeysUnmanaged(c, s.files, managed, receipt.key);
    hide Loads, Scanned, StandingOf;
    SignatureOutcome(receipt, StandingOf(s.policy, c.keyId(receipt.key)), attested, trustReceiptTimestamp);
  }

  lemma BelowRevocation(a: Standing, at: Time)
    requires Below(a, RevokedFrom(at))
    ensures a.RevokedFrom? && a.at <= at
  {
  }

  /** A revocation that any accepted bundle states holds from then on: whatever is imported before or
      after it, in whatever order, no receipt with a token later than the stated date passes by that key. */
  lemma RevocationHolds(c: Crypto, s: Store, attempts: seq<Attempt>, b: TrustBundle, managed: map<string, string>,
                        loose: set<string>, receipt: SignedReceipt, t: Time, trustReceiptTimestamp: bool)
    requires b in AcceptedBy(c, s, attempts) && Statement(b.keys, c.keyId(receipt.key)).RevokedFrom?
    requires Statement(b.keys, c.keyId(receipt.key)).at < t
    requires Scanned(c, ImportAll(c, s, attempts).files, managed) && receipt.key !in loose
    ensures
      var trust := KeyTrustStatus(c, ImportAll(c, s, attempts), managed, loose, receipt.key);
      !SignaturePasses(receipt, trust, Some(t), trustReceiptTimestamp)
  {
    hide Loads, Scanned, StandingOf, Statement, ImportAll, AcceptedBy, MeetAll, KeyTrustStatus, SignaturePasses, Below;
    var id, s' := c.keyId(receipt.key), ImportAll(c, s, attempts);
    var standing := StandingOf(s'.policy, id);
    ImportsAreAFold(c, s, attempts, id);
    BelowReflexive(standing);
    MeetAllIsGreatest(StandingOf(s.policy, id), AcceptedBy(c, s, attempts), id, standing);
    BelowRevocation(standing, Statement(b.keys, id).at);
    StoreDecides(c, s', managed, loose, receipt, Some(t), trustReceiptTimestamp);
  }

  /** What an accepted import dates, exactly: the signatures of a listed key that still pass are those that
      passed under the standing before and that the statement of the bundle admits, if the store loads. */
  lemma ImportedOutcome(c: Crypto, s: Store, b: TrustBundle, expected: Option<string>, now: Time,
                        managed: map<string, string>, loose: set<string>, receipt: SignedReceipt,
                        attested: Option<Time>, trustReceiptTimestamp: bool)
    requires Sensible(c) && Decide(c, s, b, expected, now).Accepted?
    requires Scanned(c, Imported(c, s, b, expected, now).files, managed)
    requires c.keyId(receipt.key) in managed && managed[c.keyId(receipt.key)] == receipt.key
    requires !StandingOf(s.policy, c.keyId(receipt.key)).Absent? && !Statement(b.keys, c.keyId(receipt.key)).Absent?
    ensures
      var id, s' := c.keyId(receipt.key), Imported(c, s, b, expected, now);
      SignaturePasses(receipt, KeyTrustStatus(c, s', managed, loose, receipt.key), attested, trustReceiptTimestamp) <==>
        && Authentic(receipt) && StrayFilesFit(c, s, b)
        && Admits(StandingOf(s.policy, id), receipt.timestamp, attested, trustReceiptTimestamp)
        && Admits(Statement(b.keys, id), receipt.timestamp, attested, trustReceiptTimestamp)
  {
    hide Decide, KeysSound, Loads, AddFiles, MergeKeys, StandingOf, Statement, Imported, Scanned, StrayFilesFit,
         KeyTrustStatus, SignaturePasses;
    var id := c.keyId(receipt.key);
    AcceptedMerges(c, s, b, expected, now);
    LoadsMergedIff(c, s, b);
    MergedStanding(c, s, b, id);
    StoreDecides(c, Merged(c, s, b), managed, loose, receipt, attested, trustReceiptTimestamp);
  }
}
