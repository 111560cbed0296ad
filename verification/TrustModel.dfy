/** Keys, policies and signed bundles (`keys.rs`, `trust.rs`), and the loops that
    check them. */
module TrustModel {
  import opened Numbers
  import opened Outcome
  import Hex

  /** Instants; zero is the earliest a clock can say (`MIN_UTC`). */
  type Time = nat

  const MIN_UTC: Time := 0
  const BUNDLE_SCHEMA_VERSION: nat := 1

  datatype KeyStatus = Trusted | Revoked

  datatype TrustEntry = TrustEntry(id: string, name: string, status: KeyStatus, revokedAt: Option<Time>)

  datatype BundledKey = BundledKey(id: string, name: string, publicKey: string, status: KeyStatus,
                                   revokedAt: Option<Time>)

  datatype Issuer = Issuer(keyId: string, publicKey: string)

  datatype TrustBundle = TrustBundle(
    schemaVersion: nat,
    issuer: Issuer,
    issuedAt: Time,
    validUntil: Time,
    sequence: u64,
    keys: seq<BundledKey>,
    successor: Option<Issuer>,
    signature: Option<string>)

  /** The signed contents: no signature, and keys in an order that is not content. */
  datatype SigningForm = SigningForm(
    schemaVersion: nat, issuer: Issuer, issuedAt: Time, validUntil: Time, sequence: u64,
    keys: multiset<BundledKey>, successor: Option<Issuer>)

  function SigningFormOf(b: TrustBundle): SigningForm {
    SigningForm(b.schemaVersion, b.issuer, b.issuedAt, b.validUntil, b.sequence, multiset(b.keys), b.successor)
  }

  /** What the cryptographic libraries answer. `parseKey` turns hex text into a
      public key in canonical text, `keyId` hashes a canonical key. */
  datatype Crypto = Crypto(
    parseKey: string -> Option<string>,
    keyId: string -> string,
    verifies: (string, SigningForm, string) -> bool)

  /** `key_id_from_hex` */
  function DerivedId(c: Crypto, publicKey: string): Option<string> {
    match c.parseKey(publicKey)
    case None => None
    case Some(key) => Some(c.keyId(key))
  }

  predicate WellFormedId(id: string) { |id| == 32 && Hex.IsHex(id) }

  /** Derived ids are hex text of 16 bytes. */
  ghost predicate Sensible(c: Crypto) { forall key :: WellFormedId(c.keyId(key)) }

  function FindEntry(entries: seq<TrustEntry>, id: string): Option<TrustEntry> {
    if entries == [] then None
    else if entries[0].id == id then Some(entries[0])
    else FindEntry(entries[1..], id)
  }

  function FindKey(keys: seq<BundledKey>, id: string): Option<BundledKey> {
    if keys == [] then None
    else if keys[0].id == id then Some(keys[0])
    else FindKey(keys[1..], id)
  }

  lemma {:induction false} FindEntrySome(entries: seq<TrustEntry>, id: string)
    ensures FindEntry(entries, id).Some? <==> exists e <- entries :: e.id == id
    ensures FindEntry(entries, id).Some? ==>
      FindEntry(entries, id).value in entries && FindEntry(entries, id).value.id == id
  {
    if entries != [] {
      FindEntrySome(entries[1..], id);
      assert entries == [entries[0]] + entries[1..];
    }
  }

  lemma {:induction false} FindKeySome(keys: seq<BundledKey>, id: string)
    ensures FindKey(keys, id).Some? <==> exists k <- keys :: k.id == id
    ensures FindKey(keys, id).Some? ==> FindKey(keys, id).value in keys && FindKey(keys, id).value.id == id
  {
    if keys != [] {
      FindKeySome(keys[1..], id);
      assert keys == [keys[0]] + keys[1..];
    }
  }

  // ---------------------------------------------------------------------
  // Bundles on their own terms
  // ---------------------------------------------------------------------

  predicate KeySound(c: Crypto, key: BundledKey) {
    && DerivedId(c, key.publicKey) == Some(key.id)
    && (key.status.Revoked? ==> key.revokedAt.Some?)
  }

  predicate DistinctIds(keys: seq<BundledKey>) {
    forall i, j :: 0 <= i < j < |keys| ==> keys[i].id != keys[j].id
  }

  predicate KeysSound(c: Crypto, b: TrustBundle) {
    && b.keys != []
    && (forall k <- b.keys :: KeySound(c, k))
    && DistinctIds(b.keys)
    && var issuer := FindKey(b.keys, b.issuer.keyId);
       issuer.Some? && issuer.value.status.Trusted?
  }

  /** `keys_check` */
  method KeysCheck(c: Crypto, b: TrustBundle) returns (passed: bool)
    ensures passed <==> KeysSound(c, b)
  {
    hide FindKey;
    if b.keys == [] { return false; }
    var seen: set<string> := {};
    for i := 0 to |b.keys|
      invariant seen == set j | 0 <= j < i :: b.keys[j].id
      invariant forall j :: 0 <= j < i ==> KeySound(c, b.keys[j])
      invariant DistinctIds(b.keys[..i])
    {
      var key := b.keys[i];
      if DerivedId(c, key.publicKey) != Some(key.id) {
        assert !KeySound(c, key) && key in b.keys;
        return false;
      }
      if key.id in seen { return false; }
      seen := seen + {key.id};
      if key.status.Revoked? && key.revokedAt.None? {
        assert !KeySound(c, key) && key in b.keys;
        return false;
      }
    }
    assert b.keys[..|b.keys|] == b.keys;
    var issuer := FindKey(b.keys, b.issuer.keyId);
    passed := issuer.Some? && issuer.value.status.Trusted?;
  }

  predicate SuccessorSound(c: Crypto, b: TrustBundle, successor: Issuer) {
    && successor.keyId != b.issuer.keyId
    && DerivedId(c, successor.publicKey) == Some(successor.keyId)
    && var listed := FindKey(b.keys, successor.keyId);
       listed.Some? && listed.value.status.Trusted? && listed.value.publicKey == successor.publicKey
  }

  predicate SignatureHolds(c: Crypto, b: TrustBundle) {
    && b.signature.Some?
    && DerivedId(c, b.issuer.publicKey) == Some(b.issuer.keyId)
    && c.verifies(c.parseKey(b.issuer.publicKey).value, SigningFormOf(b), b.signature.value)
  }

  predicate InWindow(b: TrustBundle, now: Time) { b.issuedAt <= now <= b.validUntil }

  /** Every check of `examine` passes. */
  predicate Sound(c: Crypto, b: TrustBundle, now: Time) {
    && b.schemaVersion == BUNDLE_SCHEMA_VERSION
    && DerivedId(c, b.issuer.publicKey) == Some(b.issuer.keyId)
    && SignatureHolds(c, b)
    && KeysSound(c, b)
    && (b.successor.Some? ==> SuccessorSound(c, b, b.successor.value))
    && InWindow(b, now)
  }

  method Examine(c: Crypto, b: TrustBundle, now: Time) returns (checks: seq<bool>)
    ensures (forall passed <- checks :: passed) <==> Sound(c, b, now)
  {
    hide KeysSound, FindKey;
    var issuer := DerivedId(c, b.issuer.publicKey) == Some(b.issuer.keyId);
    var keys := KeysCheck(c, b);
    var head := [b.schemaVersion == BUNDLE_SCHEMA_VERSION, issuer, SignatureHolds(c, b), keys];
    var middle := if b.successor.Some? then [SuccessorSound(c, b, b.successor.value)] else [];
    var window := !(b.validUntil < b.issuedAt) && !(now < b.issuedAt) && !(now > b.validUntil);
    checks := head + middle + [window];
    assert head[0] in checks && head[1] in checks && head[2] in checks && head[3] in checks && window in checks;
    if b.successor.Some? { assert middle[0] in checks; }
  }

  /** What a sound bundle is: signed over its contents by the key its issuer's id is derived from, in its
      window, listing keys under their own ids, once each and dated where revoked, the issuer among them
      and trusted, and so the successor, if it names one. */
  lemma SoundExactly(c: Crypto, b: TrustBundle, now: Time)
    ensures
      var issuer := c.parseKey(b.issuer.publicKey);
      Sound(c, b, now) <==>
        && b.schemaVersion == 1 && b.issuedAt <= now <= b.validUntil
        && issuer.Some? && c.keyId(issuer.value) == b.issuer.keyId
        && b.signature.Some? && c.verifies(issuer.value, SigningFormOf(b), b.signature.value)
        && (forall k <- b.keys :: DerivedId(c, k.publicKey) == Some(k.id) && (k.status.Revoked? ==> k.revokedAt.Some?))
        && (forall i, j :: 0 <= i < j < |b.keys| ==> b.keys[i].id != b.keys[j].id)
        && (exists k <- b.keys :: k.id == b.issuer.keyId && k.status.Trusted?)
        && (b.successor.Some? ==>
              && b.successor.value.keyId != b.issuer.keyId
              && DerivedId(c, b.successor.value.publicKey) == Some(b.successor.value.keyId)
              && exists k <- b.keys ::
                   k.id == b.successor.value.keyId && k.status.Trusted? && k.publicKey == b.successor.value.publicKey)
  {
    hide FindKey;
    FindKeySome(b.keys, b.issuer.keyId);
    if b.successor.Some? { FindKeySome(b.keys, b.successor.value.keyId); }
    forall k <- b.keys ensures KeySound(c, k) <==>
      DerivedId(c, k.publicKey) == Some(k.id) && (k.status.Revoked? ==> k.revokedAt.Some?) {
    }
  }

  // ---------------------------------------------------------------------
  // The local store
  // ---------------------------------------------------------------------

  /** Contents of a `.pub` file. */
  datatype KeyFile = Pem(key: string) | Garbage

  /** `policy` is `trust.toml` (absent and empty read alike), `files` the `.pub`
      files by stem, `accepted` the bundles on record by issuer. */
  datatype Store = Store(policy: seq<TrustEntry>, files: map<string, KeyFile>, accepted: map<string, TrustBundle>)

  predicate Backed(c: Crypto, files: map<string, KeyFile>, id: string) {
    id in files && files[id].Pem? && c.keyId(files[id].key) == id
  }

  predicate UniqueEntries(entries: seq<TrustEntry>) {
    forall i, j :: 0 <= i < j < |entries| ==> entries[i].id != entries[j].id
  }

  /** `TrustPolicy::load` succeeds. */
  predicate Loads(c: Crypto, s: Store) {
    && UniqueEntries(s.policy)
    && forall e <- s.policy :: WellFormedId(e.id) && Backed(c, s.files, e.id)
  }

  /** `check_against` */
  method CheckAgainst(c: Crypto, entries: seq<TrustEntry>, files: map<string, KeyFile>) returns (ok: bool)
    ensures ok <==> Loads(c, Store(entries, files, map[]))
  {
    var seen: set<string> := {};
    for i := 0 to |entries|
      invariant seen == set j | 0 <= j < i :: entries[j].id
      invariant forall j :: 0 <= j < i ==> WellFormedId(entries[j].id) && Backed(c, files, entries[j].id)
      invariant UniqueEntries(entries[..i])
    {
      var entry := entries[i];
      assert entry in entries;
      if !WellFormedId(entry.id) { return false; }
      if entry.id in seen { return false; }
      seen := seen + {entry.id};
      if entry.id !in files { return false; }
      if files[entry.id].Garbage? { return false; }
      if c.keyId(files[entry.id].key) != entry.id { return false; }
    }
    assert entries[..|entries|] == entries;
    return true;
  }
}
