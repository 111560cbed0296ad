/** Importing a bundle (`trust.rs` `import`): whether it is accepted, what it does
    to the store, and what it reports. */
module TrustImport {
  import opened Outcome
  import opened TrustModel

  datatype Decision = Refused | Current | Accepted(handover: bool)

  /** An accepted bundle names this issuer, with this key, as its successor. */
  predicate Names(accepted: TrustBundle, b: TrustBundle) {
    && accepted.successor.Some?
    && accepted.successor.value.keyId == b.issuer.keyId
    && accepted.successor.value.publicKey == b.issuer.publicKey
  }

  predicate HasPredecessor(accepted: map<string, TrustBundle>, b: TrustBundle) {
    exists i <- accepted :: Names(accepted[i], b)
  }

  function Decide(c: Crypto, s: Store, b: TrustBundle, expected: Option<string>, now: Time): Decision {
    if !Sound(c, b, now) || !Loads(c, s) then Refused
    else
      var issuer := b.issuer.keyId;
      var entry := FindEntry(s.policy, issuer);
      if entry.Some? && entry.value.status.Revoked? then Refused
      else if expected.Some? && expected.value != issuer then Refused
      else if issuer !in s.accepted then
        if expected.None? then (if HasPredecessor(s.accepted, b) then Accepted(true) else Refused) else Accepted(false)
      else
        var previous := s.accepted[issuer];
        if b.sequence < previous.sequence then Refused
        else if b.sequence == previous.sequence && b.signature != previous.signature then Refused
        else if previous.signature == b.signature then Current
        else Accepted(false)
  }

  /** Nothing stands against the bundle itself: it is sound, the store loads, the issuer is not revoked
      there and is the one the caller expects, if any. */
  predicate Welcome(c: Crypto, s: Store, b: TrustBundle, expected: Option<string>, now: Time) {
    && Sound(c, b, now) && Loads(c, s)
    && !(exists e <- s.policy :: e.id == b.issuer.keyId && e.status.Revoked?)
    && (expected.Some? ==> expected.value == b.issuer.keyId)
  }

  /** The bundle on record of the same issuer is older, and differs. */
  predicate Newer(accepted: map<string, TrustBundle>, b: TrustBundle) {
    && b.issuer.keyId in accepted && accepted[b.issuer.keyId].signature != b.signature
    && accepted[b.issuer.keyId].sequence < b.sequence
  }

  /** It is on record already, or nothing but its sequence number is new. */
  predicate OnRecord(accepted: map<string, TrustBundle>, b: TrustBundle) {
    && b.issuer.keyId in accepted && accepted[b.issuer.keyId].signature == b.signature
    && accepted[b.issuer.keyId].sequence <= b.sequence
  }

  /** The one entry under an id is the one that is found. */
  lemma {:induction false} RevokedFound(entries: seq<TrustEntry>, id: string)
    requires UniqueEntries(entries)
    ensures
      var entry := FindEntry(entries, id);
      (exists e <- entries :: e.id == id && e.status.Revoked?) <==> entry.Some? && entry.value.status.Revoked?
  {
    hide FindEntry;
    FindEntrySome(entries, id);
    if e :| e in entries && e.id == id && e.status.Revoked? {
      var i :| 0 <= i < |entries| && entries[i] == e;
      var j :| 0 <= j < |entries| && entries[j] == FindEntry(entries, id).value;
      assert i == j;
    }
  }

  /** When a bundle is accepted: as an update of an issuer on record, named or not; as a first bundle of
      a named issuer; or, without a name, by handover from an issuer on record. */
  lemma DecisionExactly(c: Crypto, s: Store, b: TrustBundle, expected: Option<string>, now: Time)
    ensures
      var decision, first := Decide(c, s, b, expected, now), b.issuer.keyId !in s.accepted;
      && (decision == Accepted(false) <==>
            Welcome(c, s, b, expected, now) && (Newer(s.accepted, b) || (first && expected.Some?)))
      && (decision == Accepted(true) <==>
            Welcome(c, s, b, expected, now) && first && expected.None? && HasPredecessor(s.accepted, b))
      && (decision == Current <==> Welcome(c, s, b, expected, now) && OnRecord(s.accepted, b))
  {
    hide Sound, FindEntry, HasPredecessor;
    if UniqueEntries(s.policy) { RevokedFound(s.policy, b.issuer.keyId); }
  }

  // ---------------------------------------------------------------------
  // Merging keys
  // ---------------------------------------------------------------------

  /** What one listed key does to an existing entry. */
  function MergeEntry(entry: TrustEntry, key: BundledKey): TrustEntry {
    match (entry.status, key.status)
    case (Trusted, Revoked) => entry.(status := Revoked, revokedAt := key.revokedAt)
    case (Revoked, Revoked) =>
      if key.revokedAt.Some? && entry.revokedAt.Some? && key.revokedAt.value < entry.revokedAt.value
      then entry.(revokedAt := key.revokedAt) else entry
    case (_, Trusted) => entry
  }

  function NewEntry(key: BundledKey): TrustEntry { TrustEntry(key.id, key.name, key.status, key.revokedAt) }

  /** Merges into the first entry with the key's id, or appends one. */
  function MergeKey(policy: seq<TrustEntry>, key: BundledKey): (r: seq<TrustEntry>)
    ensures r != []
  {
    if policy == [] then [NewEntry(key)]
    else if policy[0].id == key.id then [MergeEntry(policy[0], key)] + policy[1..]
    else [policy[0]] + MergeKey(policy[1..], key)
  }

  function MergeKeys(policy: seq<TrustEntry>, keys: seq<BundledKey>): seq<TrustEntry> {
    if keys == [] then policy else MergeKey(MergeKeys(policy, keys[..|keys| - 1]), keys[|keys| - 1])
  }

  function AddFile(c: Crypto, files: map<string, KeyFile>, key: BundledKey): map<string, KeyFile> {
    if key.id in files || c.parseKey(key.publicKey).None? then files
    else files[key.id := Pem(c.parseKey(key.publicKey).value)]
  }

  function AddFiles(c: Crypto, files: map<string, KeyFile>, keys: seq<BundledKey>): map<string, KeyFile> {
    if keys == [] then files else AddFile(c, AddFiles(c, files, keys[..|keys| - 1]), keys[|keys| - 1])
  }

  /** The store after a bundle was accepted. */
  function Merged(c: Crypto, s: Store, b: TrustBundle): Store {
    Store(MergeKeys(s.policy, b.keys), AddFiles(c, s.files, b.keys), s.accepted[b.issuer.keyId := b])
  }

  function Imported(c: Crypto, s: Store, b: TrustBundle, expected: Option<string>, now: Time): Store {
    if Decide(c, s, b, expected, now).Accepted? then Merged(c, s, b) else s
  }

  // ---------------------------------------------------------------------
  // The report
  // ---------------------------------------------------------------------

  datatype Report = Report(
    added: seq<string>,
    revoked: seq<string>,
    keptRevoked: seq<string>,
    movedEarlier: seq<string>,
    asBefore: nat)

  const EMPTY_REPORT: Report := Report([], [], [], [], 0)

  function ReportKey(report: Report, entry: Option<TrustEntry>, key: BundledKey): Report {
    match entry
    case None => report.(added := report.added + [key.id])
    case Some(e) =>
      match (e.status, key.status)
      case (Trusted, Revoked) => report.(revoked := report.revoked + [key.id])
      case (Revoked, Trusted) => report.(keptRevoked := report.keptRevoked + [key.id])
      case (Revoked, Revoked) =>
        if key.revokedAt.Some? && e.revokedAt.Some? && key.revokedAt.value < e.revokedAt.value
        then report.(movedEarlier := report.movedEarlier + [key.id])
        else report.(asBefore := report.asBefore + 1)
      case (Trusted, Trusted) => report.(asBefore := report.asBefore + 1)
  }

  function ReportKeys(policy: seq<TrustEntry>, keys: seq<BundledKey>): Report {
    if keys == [] then EMPTY_REPORT
    else
      var n := |keys| - 1;
      ReportKey(ReportKeys(policy, keys[..n]), FindEntry(MergeKeys(policy, keys[..n]), keys[n].id), keys[n])
  }

  // ---------------------------------------------------------------------
  // The store on disk, and the import that rewrites it
  // ---------------------------------------------------------------------

  lemma {:induction false} MergeKeyAt(policy: seq<TrustEntry>, key: BundledKey, at: nat)
    requires at < |policy| && policy[at].id == key.id
    requires forall j :: 0 <= j < at ==> policy[j].id != key.id
    ensures MergeKey(policy, key) == policy[at := MergeEntry(policy[at], key)]
    ensures FindEntry(policy, key.id) == Some(policy[at])
  {
    if at > 0 {
      MergeKeyAt(policy[1..], key, at - 1);
      var entry := MergeEntry(policy[at], key);
      assert policy[at := entry] == [policy[0]] + policy[1..][at - 1 := entry];
    } else {
      assert policy[0 := MergeEntry(policy[0], key)] == [MergeEntry(policy[0], key)] + policy[1..];
    }
  }

  lemma {:induction false} MergeKeyNew(policy: seq<TrustEntry>, key: BundledKey)
    requires forall j :: 0 <= j < |policy| ==> policy[j].id != key.id
    ensures MergeKey(policy, key) == policy + [NewEntry(key)]
    ensures FindEntry(policy, key.id) == None
  {
    if policy != [] { MergeKeyNew(policy[1..], key); }
  }

  class TrustDir {
    var policy: seq<TrustEntry>
    var files: map<string, KeyFile>
    var accepted: map<string, TrustBundle>

    constructor (s: Store)
      ensures Contents() == s
    {
      policy, files, accepted := s.policy, s.files, s.accepted;
    }

    function Contents(): Store
      reads this
    {
      Store(policy, files, accepted)
    }

    /** The position of the first entry with this id. */
    method Find(id: string) returns (at: nat)
      ensures at <= |policy|
      ensures at < |policy| ==> policy[at].id == id
      ensures forall j :: 0 <= j < at ==> policy[j].id != id
    {
      at := 0;
      while at < |policy| && policy[at].id != id
        invariant at <= |policy| && forall j :: 0 <= j < at ==> policy[j].id != id
      {
        at := at + 1;
      }
    }

    /** Writes the public key files the store lacks. */
    method WriteFiles(c: Crypto, keys: seq<BundledKey>)
      requires forall k <- keys :: KeySound(c, k)
      modifies this`files
      ensures files == AddFiles(c, old(files), keys)
    {
      for i := 0 to |keys|
        invariant files == AddFiles(c, old(files), keys[..i])
      {
        assert keys[..i + 1][..i] == keys[..i];
        assert KeySound(c, keys[i]);
        if keys[i].id !in files { files := files[keys[i].id := Pem(c.parseKey(keys[i].publicKey).value)]; }
      }
      assert keys[..|keys|] == keys;
    }

    method MergePolicy(keys: seq<BundledKey>) returns (report: Report)
      modifies this`policy
      ensures policy == MergeKeys(old(policy), keys)
      ensures report == ReportKeys(old(policy), keys)
    {
      report := EMPTY_REPORT;
      for i := 0 to |keys|
        invariant policy == MergeKeys(old(policy), keys[..i])
        invariant report == ReportKeys(old(policy), keys[..i])
      {
        assert keys[..i + 1][..i] == keys[..i];
        var key := keys[i];
        var at := Find(key.id);
        if at == |policy| {
          MergeKeyNew(policy, key);
          policy := policy + [NewEntry(key)];
          report := report.(added := report.added + [key.id]);
        } else {
          MergeKeyAt(policy, key, at);
          var entry := policy[at];
          match (entry.status, key.status) {
            case (Trusted, Revoked) =>
              policy := policy[at := entry.(status := Revoked, revokedAt := key.revokedAt)];
              report := report.(revoked := report.revoked + [key.id]);
            case (Revoked, Trusted) =>
              report := report.(keptRevoked := report.keptRevoked + [key.id]);
            case (Revoked, Revoked) =>
              if key.revokedAt.Some? && entry.revokedAt.Some? && key.revokedAt.value < entry.revokedAt.value {
                policy := policy[at := entry.(revokedAt := key.revokedAt)];
                report := report.(movedEarlier := report.movedEarlier + [key.id]);
              } else {
                report := report.(asBefore := report.asBefore + 1);
              }
            case (Trusted, Trusted) =>
              report := report.(asBefore := report.asBefore + 1);
          }
        }
      }
      assert keys[..|keys|] == keys;
    }

    method Import(c: Crypto, b: TrustBundle, expected: Option<string>, now: Time)
      returns (decision: Decision, report: Report)
      modifies this
      ensures decision == Decide(c, old(Contents()), b, expected, now)
      ensures Contents() == Imported(c, old(Contents()), b, expected, now)
      ensures decision.Accepted? ==> report == ReportKeys(old(policy), b.keys)
      ensures decision.Current? ==> report == EMPTY_REPORT.(asBefore := |b.keys|)
    {
      report := EMPTY_REPORT;
      var checks := Examine(c, b, now);
      if exists passed <- checks :: !passed { return Refused, report; }
      var loads := CheckAgainst(c, policy, files);
      if !loads { return Refused, report; }
      var issuer := b.issuer.keyId;
      var local := FindEntry(policy, issuer);
      if local.Some? && local.value.status.Revoked? { return Refused, report; }
      if expected.Some? && expected.value != issuer { return Refused, report; }
      decision := Accepted(false);
      if issuer !in accepted {
        if expected.None? {
          if !(exists i <- accepted :: Names(accepted[i], b)) { return Refused, report; }
          decision := Accepted(true);
        }
      } else {
        var previous := accepted[issuer];
        if b.sequence < previous.sequence { return Refused, report; }
        if b.sequence == previous.sequence && b.signature != previous.signature { return Refused, report; }
        if previous.signature == b.signature { return Current, report.(asBefore := |b.keys|); }
      }
      // The policy is read again after this; more key files never stop it loading.
      WriteFiles(c, b.keys);
      report := MergePolicy(b.keys);
      accepted := accepted[issuer := b];
    }
  }
}
