/** Whole histories of a trust store: where authority comes from, and what a crash
    during an import leaves behind. */
module TrustHistory {
  import opened Outcome
  import opened TrustModel
  import opened TrustImport
  import opened TrustLattice

  // ---------------------------------------------------------------------
  // Authority
  // ---------------------------------------------------------------------

  function StoreAt(c: Crypto, s: Store, ops: seq<Op>, n: nat): Store
    requires n <= |ops|
  {
    ApplyAll(c, s, ops[..n])
  }

  /** Operation `n` of the history was an import, and was accepted. */
  predicate AcceptedAt(c: Crypto, s: Store, ops: seq<Op>, n: nat) {
    && n < |ops| && ops[n].ImportBundle?
    && var a := ops[n].attempt;
       Decide(c, StoreAt(c, s, ops, n), a.bundle, a.expected, a.now).Accepted?
  }

  function BundleAt(ops: seq<Op>, n: nat): TrustBundle
    requires n < |ops| && ops[n].ImportBundle?
  {
    ops[n].attempt.bundle
  }

  /** `n` follows `m`: a later bundle of the same issuer, or of the successor `m` names. */
  predicate Linked(ops: seq<Op>, m: nat, n: nat) {
    && m < n < |ops| && ops[m].ImportBundle? && ops[n].ImportBundle?
    && (BundleAt(ops, m).issuer.keyId == BundleAt(ops, n).issuer.keyId || Names(BundleAt(ops, m), BundleAt(ops, n)))
  }

  /** A chain of accepted imports, forward in time, that starts where the recipient
      named the issuer. */
  predicate Chain(c: Crypto, s: Store, ops: seq<Op>, chain: seq<nat>) {
    && chain != []
    && var n := |chain| - 1;
       && AcceptedAt(c, s, ops, chain[n])
       && if n == 0 then ops[chain[0]].attempt.expected == Some(BundleAt(ops, chain[0]).issuer.keyId)
          else Chain(c, s, ops, chain[..n]) && Linked(ops, chain[n - 1], chain[n])
  }

  /** The bundle on record for `issuer` ends a chain. */
  ghost predicate Provenance(c: Crypto, s: Store, ops: seq<Op>, issuer: string, record: TrustBundle) {
    exists chain ::
      Chain(c, s, ops, chain) && BundleAt(ops, chain[|chain| - 1]) == record && record.issuer.keyId == issuer
  }

  lemma AcceptedAtPrefix(c: Crypto, s: Store, ops: seq<Op>, op: Op, n: nat)
    requires AcceptedAt(c, s, ops, n)
    ensures AcceptedAt(c, s, ops + [op], n)
  {
    assert (ops + [op])[..n] == ops[..n];
  }

  lemma AcceptedIndex(c: Crypto, s: Store, ops: seq<Op>, n: nat)
    ensures AcceptedAt(c, s, ops, n) ==> n < |ops| && ops[n].ImportBundle?
  {
  }

  lemma {:induction false} ChainPrefix(c: Crypto, s: Store, ops: seq<Op>, op: Op, chain: seq<nat>)
    requires Chain(c, s, ops, chain)
    ensures Chain(c, s, ops + [op], chain)
  {
    var n := |chain| - 1;
    AcceptedIndex(c, s, ops, chain[n]);
    AcceptedAtPrefix(c, s, ops, op, chain[n]);
    hide AcceptedAt;
    if n > 0 { ChainPrefix(c, s, ops, op, chain[..n]); }
  }

  lemma ChainExtend(c: Crypto, s: Store, ops: seq<Op>, chain: seq<nat>, n: nat)
    requires Chain(c, s, ops, chain) && AcceptedAt(c, s, ops, n)
    requires Linked(ops, chain[|chain| - 1], n)
    ensures Chain(c, s, ops, chain + [n])
  {
    hide AcceptedAt, Linked;
    var longer := chain + [n];
    assert longer[..|longer| - 1] == chain && longer[|longer| - 1] == n && longer[|longer| - 2] == chain[|chain| - 1];
  }

  lemma ChainEnds(c: Crypto, s: Store, ops: seq<Op>, chain: seq<nat>)
    requires Chain(c, s, ops, chain)
    ensures chain != [] && chain[|chain| - 1] < |ops| && ops[chain[|chain| - 1]].ImportBundle?
  {
    hide Decide, Linked;
  }

  lemma ProvenanceChain(c: Crypto, s: Store, ops: seq<Op>, issuer: string, record: TrustBundle)
    returns (chain: seq<nat>)
    requires Provenance(c, s, ops, issuer, record)
    ensures Chain(c, s, ops, chain) && chain != []
    ensures chain[|chain| - 1] < |ops| && ops[chain[|chain| - 1]].ImportBundle?
    ensures BundleAt(ops, chain[|chain| - 1]) == record && record.issuer.keyId == issuer
  {
    chain :| Chain(c, s, ops, chain) && BundleAt(ops, chain[|chain| - 1]) == record && record.issuer.keyId == issuer;
    ChainEnds(c, s, ops, chain);
  }

  lemma ProvenancePrefix(c: Crypto, s: Store, ops: seq<Op>, op: Op, issuer: string, record: TrustBundle)
    requires Provenance(c, s, ops, issuer, record)
    ensures Provenance(c, s, ops + [op], issuer, record)
  {
    hide Chain;
    var chain := ProvenanceChain(c, s, ops, issuer, record);
    ChainPrefix(c, s, ops, op, chain);
  }

  /** What acceptance of a first or later bundle rests on. */
  lemma GroundsOfAcceptance(c: Crypto, s: Store, b: TrustBundle, expected: Option<string>, now: Time)
    requires Decide(c, s, b, expected, now).Accepted?
    ensures expected.Some? ==> expected == Some(b.issuer.keyId)
    ensures b.issuer.keyId in s.accepted || expected.Some? || HasPredecessor(s.accepted, b)
    ensures b.issuer.keyId in s.accepted ==> s.accepted[b.issuer.keyId].sequence < b.sequence
  {
  }

  /** The record of bundles changes only by an accepted import. */
  lemma AcceptedMap(c: Crypto, s: Store, ops: seq<Op>)
    requires ops != []
    ensures
      var n := |ops| - 1;
      var before := ApplyAll(c, s, ops[..n]).accepted;
      ApplyAll(c, s, ops).accepted
        == if AcceptedAt(c, s, ops, n) then before[BundleAt(ops, n).issuer.keyId := BundleAt(ops, n)] else before
  {
    hide Decide, Loads, MergeKeys, AddFiles;
  }

  /** Authority provenance over whole runs: starting with no accepted bundle, each
      bundle on record is reached by a chain of statements in bundles accepted
      earlier, from an issuer the recipient named. */
  lemma {:induction false} AuthorityIsInherited(c: Crypto, s: Store, ops: seq<Op>, issuer: string)
    requires s.accepted == map[]
    requires issuer in ApplyAll(c, s, ops).accepted
    ensures Provenance(c, s, ops, issuer, ApplyAll(c, s, ops).accepted[issuer])
    decreases |ops|
  {
    if ops != [] {
      var n := |ops| - 1;
      var past, op := ops[..n], ops[n];
      var before := ApplyAll(c, s, past);
      assert ops == past + [op];
      hide ApplyAll, Decide, Provenance, Loads;
      AcceptedMap(c, s, ops);
      if AcceptedAt(c, s, ops, n) && BundleAt(ops, n).issuer.keyId == issuer {
        NewRecord(c, s, ops, issuer);
      } else {
        AuthorityIsInherited(c, s, past, issuer);
        ProvenancePrefix(c, s, past, op, issuer, before.accepted[issuer]);
      }
    }
  }

  lemma Continue(c: Crypto, s: Store, ops: seq<Op>, from: string, record: TrustBundle)
    requires ops != [] && AcceptedAt(c, s, ops, |ops| - 1)
    requires Provenance(c, s, ops[..|ops| - 1], from, record)
    requires
      var b := BundleAt(ops, |ops| - 1);
      record.issuer.keyId == b.issuer.keyId || Names(record, b)
    ensures Provenance(c, s, ops, BundleAt(ops, |ops| - 1).issuer.keyId, BundleAt(ops, |ops| - 1))
  {
    hide Chain, AcceptedAt;
    var n := |ops| - 1;
    var past := ops[..n];
    var chain := ProvenanceChain(c, s, past, from, record);
    assert ops == past + [ops[n]];
    ChainPrefix(c, s, past, ops[n], chain);
    AcceptedIndex(c, s, ops, n);
    ChainExtend(c, s, ops, chain, n);
    assert (chain + [n])[|chain + [n]| - 1] == n;
  }

  /** An accepted bundle ends a chain of its own. */
  lemma {:induction false} NewRecord(c: Crypto, s: Store, ops: seq<Op>, issuer: string)
    requires s.accepted == map[]
    requires ops != [] && AcceptedAt(c, s, ops, |ops| - 1) && BundleAt(ops, |ops| - 1).issuer.keyId == issuer
    ensures Provenance(c, s, ops, issuer, BundleAt(ops, |ops| - 1))
    decreases |ops|, 0
  {
    var n := |ops| - 1;
    var past, a := ops[..n], ops[n].attempt;
    var b, before := a.bundle, ApplyAll(c, s, past);
    GroundsOfAcceptance(c, before, b, a.expected, a.now);
    hide ApplyAll, Decide, AcceptedAt;
    if issuer in before.accepted {
      AuthorityIsInherited(c, s, past, issuer);
      Continue(c, s, ops, issuer, before.accepted[issuer]);
    } else if a.expected.Some? {
      assert Chain(c, s, ops, [n]);
    } else {
      var i :| i in before.accepted && Names(before.accepted[i], b);
      AuthorityIsInherited(c, s, past, i);
      Continue(c, s, ops, i, before.accepted[i]);
    }
  }

  /** Per issuer the accepted sequence strictly increases at every change. */
  lemma SequencesIncrease(c: Crypto, s: Store, op: Op, issuer: string)
    requires issuer in s.accepted
    ensures issuer in Apply(c, s, op).accepted
    ensures Apply(c, s, op).accepted[issuer] == s.accepted[issuer]
      || s.accepted[issuer].sequence < Apply(c, s, op).accepted[issuer].sequence
  {
    hide Sound, Loads, MergeKeys, AddFiles;
  }

  /** An issuer once revoked locally never updates the store again. */
  lemma {:induction false} RevokedIssuerIsOut(c: Crypto, s: Store, ops: seq<Op>, b: TrustBundle,
                                              expected: Option<string>, now: Time)
    requires StandingOf(s.policy, b.issuer.keyId).RevokedFrom?
    ensures Decide(c, ApplyAll(c, s, ops), b, expected, now) == Refused
    ensures Imported(c, ApplyAll(c, s, ops), b, expected, now) == ApplyAll(c, s, ops)
  {
    RevokedForever(c, s, ops, b.issuer.keyId);
  }

  // ---------------------------------------------------------------------
  // Crashes during an import
  // ---------------------------------------------------------------------

  /** A key file already standing under a newly listed id is that key. */
  predicate StrayFilesFit(c: Crypto, s: Store, b: TrustBundle) {
    forall k <- b.keys :: FindEntry(s.policy, k.id).None? && k.id in s.files ==> Backed(c, s.files, k.id)
  }

  /** The store after `k` key files were handled. */
  function FilesWritten(c: Crypto, s: Store, b: TrustBundle, k: nat): Store
    requires k <= |b.keys|
  {
    s.(files := AddFiles(c, s.files, b.keys[..k]))
  }

  /** The store after the policy was saved, and before the bundle is on record. */
  function PolicyWritten(c: Crypto, s: Store, b: TrustBundle): Store {
    Merged(c, s, b).(accepted := s.accepted)
  }

  /** Everything an import can leave behind when it stops between two writes. */
  predicate CrashPoint(c: Crypto, s: Store, b: TrustBundle, t: Store) {
    (exists k | 0 <= k <= |b.keys| :: t == FilesWritten(c, s, b, k)) || t == PolicyWritten(c, s, b)
  }

  lemma AddFileAt(c: Crypto, files: map<string, KeyFile>, key: BundledKey, id: string)
    requires KeySound(c, key)
    ensures
      var r := AddFile(c, files, key);
      && (id in r <==> id in files || id == key.id)
      && (id in files ==> r[id] == files[id])
      && (id !in files && id == key.id ==>
            c.parseKey(key.publicKey).Some? && r[id] == Pem(c.parseKey(key.publicKey).value))
  {
  }

  lemma {:induction false} AddFilesAt(c: Crypto, files: map<string, KeyFile>, keys: seq<BundledKey>, id: string)
    requires DistinctIds(keys) && forall k <- keys :: KeySound(c, k)
    ensures
      var r, key := AddFiles(c, files, keys), FindKey(keys, id);
      && (id in r <==> id in files || key.Some?)
      && (id in files ==> r[id] == files[id])
      && (id !in files && key.Some? ==>
            c.parseKey(key.value.publicKey).Some? && r[id] == Pem(c.parseKey(key.value.publicKey).value))
  {
    if keys != [] {
      var n := |keys| - 1;
      assert KeySound(c, keys[n]);
      assert AddFiles(c, files, keys) == AddFile(c, AddFiles(c, files, keys[..n]), keys[n]);
      hide AddFiles, AddFile, FindKey, KeySound;
      AddFileAt(c, AddFiles(c, files, keys[..n]), keys[n], id);
      AddFilesAt(c, files, keys[..n], id);
      assert keys == keys[..n] + [keys[n]];
      FindKeySnoc(keys[..n], keys[n], id);
      FindKeySome(keys[..n], id);
    }
  }

  lemma FindKeyPrefix(keys: seq<BundledKey>, k: nat, id: string)
    requires k <= |keys|
    ensures FindKey(keys[..k], id).Some? ==> FindKey(keys, id) == FindKey(keys[..k], id)
    decreases k
  {
    if k > 0 && keys[0].id != id {
      assert keys[..k][1..] == keys[1..][..k - 1];
      FindKeyPrefix(keys[1..], k - 1, id);
    }
  }

  /** Writing the files again after some were written changes nothing more. */
  lemma FilesResume(c: Crypto, files: map<string, KeyFile>, keys: seq<BundledKey>, k: nat)
    requires DistinctIds(keys) && k <= |keys| && forall x <- keys :: KeySound(c, x)
    ensures AddFiles(c, AddFiles(c, files, keys[..k]), keys) == AddFiles(c, files, keys)
  {
    hide KeySound;
    var some := AddFiles(c, files, keys[..k]);
    forall id | true
      ensures id in AddFiles(c, some, keys) <==> id in AddFiles(c, files, keys)
      ensures id in AddFiles(c, files, keys) ==> AddFiles(c, some, keys)[id] == AddFiles(c, files, keys)[id]
    {
      AddFilesAt(c, files, keys[..k], id);
      AddFilesAt(c, some, keys, id);
      AddFilesAt(c, files, keys, id);
      FindKeyPrefix(keys, k, id);
    }
  }

  /** A policy that has taken a key in is not changed by it again. */
  predicate Absorbs(policy: seq<TrustEntry>, key: BundledKey) { MergeKey(policy, key) == policy }

  lemma {:induction false} MergedAbsorbs(policy: seq<TrustEntry>, key: BundledKey)
    ensures Absorbs(MergeKey(policy, key), key)
  {
    if policy == [] {
      assert [NewEntry(key)] == [MergeEntry(NewEntry(key), key)] + [NewEntry(key)][1..];
    } else if policy[0].id == key.id {
      var r := MergeKey(policy, key);
      assert r[1..] == policy[1..];
      assert r == [MergeEntry(r[0], key)] + r[1..];
    } else {
      MergedAbsorbs(policy[1..], key);
      assert MergeKey(policy, key)[1..] == MergeKey(policy[1..], key);
    }
  }

  lemma {:induction false} AbsorbsSurvives(policy: seq<TrustEntry>, key: BundledKey, other: BundledKey)
    requires Absorbs(policy, key) && key.id != other.id
    ensures Absorbs(MergeKey(policy, other), key)
  {
    if policy != [] {
      var r := MergeKey(policy, other);
      if policy[0].id == key.id {
        assert MergeKey(policy, key)[0] == MergeEntry(policy[0], key);
        assert r[1..] == MergeKey(policy[1..], other);
        assert r == [MergeEntry(r[0], key)] + r[1..];
      } else {
        assert MergeKey(policy, key)[1..] == MergeKey(policy[1..], key);
        if policy[0].id == other.id {
          assert r[1..] == policy[1..];
        } else {
          AbsorbsSurvives(policy[1..], key, other);
          assert r[1..] == MergeKey(policy[1..], other);
        }
      }
    }
  }

  lemma {:induction false} MergeKeysAbsorb(policy: seq<TrustEntry>, keys: seq<BundledKey>, i: nat)
    requires DistinctIds(keys) && i < |keys|
    ensures Absorbs(MergeKeys(policy, keys), keys[i])
    decreases |keys|
  {
    var n := |keys| - 1;
    hide Absorbs;
    if i == n {
      MergedAbsorbs(MergeKeys(policy, keys[..n]), keys[n]);
    } else {
      MergeKeysAbsorb(policy, keys[..n], i);
      AbsorbsSurvives(MergeKeys(policy, keys[..n]), keys[i], keys[n]);
    }
  }

  lemma {:induction false} AbsorbedKeysChangeNothing(policy: seq<TrustEntry>, keys: seq<BundledKey>)
    requires forall i :: 0 <= i < |keys| ==> Absorbs(policy, keys[i])
    ensures MergeKeys(policy, keys) == policy
  {
    if keys != [] {
      var n := |keys| - 1;
      AbsorbedKeysChangeNothing(policy, keys[..n]);
      assert Absorbs(policy, keys[n]);
    }
  }

  /** Merging the same keys twice is merging them once. */
  lemma MergeIdempotent(policy: seq<TrustEntry>, keys: seq<BundledKey>)
    requires DistinctIds(keys)
    ensures MergeKeys(MergeKeys(policy, keys), keys) == MergeKeys(policy, keys)
  {
    hide Absorbs, MergeKeys;
    forall i | 0 <= i < |keys| ensures Absorbs(MergeKeys(policy, keys), keys[i]) { MergeKeysAbsorb(policy, keys, i); }
    AbsorbedKeysChangeNothing(MergeKeys(policy, keys), keys);
  }

  /** Replacing the tail of a policy by one with no more use of the head's id. */
  lemma UniqueCons(policy: seq<TrustEntry>, r: seq<TrustEntry>)
    requires policy != [] && r != [] && UniqueEntries(policy) && r[0] == policy[0]
    requires UniqueEntries(policy[1..]) ==> UniqueEntries(r[1..])
    requires FindEntry(r[1..], r[0].id).Some? <==> FindEntry(policy[1..], r[0].id).Some?
    ensures UniqueEntries(r)
  {
    FindEntrySome(policy[1..], r[0].id);
    FindEntrySome(r[1..], r[0].id);
    assert UniqueEntries(policy[1..]);
    forall i, j | 0 <= i < j < |r| ensures r[i].id != r[j].id {
      assert r[j] == r[1..][j - 1];
      if i > 0 { assert r[i] == r[1..][i - 1]; } else { assert r[1..][j - 1] in r[1..]; }
    }
  }

  lemma {:induction false} MergeKeyIds(policy: seq<TrustEntry>, key: BundledKey, id: string)
    ensures FindEntry(MergeKey(policy, key), id).Some? <==> FindEntry(policy, id).Some? || id == key.id
    ensures UniqueEntries(policy) ==> UniqueEntries(MergeKey(policy, key))
  {
    if policy != [] {
      var r := MergeKey(policy, key);
      if policy[0].id == key.id {
        assert r[1..] == policy[1..];
        assert UniqueEntries(policy) ==> UniqueEntries(r);
      } else {
        MergeKeyIds(policy[1..], key, id);
        assert r[1..] == MergeKey(policy[1..], key);
        MergeKeyIds(policy[1..], key, policy[0].id);
        if UniqueEntries(policy) { UniqueCons(policy, r); }
      }
    }
  }

  lemma {:induction false} MergedIds(policy: seq<TrustEntry>, keys: seq<BundledKey>, id: string)
    ensures FindEntry(MergeKeys(policy, keys), id).Some? <==> FindEntry(policy, id).Some? || FindKey(keys, id).Some?
    ensures UniqueEntries(policy) ==> UniqueEntries(MergeKeys(policy, keys))
  {
    if keys != [] {
      var n := |keys| - 1;
      assert MergeKeys(policy, keys) == MergeKey(MergeKeys(policy, keys[..n]), keys[n]);
      hide UniqueEntries, MergeKey, MergeKeys, FindEntry, FindKey;
      MergedIds(policy, keys[..n], id);
      MergeKeyIds(MergeKeys(policy, keys[..n]), keys[n], id);
      assert keys == keys[..n] + [keys[n]];
      FindKeySnoc(keys[..n], keys[n], id);
    }
  }

  lemma EntryIsBacked(c: Crypto, s: Store, id: string)
    requires Loads(c, s) && FindEntry(s.policy, id).Some?
    ensures WellFormedId(id) && Backed(c, s.files, id)
  {
    FindEntrySome(s.policy, id);
  }

  lemma ListedKeySound(c: Crypto, b: TrustBundle, id: string)
    requires Sensible(c) && KeysSound(c, b) && FindKey(b.keys, id).Some?
    ensures
      var k := FindKey(b.keys, id).value;
      && k in b.keys && k.id == id && WellFormedId(id)
      && c.parseKey(k.publicKey).Some? && c.keyId(c.parseKey(k.publicKey).value) == id
  {
    FindKeySome(b.keys, id);
    assert KeySound(c, FindKey(b.keys, id).value);
  }

  /** When a key file under a merged id is the key it should be. */
  lemma MergedBacked(c: Crypto, s: Store, b: TrustBundle, id: string)
    requires Sensible(c) && KeysSound(c, b) && Loads(c, s)
    requires FindEntry(s.policy, id).Some? || FindKey(b.keys, id).Some?
    ensures WellFormedId(id)
    ensures Backed(c, AddFiles(c, s.files, b.keys), id) <==> (id in s.files ==> Backed(c, s.files, id))
  {
    AddFilesAt(c, s.files, b.keys, id);
    hide Loads, KeysSound, AddFiles;
    if FindEntry(s.policy, id).Some? { EntryIsBacked(c, s, id); }
    if FindKey(b.keys, id).Some? { ListedKeySound(c, b, id); }
  }

  /** The policy an import saves loads exactly when no stray key file stands under
      a newly listed id. */
  lemma SavedPolicyLoadsIff(c: Crypto, s: Store, b: TrustBundle)
    requires Sensible(c) && KeysSound(c, b) && Loads(c, s)
    ensures Loads(c, PolicyWritten(c, s, b)) <==> StrayFilesFit(c, s, b)
  {
    hide KeySound, KeysSound, MergeKeys, AddFiles, Sensible, Backed, WellFormedId;
    var t := PolicyWritten(c, s, b);
    MergedIds(s.policy, b.keys, "");
    if StrayFilesFit(c, s, b) {
      forall e <- t.policy ensures WellFormedId(e.id) && Backed(c, t.files, e.id) {
        MergedIds(s.policy, b.keys, e.id);
        FindEntrySome(t.policy, e.id);
        MergedBacked(c, s, b, e.id);
        if FindEntry(s.policy, e.id).Some? { EntryIsBacked(c, s, e.id); } else { FindKeySome(b.keys, e.id); }
      }
    }
    if Loads(c, t) {
      forall k <- b.keys ensures FindEntry(s.policy, k.id).None? && k.id in s.files ==> Backed(c, s.files, k.id) {
        FindKeySome(b.keys, k.id);
        MergedIds(s.policy, b.keys, k.id);
        MergedBacked(c, s, b, k.id);
        EntryIsBacked(c, t, k.id);
      }
    }
  }

  /** Key files alone never stop a policy from loading. */
  lemma FilesKeepLoading(c: Crypto, s: Store, b: TrustBundle, k: nat)
    requires KeysSound(c, b) && Loads(c, s) && k <= |b.keys|
    ensures Loads(c, FilesWritten(c, s, b, k))
  {
    hide AddFiles;
    assert forall x <- b.keys[..k] :: x in b.keys;
    forall e <- s.policy ensures Backed(c, AddFiles(c, s.files, b.keys[..k]), e.id) {
      AddFilesAt(c, s.files, b.keys[..k], e.id);
    }
  }

  /** Where an import may stop, what is left loads. */
  lemma CrashLeavesLoadable(c: Crypto, s: Store, b: TrustBundle, t: Store)
    requires Sensible(c) && KeysSound(c, b) && Loads(c, s) && StrayFilesFit(c, s, b) && CrashPoint(c, s, b, t)
    ensures Loads(c, t)
  {
    hide Loads, KeysSound, FilesWritten, PolicyWritten;
    if t == PolicyWritten(c, s, b) {
      SavedPolicyLoadsIff(c, s, b);
    } else {
      var k :| 0 <= k <= |b.keys| && t == FilesWritten(c, s, b, k);
      FilesKeepLoading(c, s, b, k);
    }
  }

  /** The same bundle, imported again after a crash, meets the same policy on its issuer. */
  lemma IssuerStillTrusted(c: Crypto, s: Store, b: TrustBundle, t: Store)
    requires KeysSound(c, b) && CrashPoint(c, s, b, t)
    requires !StandingOf(s.policy, b.issuer.keyId).RevokedFrom?
    ensures !StandingOf(t.policy, b.issuer.keyId).RevokedFrom?
    ensures t.accepted == s.accepted
  {
    hide MergeKeys, AddFiles;
    SoundDistinct(c, b);
    MergeIsMeet(s.policy, b.keys, b.issuer.keyId);
  }

  /** Importing again from a crash point ends where the import would have. */
  lemma MergeResumes(c: Crypto, s: Store, b: TrustBundle, t: Store)
    requires KeysSound(c, b) && CrashPoint(c, s, b, t)
    ensures Merged(c, t, b) == Merged(c, s, b)
  {
    hide MergeKeys, AddFiles;
    var n := |b.keys|;
    assert b.keys[..n] == b.keys;
    if t == PolicyWritten(c, s, b) {
      MergeIdempotent(s.policy, b.keys);
      FilesResume(c, s.files, b.keys, n);
    } else {
      var k :| 0 <= k <= n && t == FilesWritten(c, s, b, k);
      FilesResume(c, s.files, b.keys, k);
    }
  }

  /** Crash-retry convergence: stopping an accepted import between any two writes
      leaves a store that loads, from which the same bundle is accepted again
      rather than refused as a replay, with the same final result. */
  lemma CrashRetryConverges(c: Crypto, s: Store, b: TrustBundle, expected: Option<string>, now: Time, t: Store,
                            later: Time)
    requires Sensible(c) && Decide(c, s, b, expected, now).Accepted? && StrayFilesFit(c, s, b)
    requires CrashPoint(c, s, b, t) && InWindow(b, later)
    ensures Loads(c, t)
    ensures Decide(c, t, b, expected, later) == Decide(c, s, b, expected, now)
    ensures Imported(c, t, b, expected, later) == Imported(c, s, b, expected, now)
  {
    CrashLeavesLoadable(c, s, b, t);
    IssuerStillTrusted(c, s, b, t);
    MergeResumes(c, s, b, t);
    hide Loads, KeysSound, CrashPoint, Merged, SignatureHolds, SuccessorSound;
  }

  // ---------------------------------------------------------------------
  // What an import leaves on record
  // ---------------------------------------------------------------------

  lemma {:induction false} MergeKeyKeeps(policy: seq<TrustEntry>, key: BundledKey)
    ensures
      var r := MergeKey(policy, key);
      && |r| == |policy| + (if FindEntry(policy, key.id).None? then 1 else 0)
      && (forall i :: 0 <= i < |policy| ==> r[i].id == policy[i].id && r[i].name == policy[i].name)
      && (forall i :: 0 <= i < |policy| && policy[i].id != key.id ==> r[i] == policy[i])
      && (FindEntry(policy, key.id).None? ==>
            r[|policy|] == TrustEntry(key.id, key.name, key.status, key.revokedAt))
  {
    if policy != [] {
      var r := MergeKey(policy, key);
      if policy[0].id == key.id {
        assert r[1..] == policy[1..];
        assert forall i :: 1 <= i < |policy| ==> r[i] == r[1..][i - 1];
      } else {
        MergeKeyKeeps(policy[1..], key);
        assert r[1..] == MergeKey(policy[1..], key);
        forall i | 1 <= i < |policy|
          ensures r[i].id == policy[i].id && r[i].name == policy[i].name
          ensures policy[i].id != key.id ==> r[i] == policy[i]
        {
          assert r[i] == r[1..][i - 1] && policy[i] == policy[1..][i - 1];
        }
      }
    }
  }

  /** One of the keys, as a new entry. */
  predicate NewFrom(keys: seq<BundledKey>, e: TrustEntry) {
    exists k <- keys :: e == TrustEntry(k.id, k.name, k.status, k.revokedAt)
  }

  lemma NewFromMore(keys: seq<BundledKey>, key: BundledKey, e: TrustEntry)
    ensures NewFrom(keys + [key], e) <==>
      NewFrom(keys, e) || e == TrustEntry(key.id, key.name, key.status, key.revokedAt)
  {
    assert forall k :: k in keys + [key] <==> k in keys || k == key;
  }

  lemma NewFromOther(keys: seq<BundledKey>, n: nat, e: TrustEntry)
    requires DistinctIds(keys) && n < |keys| && NewFrom(keys[..n], e)
    ensures e.id != keys[n].id
  {
    var k :| k in keys[..n] && e == TrustEntry(k.id, k.name, k.status, k.revokedAt);
  }

  lemma {:induction false} MergeGrows(policy: seq<TrustEntry>, keys: seq<BundledKey>)
    ensures |policy| <= |MergeKeys(policy, keys)|
  {
    if keys != [] {
      hide MergeKey, FindEntry;
      MergeGrows(policy, keys[..|keys| - 1]);
      MergeKeyKeeps(MergeKeys(policy, keys[..|keys| - 1]), keys[|keys| - 1]);
    }
  }

  /** An import keeps every entry in its place, under its id and its name, and appends the keys it
      had no entry for as the bundle states them. */
  lemma {:induction false} MergeKeepsEntries(policy: seq<TrustEntry>, keys: seq<BundledKey>, i: nat)
    requires DistinctIds(keys) && i < |MergeKeys(policy, keys)|
    ensures |policy| <= |MergeKeys(policy, keys)|
    ensures
      var e := MergeKeys(policy, keys)[i];
      if i < |policy| then e.id == policy[i].id && e.name == policy[i].name else NewFrom(keys, e)
    decreases |keys|
  {
    if keys != [] {
      hide FindEntry, MergeKey, NewFrom;
      var n := |keys| - 1;
      var before, key := MergeKeys(policy, keys[..n]), keys[n];
      assert MergeKeys(policy, keys) == MergeKey(before, key);
      MergeKeyKeeps(before, key);
      assert keys == keys[..n] + [key];
      NewFromMore(keys[..n], key, MergeKeys(policy, keys)[i]);
      if i < |before| {
        MergeKeepsEntries(policy, keys[..n], i);
        if i >= |policy| { NewFromOther(keys, n, before[i]); }
      } else {
        MergeGrows(policy, keys[..n]);
      }
    }
  }

  /** What was accepted is on record, for its issuer and no other: offered again in its window, it is
      known already, so that it is not an update and changes nothing. */
  lemma ImportedIsCurrent(c: Crypto, s: Store, b: TrustBundle, expected: Option<string>, now: Time,
                          again: Option<string>, later: Time)
    requires Sensible(c) && Decide(c, s, b, expected, now).Accepted? && StrayFilesFit(c, s, b)
    requires InWindow(b, later) && (again.Some? ==> again.value == b.issuer.keyId)
    ensures Decide(c, Imported(c, s, b, expected, now), b, again, later) == Current
    ensures forall issuer ::
      && (issuer in Imported(c, s, b, expected, now).accepted <==> issuer in s.accepted || issuer == b.issuer.keyId)
      && (issuer in s.accepted && issuer != b.issuer.keyId ==>
            Imported(c, s, b, expected, now).accepted[issuer] == s.accepted[issuer])
  {
    hide KeySound, KeysSound, MergeKeys, AddFiles, SignatureHolds, SuccessorSound, StrayFilesFit, Backed;
    SavedPolicyLoadsIff(c, s, b);
    IssuerStillTrusted(c, s, b, PolicyWritten(c, s, b));
  }
}
