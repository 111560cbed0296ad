/** A key's standing, and why importing bundles is a fold of a semilattice. */
module TrustLattice {
  import opened Outcome
  import opened TrustModel
  import opened TrustImport

  /** How far a key can be relied on. `Absent` is no statement at all; a revocation
      without a date holds from the beginning of time. */
  datatype Standing = Absent | Valid | RevokedFrom(at: Time)

  function RevokedSince(at: Option<Time>): Standing {
    RevokedFrom(if at.Some? then at.value else MIN_UTC)
  }

  function StandingOf(policy: seq<TrustEntry>, id: string): Standing {
    match FindEntry(policy, id)
    case None => Absent
    case Some(e) => if e.status.Trusted? then Valid else RevokedSince(e.revokedAt)
  }

  function StatementOf(key: BundledKey): Standing {
    if key.status.Trusted? then Valid else RevokedSince(key.revokedAt)
  }

  /** What a bundle says of a key. */
  function Statement(keys: seq<BundledKey>, id: string): Standing {
    match FindKey(keys, id)
    case None => Absent
    case Some(k) => StatementOf(k)
  }

  /** `a` is at most as good as `b`. */
  predicate Below(a: Standing, b: Standing) {
    b.Absent? || (b.Valid? && !a.Absent?) || (a.RevokedFrom? && b.RevokedFrom? && a.at <= b.at)
  }

  function Meet(a: Standing, b: Standing): Standing { if Below(a, b) then a else b }

  lemma MeetIsGreatestLower(a: Standing, b: Standing, x: Standing)
    ensures Below(x, Meet(a, b)) <==> Below(x, a) && Below(x, b)
  {
  }

  lemma BelowAntisymmetric(a: Standing, b: Standing)
    requires Below(a, b) && Below(b, a)
    ensures a == b
  {
  }

  // ---------------------------------------------------------------------
  // One bundle
  // ---------------------------------------------------------------------

  predicate Dated(key: BundledKey) { key.status.Revoked? ==> key.revokedAt.Some? }

  lemma {:induction false} MergeKeyStanding(policy: seq<TrustEntry>, key: BundledKey, id: string)
    requires Dated(key)
    ensures StandingOf(MergeKey(policy, key), id)
         == if id == key.id then Meet(StandingOf(policy, id), StatementOf(key)) else StandingOf(policy, id)
  {
    if policy != [] && policy[0].id != key.id {
      MergeKeyStanding(policy[1..], key, id);
      assert MergeKey(policy, key)[1..] == MergeKey(policy[1..], key);
    } else if policy != [] {
      assert MergeKey(policy, key)[1..] == policy[1..];
    } else {
      assert MergeKey(policy, key)[1..] == [];
    }
  }

  lemma {:induction false} FindKeySnoc(keys: seq<BundledKey>, key: BundledKey, id: string)
    ensures FindKey(keys + [key], id)
         == if FindKey(keys, id).Some? then FindKey(keys, id) else if key.id == id then Some(key) else None
  {
    if keys == [] {
      assert [] + [key] == [key];
    } else {
      assert (keys + [key])[1..] == keys[1..] + [key];
      FindKeySnoc(keys[1..], key, id);
    }
  }

  lemma StatementSnoc(keys: seq<BundledKey>, id: string)
    requires keys != [] && DistinctIds(keys)
    ensures
      var n := |keys| - 1;
      && DistinctIds(keys[..n])
      && (if id == keys[n].id then Statement(keys[..n], id) == Absent && Statement(keys, id) == StatementOf(keys[n])
          else Statement(keys, id) == Statement(keys[..n], id))
  {
    var n := |keys| - 1;
    assert keys == keys[..n] + [keys[n]];
    FindKeySnoc(keys[..n], keys[n], id);
    FindKeySome(keys[..n], id);
  }

  /** Merging a bundle lowers each key's standing to the meet with what it says. */
  lemma {:induction false} MergeIsMeet(policy: seq<TrustEntry>, keys: seq<BundledKey>, id: string)
    requires DistinctIds(keys) && forall k <- keys :: Dated(k)
    ensures StandingOf(MergeKeys(policy, keys), id) == Meet(StandingOf(policy, id), Statement(keys, id))
  {
    if keys != [] {
      var n := |keys| - 1;
      StatementSnoc(keys, id);
      MergeIsMeet(policy, keys[..n], id);
      assert Dated(keys[n]);
      MergeKeyStanding(MergeKeys(policy, keys[..n]), keys[n], id);
    }
  }

  lemma SoundKeysDated(c: Crypto, b: TrustBundle)
    requires KeysSound(c, b)
    ensures forall k <- b.keys :: Dated(k)
  {
    forall k <- b.keys ensures Dated(k) { assert KeySound(c, k); }
  }

  predicate Reported(report: Report, id: string) {
    id in report.added || id in report.revoked || id in report.movedEarlier
  }

  lemma ReportKeyTells(report: Report, policy: seq<TrustEntry>, key: BundledKey, id: string)
    requires Dated(key)
    ensures Reported(ReportKey(report, FindEntry(policy, key.id), key), id) <==>
      Reported(report, id) || (id == key.id && Meet(StandingOf(policy, id), StatementOf(key)) != StandingOf(policy, id))
  {
  }

  lemma MeetIdempotent(a: Standing, b: Standing)
    ensures Meet(a, Absent) == a
    ensures Meet(Meet(a, b), b) == Meet(a, b)
  {
  }

  /** The report names exactly the keys whose standing the import changed. */
  lemma {:induction false} ReportIsHonest(policy: seq<TrustEntry>, keys: seq<BundledKey>, id: string)
    requires DistinctIds(keys) && forall k <- keys :: Dated(k)
    ensures Reported(ReportKeys(policy, keys), id) <==>
              StandingOf(MergeKeys(policy, keys), id) != StandingOf(policy, id)
  {
    if keys != [] {
      hide StandingOf, Statement, Reported, ReportKey;
      var n := |keys| - 1;
      StatementSnoc(keys, id);
      assert Dated(keys[n]);
      ReportIsHonest(policy, keys[..n], id);
      MergeIsMeet(policy, keys[..n], id);
      MergeIsMeet(policy, keys, id);
      ReportKeyTells(ReportKeys(policy, keys[..n]), MergeKeys(policy, keys[..n]), keys[n], id);
      MeetIdempotent(StandingOf(policy, id), Statement(keys[..n], id));
    } else {
      assert !Reported(EMPTY_REPORT, id);
    }
  }

  /** Where one listed key goes, by the standing it had and what the bundle says of it. */
  predicate Told(report: Report, a: Standing, z: Standing, id: string) {
    && (id in report.added <==> a.Absent? && !z.Absent?)
    && (id in report.revoked <==> a.Valid? && z.RevokedFrom?)
    && (id in report.keptRevoked <==> a.RevokedFrom? && z.Valid?)
    && (id in report.movedEarlier <==> a.RevokedFrom? && z.RevokedFrom? && z.at < a.at)
  }

  /** The number of keys a report accounts for. */
  function Accounted(report: Report): nat {
    |report.added| + |report.revoked| + |report.keptRevoked| + |report.movedEarlier| + report.asBefore
  }

  lemma OneKeyTold(report: Report, policy: seq<TrustEntry>, key: BundledKey, id: string)
    requires Dated(key)
    requires Told(report, StandingOf(policy, id), Absent, id) || id != key.id
    ensures
      var next := ReportKey(report, FindEntry(policy, key.id), key);
      && Accounted(next) == Accounted(report) + 1
      && (id == key.id ==> Told(next, StandingOf(policy, id), StatementOf(key), id))
      && (id != key.id ==> forall a, z :: Told(report, a, z, id) ==> Told(next, a, z, id))
  {
  }

  /** Each list names exactly the keys whose standing changed, or was kept, in its way: added ones had no
      entry, revoked ones were trusted, kept ones stay revoked against the bundle's word, moved ones get an
      earlier date. Every key of the bundle is accounted for once. */
  lemma {:induction false} ReportTells(policy: seq<TrustEntry>, keys: seq<BundledKey>, id: string)
    requires DistinctIds(keys) && forall k <- keys :: Dated(k)
    ensures Told(ReportKeys(policy, keys), StandingOf(policy, id), Statement(keys, id), id)
    ensures Accounted(ReportKeys(policy, keys)) == |keys|
  {
    if keys != [] {
      hide StandingOf, Statement, ReportKey, Told, Accounted;
      var n := |keys| - 1;
      StatementSnoc(keys, id);
      assert Dated(keys[n]);
      ReportTells(policy, keys[..n], id);
      MergeIsMeet(policy, keys[..n], id);
      MeetIdempotent(StandingOf(policy, id), Statement(keys[..n], id));
      OneKeyTold(ReportKeys(policy, keys[..n]), MergeKeys(policy, keys[..n]), keys[n], id);
    }
  }

  // ---------------------------------------------------------------------
  // Any number of bundles
  // ---------------------------------------------------------------------

  datatype Attempt = Attempt(bundle: TrustBundle, expected: Option<string>, now: Time)

  function ImportAll(c: Crypto, s: Store, attempts: seq<Attempt>): Store {
    if attempts == [] then s
    else
      var n := |attempts| - 1;
      var a := attempts[n];
      Imported(c, ImportAll(c, s, attempts[..n]), a.bundle, a.expected, a.now)
  }

  /** The bundles a run of imports accepted, in order. */
  function AcceptedBy(c: Crypto, s: Store, attempts: seq<Attempt>): seq<TrustBundle> {
    if attempts == [] then []
    else
      var n := |attempts| - 1;
      var a := attempts[n];
      AcceptedBy(c, s, attempts[..n])
        + if Decide(c, ImportAll(c, s, attempts[..n]), a.bundle, a.expected, a.now).Accepted? then [a.bundle] else []
  }

  /** The start lowered by every bundle. */
  function MeetAll(start: Standing, bundles: seq<TrustBundle>, id: string): Standing {
    if bundles == [] then start
    else Meet(MeetAll(start, bundles[..|bundles| - 1], id), Statement(bundles[|bundles| - 1].keys, id))
  }

  lemma AcceptedIsSound(c: Crypto, s: Store, b: TrustBundle, expected: Option<string>, now: Time)
    requires Decide(c, s, b, expected, now).Accepted?
    ensures KeysSound(c, b)
  {
  }

  lemma SoundDistinct(c: Crypto, b: TrustBundle)
    requires KeysSound(c, b)
    ensures DistinctIds(b.keys) && forall k <- b.keys :: Dated(k)
  {
    SoundKeysDated(c, b);
  }

  /** Bundle import is a semilattice fold. */
  lemma {:induction false} ImportsAreAFold(c: Crypto, s: Store, attempts: seq<Attempt>, id: string)
    ensures StandingOf(ImportAll(c, s, attempts).policy, id)
         == MeetAll(StandingOf(s.policy, id), AcceptedBy(c, s, attempts), id)
  {
    if attempts != [] {
      hide Decide, KeysSound, Statement, StandingOf, Meet;
      var n := |attempts| - 1;
      var a, before := attempts[n], ImportAll(c, s, attempts[..n]);
      ImportsAreAFold(c, s, attempts[..n], id);
      if Decide(c, before, a.bundle, a.expected, a.now).Accepted? {
        AcceptedIsSound(c, before, a.bundle, a.expected, a.now);
        SoundDistinct(c, a.bundle);
        MergeIsMeet(before.policy, a.bundle.keys, id);
        var bundles := AcceptedBy(c, s, attempts[..n]);
        assert (bundles + [a.bundle])[..|bundles|] == bundles;
      } else {
        assert AcceptedBy(c, s, attempts) == AcceptedBy(c, s, attempts[..n]);
      }
    }
  }

  lemma {:induction false} MeetAllIsGreatest(start: Standing, bundles: seq<TrustBundle>, id: string, x: Standing)
    ensures Below(x, MeetAll(start, bundles, id)) <==>
      Below(x, start) && forall b <- bundles :: Below(x, Statement(b.keys, id))
  {
    if bundles != [] {
      hide Below, Meet, Statement;
      var n := |bundles| - 1;
      MeetAllIsGreatest(start, bundles[..n], id, x);
      MeetIsGreatestLower(MeetAll(start, bundles[..n], id), Statement(bundles[n].keys, id), x);
      assert bundles == bundles[..n] + [bundles[n]];
    }
  }

  lemma BelowReflexive(a: Standing)
    ensures Below(a, a)
  {
  }

  function BundlesOf(bundles: seq<TrustBundle>): set<TrustBundle> { set b | b in bundles }

  /** Only which bundles were accepted matters: neither their order nor how often. */
  lemma OrderAndRepetitionDoNotMatter(c: Crypto, s: Store, one: seq<Attempt>, two: seq<Attempt>, id: string)
    requires BundlesOf(AcceptedBy(c, s, one)) == BundlesOf(AcceptedBy(c, s, two))
    ensures StandingOf(ImportAll(c, s, one).policy, id) == StandingOf(ImportAll(c, s, two).policy, id)
  {
    hide Below, Statement, StandingOf, AcceptedBy, ImportAll, MeetAll;
    var start, p, q := StandingOf(s.policy, id), AcceptedBy(c, s, one), AcceptedBy(c, s, two);
    var a, b := MeetAll(start, p, id), MeetAll(start, q, id);
    ImportsAreAFold(c, s, one, id);
    ImportsAreAFold(c, s, two, id);
    BelowReflexive(a);
    BelowReflexive(b);
    MeetAllIsGreatest(start, p, id, a);
    MeetAllIsGreatest(start, q, id, b);
    forall x <- q ensures Below(a, Statement(x.keys, id)) {
      assert x in BundlesOf(q) && x in BundlesOf(p);
    }
    forall x <- p ensures Below(b, Statement(x.keys, id)) {
      assert x in BundlesOf(p) && x in BundlesOf(q);
    }
    MeetAllIsGreatest(start, q, id, a);
    MeetAllIsGreatest(start, p, id, b);
    BelowAntisymmetric(a, b);
  }

  // ---------------------------------------------------------------------
  // Every operation of the store
  // ---------------------------------------------------------------------

  datatype Op =
    | ImportBundle(attempt: Attempt)
    | ImportKey(key: string, name: string)
    | GenerateKey(key: string, name: string, privateExists: bool)
    | RevokeKey(id: string, now: Time)

  function Revoke(policy: seq<TrustEntry>, id: string, now: Time): seq<TrustEntry> {
    if policy == [] then []
    else if policy[0].id == id then [policy[0].(status := Revoked, revokedAt := Some(now))] + policy[1..]
    else [policy[0]] + Revoke(policy[1..], id, now)
  }

  /** One operation. A policy that does not load stops it, after any key file was written. */
  function Apply(c: Crypto, s: Store, op: Op): Store {
    match op
    case ImportBundle(a) => Imported(c, s, a.bundle, a.expected, a.now)
    case ImportKey(key, name) =>
      var id := c.keyId(key);
      var s' := if id in s.files then s else s.(files := s.files[id := Pem(key)]);
      if Loads(c, s') && FindEntry(s'.policy, id).None?
      then s'.(policy := s'.policy + [TrustEntry(id, name, Trusted, None)]) else s'
    case GenerateKey(key, name, privateExists) =>
      var id := c.keyId(key);
      if privateExists || id in s.files then s
      else
        var s' := s.(files := s.files[id := Pem(key)]);
        if Loads(c, s') then s'.(policy := s'.policy + [TrustEntry(id, name, Trusted, None)]) else s'
    case RevokeKey(id, now) =>
      if Loads(c, s) then s.(policy := Revoke(s.policy, id, now)) else s
  }

  function ApplyAll(c: Crypto, s: Store, ops: seq<Op>): Store {
    if ops == [] then s else Apply(c, ApplyAll(c, s, ops[..|ops| - 1]), ops[|ops| - 1])
  }

  lemma {:induction false} FindEntryAppend(policy: seq<TrustEntry>, entry: TrustEntry, id: string)
    ensures FindEntry(policy + [entry], id)
         == if FindEntry(policy, id).Some? then FindEntry(policy, id) else if entry.id == id then Some(entry) else None
  {
    if policy == [] {
      assert [] + [entry] == [entry];
    } else {
      assert (policy + [entry])[1..] == policy[1..] + [entry];
      FindEntryAppend(policy[1..], entry, id);
    }
  }

  /** Revoking dates the key "now", whatever was known before. */
  lemma {:induction false} RevokeStanding(policy: seq<TrustEntry>, id: string, now: Time, other: string)
    ensures StandingOf(Revoke(policy, id, now), other)
         == if other == id && FindEntry(policy, id).Some? then RevokedFrom(now) else StandingOf(policy, other)
  {
    if policy != [] {
      RevokeStanding(policy[1..], id, now, other);
      if policy[0].id == id {
        assert Revoke(policy, id, now)[1..] == policy[1..];
      } else {
        assert Revoke(policy, id, now)[1..] == Revoke(policy[1..], id, now);
      }
    }
  }

  /** One import moves a standing down, never up. */
  lemma ImportLowers(c: Crypto, s: Store, b: TrustBundle, expected: Option<string>, now: Time, id: string)
    ensures Below(StandingOf(Imported(c, s, b, expected, now).policy, id), StandingOf(s.policy, id))
  {
    hide Decide, KeysSound, StandingOf, Statement;
    BelowReflexive(StandingOf(s.policy, id));
    if Decide(c, s, b, expected, now).Accepted? {
      AcceptedIsSound(c, s, b, expected, now);
      SoundDistinct(c, b);
      MergeIsMeet(s.policy, b.keys, id);
    }
  }

  lemma ApplyKeepsRevoked(c: Crypto, s: Store, op: Op, id: string)
    requires StandingOf(s.policy, id).RevokedFrom?
    ensures StandingOf(Apply(c, s, op).policy, id).RevokedFrom?
  {
    hide Loads, Imported;
    match op
    case ImportBundle(a) => ImportLowers(c, s, a.bundle, a.expected, a.now, id);
    case ImportKey(key, name) => FindEntryAppend(s.policy, TrustEntry(c.keyId(key), name, Trusted, None), id);
    case GenerateKey(key, name, _) => FindEntryAppend(s.policy, TrustEntry(c.keyId(key), name, Trusted, None), id);
    case RevokeKey(other, now) => RevokeStanding(s.policy, other, now, id);
  }

  /** No sequence of operations ever turns a revoked key back to trusted. */
  lemma {:induction false} RevokedForever(c: Crypto, s: Store, ops: seq<Op>, id: string)
    requires StandingOf(s.policy, id).RevokedFrom?
    ensures StandingOf(ApplyAll(c, s, ops).policy, id).RevokedFrom?
  {
    if ops != [] {
      hide Apply, StandingOf;
      RevokedForever(c, s, ops[..|ops| - 1], id);
      ApplyKeepsRevoked(c, ApplyAll(c, s, ops[..|ops| - 1]), ops[|ops| - 1], id);
    }
  }

  /** Among all operations, only a local `revoke` of a key already revoked at an
      earlier moment improves a listed key's standing. */
  lemma OnlyRevokeRaises(c: Crypto, s: Store, op: Op, id: string)
    requires FindEntry(s.policy, id).Some?
    ensures !Below(StandingOf(Apply(c, s, op).policy, id), StandingOf(s.policy, id)) <==>
      && op.RevokeKey? && op.id == id && Loads(c, s)
      && StandingOf(s.policy, id).RevokedFrom? && StandingOf(s.policy, id).at < op.now
  {
    hide Loads, Imported;
    match op
    case ImportBundle(a) => ImportLowers(c, s, a.bundle, a.expected, a.now, id);
    case ImportKey(key, name) => FindEntryAppend(s.policy, TrustEntry(c.keyId(key), name, Trusted, None), id);
    case GenerateKey(key, name, _) => FindEntryAppend(s.policy, TrustEntry(c.keyId(key), name, Trusted, None), id);
    case RevokeKey(other, now) => RevokeStanding(s.policy, other, now, id);
  }
}
