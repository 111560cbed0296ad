/** Concrete stores and bundles: an import that rescues a verdict, and one after which the
    policy no longer loads. */
module TrustExamples {
  import opened Outcome
  import opened TrustModel
  import opened TrustImport
  import opened TrustHistory
  import opened SignatureTrust
  import opened TrustMaterial
  import opened VerdictPolicy

  /** One key, "K", whose id is `id`, and signatures that all verify. */
  function OneKey(id: string): Crypto { Crypto(publicKey => Some("K"), key => id, (key, form, signature) => true) }

  /** The key's own first bundle, valid from 0 to 9. */
  function FirstBundle(id: string): TrustBundle {
    TrustBundle(BUNDLE_SCHEMA_VERSION, Issuer(id, "K"), 0, 9, 1, [BundledKey(id, "release", "K", Trusted, None)], None,
                Some("signature"))
  }

  lemma FirstBundleSound(id: string, now: Time)
    requires now <= 9
    ensures Sound(OneKey(id), FirstBundle(id), now) && KeysSound(OneKey(id), FirstBundle(id))
  {
    assert FindKey(FirstBundle(id).keys, id) == Some(FirstBundle(id).keys[0]);
  }

  // ---------------------------------------------------------------------
  // A stray key file
  // ---------------------------------------------------------------------

  /** An empty store, but for a file under the key's name that holds no key. */
  function StrayStore(id: string): Store { Store([], map[id := Garbage], map[]) }

  /** An import that is accepted and leaves a policy that does not load: the stray file is kept,
      and the new entry points to it. */
  lemma StrayFileStopsPolicy(id: string)
    requires WellFormedId(id)
    ensures
      var c, s, b := OneKey(id), StrayStore(id), FirstBundle(id);
      && Sensible(c) && Loads(c, s) && Decide(c, s, b, Some(id), 5) == Accepted(false)
      && !StrayFilesFit(c, s, b) && !Loads(c, PolicyWritten(c, s, b)) && !Loads(c, Imported(c, s, b, Some(id), 5))
  {
    var c, s, b := OneKey(id), StrayStore(id), FirstBundle(id);
    FirstBundleSound(id, 5);
    hide WellFormedId;
    assert b.keys[0] in b.keys && FindEntry(s.policy, id) == None;
    assert b.keys[..0] == [] && MergeKeys(s.policy, []) == [] && AddFiles(c, s.files, []) == s.files;
    assert Merged(c, s, b).policy == [NewEntry(b.keys[0])];
    assert NewEntry(b.keys[0]) in Merged(c, s, b).policy;
  }

  // ---------------------------------------------------------------------
  // An import that rescues a verdict
  // ---------------------------------------------------------------------

  /** The recipient trusts the key by an entry made by hand, and has accepted these bundles. */
  function ByHand(id: string, accepted: map<string, TrustBundle>): Store {
    Store([TrustEntry(id, "release", Trusted, None)], map[id := Pem("K")], accepted)
  }

  /** A receipt the key signed, verified at moment 5. */
  function SignedVerification(): Verification {
    Verification(SignedReceipt(true, "K", true, true, 0), None, true, false, {}, 5, [], [], Some("success"))
  }

  lemma FirstBundleAccepted(id: string)
    requires WellFormedId(id)
    ensures Decide(OneKey(id), ByHand(id, map[]), FirstBundle(id), Some(id), 5) == Accepted(false)
    ensures Imported(OneKey(id), ByHand(id, map[]), FirstBundle(id), Some(id), 5)
         == ByHand(id, map[id := FirstBundle(id)])
  {
    hide WellFormedId;
    var c, s, b := OneKey(id), ByHand(id, map[]), FirstBundle(id);
    FirstBundleSound(id, 5);
    assert Loads(c, s);
    assert FindEntry(s.policy, id) == Some(s.policy[0]);
    assert b.keys[..0] == [];
    assert MergeKeys(s.policy, []) == s.policy && MergeKey(s.policy, b.keys[0]) == s.policy;
    assert AddFiles(c, s.files, []) == s.files;
  }

  lemma KeyTrustedByHand(id: string, accepted: map<string, TrustBundle>)
    requires WellFormedId(id)
    ensures SignedBy(OneKey(id), ByHand(id, accepted), map[id := "K"], SignedVerification())
  {
    hide WellFormedId;
    var c, s, managed := OneKey(id), ByHand(id, accepted), map[id := "K"];
    assert managed[id] == "K";
    assert FindEntry(s.policy, id) == Some(s.policy[0]);
  }

  lemma FirstBundleImportable(id: string)
    requires WellFormedId(id)
    ensures Importable(OneKey(id), ByHand(id, map[]), FirstBundle(id), Some(id), 5, map[id := "K"], map[id := "K"], "K")
  {
    FirstBundleAccepted(id);
    hide Decide, Imported, WellFormedId;
    var s, managed := ByHand(id, map[]), map[id := "K"];
    assert FindEntry(s.policy, id) == Some(s.policy[0]);
    assert managed[id] == "K";
  }

  lemma FactsByHand(id: string)
    requires WellFormedId(id)
    ensures
      var c, b, managed, v := OneKey(id), FirstBundle(id), map[id := "K"], SignedVerification();
      var signed := [Check("signature", Evidence.Pass)];
      && FactsOf(c, ByHand(id, map[]), managed, [], v) == Facts(signed, Some("none"), Some("success"))
      && FactsOf(c, ByHand(id, map[id := b]), managed, [id], v) == Facts(signed, Some("current"), Some("success"))
  {
    var c, b, v := OneKey(id), FirstBundle(id), SignedVerification();
    KeyTrustedByHand(id, map[]);
    KeyTrustedByHand(id, map[id := b]);
    hide SignedBy, WellFormedId;
    assert Row(map[id := b], [id]) == [b];
    assert Vouches(b, id) by { assert b.keys[0].id == id; }
    LatestSnoc([], b, id);
    assert [] + [b] == [b];
  }

  lemma SignatureAndTrust(state: string)
    ensures
      var f := Facts([Check("signature", Evidence.Pass)], Some(state), Some("success"));
      Passes(f, [Signature, Trust]) <==> state == "current"
  {
    var required := [Signature, Trust];
    assert required[1] == Trust;
    PassesApart(Facts([Check("signature", Evidence.Pass)], Some(state), Some("success")), required);
  }

  /** A failing verdict an import turns into a passing one: the policy asks for a signature and
      for current trust material, and the import brings the first bundle. */
  lemma ImportRescues(id: string)
    requires WellFormedId(id)
    ensures
      var c, s, s', v := OneKey(id), ByHand(id, map[]), ByHand(id, map[id := FirstBundle(id)]), SignedVerification();
      var managed, required := map[id := "K"], [Signature, Trust];
      && Importable(c, s, FirstBundle(id), Some(id), 5, managed, managed, "K")
      && s' == Imported(c, s, FirstBundle(id), Some(id), 5)
      && Lists(s.accepted, []) && Lists(s'.accepted, [id])
      && !Passes(FactsOf(c, s, managed, [], v), required) && Passes(FactsOf(c, s', managed, [id], v), required)
  {
    FirstBundleAccepted(id);
    FirstBundleImportable(id);
    FactsByHand(id);
    hide Importable, Imported, FactsOf, Passes, OneKey, FirstBundle, WellFormedId, SignedVerification, Decide;
    SignatureAndTrust("none");
    SignatureAndTrust("current");
    assert Lists(map[], []) && Lists(map[id := FirstBundle(id)], [id]);
  }
}
