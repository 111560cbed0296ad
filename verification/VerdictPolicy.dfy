/** `apply_policy` (`verify.rs`): the policy over the checks, and what an import can do to the outcome. */
module VerdictPolicy {
  import opened Outcome
  import opened TrustModel
  import opened TrustImport
  import opened SignatureTrust
  import opened TrustMaterial
  import Evidence = PublicationEvidence

  type CheckStatus = Evidence.CheckStatus

  datatype Check = Check(name: string, status: CheckStatus)

  datatype Requirement =
    | Signature | Timestamp | Recompute | Linkage | Trust | Success | Sbom
    | Provenance | Revision | Identity | Artifacts | Capsule | LogInclusion | LogConsistency

  /** What the verdict states, apart from its outcome. */
  datatype Facts = Facts(checks: seq<Check>, trustState: Option<string>, execution: Option<string>)

  /** The check a requirement is met by, for those that rest on a check. */
  function CheckName(r: Requirement): Option<string> {
    match r
    case Signature => Some("signature")
    case Timestamp => Some("timestamp")
    case Recompute => Some("recompute")
    case Linkage => Some("chain-linkage")
    case Sbom => Some("sbom")
    case Provenance => Some("provenance")
    case Revision => Some("revision")
    case Identity => Some("identity")
    case Artifacts => Some("artifacts")
    case Capsule => Some("capsule")
    case LogInclusion => Some("log-inclusion")
    case LogConsistency => Some("log-consistency")
    case Trust => None
    case Success => None
  }

  /** The first check of that name. */
  function FindCheck(checks: seq<Check>, name: string): Option<Check> {
    if checks == [] then None
    else if checks[0].name == name then Some(checks[0])
    else FindCheck(checks[1..], name)
  }

  /** Met only by a check that ran and passed, or by the fact it names. */
  predicate Met(f: Facts, r: Requirement) {
    match CheckName(r)
    case Some(name) => FindCheck(f.checks, name).Some? && FindCheck(f.checks, name).value.status == Evidence.Pass
    case None => if r == Trust then f.trustState == Some("current") else f.execution == Some("success")
  }

  predicate Passes(f: Facts, required: seq<Requirement>) {
    (forall c <- f.checks :: c.status != Evidence.Fail) && forall r <- required :: Met(f, r)
  }

  /** The requirements not met, in the order and as often as required. */
  function Unmet(f: Facts, required: seq<Requirement>): seq<Requirement> {
    if required == [] then []
    else
      var n := |required| - 1;
      Unmet(f, required[..n]) + if Met(f, required[n]) then [] else [required[n]]
  }

  lemma {:induction false} UnmetMembers(f: Facts, required: seq<Requirement>)
    ensures forall r :: r in Unmet(f, required) <==> r in required && !Met(f, r)
    decreases |required|
  {
    if required != [] {
      var n := |required| - 1;
      UnmetMembers(f, required[..n]);
      assert required == required[..n] + [required[n]];
    }
  }

  class ReceiptVerdict {
    var facts: Facts
    var passed: bool
    var required: seq<Requirement>
    var unmet: seq<Requirement>

    constructor (facts: Facts)
      ensures this.facts == facts
    {
      this.facts, passed, required, unmet := facts, false, [], [];
    }

    /** Recomputes the outcome from the facts alone, whatever it was before. */
    method ApplyPolicy(policy: seq<Requirement>)
      modifies this
      ensures facts == old(facts) && required == policy && unmet == Unmet(facts, policy)
      ensures passed <==> Passes(facts, policy)
    {
      var missing: seq<Requirement> := [];
      for i := 0 to |policy|
        invariant facts == old(facts) && missing == Unmet(facts, policy[..i])
      {
        assert policy[..i + 1][..i] == policy[..i];
        if !Met(facts, policy[i]) { missing := missing + [policy[i]]; }
      }
      assert policy[..|policy|] == policy;
      UnmetMembers(facts, policy);
      var failed := exists c <- facts.checks :: c.status == Evidence.Fail;
      passed := !(failed || missing != []);
      if missing != [] { assert missing[0] in missing; }
      unmet, required := missing, policy;
    }
  }

  lemma {:induction false} FindAppended(checks: seq<Check>, c: Check, name: string)
    ensures FindCheck(checks + [c], name)
         == if FindCheck(checks, name).Some? then FindCheck(checks, name) else if c.name == name then Some(c) else None
  {
    if checks != [] {
      assert (checks + [c])[1..] == checks[1..] + [c];
      FindAppended(checks[1..], c, name);
    }
  }

  /** A passing check of a name no earlier check had. */
  predicate Supplies(f: Facts, c: Check, r: Requirement) {
    CheckName(r) == Some(c.name) && FindCheck(f.checks, c.name).None? && c.status == Evidence.Pass
  }

  /** A check added later, with the policy applied again: it can fail the verdict, and it
      can only supply what no earlier check of its name had answered. */
  lemma CheckAddedLater(f: Facts, c: Check, required: seq<Requirement>)
    ensures
      var more := f.(checks := f.checks + [c]);
      Passes(more, required) <==>
        && c.status != Evidence.Fail && (forall x <- f.checks :: x.status != Evidence.Fail)
        && forall r <- required :: Met(f, r) || Supplies(f, c, r)
  {
    var more := f.(checks := f.checks + [c]);
    forall r ensures Met(more, r) <==> Met(f, r) || Supplies(f, c, r) {
      if CheckName(r).Some? { FindAppended(f.checks, c, CheckName(r).value); }
    }
    assert more.checks[|f.checks|] == c;
    assert forall x :: x in more.checks <==> x in f.checks || x == c;
  }

  /** The same checks, each doing no better than before. */
  predicate NoBetter(after: seq<Check>, before: seq<Check>) {
    && |after| == |before|
    && forall i :: 0 <= i < |before| ==>
         && after[i].name == before[i].name
         && (after[i].status == Evidence.Pass ==> before[i].status == Evidence.Pass)
         && (before[i].status == Evidence.Fail ==> after[i].status == Evidence.Fail)
  }

  lemma {:induction false} FindNoBetter(after: seq<Check>, before: seq<Check>, name: string)
    requires NoBetter(after, before)
    ensures FindCheck(after, name).Some? <==> FindCheck(before, name).Some?
    ensures FindCheck(after, name).Some? && FindCheck(after, name).value.status == Evidence.Pass ==>
      FindCheck(before, name).value.status == Evidence.Pass
  {
    if before != [] {
      assert NoBetter(after[1..], before[1..]);
      FindNoBetter(after[1..], before[1..], name);
    }
  }

  /** Verdicts are monotone in the checks: worse checks never pass more, and only the state
      of the trust material can make the difference. */
  lemma WorseChecksNeverHelp(after: Facts, before: Facts, required: seq<Requirement>)
    requires NoBetter(after.checks, before.checks) && after.execution == before.execution
    requires Passes(after, required)
    ensures Passes(before, required) <==> (Trust in required ==> before.trustState == Some("current"))
  {
    forall r <- required ensures r != Trust ==> Met(before, r) {
      assert Met(after, r);
      if CheckName(r).Some? { FindNoBetter(after.checks, before.checks, CheckName(r).value); }
    }
    forall c <- before.checks ensures c.status != Evidence.Fail {
      var i :| 0 <= i < |before.checks| && before.checks[i] == c;
      assert after.checks[i] in after.checks;
    }
  }

  // ---------------------------------------------------------------------
  // A verdict before and after an import
  // ---------------------------------------------------------------------

  /** All that a verification works from besides the trust store: the receipt, what its
      timestamp token attests, the options, the clock, and the checks an import leaves alone. */
  datatype Verification = Verification(
    receipt: SignedReceipt, attested: Option<Time>, checkSignatures: bool, trustReceiptTimestamp: bool,
    loose: set<string>, clock: Time, earlier: seq<Check>, later: seq<Check>, execution: Option<string>)

  /** The signature check passes over this store, with the key files `managed` in it. */
  predicate SignedBy(c: Crypto, s: Store, managed: map<string, string>, v: Verification) {
    v.checkSignatures
    && SignaturePasses(v.receipt, KeyTrustStatus(c, s, managed, v.loose, v.receipt.key), v.attested,
                       v.trustReceiptTimestamp)
  }

  function SignatureCheck(c: Crypto, s: Store, managed: map<string, string>, v: Verification): Check {
    Check("signature", if !v.checkSignatures then Evidence.Skipped
                       else if SignedBy(c, s, managed, v) then Evidence.Pass else Evidence.Fail)
  }

  /** What `verify` states over this store, whose directory lists the accepted bundles as `order`. */
  function FactsOf(c: Crypto, s: Store, managed: map<string, string>, order: seq<string>, v: Verification): Facts
    requires forall k <- order :: k in s.accepted
  {
    var signer := if SignedBy(c, s, managed, v) then Some(v.receipt.key) else None;
    Facts(v.earlier + [SignatureCheck(c, s, managed, v)] + v.later,
          Some(SignerState(c, Row(s.accepted, order), signer, v.clock)), v.execution)
  }

  /** The signer's key has an entry, no two key files hold it under its id, and `managed` and
      `managed'` are the key files before and after an accepted import. */
  ghost predicate Importable(c: Crypto, s: Store, b: TrustBundle, expected: Option<string>, now: Time,
                             managed: map<string, string>, managed': map<string, string>, key: string) {
    && Sensible(c) && Decide(c, s, b, expected, now).Accepted?
    && FindEntry(s.policy, c.keyId(key)).Some? && NoClash(c, s.files, c.keyId(key))
    && Scanned(c, s.files, managed) && Scanned(c, Imported(c, s, b, expected, now).files, managed')
  }

  lemma SignedBefore(c: Crypto, s: Store, b: TrustBundle, expected: Option<string>, now: Time,
                     managed: map<string, string>, managed': map<string, string>, v: Verification)
    requires Importable(c, s, b, expected, now, managed, managed', v.receipt.key)
    requires SignedBy(c, Imported(c, s, b, expected, now), managed', v)
    ensures SignedBy(c, s, managed, v)
  {
    hide KeyTrustStatus, SignaturePasses, Imported, Decide, Scanned, NoClash, FindEntry;
    TighteningNeverRescues(c, s, b, expected, now, managed, managed', v.loose, v.receipt, v.attested,
                           v.trustReceiptTimestamp);
  }

  lemma Unsigned(c: Crypto, s: Store, managed: map<string, string>, v: Verification)
    ensures !v.checkSignatures ==> !SignedBy(c, s, managed, v)
  {
  }

  lemma NothingFailed(f: Facts, required: seq<Requirement>, c: Check)
    requires Passes(f, required) && c in f.checks
    ensures c.status != Evidence.Fail
  {
  }

  lemma TrustIsMet(f: Facts, required: seq<Requirement>)
    requires Passes(f, required)
    ensures Trust in required ==> f.trustState == Some("current")
  {
    assert Trust in required ==> Met(f, Trust);
  }

  lemma UnsignedState(c: Crypto, bundles: seq<TrustBundle>, clock: Time)
    ensures SignerState(c, bundles, None, clock) == "none"
  {
  }

  /** A verdict that passes after an accepted import passed before it, unless trust material is
      required and was not current for the signer. The exception is looked up in the store as it
      stands before the import. */
  lemma PassedBeforeIff(c: Crypto, s: Store, b: TrustBundle, expected: Option<string>, now: Time,
                        managed: map<string, string>, managed': map<string, string>,
                        order: seq<string>, order': seq<string>, v: Verification, required: seq<Requirement>)
    requires Importable(c, s, b, expected, now, managed, managed', v.receipt.key)
    requires Lists(s.accepted, order) && Lists(Imported(c, s, b, expected, now).accepted, order')
    requires Passes(FactsOf(c, Imported(c, s, b, expected, now), managed', order', v), required)
    ensures Passes(FactsOf(c, s, managed, order, v), required) <==>
      (Trust in required ==> SignerState(c, Row(s.accepted, order), Some(v.receipt.key), v.clock) == "current")
  {
    hide SignedBy, Passes, Importable, SignerState, Imported, Row;
    var s' := Imported(c, s, b, expected, now);
    var before, after := FactsOf(c, s, managed, order, v), FactsOf(c, s', managed', order', v);
    assert after.checks[|v.earlier|] == SignatureCheck(c, s', managed', v);
    NothingFailed(after, required, SignatureCheck(c, s', managed', v));
    if v.checkSignatures {
      SignedBefore(c, s, b, expected, now, managed, managed', v);
    } else {
      Unsigned(c, s, managed, v);
      Unsigned(c, s', managed', v);
      UnsignedState(c, Row(s'.accepted, order'), v.clock);
      TrustIsMet(after, required);
    }
    WorseChecksNeverHelp(after, before, required);
  }

  /** Everything the policy asks for except current trust material. */
  predicate PassesBesides(f: Facts, required: seq<Requirement>) {
    (forall c <- f.checks :: c.status != Evidence.Fail) && forall r <- required :: r != Trust ==> Met(f, r)
  }

  lemma PassesApart(f: Facts, required: seq<Requirement>)
    ensures Passes(f, required) <==>
      PassesBesides(f, required) && (Trust in required ==> f.trustState == Some("current"))
  {
    forall r <- required ensures r == Trust ==> (Met(f, r) <==> f.trustState == Some("current")) {
    }
  }

  /** Whether the signature check will pass after an import, from the store before it. */
  predicate SignedOnceImported(c: Crypto, s: Store, b: TrustBundle, managed: map<string, string>, v: Verification) {
    v.checkSignatures
    && SignaturePasses(v.receipt, StatusOnceImported(c, s, b, managed, v.loose, v.receipt.key), v.attested,
                       v.trustReceiptTimestamp)
  }

  lemma SignedAfterImport(c: Crypto, s: Store, b: TrustBundle, expected: Option<string>, now: Time,
                          managed: map<string, string>, managed': map<string, string>, v: Verification)
    requires Importable(c, s, b, expected, now, managed, managed', v.receipt.key)
    ensures SignedBy(c, Imported(c, s, b, expected, now), managed', v) <==> SignedOnceImported(c, s, b, managed, v)
  {
    hide KeyTrustStatus, StatusOnceImported, SignaturePasses, Imported, Decide, Scanned, NoClash, FindEntry;
    StatusAfterImport(c, s, b, expected, now, managed, managed', v.loose, v.receipt.key);
  }

  lemma SignedChecked(c: Crypto, s: Store, managed: map<string, string>, v: Verification)
    requires SignedBy(c, s, managed, v)
    ensures SignatureCheck(c, s, managed, v) == Check("signature", Evidence.Pass)
  {
  }

  lemma SameBesides(f: Facts, g: Facts, required: seq<Requirement>)
    requires f.checks == g.checks && f.execution == g.execution
    ensures PassesBesides(f, required) <==> PassesBesides(g, required)
  {
    forall r ensures r != Trust ==> (Met(f, r) <==> Met(g, r)) {
    }
  }

  /** Which imports rescue a verdict, told from the store before the import and the bundle: those
      that make the signer's material current, where it was not, under a policy that asks for
      it and is otherwise met, and that leave the signature standing. */
  lemma ImportRescuesIff(c: Crypto, s: Store, b: TrustBundle, expected: Option<string>, now: Time,
                         managed: map<string, string>, managed': map<string, string>, order: seq<string>,
                         front: seq<string>, back: seq<string>, v: Verification, required: seq<Requirement>)
    requires Importable(c, s, b, expected, now, managed, managed', v.receipt.key)
    requires Lists(s.accepted, order)
    requires Lists(Imported(c, s, b, expected, now).accepted, front + [b.issuer.keyId] + back)
    ensures (forall k <- front :: k in s.accepted) && (forall k <- back :: k in s.accepted)
    ensures
      var before := FactsOf(c, s, managed, order, v);
      var after := FactsOf(c, Imported(c, s, b, expected, now), managed', front + [b.issuer.keyId] + back, v);
      var id := DerivedId(c, v.receipt.key);
      !Passes(before, required) && Passes(after, required) <==>
        && Trust in required && PassesBesides(before, required) && SignedOnceImported(c, s, b, managed, v)
        && id.Some? && StateOf(Row(s.accepted, order), id.value, v.clock) != "current"
        && CurrentOnceImported(s.accepted, b, front, back, id.value, v.clock)
  {
    var s', order' := Imported(c, s, b, expected, now), front + [b.issuer.keyId] + back;
    var id := DerivedId(c, v.receipt.key);
    var before, after := FactsOf(c, s, managed, order, v), FactsOf(c, s', managed', order', v);
    CurrentAfterImport(c, s, b, expected, now, front, back, if id.Some? then id.value else "", v.clock);
    hide SignedBy, Passes, PassesBesides, Imported, Row, StateOf, CurrentOnceImported, Decide, Scanned, NoClash,
         SignedOnceImported;
    SignedAfterImport(c, s, b, expected, now, managed, managed', v);
    PassesApart(after, required);
    if SignedBy(c, s', managed', v) {
      SignedBefore(c, s, b, expected, now, managed, managed', v);
      SignedChecked(c, s', managed', v);
      SameBesides(before, after, required);
    }
    if Passes(after, required) {
      PassedBeforeIff(c, s, b, expected, now, managed, managed', order, order', v, required);
    }
  }
}
