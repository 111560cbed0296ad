/** `trust_material` (`verify.rs`): how current the accepted bundle behind a signer is. */
module TrustMaterial {
  import opened Outcome
  import opened TrustModel
  import opened TrustImport

  predicate Vouches(b: TrustBundle, id: string) { exists k <- b.keys :: k.id == id }

  /** The newest of the bundles that list the key; of several equally new, the last. */
  function Latest(bundles: seq<TrustBundle>, id: string): Option<TrustBundle> {
    if bundles == [] then None
    else
      var n := |bundles| - 1;
      var latest := Latest(bundles[..n], id);
      if Vouches(bundles[n], id) && (latest.None? || latest.value.sequence <= bundles[n].sequence)
      then Some(bundles[n]) else latest
  }

  /** Nothing that vouches for the key is newer than the latest. */
  lemma {:induction false} LatestIsNewest(bundles: seq<TrustBundle>, id: string)
    ensures Latest(bundles, id).None? <==> forall b <- bundles :: !Vouches(b, id)
    ensures Latest(bundles, id).Some? ==>
      var latest := Latest(bundles, id).value;
      && latest in bundles && Vouches(latest, id)
      && forall b <- bundles :: Vouches(b, id) ==> b.sequence <= latest.sequence
    decreases |bundles|
  {
    if bundles != [] {
      hide Vouches;
      var n := |bundles| - 1;
      assert bundles == bundles[..n] + [bundles[n]];
      LatestIsNewest(bundles[..n], id);
    }
  }

  /** `b`, read between `front` and `back`, is the latest. */
  predicate Prevails(front: seq<TrustBundle>, b: TrustBundle, back: seq<TrustBundle>, id: string) {
    && Vouches(b, id)
    && (forall x <- front :: Vouches(x, id) ==> x.sequence <= b.sequence)
    && (forall x <- back :: Vouches(x, id) ==> x.sequence < b.sequence)
  }

  lemma LatestSnoc(bundles: seq<TrustBundle>, b: TrustBundle, id: string)
    ensures
      var latest := Latest(bundles, id);
      Latest(bundles + [b], id)
        == if Vouches(b, id) && (latest.None? || latest.value.sequence <= b.sequence) then Some(b) else latest
  {
    assert (bundles + [b])[..|bundles|] == bundles;
  }

  /** One bundle among others: it is the latest exactly when it prevails, and otherwise it
      might as well not be there. */
  lemma {:induction false} LatestInsert(front: seq<TrustBundle>, b: TrustBundle, back: seq<TrustBundle>, id: string)
    ensures Latest(front + [b] + back, id) == if Prevails(front, b, back, id) then Some(b) else Latest(front + back, id)
    decreases |back|
  {
    hide Vouches, Latest;
    if back == [] {
      assert front + [b] + back == front + [b] && front + back == front;
      LatestSnoc(front, b, id);
      LatestIsNewest(front, id);
    } else {
      var n := |back| - 1;
      var x := back[n];
      assert back == back[..n] + [x];
      assert front + [b] + back == (front + [b] + back[..n]) + [x] && front + back == (front + back[..n]) + [x];
      LatestInsert(front, b, back[..n], id);
      LatestSnoc(front + [b] + back[..n], x, id);
      LatestSnoc(front + back[..n], x, id);
      LatestIsNewest(front + back[..n], id);
    }
  }

  // ---------------------------------------------------------------------
  // The state a verdict reports
  // ---------------------------------------------------------------------

  function WindowState(b: TrustBundle, now: Time): string {
    if now > b.validUntil then "expired" else if now < b.issuedAt then "not-yet-valid" else "current"
  }

  function StateOf(bundles: seq<TrustBundle>, id: string, now: Time): string {
    var latest := Latest(bundles, id);
    if latest.None? then "none" else WindowState(latest.value, now)
  }

  /** Time only takes material from not yet valid through current to expired. */
  lemma ExpiredForever(bundles: seq<TrustBundle>, id: string, now: Time, later: Time)
    requires now <= later
    ensures StateOf(bundles, id, now) == "expired" ==> StateOf(bundles, id, later) == "expired"
    ensures StateOf(bundles, id, later) == "not-yet-valid" ==> StateOf(bundles, id, now) == "not-yet-valid"
    ensures StateOf(bundles, id, now) == "none" <==> forall b <- bundles :: !Vouches(b, id)
  {
    hide Latest, Vouches;
    LatestIsNewest(bundles, id);
  }

  /** The state for whoever signed, if the signature passed. */
  function SignerState(c: Crypto, bundles: seq<TrustBundle>, signer: Option<string>, now: Time): string {
    if signer.None? || DerivedId(c, signer.value).None? then "none"
    else StateOf(bundles, DerivedId(c, signer.value).value, now)
  }

  /** `trust_material`: filters the accepted bundles and keeps the newest. */
  method TrustMaterialState(c: Crypto, bundles: seq<TrustBundle>, signer: Option<string>, now: Time)
    returns (state: string)
    ensures state == SignerState(c, bundles, signer, now)
  {
    if signer.None? { return "none"; }
    var id := DerivedId(c, signer.value);
    if id.None? { return "none"; }
    var latest: Option<TrustBundle> := None;
    for i := 0 to |bundles|
      invariant latest == Latest(bundles[..i], id.value)
    {
      assert bundles[..i + 1][..i] == bundles[..i];
      if exists k <- bundles[i].keys :: k.id == id.value {
        if latest.None? || latest.value.sequence <= bundles[i].sequence { latest := Some(bundles[i]); }
      }
    }
    assert bundles[..|bundles|] == bundles;
    if latest.None? { return "none"; }
    var expired := now > latest.value.validUntil;
    var notYet := now < latest.value.issuedAt;
    return if expired then "expired" else if notYet then "not-yet-valid" else "current";
  }

  /** A directory order of the bundles on record. */
  ghost predicate Lists(accepted: map<string, TrustBundle>, order: seq<string>) {
    && (forall i, j :: 0 <= i < j < |order| ==> order[i] != order[j])
    && (forall k :: k in order <==> k in accepted)
  }

  function Row(accepted: map<string, TrustBundle>, order: seq<string>): (bundles: seq<TrustBundle>)
    requires forall k <- order :: k in accepted
    ensures |bundles| == |order|
  {
    seq(|order|, i requires 0 <= i < |order| => assert order[i] in order; accepted[order[i]])
  }

  lemma RowSplit(accepted: map<string, TrustBundle>, front: seq<string>, back: seq<string>)
    requires (forall k <- front :: k in accepted) && (forall k <- back :: k in accepted)
    ensures forall k <- front + back :: k in accepted
    ensures Row(accepted, front + back) == Row(accepted, front) + Row(accepted, back)
  {
  }

  lemma RowElsewhere(accepted: map<string, TrustBundle>, issuer: string, b: TrustBundle, order: seq<string>)
    requires (forall k <- order :: k in accepted) && issuer !in order
    ensures forall k <- order :: k in accepted[issuer := b]
    ensures Row(accepted[issuer := b], order) == Row(accepted, order)
  {
    var after := accepted[issuer := b];
    forall i | 0 <= i < |order| ensures Row(after, order)[i] == Row(accepted, order)[i] { assert order[i] in order; }
  }

  lemma AroundIssuer(accepted: map<string, TrustBundle>, b: TrustBundle, front: seq<string>, back: seq<string>)
    requires Lists(accepted[b.issuer.keyId := b], front + [b.issuer.keyId] + back)
    ensures forall k :: k in front + back <==> k in accepted && k != b.issuer.keyId
    ensures b.issuer.keyId !in front && b.issuer.keyId !in back
    ensures (forall k <- front :: k in accepted) && (forall k <- back :: k in accepted)
  {
    var issuer, order := b.issuer.keyId, front + [b.issuer.keyId] + back;
    forall i | 0 <= i < |front| ensures front[i] != issuer { assert order[i] != order[|front|]; }
    forall i | 0 <= i < |back| ensures back[i] != issuer { assert order[|front|] != order[|front| + 1 + i]; }
    assert forall k :: k in order <==> k in front || k == issuer || k in back;
  }

  /** What an import of `b` makes of the material of a key, from the bundles on record before it:
      the window of `b` decides when it is the newest that lists the key, and otherwise the
      newest of the other issuers. */
  predicate CurrentOnceImported(accepted: map<string, TrustBundle>, b: TrustBundle, front: seq<string>,
                                back: seq<string>, id: string, clock: Time)
    requires (forall k <- front :: k in accepted) && (forall k <- back :: k in accepted)
  {
    if Prevails(Row(accepted, front), b, Row(accepted, back), id) then InWindow(b, clock)
    else StateOf(Row(accepted, front) + Row(accepted, back), id, clock) == "current"
  }

  /** When an accepted import leaves the material of a key current. Between equally new bundles
      of different issuers the directory order decides. */
  lemma CurrentAfterImport(c: Crypto, s: Store, b: TrustBundle, expected: Option<string>, now: Time,
                           front: seq<string>, back: seq<string>, id: string, clock: Time)
    requires Decide(c, s, b, expected, now).Accepted?
    requires Lists(Imported(c, s, b, expected, now).accepted, front + [b.issuer.keyId] + back)
    ensures forall k :: k in front + back <==> k in s.accepted && k != b.issuer.keyId
    ensures (forall k <- front :: k in s.accepted) && (forall k <- back :: k in s.accepted)
    ensures
      var after := Row(Imported(c, s, b, expected, now).accepted, front + [b.issuer.keyId] + back);
      StateOf(after, id, clock) == "current" <==> CurrentOnceImported(s.accepted, b, front, back, id, clock)
  {
    hide Latest, Prevails, Decide;
    var issuer, after := b.issuer.keyId, Imported(c, s, b, expected, now).accepted;
    assert after == s.accepted[issuer := b];
    AroundIssuer(s.accepted, b, front, back);
    RowElsewhere(s.accepted, issuer, b, front);
    RowElsewhere(s.accepted, issuer, b, back);
    RowSplit(s.accepted, front, back);
    assert Row(after, [issuer]) == [b];
    RowSplit(after, front, [issuer]);
    RowSplit(after, front + [issuer], back);
    LatestInsert(Row(s.accepted, front), b, Row(s.accepted, back), id);
  }
}
