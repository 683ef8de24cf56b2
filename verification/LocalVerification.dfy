// verifyCredential of the toolkit, run against a known public key, beside the
// gateway's status check: the two part ways only at the instant of expiry.
module LocalVerification {
  import opened Wrappers
  import opened Base64
  import opened JsonText
  import opened TsCanonical
  import opened World
  import opened DidRegistry
  import opened Credentials
  import opened Holder
  import opened Issuance

  // withoutProof
  function WithoutProofMember(members: seq<Member>): seq<Member> {
    if |members| == 0 then []
    else (if members[0].key == "proof" then [] else [members[0]]) + WithoutProofMember(members[1..])
  }

  function TextProperty(members: seq<Member>, key: string): string {
    if key in Keys(members) && Property(members, key).Text? then Property(members, key).s else ""
  }

  // What JavaScript takes for true; both zeros of float64 are false.
  predicate Truthy(w: World, d: Doc) {
    match d
    case Null => false
    case Bool(b) => b
    case Number(lit) => w.nums.read(lit) != Some(0) && w.nums.read(lit) != Some(0x8000_0000_0000_0000)
    case Text(s) => s != ""
    case _ => true
  }

  predicate Has(w: World, members: seq<Member>, key: string) {
    key in Keys(members) && Truthy(w, Property(members, key))
  }

  // The signature in the proof, if there is one that decodes.
  function SignatureIn(members: seq<Member>): Option<Bytes> {
    if "proof" !in Keys(members) || !Property(members, "proof").Object? then
      None
    else
      var proof := Property(members, "proof").members;
      if "proofValue" !in Keys(proof) || !Property(proof, "proofValue").Text? then None
      else DecodeStd(Property(proof, "proofValue").s)
  }

  // The reason verifyCredential gives; "" for valid. Date comparisons are in
  // whole milliseconds, and a date that does not parse compares false.
  function VerifyCredential(w: World, members: seq<Member>, issuerPublicKey: Bytes, now: Instant): string {
    var expirationDate := TextProperty(members, "expirationDate");
    if expirationDate != "" && w.parseTime(expirationDate).Some?
       && w.parseTime(expirationDate).value < TruncateTo(MILLISECOND, now) then
      "Credential has expired"
    else if !Has(w, members, "id") || !Has(w, members, "issuer") || !Has(w, members, "credentialSubject") then
      "Missing required credential fields"
    else
      var message := Canonicalize(Object(WithoutProofMember(members)));
      var signature := SignatureIn(members);
      if signature.Some? && w.verify(issuerPublicKey, message, signature.value) then ""
      else "Invalid cryptographic proof"
  }

  lemma {:induction false} PropertyAt(ms: seq<Member>, n: nat)
    requires Distinct(Keys(ms)) && n < |ms|
    ensures ms[n].key in Keys(ms) && Property(ms, ms[n].key) == ms[n].value
  {
    if n > 0 {
      PropertyAt(ms[1..], n - 1);
    }
  }

  lemma {:induction false} NothingToDrop(ms: seq<Member>)
    requires forall i | 0 <= i < |ms| :: ms[i].key != "proof"
    ensures WithoutProofMember(ms) == ms
  {
    if |ms| > 0 {
      NothingToDrop(ms[1..]);
      assert ms == [ms[0]] + ms[1..];
    }
  }

  lemma {:induction false} DropLast(ms: seq<Member>, p: Member)
    requires p.key == "proof"
    ensures WithoutProofMember(ms + [p]) == WithoutProofMember(ms)
  {
    if |ms| == 0 {
      assert ms + [p] == [p] && [p][1..] == [];
    } else {
      assert (ms + [p])[1..] == ms[1..] + [p];
      DropLast(ms[1..], p);
    }
  }

  // ---- When verifyCredential says valid, on any credential ----

  // The members the signature covers are all but the proof.
  lemma {:induction false} CoveredMembers(members: seq<Member>)
    ensures forall m :: m in WithoutProofMember(members) <==> m in members && m.key != "proof"
  {
    if |members| > 0 {
      CoveredMembers(members[1..]);
      assert members == [members[0]] + members[1..];
    }
  }

  // The proof holds a signature, under the key, of all other members.
  ghost predicate CarriesSignature(w: World, members: seq<Member>, key: Bytes) {
    exists proof: seq<Member>, proofValue: string, sig: Bytes ::
      && "proof" in Keys(members) && Property(members, "proof") == Object(proof)
      && "proofValue" in Keys(proof) && Property(proof, "proofValue") == Text(proofValue)
      && DecodeStd(proofValue) == Some(sig)
      && w.verify(key, Canonicalize(Object(WithoutProofMember(members))), sig)
  }

  // No expiry, or one not before this millisecond, or one that is no date.
  predicate NotExpired(w: World, members: seq<Member>, now: Instant) {
    var expiry := TextProperty(members, "expirationDate");
    expiry == "" || w.parseTime(expiry).None? || now - now % MILLISECOND <= w.parseTime(expiry).value
  }

  // On any members, key and time: valid exactly when there is a signature over
  // the rest of the credential, an id, an issuer and a subject, and no expiry past.
  lemma VerifiedIff(w: World, members: seq<Member>, key: Bytes, now: Instant)
    ensures VerifyCredential(w, members, key, now) == ""
       <==> CarriesSignature(w, members, key) && NotExpired(w, members, now)
            && Has(w, members, "id") && Has(w, members, "issuer") && Has(w, members, "credentialSubject")
  {
    if VerifyCredential(w, members, key, now) == "" {
      var proof := Property(members, "proof").members;
      var sig := SignatureIn(members).value;
      assert Property(members, "proof") == Object(proof);
      assert DecodeStd(Property(proof, "proofValue").s) == Some(sig);
    }
  }

  // ---- What the toolkit finds in a credential it issued ----

  lemma {:induction false} KeysAreMemberKeys(ms: seq<Member>)
    ensures forall i | 0 <= i < |ms| :: Keys(ms)[i] == ms[i].key
  {
    if |ms| > 0 {
      KeysAreMemberKeys(ms[1..]);
    }
  }

  lemma DistinctMembers(ms: seq<Member>)
    requires forall i, j | 0 <= i < j < |ms| :: ms[i].key != ms[j].key
    ensures Distinct(Keys(ms))
  {
    KeysAreMemberKeys(ms);
    DistinctByIndex(Keys(ms));
  }

  lemma TextAt(ms: seq<Member>, n: nat)
    requires Distinct(Keys(ms)) && n < |ms| && ms[n].value.Text?
    ensures TextProperty(ms, ms[n].key) == ms[n].value.s
  {
    PropertyAt(ms, n);
  }

  lemma NoText(ms: seq<Member>, key: string)
    requires forall i | 0 <= i < |ms| :: ms[i].key != key
    ensures TextProperty(ms, key) == ""
  {
    KeysAreMemberKeys(ms);
  }

  // The members of an issued credential, by position.
  predicate Shaped(u: seq<Member>, dated: bool, id: string, issuer: string, expiry: string) {
    |u| == (if dated then 7 else 6)
    && u[0].key == "@context" && u[1] == Member("id", Text(id)) && u[2].key == "type"
    && u[3] == Member("issuer", Text(issuer)) && u[4].key == "issuanceDate"
    && (dated ==> u[5] == Member("expirationDate", Text(expiry)))
    && u[|u| - 1].key == "credentialSubject" && u[|u| - 1].value.Object?
  }

  lemma ShapedKeys(u: seq<Member>, proof: Doc, dated: bool, id: string, issuer: string, expiry: string)
    requires Shaped(u, dated, id, issuer, expiry)
    ensures Distinct(Keys(u + [Member("proof", proof)]))
    ensures WithoutProofMember(u + [Member("proof", proof)]) == u
    ensures !dated ==> TextProperty(u + [Member("proof", proof)], "expirationDate") == ""
  {
    DistinctMembers(u + [Member("proof", proof)]);
    NothingToDrop(u);
    DropLast(u, Member("proof", proof));
    if !dated {
      NoText(u + [Member("proof", proof)], "expirationDate");
    }
  }

  // What verifyCredential looks up in such members.
  lemma ShapedProperties(u: seq<Member>, proof: Doc, dated: bool, id: string, issuer: string, expiry: string)
    requires Shaped(u, dated, id, issuer, expiry)
    ensures var ms := u + [Member("proof", proof)];
            && TextProperty(ms, "id") == id && TextProperty(ms, "issuer") == issuer
            && TextProperty(ms, "expirationDate") == (if dated then expiry else "")
            && "id" in Keys(ms) && Property(ms, "id") == Text(id)
            && "issuer" in Keys(ms) && Property(ms, "issuer") == Text(issuer)
            && "credentialSubject" in Keys(ms) && Property(ms, "credentialSubject").Object?
            && "proof" in Keys(ms) && Property(ms, "proof") == proof
  {
    var ms := u + [Member("proof", proof)];
    ShapedKeys(u, proof, dated, id, issuer, expiry);
    TextAt(ms, 1);
    TextAt(ms, 3);
    PropertyAt(ms, 1);
    PropertyAt(ms, 3);
    PropertyAt(ms, |ms| - 2);
    PropertyAt(ms, |ms| - 1);
    if dated {
      TextAt(ms, 5);
    }
  }

  // verifyCredential on such members: the clock and the signature decide.
  lemma VerifyShaped(w: World, u: seq<Member>, proof: Doc, dated: bool, id: string, issuer: string, expiry: string,
                     key: Bytes, now: Instant)
    requires Shaped(u, dated, id, issuer, expiry) && id != "" && issuer != "" && expiry != ""
    requires SignatureIn([Member("proof", proof)]).Some?
    requires w.verify(key, Canonicalize(Object(u)), SignatureIn([Member("proof", proof)]).value)
    ensures VerifyCredential(w, u + [Member("proof", proof)], key, now) == ""
       <==> !(dated && w.parseTime(expiry).Some? && w.parseTime(expiry).value < TruncateTo(MILLISECOND, now))
  {
    var ms := u + [Member("proof", proof)];
    ShapedKeys(u, proof, dated, id, issuer, expiry);
    ShapedProperties(u, proof, dated, id, issuer, expiry);
    LoneProof(proof);
    assert SignatureIn(ms) == SignatureIn([Member("proof", proof)]);
    ByParts(w, ms, u, key, now, SignatureIn(ms).value);
  }

  lemma ByParts(w: World, ms: seq<Member>, u: seq<Member>, key: Bytes, now: Instant, sig: Bytes)
    requires WithoutProofMember(ms) == u && SignatureIn(ms) == Some(sig) && w.verify(key, Canonicalize(Object(u)), sig)
    requires Has(w, ms, "id") && Has(w, ms, "issuer") && Has(w, ms, "credentialSubject")
    ensures VerifyCredential(w, ms, key, now) == ""
       <==> !(TextProperty(ms, "expirationDate") != "" && w.parseTime(TextProperty(ms, "expirationDate")).Some?
              && w.parseTime(TextProperty(ms, "expirationDate")).value < TruncateTo(MILLISECOND, now))
  {
  }

  lemma LoneProof(proof: Doc)
    ensures "proof" in Keys([Member("proof", proof)]) && Property([Member("proof", proof)], "proof") == proof
  {
    DistinctMembers([Member("proof", proof)]);
    PropertyAt([Member("proof", proof)], 0);
  }

  lemma ProofValueProperty(a: string, b: string, c: string, d: string, e: string)
    ensures "proofValue" in Keys(ProofMembers(a, b, c, d, e))
    ensures Property(ProofMembers(a, b, c, d, e), "proofValue") == Text(e)
  {
    var ms := ProofMembers(a, b, c, d, e);
    DistinctMembers(ms);
    PropertyAt(ms, 4);
  }

  lemma UnsignedIsShaped(w: World, i: Issue)
    ensures Shaped(Unsigned(w, i), i.expiresInDays != 0.0, i.id, i.issuer.did, w.isoTime(Expiry(i)))
  {
  }

  lemma ProofDecodes(w: World, i: Issue)
    requires w.HonestSignatures()
    ensures var message := Canonicalize(Object(Unsigned(w, i)));
            var signature := SignatureIn([Member("proof", ProofOf(w, i))]);
            signature.Some? && w.verify(w.publicKey(i.issuer.privateKey), message, signature.value)
  {
    var message := Canonicalize(Object(Unsigned(w, i)));
    ProofValueProperty("Ed25519Signature2020", w.isoTime(i.signedAt), i.issuer.did + "#keys-1", "assertionMethod",
                       SignMessage(w, message, i.issuer.privateKey));
    SignatureDecodes(w, message, i.issuer.privateKey);
    LoneProof(ProofOf(w, i));
  }

  // The toolkit accepts what it issued up to and including the expiry instant.
  lemma LocallyValidIff(w: World, i: Issue, now: Instant)
    requires w.HonestSignatures() && w.ClockText() && Named(i)
    ensures VerifyCredential(w, Credential(w, i).members, w.publicKey(i.issuer.privateKey), now) == ""
       <==> i.expiresInDays == 0.0 || TruncateTo(MILLISECOND, now) <= Expiry(i)
  {
    var expiry := w.isoTime(Expiry(i));
    ExpiryIsWhole(i);
    assert w.parseTime(expiry) == Some(Expiry(i)) && expiry != "";
    UnsignedIsShaped(w, i);
    ProofDecodes(w, i);
    VerifyShaped(w, Unsigned(w, i), ProofOf(w, i), i.expiresInDays != 0.0, i.id, i.issuer.did, expiry,
                 w.publicKey(i.issuer.privateKey), now);
  }

  // The gateway stops accepting an unrevoked record of it one instant earlier.
  lemma GatewayGoodIff(w: World, i: Issue, r: Record, now: Instant)
    requires w.ClockText() && Named(i) && r.revokedAt == ""
    requires Carries(w, i, r.credential) && r.expirationDate == ExpirationDate(r.credential)
    ensures CredentialStatus(w, r, now) == "" <==> i.expiresInDays == 0.0 || now < Expiry(i)
  {
    PayloadParts(w, i, r.credential);
    ExpiryIsWhole(i);
    assert w.parseTime(w.isoTime(Expiry(i))) == Some(Expiry(i));
  }

  // ---- The two verdicts side by side ----

  // The gateway holds an unrevoked record of the credential, and its issuer is
  // active with the key that signed.
  ghost predicate StoredAndActive(w: World, i: Issue, dids: Dids, records: Records, issuedNow: Instant)
    requires ClaimsAreJson(w.nums, i.claims) && w.nums.Lawful()
  {
    && PayloadError(w, Submitted(w, i)) == "" && i.id in records
    && records[i.id] == RecordOf(w, Submitted(w, i), issuedNow)
    && InStep(w, dids, i.issuer) && !dids[i.issuer.did].deactivated
  }

  lemma GatewayValidIff(w: World, i: Issue, dids: Dids, records: Records, issuedNow: Instant, now: Instant)
    requires ClaimsAreJson(w.nums, i.claims) && w.Lawful() && InSharedDomain(w, i) && Named(i)
    requires StoredAndActive(w, i, dids, records, issuedNow)
    ensures Credentials.VerifyCredential(w, dids, records, i.id, now).valid
       <==> i.expiresInDays == 0.0 || now < Expiry(i)
  {
    var r := records[i.id];
    RecordNames(w, i, issuedNow);
    ProofVerifies(w, i, dids, r);
    SubmittedCarries(w, i);
    GatewayGoodIff(w, i, r, now);
    ValidIsGoodStatus(w, dids, records, i.id, now);
  }

  lemma ValidIsGoodStatus(w: World, dids: Dids, records: Records, id: string, now: Instant)
    requires id in records && ProofVerdict(w, dids, records[id]) == ""
    ensures Credentials.VerifyCredential(w, dids, records, id, now).valid
       <==> CredentialStatus(w, records[id], now) == ""
  {
  }

  // Before the expiry both accept, after its millisecond neither does.
  lemma ExpiryMillisecond(now: Instant, expiry: Instant)
    requires TruncateTo(MILLISECOND, expiry) == expiry
    ensures (now < expiry) != (TruncateTo(MILLISECOND, now) <= expiry) <==> TruncateTo(MILLISECOND, now) == expiry
  {
    assert now == TruncateTo(MILLISECOND, now) + now % MILLISECOND;
    assert TruncateTo(MILLISECOND, now) % MILLISECOND == 0 && expiry % MILLISECOND == 0;
  }

  lemma SidesDifferIff(gateway: bool, toolkit: bool, dated: bool, now: Instant, expiry: Instant)
    requires TruncateTo(MILLISECOND, expiry) == expiry
    requires gateway <==> !dated || now < expiry
    requires toolkit <==> !dated || TruncateTo(MILLISECOND, now) <= expiry
    ensures gateway != toolkit <==> dated && TruncateTo(MILLISECOND, now) == expiry
    ensures gateway ==> toolkit
  {
    ExpiryMillisecond(now, expiry);
  }

  // On one credential the gateway and the toolkit differ exactly within the
  // millisecond of its expiry, and then it is the toolkit that still accepts.
  lemma VerdictsDifferIff(w: World, i: Issue, dids: Dids, records: Records, issuedNow: Instant, now: Instant)
    requires ClaimsAreJson(w.nums, i.claims) && w.Lawful() && InSharedDomain(w, i) && Named(i)
    requires StoredAndActive(w, i, dids, records, issuedNow)
    ensures var gateway := Credentials.VerifyCredential(w, dids, records, i.id, now).valid;
            var toolkit := VerifyCredential(w, Credential(w, i).members, w.publicKey(i.issuer.privateKey), now) == "";
            && (gateway != toolkit <==> i.expiresInDays != 0.0 && TruncateTo(MILLISECOND, now) == Expiry(i))
            && (gateway ==> toolkit)
  {
    var gateway := Credentials.VerifyCredential(w, dids, records, i.id, now).valid;
    var toolkit := VerifyCredential(w, Credential(w, i).members, w.publicKey(i.issuer.privateKey), now) == "";
    GatewayValidIff(w, i, dids, records, issuedNow, now);
    LocallyValidIff(w, i, now);
    ExpiryIsWhole(i);
    SidesDifferIff(gateway, toolkit, i.expiresInDays != 0.0, now, Expiry(i));
  }
}
