// End to end: a credential the toolkit issues is accepted by the gateway and
// keeps verifying there.
module Issuance {
  import opened Wrappers
  import opened Base64
  import opened Utf
  import opened JsonText
  import opened JsonValue
  import opened Canonical
  import opened TsCanonical
  import opened TextAgreement
  import opened World
  import opened DidRegistry
  import opened Credentials
  import opened Holder
  import Gateway
  import CredentialRuns

  const DAY_MILLIS: real := 86_400_000.0

  const VC_CONTEXT :=
    Array([Text("https://www.w3.org/2018/credentials/v1"), Text("https://uddi.network/credentials/v1")])

  // What a caller of issueCredential passes, the id generateCredentialId
  // yields, and the clock readings in the order they are taken.
  datatype Issue = Issue(
    issuer: Identity, subjectDid: string, credentialType: string, claims: seq<Member>, expiresInDays: real,
    id: string, issuedAt: Instant, expiryRead: Instant, signedAt: Instant)

  // ---- issueCredential ----

  function Subject(i: Issue): Doc {
    Object([Member("id", Text(i.subjectDid))] + i.claims)
  }

  // The Date constructor cuts fractions of a millisecond off, toward zero.
  function CutToMillis(x: real): int {
    if x >= 0.0 then x.Floor else -(-x).Floor
  }

  // Any number of days, fractions included; zero counts as none.
  function Expiry(i: Issue): Instant {
    CutToMillis((i.expiryRead / MILLISECOND) as real + i.expiresInDays * DAY_MILLIS) * MILLISECOND
  }

  // For a whole number of days, that many times 86400 seconds after the
  // millisecond of the clock reading; else cut to a millisecond.
  lemma ExpiryIs(i: Issue, days: int)
    requires i.expiryRead >= 0
    ensures i.expiresInDays == days as real && days >= 0 ==>
              Expiry(i) == i.expiryRead - i.expiryRead % MILLISECOND + days * (86_400 * SECOND)
    ensures i.expiresInDays >= 0.0 ==>
              var exact := (i.expiryRead / MILLISECOND) as real + i.expiresInDays * DAY_MILLIS;
              var cut := Expiry(i) / MILLISECOND;
              Expiry(i) % MILLISECOND == 0 && cut as real <= exact < (cut + 1) as real
  {
    var ms := i.expiryRead / MILLISECOND;
    if i.expiresInDays == days as real && days >= 0 {
      assert i.expiresInDays * DAY_MILLIS == (days * 86_400_000) as real;
      assert ms as real + i.expiresInDays * DAY_MILLIS == (ms + days * 86_400_000) as real;
    }
  }

  lemma ExpiryIsWhole(i: Issue)
    ensures TruncateTo(MILLISECOND, Expiry(i)) == Expiry(i)
  {
  }

  function ExpiryMembers(w: World, i: Issue): seq<Member> {
    if i.expiresInDays != 0.0 then
      [Member("expirationDate", Text(w.isoTime(Expiry(i))))]
    else
      []
  }

  function Unsigned(w: World, i: Issue): seq<Member> {
    [Member("@context", VC_CONTEXT), Member("id", Text(i.id)),
     Member("type", Array([Text("VerifiableCredential"), Text(i.credentialType)])),
     Member("issuer", Text(i.issuer.did)), Member("issuanceDate", Text(w.isoTime(i.issuedAt)))]
    + ExpiryMembers(w, i)
    + [Member("credentialSubject", Subject(i))]
  }

  function ProofMembers(a: string, b: string, c: string, d: string, e: string): seq<Member> {
    [Member("type", Text(a)), Member("created", Text(b)), Member("verificationMethod", Text(c)),
     Member("proofPurpose", Text(d)), Member("proofValue", Text(e))]
  }

  // createCredentialProof: the signature covers the canonical text.
  function ProofOf(w: World, i: Issue): Doc {
    var message := Canonicalize(Object(Unsigned(w, i)));
    Object(ProofMembers("Ed25519Signature2020", w.isoTime(i.signedAt), i.issuer.did + "#keys-1", "assertionMethod",
                       SignMessage(w, message, i.issuer.privateKey)))
  }

  function Credential(w: World, i: Issue): Doc {
    Object(Unsigned(w, i) + [Member("proof", ProofOf(w, i))])
  }

  // ---- The caller's side ----

  // Claims are JSON properties with distinct names, none of them "id".
  predicate ClaimsAreJson(nums: Numbers, claims: seq<Member>) {
    Distinct(Keys(claims)) && "id" !in Keys(claims) && AreJsMembers(nums, claims)
  }

  // ---- Values of the documents ----

  lemma {:induction false} MemberValuesSnoc(nums: Numbers, ms: seq<Member>, m: Member)
    requires MemberValues(nums, ms).Some? && ToValue(nums, m.value).Some?
    ensures MemberValues(nums, ms + [m]) == Some(MemberValues(nums, ms).value[m.key := ToValue(nums, m.value).value])
    decreases |ms|
  {
    var v := ToValue(nums, m.value).value;
    if |ms| == 0 {
      assert ms + [m] == [m];
      assert [m][1..] == [];
    } else {
      assert (ms + [m])[1..] == ms[1..] + [m];
      MemberValuesSnoc(nums, ms[1..], m);
      var k, u, rest := ms[0].key, ToValue(nums, ms[0].value).value, MemberValues(nums, ms[1..]).value;
      if k != m.key {
        assert rest[k := u][m.key := v] == rest[m.key := v][k := u];
      } else {
        assert rest[k := u][m.key := v] == rest[m.key := v];
      }
    }
  }

  ghost function SubjectFields(w: World, i: Issue): map<string, Json>
    requires ClaimsAreJson(w.nums, i.claims) && w.nums.Lawful()
  {
    MembersHaveValues(w.nums, i.claims);
    MemberValues(w.nums, i.claims).value["id" := JString(i.subjectDid)]
  }

  lemma SubjectValue(w: World, i: Issue)
    requires ClaimsAreJson(w.nums, i.claims) && w.nums.Lawful()
    ensures ToValue(w.nums, Subject(i)) == Some(JObject(SubjectFields(w, i)))
    ensures IsJsValue(w.nums, Subject(i))
  {
    MembersHaveValues(w.nums, i.claims);
    var ms := [Member("id", Text(i.subjectDid))] + i.claims;
    assert ms[1..] == i.claims;
    assert Keys(ms) == ["id"] + Keys(i.claims);
    assert Keys(ms)[1..] == Keys(i.claims);
    assert ToValue(w.nums, ms[0].value) == Some(JString(i.subjectDid));
    assert MemberValues(w.nums, ms) == Some(SubjectFields(w, i));
  }

  // The gateway's view of the unsigned credential.
  ghost function UnsignedFields(w: World, i: Issue): map<string, Json>
    requires ClaimsAreJson(w.nums, i.claims) && w.nums.Lawful()
  {
    var dated := if i.expiresInDays != 0.0 then
                   Base(w, i)["expirationDate" := JString(w.isoTime(Expiry(i)))]
                 else Base(w, i);
    dated["credentialSubject" := JObject(SubjectFields(w, i))]
  }

  lemma PairValue(nums: Numbers, a: string, b: string)
    ensures ToValue(nums, Array([Text(a), Text(b)])) == Some(JArray([JString(a), JString(b)]))
    ensures IsJsValue(nums, Array([Text(a), Text(b)]))
  {
    var items := [Text(a), Text(b)];
    assert items[1..] == [Text(b)] && items[1..][1..] == [];
    assert [JString(b)] + [] == [JString(b)] && [JString(a)] + [JString(b)] == [JString(a), JString(b)];
    assert ItemValues(nums, items[1..][1..]) == Some([]);
    assert ItemValues(nums, items[1..]) == Some([JString(b)]);
    assert ItemValues(nums, items) == Some([JString(a), JString(b)]);
    assert AreJsItems(nums, items[1..][1..]);
    assert AreJsItems(nums, items[1..]);
  }

  lemma AppendMember(nums: Numbers, ms: seq<Member>, n: nat, fields: map<string, Json>, v: Json)
    requires n < |ms| && MemberValues(nums, ms[..n]) == Some(fields) && ToValue(nums, ms[n].value) == Some(v)
    ensures MemberValues(nums, ms[..n + 1]) == Some(fields[ms[n].key := v])
  {
    assert ms[..n + 1] == ms[..n] + [ms[n]];
    MemberValuesSnoc(nums, ms[..n], ms[n]);
  }

  function Base(w: World, i: Issue): map<string, Json> {
    map["@context" := JArray([JString("https://www.w3.org/2018/credentials/v1"),
                              JString("https://uddi.network/credentials/v1")]),
        "id" := JString(i.id),
        "type" := JArray([JString("VerifiableCredential"), JString(i.credentialType)]),
        "issuer" := JString(i.issuer.did),
        "issuanceDate" := JString(w.isoTime(i.issuedAt))]
  }

  lemma BaseValue(w: World, i: Issue)
    ensures MemberValues(w.nums, Unsigned(w, i)[..5]) == Some(Base(w, i))
  {
    var nums, m, b := w.nums, Unsigned(w, i), Base(w, i);
    PairValue(nums, "https://www.w3.org/2018/credentials/v1", "https://uddi.network/credentials/v1");
    PairValue(nums, "VerifiableCredential", i.credentialType);
    var f1: map<string, Json> := map["@context" := b["@context"]];
    var f2, f3 := f1["id" := b["id"]], f1["id" := b["id"]]["type" := b["type"]];
    var f4 := f3["issuer" := b["issuer"]];
    AppendMember(nums, m, 0, map[], b["@context"]);
    AppendMember(nums, m, 1, f1, b["id"]);
    AppendMember(nums, m, 2, f2, b["type"]);
    AppendMember(nums, m, 3, f3, b["issuer"]);
    AppendMember(nums, m, 4, f4, b["issuanceDate"]);
    assert f4["issuanceDate" := b["issuanceDate"]] == b;
  }

  lemma UnsignedValue(w: World, i: Issue)
    requires ClaimsAreJson(w.nums, i.claims) && w.nums.Lawful()
    ensures MemberValues(w.nums, Unsigned(w, i)) == Some(UnsignedFields(w, i))
  {
    var m := Unsigned(w, i);
    BaseValue(w, i);
    SubjectValue(w, i);
    if i.expiresInDays != 0.0 {
      var expiry := JString(w.isoTime(Expiry(i)));
      AppendMember(w.nums, m, 5, Base(w, i), expiry);
      AppendMember(w.nums, m, 6, Base(w, i)["expirationDate" := expiry], JObject(SubjectFields(w, i)));
      assert m[..7] == m;
    } else {
      AppendMember(w.nums, m, 5, Base(w, i), JObject(SubjectFields(w, i)));
      assert m[..6] == m;
    }
  }

  // ---- The signed text is the one the gateway checks ----

  lemma {:induction false} JsValueWellFormed(nums: Numbers, d: Doc)
    requires nums.Lawful() && IsJsValue(nums, d)
    ensures WellFormed(d)
    decreases d, 1
  {
    match d
    case Array(items) => JsItemsWellFormed(nums, items);
    case Object(members) => JsMembersWellFormed(nums, members);
    case _ =>
  }

  lemma {:induction false} JsItemsWellFormed(nums: Numbers, items: seq<Doc>)
    requires nums.Lawful() && AreJsItems(nums, items)
    ensures ItemsWellFormed(items)
    decreases items, 0
  {
    if |items| > 0 {
      JsValueWellFormed(nums, items[0]);
      JsItemsWellFormed(nums, items[1..]);
    }
  }

  lemma {:induction false} JsMembersWellFormed(nums: Numbers, members: seq<Member>)
    requires nums.Lawful() && AreJsMembers(nums, members)
    ensures MembersWellFormed(members)
    decreases members, 0
  {
    if |members| > 0 {
      JsValueWellFormed(nums, members[0].value);
      JsMembersWellFormed(nums, members[1..]);
    }
  }

  lemma {:induction false} JsMembersConcat(nums: Numbers, a: seq<Member>, b: seq<Member>)
    requires AreJsMembers(nums, a) && AreJsMembers(nums, b)
    ensures AreJsMembers(nums, a + b)
    decreases |a|
  {
    if |a| == 0 {
      assert a + b == b;
    } else {
      assert (a + b)[1..] == a[1..] + b;
      JsMembersConcat(nums, a[1..], b);
    }
  }

  lemma OneJsMember(nums: Numbers, m: Member)
    requires IsJsValue(nums, m.value)
    ensures AreJsMembers(nums, [m]) && Keys([m]) == [m.key]
  {
    assert [m][1..] == [];
  }

  lemma TextMembers(nums: Numbers, ms: seq<Member>)
    requires forall i | 0 <= i < |ms| :: IsJsValue(nums, ms[i].value)
    ensures AreJsMembers(nums, ms)
    ensures forall i | 0 <= i < |ms| :: Keys(ms)[i] == ms[i].key
    decreases |ms|
  {
    if |ms| > 0 {
      TextMembers(nums, ms[1..]);
    }
  }

  lemma DistinctByIndex(ks: seq<string>)
    requires forall i, j | 0 <= i < j < |ks| :: ks[i] != ks[j]
    ensures Distinct(ks)
  {
    if |ks| > 0 {
      DistinctByIndex(ks[1..]);
    }
  }

  lemma UnsignedIsJs(w: World, i: Issue)
    requires ClaimsAreJson(w.nums, i.claims) && w.nums.Lawful()
    ensures IsJsValue(w.nums, Object(Unsigned(w, i)))
  {
    var m := Unsigned(w, i);
    PairValue(w.nums, "https://www.w3.org/2018/credentials/v1", "https://uddi.network/credentials/v1");
    PairValue(w.nums, "VerifiableCredential", i.credentialType);
    SubjectValue(w, i);
    TextMembers(w.nums, m);
    DistinctByIndex(Keys(m));
  }

  // Texts outside the five characters only the gateway escapes, and claims whose keys both sides sort alike.
  ghost predicate InSharedDomain(w: World, i: Issue)
    requires ClaimsAreJson(w.nums, i.claims) && w.nums.Lawful()
  {
    TextAgreement.Plain(i.id) && TextAgreement.Plain(i.credentialType) && TextAgreement.Plain(i.issuer.did)
    && TextAgreement.Plain(w.isoTime(i.issuedAt))
    && TextAgreement.Plain(w.isoTime(Expiry(i)))
    && Shared(JObject(SubjectFields(w, i)))
  }

  const CREDENTIAL_KEYS := {"@context", "id", "type", "issuer", "issuanceDate", "expirationDate", "credentialSubject"}

  lemma CredentialKeysArePlain(k: string)
    requires k in CREDENTIAL_KEYS
    ensures TextAgreement.Plain(k) && IsBmp(k)
  {
  }

  // Shared fields under the credential's own keys.
  ghost predicate AllShared(f: map<string, Json>) {
    f.Keys <= CREDENTIAL_KEYS && forall k | k in f :: Shared(f[k])
  }

  lemma SharedPut(f: map<string, Json>, k: string, v: Json)
    requires AllShared(f) && k in CREDENTIAL_KEYS && Shared(v)
    ensures AllShared(f[k := v])
  {
  }

  lemma SharedByFields(f: map<string, Json>)
    requires AllShared(f)
    ensures Shared(JObject(f))
  {
    forall k | k in f ensures TextAgreement.Plain(k) && IsBmp(k) {
      CredentialKeysArePlain(k);
    }
    forall a, b | a in f.Keys && b in f.Keys ensures !Straddles(a, b) {
      BmpNeverStraddles(a, b);
    }
  }

  lemma PairShared(a: string, b: string)
    requires TextAgreement.Plain(a) && TextAgreement.Plain(b)
    ensures Shared(JArray([JString(a), JString(b)]))
  {
  }

  lemma FixedTextsArePlain()
    ensures TextAgreement.Plain("https://www.w3.org/2018/credentials/v1")
    ensures TextAgreement.Plain("https://uddi.network/credentials/v1")
    ensures TextAgreement.Plain("VerifiableCredential")
  {
  }

  lemma BaseIsShared(w: World, i: Issue)
    requires TextAgreement.Plain(i.id) && TextAgreement.Plain(i.credentialType) && TextAgreement.Plain(i.issuer.did)
    requires TextAgreement.Plain(w.isoTime(i.issuedAt))
    ensures AllShared(Base(w, i))
  {
    var b := Base(w, i);
    FixedTextsArePlain();
    PairShared("https://www.w3.org/2018/credentials/v1", "https://uddi.network/credentials/v1");
    PairShared("VerifiableCredential", i.credentialType);
    var f0: map<string, Json> := map[];
    var f1 := f0["@context" := b["@context"]];
    var f2 := f1["id" := b["id"]];
    var f3 := f2["type" := b["type"]];
    var f4 := f3["issuer" := b["issuer"]];
    SharedPut(f0, "@context", b["@context"]);
    SharedPut(f1, "id", b["id"]);
    SharedPut(f2, "type", b["type"]);
    SharedPut(f3, "issuer", b["issuer"]);
    SharedPut(f4, "issuanceDate", b["issuanceDate"]);
    assert f4["issuanceDate" := b["issuanceDate"]] == b;
  }

  lemma UnsignedIsShared(w: World, i: Issue)
    requires ClaimsAreJson(w.nums, i.claims) && w.nums.Lawful() && InSharedDomain(w, i)
    ensures Shared(JObject(UnsignedFields(w, i)))
  {
    BaseIsShared(w, i);
    var expiry := JString(w.isoTime(Expiry(i)));
    SharedPut(Base(w, i), "expirationDate", expiry);
    var dated := if i.expiresInDays != 0.0 then Base(w, i)["expirationDate" := expiry] else Base(w, i);
    SharedPut(dated, "credentialSubject", JObject(SubjectFields(w, i)));
    SharedByFields(UnsignedFields(w, i));
  }

  // What the issuer signs is exactly what the gateway will verify.
  lemma SignedTextAgrees(w: World, i: Issue)
    requires ClaimsAreJson(w.nums, i.claims) && w.nums.Lawful() && InSharedDomain(w, i)
    ensures Canonicalize(Object(Unsigned(w, i))) == GoText(w.nums, JObject(UnsignedFields(w, i)))
  {
    UnsignedIsJs(w, i);
    UnsignedValue(w, i);
    CanonicalizeIsTsText(w.nums, Object(Unsigned(w, i)));
    UnsignedIsShared(w, i);
    TextsAgreeIff(w.nums, JObject(UnsignedFields(w, i)));
  }

  // ---- What the gateway receives ----

  function ProofFields(w: World, i: Issue): map<string, Json> {
    map["type" := JString("Ed25519Signature2020"), "created" := JString(w.isoTime(i.signedAt)),
        "verificationMethod" := JString(i.issuer.did + "#keys-1"), "proofPurpose" := JString("assertionMethod"),
        "proofValue" := JString(SignMessage(w, Canonicalize(Object(Unsigned(w, i))), i.issuer.privateKey))]
  }

  lemma ProofValue(w: World, i: Issue)
    ensures ToValue(w.nums, ProofOf(w, i)) == Some(JObject(ProofFields(w, i)))
    ensures IsJsValue(w.nums, ProofOf(w, i))
  {
    var value := SignMessage(w, Canonicalize(Object(Unsigned(w, i))), i.issuer.privateKey);
    var created, key := w.isoTime(i.signedAt), i.issuer.did + "#keys-1";
    ProofTextsValue(w.nums, "Ed25519Signature2020", created, key, "assertionMethod", value);
    ProofTextsAreJs(w.nums, "Ed25519Signature2020", created, key, "assertionMethod", value);
  }

  lemma ProofTextsValue(nums: Numbers, a: string, b: string, c: string, d: string, e: string)
    ensures MemberValues(nums, ProofMembers(a, b, c, d, e))
         == Some(map["type" := JString(a), "created" := JString(b), "verificationMethod" := JString(c),
                     "proofPurpose" := JString(d), "proofValue" := JString(e)])
  {
    var m := ProofMembers(a, b, c, d, e);
    var f1: map<string, Json> := map["type" := JString(a)];
    var f2 := f1["created" := JString(b)];
    var f3 := f2["verificationMethod" := JString(c)];
    var f4 := f3["proofPurpose" := JString(d)];
    AppendMember(nums, m, 0, map[], JString(a));
    AppendMember(nums, m, 1, f1, JString(b));
    AppendMember(nums, m, 2, f2, JString(c));
    AppendMember(nums, m, 3, f3, JString(d));
    AppendMember(nums, m, 4, f4, JString(e));
    assert m[..5] == m;
  }

  lemma ProofTextsAreJs(nums: Numbers, a: string, b: string, c: string, d: string, e: string)
    ensures IsJsValue(nums, Object(ProofMembers(a, b, c, d, e)))
  {
    TextMembers(nums, ProofMembers(a, b, c, d, e));
    DistinctByIndex(Keys(ProofMembers(a, b, c, d, e)));
  }

  ghost function Submitted(w: World, i: Issue): Payload
    requires ClaimsAreJson(w.nums, i.claims) && w.nums.Lawful()
  {
    UnsignedFields(w, i)["proof" := JObject(ProofFields(w, i))]
  }

  // Sending the credential as JSON text hands the gateway exactly this payload.
  lemma TransportKeepsCredential(w: World, i: Issue)
    requires ClaimsAreJson(w.nums, i.claims) && w.nums.Lawful()
    ensures Decode(w.nums, Write(JS, Credential(w, i))) == Some(JObject(Submitted(w, i)))
  {
    UnsignedValue(w, i);
    UnsignedIsJs(w, i);
    ProofValue(w, i);
    var proof, fields := Member("proof", ProofOf(w, i)), UnsignedFields(w, i);
    DecodeWithOneMore(w.nums, Unsigned(w, i), proof, fields, JObject(ProofFields(w, i)));
  }

  lemma DecodeWithOneMore(nums: Numbers, ms: seq<Member>, p: Member, fields: map<string, Json>, v: Json)
    requires nums.Lawful() && MemberValues(nums, ms) == Some(fields) && ToValue(nums, p.value) == Some(v)
    requires AreJsMembers(nums, ms) && IsJsValue(nums, p.value)
    ensures Decode(nums, Write(JS, Object(ms + [p]))) == Some(JObject(fields[p.key := v]))
  {
    MemberValuesSnoc(nums, ms, p);
    OneJsMember(nums, p);
    JsMembersConcat(nums, ms, [p]);
    JsMembersWellFormed(nums, ms + [p]);
    ReadAllWrite(JS, Object(ms + [p]));
  }

  // ---- Acceptance ----

  predicate Named(i: Issue) {
    i.id != "" && i.credentialType != "" && i.issuer.did != "" && i.subjectDid != ""
  }

  // What the gateway finds under each key it reads.
  ghost predicate Carries(w: World, i: Issue, p: Payload) {
    p.Keys >= {"id", "issuer", "type", "issuanceDate", "credentialSubject"}
    && p["id"] == JString(i.id) && p["issuer"] == JString(i.issuer.did)
    && p["type"] == JArray([JString("VerifiableCredential"), JString(i.credentialType)])
    && p["issuanceDate"] == JString(w.isoTime(i.issuedAt))
    && ("expirationDate" in p <==> i.expiresInDays != 0.0)
    && ("expirationDate" in p ==> p["expirationDate"] == JString(w.isoTime(Expiry(i))))
    && p["credentialSubject"].JObject? && "id" in p["credentialSubject"].fields
    && p["credentialSubject"].fields["id"] == JString(i.subjectDid)
  }

  lemma SubmittedCarries(w: World, i: Issue)
    requires ClaimsAreJson(w.nums, i.claims) && w.nums.Lawful()
    ensures Carries(w, i, Submitted(w, i))
    ensures "proof" in Submitted(w, i) && Submitted(w, i)["proof"] == JObject(ProofFields(w, i))
    ensures WithoutProof(Submitted(w, i)) == UnsignedFields(w, i)
  {
    var u := UnsignedFields(w, i);
    UnsignedCarries(w, i);
    assert forall k | k in u :: Submitted(w, i)[k] == u[k];
  }

  lemma UnsignedCarries(w: World, i: Issue)
    requires ClaimsAreJson(w.nums, i.claims) && w.nums.Lawful()
    ensures Carries(w, i, UnsignedFields(w, i)) && "proof" !in UnsignedFields(w, i)
  {
  }

  lemma {:induction false} MemberValueAt(nums: Numbers, ms: seq<Member>, n: nat)
    requires Distinct(Keys(ms)) && MemberValues(nums, ms).Some? && n < |ms|
    ensures ms[n].key in MemberValues(nums, ms).value
    ensures ToValue(nums, ms[n].value) == Some(MemberValues(nums, ms).value[ms[n].key])
  {
    if n > 0 {
      MemberValueAt(nums, ms[1..], n - 1);
      assert ms[1..][n - 1] == ms[n];
    } else {
      FirstKeyIsNew(nums, ms);
    }
  }

  lemma FirstKeyIsNew(nums: Numbers, ms: seq<Member>)
    requires |ms| > 0 && Distinct(Keys(ms)) && MemberValues(nums, ms[1..]).Some?
    ensures ms[0].key !in MemberValues(nums, ms[1..]).value
  {
    MemberValuesKeys(nums, ms[1..]);
    forall n | 0 <= n < |ms[1..]| ensures ms[1..][n].key != ms[0].key {
      KeyIsThere(ms[1..], n);
    }
  }

  lemma {:induction false} KeyIsThere(ms: seq<Member>, n: nat)
    requires n < |ms|
    ensures ms[n].key in Keys(ms)
  {
    if n > 0 {
      KeyIsThere(ms[1..], n - 1);
    }
  }

  lemma {:induction false} MemberValuesKeys(nums: Numbers, ms: seq<Member>)
    requires MemberValues(nums, ms).Some?
    ensures forall k :: k in MemberValues(nums, ms).value <==> exists n :: 0 <= n < |ms| && ms[n].key == k
  {
    if |ms| > 0 {
      MemberValuesKeys(nums, ms[1..]);
      forall k ensures k in MemberValues(nums, ms).value <==> exists n :: 0 <= n < |ms| && ms[n].key == k {
        if k in MemberValues(nums, ms[1..]).value {
          var n :| 0 <= n < |ms[1..]| && ms[1..][n].key == k;
          assert ms[n + 1].key == k;
        }
        if exists n :: 0 <= n < |ms| && ms[n].key == k {
          var n :| 0 <= n < |ms| && ms[n].key == k;
          if n > 0 {
            assert ms[1..][n - 1].key == k;
          }
        }
      }
    }
  }

  // The subject the gateway sees has the DID, each claim under its name with
  // its value, and nothing else.
  lemma ClaimsArrive(w: World, i: Issue)
    requires ClaimsAreJson(w.nums, i.claims) && w.nums.Lawful()
    ensures var subject := Submitted(w, i)["credentialSubject"];
            && subject.JObject? && "id" in subject.fields && subject.fields["id"] == JString(i.subjectDid)
            && (forall n | 0 <= n < |i.claims| ::
                  i.claims[n].key in subject.fields
                  && ToValue(w.nums, i.claims[n].value) == Some(subject.fields[i.claims[n].key]))
            && (forall k | k in subject.fields && k != "id" :: exists n :: 0 <= n < |i.claims| && i.claims[n].key == k)
  {
    MembersHaveValues(w.nums, i.claims);
    MemberValuesKeys(w.nums, i.claims);
    forall n | 0 <= n < |i.claims|
      ensures i.claims[n].key in SubjectFields(w, i)
      ensures ToValue(w.nums, i.claims[n].value) == Some(SubjectFields(w, i)[i.claims[n].key])
    {
      MemberValueAt(w.nums, i.claims, n);
      KeyIsThere(i.claims, n);
    }
  }

  // Around the subject stands what issueCredential put there, and nothing else.
  lemma EnvelopeArrives(w: World, i: Issue)
    requires ClaimsAreJson(w.nums, i.claims) && w.nums.Lawful()
    ensures var p := Submitted(w, i);
            && p.Keys == {"@context", "id", "type", "issuer", "issuanceDate", "credentialSubject", "proof"}
                         + (if i.expiresInDays == 0.0 then {} else {"expirationDate"})
            && p["@context"] == JArray([JString("https://www.w3.org/2018/credentials/v1"),
                                        JString("https://uddi.network/credentials/v1")])
            && p["id"] == JString(i.id) && p["issuer"] == JString(i.issuer.did)
            && p["type"] == JArray([JString("VerifiableCredential"), JString(i.credentialType)])
            && p["issuanceDate"] == JString(w.isoTime(i.issuedAt))
            && (i.expiresInDays != 0.0 ==> p["expirationDate"] == JString(w.isoTime(Expiry(i))))
  {
    SubmittedCarries(w, i);
    assert Submitted(w, i)["@context"] == Base(w, i)["@context"];
  }

  // And the proof names the issuer's key and the time of signing.
  lemma ProofArrives(w: World, i: Issue)
    requires ClaimsAreJson(w.nums, i.claims) && w.nums.Lawful()
    ensures var proof := Submitted(w, i)["proof"];
            && proof.JObject?
            && proof.fields.Keys == {"type", "created", "verificationMethod", "proofPurpose", "proofValue"}
            && proof.fields["type"] == JString("Ed25519Signature2020")
            && proof.fields["created"] == JString(w.isoTime(i.signedAt))
            && proof.fields["verificationMethod"] == JString(i.issuer.did + "#keys-1")
            && proof.fields["proofPurpose"] == JString("assertionMethod")
  {
    SubmittedCarries(w, i);
  }

  // It has no expiry, or one after its issuance as that is written down.
  predicate ExpiresLater(i: Issue) {
    i.expiresInDays == 0.0 || Expiry(i) > TruncateTo(MILLISECOND, i.issuedAt)
  }

  // The payload is well formed exactly then, and otherwise that is what is wrong with it.
  lemma PayloadAcceptedIff(w: World, i: Issue, p: Payload)
    requires w.ClockText() && Named(i) && Carries(w, i, p)
    ensures PayloadError(w, p) == if ExpiresLater(i) then "" else "credential.expirationDate must be after issuanceDate"
  {
    ExpiryIsWhole(i);
    assert w.parseTime(w.isoTime(i.issuedAt)) == Some(TruncateTo(MILLISECOND, i.issuedAt));
    assert w.parseTime(w.isoTime(Expiry(i))) == Some(Expiry(i));
    PayloadParts(w, i, p);
    ErrorFromParts(w, p, TruncateTo(MILLISECOND, i.issuedAt), Expiry(i));
  }

  lemma PayloadParts(w: World, i: Issue, p: Payload)
    requires w.ClockText() && Named(i) && Carries(w, i, p)
    ensures StringField(p, "id") == Some(i.id) && IssuerDid(p) == Some(i.issuer.did)
    ensures SubjectDid(p) == Some(i.subjectDid) && Types(p).Some?
    ensures StringField(p, "issuanceDate") == Some(w.isoTime(i.issuedAt))
    ensures ExpirationDate(p) == if i.expiresInDays != 0.0 then w.isoTime(Expiry(i)) else ""
    ensures i.expiresInDays != 0.0 ==> ExpirationDate(p) != ""
  {
    NamesAreTypes(i, p["type"].items);
    assert w.parseTime(w.isoTime(i.issuedAt)).Some?;
    assert w.parseTime(w.isoTime(Expiry(i))).Some?;
  }

  lemma ErrorFromParts(w: World, p: Payload, issued: Instant, expires: Instant)
    requires StringField(p, "id").Some? && IssuerDid(p).Some? && SubjectDid(p).Some? && Types(p).Some?
    requires StringField(p, "issuanceDate").Some? && w.parseTime(StringField(p, "issuanceDate").value) == Some(issued)
    requires ExpirationDate(p) == "" || w.parseTime(ExpirationDate(p)) == Some(expires)
    ensures PayloadError(w, p) == if ExpirationDate(p) == "" || expires > issued then ""
                                  else "credential.expirationDate must be after issuanceDate"
  {
  }

  lemma NamesAreTypes(i: Issue, items: seq<Json>)
    requires Named(i) && items == [JString("VerifiableCredential"), JString(i.credentialType)]
    ensures |items| > 0 && forall v | v in items :: IsTypeName(v)
  {
  }

  lemma PositiveDaysExpireLater(i: Issue)
    requires i.expiresInDays * DAY_MILLIS >= 1.0 && i.expiryRead >= i.issuedAt
    ensures ExpiresLater(i)
  {
    var read, x := i.expiryRead / MILLISECOND, (i.expiryRead / MILLISECOND) as real + i.expiresInDays * DAY_MILLIS;
    assert x >= (read + 1) as real;
    assert CutToMillis(x) >= read + 1;
    assert TruncateTo(MILLISECOND, i.issuedAt) == i.issuedAt / MILLISECOND * MILLISECOND;
    assert i.issuedAt / MILLISECOND <= read;
  }

  lemma ProofIsWellFormed(w: World, i: Issue, r: Record)
    requires w.HonestSignatures() && r.issuerDid == i.issuer.did
    requires "proof" in r.credential && r.credential["proof"] == JObject(ProofFields(w, i))
    ensures ProofError(r) == ""
    ensures ProofSignature(r) == w.sign(i.issuer.privateKey, Canonicalize(Object(Unsigned(w, i))))
  {
    var message := Canonicalize(Object(Unsigned(w, i)));
    SignatureText(w, message, i.issuer.privateKey);
    var f := ProofFields(w, i);
    ProofFromFields(r, f, SignMessage(w, message, i.issuer.privateKey), w.sign(i.issuer.privateKey, message));
  }

  lemma ProofFromFields(r: Record, f: map<string, Json>, value: string, signature: Bytes)
    requires "proof" in r.credential && r.credential["proof"] == JObject(f)
    requires f.Keys >= {"type", "proofPurpose", "verificationMethod", "proofValue"}
    requires f["type"] == JString("Ed25519Signature2020") && f["proofPurpose"] == JString("assertionMethod")
    requires f["verificationMethod"] == JString(r.issuerDid + "#keys-1")
    requires f["proofValue"] == JString(value) && value != "" && DecodeStd(value) == Some(signature)
    ensures ProofError(r) == "" && ProofSignature(r) == signature
  {
  }

  lemma SignatureText(w: World, message: string, sk: Bytes)
    requires w.HonestSignatures()
    ensures SignMessage(w, message, sk) != ""
    ensures DecodeStd(SignMessage(w, message, sk)) == Some(w.sign(sk, message))
  {
    var sig := w.sign(sk, message);
    assert |sig| == SIGNATURE_SIZE;
    Base64.DecodeEncode(sig);
  }

  lemma ProofVerifies(w: World, i: Issue, dids: Dids, r: Record)
    requires ClaimsAreJson(w.nums, i.claims) && w.Lawful() && InSharedDomain(w, i)
    requires r.credential == Submitted(w, i) && r.issuerDid == i.issuer.did
    requires InStep(w, dids, i.issuer) && !dids[i.issuer.did].deactivated
    ensures ProofVerdict(w, dids, r) == ""
  {
    SubmittedCarries(w, i);
    ProofIsWellFormed(w, i, r);
    SignedTextAgrees(w, i);
    InStepKey(w, dids, i.issuer);
    var text := SignedText(w, r.credential);
    assert text == Canonicalize(Object(Unsigned(w, i)));
    assert w.verify(w.publicKey(i.issuer.privateKey), text, w.sign(i.issuer.privateKey, text));
  }

  // A credential built by issueCredential whose id is new, whose subject is
  // registered and whose issuer is active with the signing key is stored
  // exactly when it has no expiry or one after its issuance. No day count, and
  // any count of a millisecond or more on a clock that does not run back, will do.
  lemma IssuedIsAccepted(w: World, i: Issue, dids: Dids, records: Records, now: Instant)
    requires ClaimsAreJson(w.nums, i.claims) && w.Lawful() && InSharedDomain(w, i) && Named(i)
    requires i.id !in records && i.subjectDid in dids
    requires InStep(w, dids, i.issuer) && !dids[i.issuer.did].deactivated
    ensures PayloadError(w, Submitted(w, i)) == "" <==> ExpiresLater(i)
    ensures Credentials.Issue(w, dids, records, Some(Submitted(w, i)), now)
         == if ExpiresLater(i) then (records[i.id := RecordOf(w, Submitted(w, i), now)], Reply(201, "ISSUED"))
            else (records, Reply(400, "credential.expirationDate must be after issuanceDate"))
    ensures i.expiresInDays == 0.0 || (i.expiresInDays * DAY_MILLIS >= 1.0 && i.expiryRead >= i.issuedAt) ==>
              ExpiresLater(i)
  {
    if i.expiresInDays * DAY_MILLIS >= 1.0 && i.expiryRead >= i.issuedAt {
      PositiveDaysExpireLater(i);
    }
    SubmittedCarries(w, i);
    PayloadParts(w, i, Submitted(w, i));
    PayloadAcceptedIff(w, i, Submitted(w, i));
    if ExpiresLater(i) {
      ProofVerifies(w, i, dids, RecordOf(w, Submitted(w, i), now));
    }
  }

  // In any run that accepted it, Verify answers valid for as long as it is
  // unrevoked and unexpired and the issuer is active with that key.
  lemma StaysValid(w: World, i: Issue, run: seq<Gateway.Event>, k: nat, j: nat)
    requires ClaimsAreJson(w.nums, i.claims) && w.Lawful() && InSharedDomain(w, i) && Named(i)
    requires k < j < |run|
    requires run[k].request == Gateway.IssueCredential(Some(Submitted(w, i)))
    requires Gateway.AnswerAt(w, run, k) == Gateway.Plain(Reply(201, "ISSUED"))
    requires run[j].request == Gateway.VerifyCredential(i.id)
    requires var s := Gateway.Before(w, run, j);
             && InStep(w, s.dids, i.issuer) && !s.dids[i.issuer.did].deactivated
             && (i.id in s.records ==> s.records[i.id].revokedAt == "")
             && (i.expiresInDays != 0.0 ==> run[j].now < Expiry(i))
    ensures Gateway.AnswerAt(w, run, j) == Gateway.Status(Verdict(i.id, true, ""))
  {
    var p := Submitted(w, i);
    SubmittedCarries(w, i);
    PayloadParts(w, i, p);
    Gateway.AfterStep(w, run, k);
    CredentialRuns.IssuedIsStored(w, Gateway.Before(w, run, k).dids, Gateway.Before(w, run, k).records, p, run[k].now);
    CredentialRuns.RecordsContinue(w, run, k + 1, j, i.id);
    var s := Gateway.Before(w, run, j);
    VerifiesFrom(w, i, s.dids, s.records, run[k].now, run[j].now);
  }

  lemma VerifiesFrom(w: World, i: Issue, dids: Dids, records: Records, issuedNow: Instant, now: Instant)
    requires ClaimsAreJson(w.nums, i.claims) && w.Lawful() && InSharedDomain(w, i) && Named(i)
    requires PayloadError(w, Submitted(w, i)) == "" && i.id in records
    requires CredentialRuns.RecordContinues(RecordOf(w, Submitted(w, i), issuedNow), records[i.id])
    requires InStep(w, dids, i.issuer) && !dids[i.issuer.did].deactivated
    requires records[i.id].revokedAt == "" && (i.expiresInDays != 0.0 ==> now < Expiry(i))
    ensures Credentials.VerifyCredential(w, dids, records, i.id, now) == Verdict(i.id, true, "")
  {
    var r := records[i.id];
    RecordNames(w, i, issuedNow);
    ProofVerifies(w, i, dids, r);
    StatusIsGood(w, i, r, now);
    GoodMeansValid(w, dids, records, i.id, now);
  }

  lemma RecordNames(w: World, i: Issue, now: Instant)
    requires ClaimsAreJson(w.nums, i.claims) && w.Lawful() && Named(i) && PayloadError(w, Submitted(w, i)) == ""
    ensures var r := RecordOf(w, Submitted(w, i), now);
            && r.id == i.id && r.issuerDid == i.issuer.did && r.subjectDid == i.subjectDid
            && r.credential == Submitted(w, i) && r.expirationDate == ExpirationDate(r.credential)
  {
    SubmittedCarries(w, i);
    PayloadParts(w, i, Submitted(w, i));
  }

  lemma GoodMeansValid(w: World, dids: Dids, records: Records, id: string, now: Instant)
    requires id in records && CredentialStatus(w, records[id], now) == "" && ProofVerdict(w, dids, records[id]) == ""
    ensures Credentials.VerifyCredential(w, dids, records, id, now) == Verdict(records[id].id, true, "")
  {
  }

  lemma StatusIsGood(w: World, i: Issue, r: Record, now: Instant)
    requires ClaimsAreJson(w.nums, i.claims) && w.Lawful()
    requires r.credential == Submitted(w, i) && r.revokedAt == ""
    requires r.expirationDate == ExpirationDate(r.credential)
    requires i.expiresInDays != 0.0 ==> now < Expiry(i)
    ensures CredentialStatus(w, r, now) == ""
  {
    ExpiryIsWhole(i);
    assert w.parseTime(w.isoTime(Expiry(i))) == Some(Expiry(i));
  }
}
