// The credential registry: reading a submitted credential into a record,
// checking its proof, and the store and handlers that issue, revoke and verify.
module Credentials {
  import opened Wrappers
  import opened Base64
  import opened JsonValue
  import opened Canonical
  import GoCanonical
  import opened World
  import opened DidRegistry

  type Payload = map<string, Json>

  datatype Record = Record(
    id: string, issuerDid: string, subjectDid: string, types: seq<string>, credential: Payload,
    issuanceDate: string, expirationDate: string, createdAt: string, revokedAt: string, revocationReason: string)

  type Records = map<string, Record>

  // ---- Reading a payload ----

  // A non-empty string member.
  function StringField(payload: Payload, key: string): Option<string> {
    if key in payload && payload[key].JString? && payload[key].s != "" then Some(payload[key].s) else None
  }

  // The issuer is a string, or an object with an id.
  function IssuerDid(payload: Payload): Option<string> {
    if "issuer" !in payload then None
    else
      match payload["issuer"]
      case JString(s) => if s != "" then Some(s) else None
      case JObject(fields) => StringField(fields, "id")
      case _ => None
  }

  function SubjectDid(payload: Payload): Option<string> {
    if "credentialSubject" in payload && payload["credentialSubject"].JObject? then
      StringField(payload["credentialSubject"].fields, "id")
    else
      None
  }

  predicate IsTypeName(v: Json) {
    v.JString? && v.s != ""
  }

  function Types(payload: Payload): (types: Option<seq<string>>)
    ensures types.Some? ==> |types.value| > 0
  {
    if "type" in payload && payload["type"].JArray? && |payload["type"].items| > 0
       && (forall v | v in payload["type"].items :: IsTypeName(v)) then
      var items := payload["type"].items;
      Some(seq(|items|, i requires 0 <= i < |items| => assert items[i] in items; items[i].s))
    else
      None
  }

  // credentialTypes: the loop that collects the names.
  method CredentialTypes(payload: Payload) returns (types: seq<string>, error: string)
    ensures error == "" <==> Types(payload).Some?
    ensures error == "" ==> types == Types(payload).value
    ensures error != "" ==> error == TypesError(payload)
  {
    types := [];
    if "type" !in payload || !payload["type"].JArray? || |payload["type"].items| == 0 {
      return types, "credential.type is required";
    }
    var rawTypes := payload["type"].items;
    for i := 0 to |rawTypes|
      invariant |types| == i
      invariant forall j | 0 <= j < i :: IsTypeName(rawTypes[j]) && types[j] == rawTypes[j].s
    {
      if !rawTypes[i].JString? || rawTypes[i].s == "" {
        assert rawTypes[i] in rawTypes;
        return types, "credential.type must contain strings";
      }
      types := types + [rawTypes[i].s];
    }
    return types, "";
  }

  function TypesError(payload: Payload): string {
    if "type" !in payload || !payload["type"].JArray? || |payload["type"].items| == 0 then "credential.type is required"
    else "credential.type must contain strings"
  }

  function ExpirationDate(payload: Payload): string {
    match StringField(payload, "expirationDate")
    case Some(s) => s
    case None => ""
  }

  // Why a payload is refused; "" when it is accepted.
  function PayloadError(w: World, payload: Payload): string {
    if StringField(payload, "id").None? then "credential.id is required"
    else if IssuerDid(payload).None? then "credential.issuer is required"
    else if "credentialSubject" !in payload || !payload["credentialSubject"].JObject? then
      "credential.credentialSubject is required"
    else if SubjectDid(payload).None? then "credential.credentialSubject.id is required"
    else if Types(payload).None? then TypesError(payload)
    else if StringField(payload, "issuanceDate").None? then "credential.issuanceDate is required"
    else if w.parseTime(StringField(payload, "issuanceDate").value).None? then "credential.issuanceDate must be RFC3339"
    else if ExpirationDate(payload) == "" then ""
    else if w.parseTime(ExpirationDate(payload)).None? then "credential.expirationDate must be RFC3339"
    else if w.parseTime(ExpirationDate(payload)).value
            <= w.parseTime(StringField(payload, "issuanceDate").value).value then
      "credential.expirationDate must be after issuanceDate"
    else ""
  }

  function RecordOf(w: World, payload: Payload, now: Instant): Record
    requires PayloadError(w, payload) == ""
  {
    Record(StringField(payload, "id").value, IssuerDid(payload).value, SubjectDid(payload).value,
           Types(payload).value, payload, StringField(payload, "issuanceDate").value,
           ExpirationDate(payload), w.formatTime(now), "", "")
  }

  // credentialRecordFromPayload
  method RecordFromPayload(w: World, payload: Payload, now: Instant) returns (record: Option<Record>, error: string)
    ensures error == PayloadError(w, payload)
    ensures record == if error == "" then Some(RecordOf(w, payload, now)) else None
  {
    var id := StringField(payload, "id");
    if id.None? {
      return None, "credential.id is required";
    }
    var issuer := IssuerDid(payload);
    if issuer.None? {
      return None, "credential.issuer is required";
    }
    if "credentialSubject" !in payload || !payload["credentialSubject"].JObject? {
      return None, "credential.credentialSubject is required";
    }
    var subjectDid := StringField(payload["credentialSubject"].fields, "id");
    if subjectDid.None? {
      return None, "credential.credentialSubject.id is required";
    }
    var types, typesError := CredentialTypes(payload);
    if typesError != "" {
      return None, typesError;
    }
    var issuanceDate := StringField(payload, "issuanceDate");
    if issuanceDate.None? {
      return None, "credential.issuanceDate is required";
    }
    var issuedAt := w.parseTime(issuanceDate.value);
    if issuedAt.None? {
      return None, "credential.issuanceDate must be RFC3339";
    }
    var expirationDate := ExpirationDate(payload);
    if expirationDate != "" {
      var expiresAt := w.parseTime(expirationDate);
      if expiresAt.None? {
        return None, "credential.expirationDate must be RFC3339";
      }
      if !(expiresAt.value > issuedAt.value) {
        return None, "credential.expirationDate must be after issuanceDate";
      }
    }
    return Some(Record(id.value, issuer.value, subjectDid.value, types, payload, issuanceDate.value,
                       expirationDate, w.formatTime(now), "", "")), "";
  }

  // ---- Status and proof ----

  // A verdict is "" for valid, else the reason.
  function CredentialStatus(w: World, record: Record, now: Instant): string {
    if record.revokedAt != "" then "credential revoked"
    else if record.expirationDate == "" then ""
    else if w.parseTime(record.expirationDate).None? then "invalid credential expiration"
    else if now >= w.parseTime(record.expirationDate).value then "credential expired"
    else ""
  }

  // The checks on the "proof" member that need no signature.
  function ProofError(record: Record): string {
    if "proof" !in record.credential || !record.credential["proof"].JObject? then "credential proof is required"
    else
      var proof := record.credential["proof"].fields;
      if StringField(proof, "proofValue").None? then "credential proofValue is required"
      else if StringField(proof, "type") != Some("Ed25519Signature2020") then "unsupported credential proof type"
      else if StringField(proof, "proofPurpose") != Some("assertionMethod") then "invalid credential proof purpose"
      else if StringField(proof, "verificationMethod") != Some(record.issuerDid + "#keys-1") then
        "invalid credential verification method"
      else if DecodeStd(StringField(proof, "proofValue").value).None? then "invalid credential proof encoding"
      else ""
  }

  function ProofSignature(record: Record): Bytes
    requires ProofError(record) == ""
  {
    DecodeStd(StringField(record.credential["proof"].fields, "proofValue").value).value
  }

  ghost function SignedText(w: World, payload: Payload): string {
    GoText(w.nums, JObject(WithoutProof(payload)))
  }

  ghost function ProofVerdict(w: World, dids: Dids, record: Record): string {
    if record.issuerDid !in dids then "credential issuer DID not found"
    else if dids[record.issuerDid].deactivated then "credential issuer DID is deactivated"
    else if DecodeKey(dids[record.issuerDid].publicKeyBase64).None? then "invalid issuer public key"
    else if ProofError(record) != "" then ProofError(record)
    else if !w.verify(DecodeKey(dids[record.issuerDid].publicKeyBase64).value,
                      SignedText(w, record.credential), ProofSignature(record)) then "invalid credential proof"
    else ""
  }

  // ---- Requests ----

  ghost function Issue(
    w: World, dids: Dids, records: Records, payload: Option<Payload>, now: Instant): (Records, Reply)
  {
    if payload.None? then
      (records, Reply(400, "credential is required"))
    else if PayloadError(w, payload.value) != "" then
      (records, Reply(400, PayloadError(w, payload.value)))
    else
      var record := RecordOf(w, payload.value, now);
      if record.subjectDid !in dids then
        (records, Reply(400, "credential subject DID not found"))
      else if ProofVerdict(w, dids, record) != "" then
        (records, Reply(400, ProofVerdict(w, dids, record)))
      else if record.id in records then
        (records, Reply(409, "credential already exists"))
      else
        (records[record.id := record], Reply(201, "ISSUED"))
  }

  function RevokeCredential(w: World, records: Records, id: string, reason: string, now: Instant): (Records, Reply) {
    if id == "" then
      (records, Reply(400, "id is required"))
    else if id !in records then
      (records, Reply(404, "credential not found"))
    else if records[id].revokedAt != "" then
      (records, Reply(200, "REVOKED"))
    else
      (records[id := records[id].(revokedAt := w.formatTime(now), revocationReason := reason)], Reply(200, "REVOKED"))
  }

  datatype Verdict = Verdict(id: string, valid: bool, reason: string)

  ghost function VerifyCredential(w: World, dids: Dids, records: Records, id: string, now: Instant): Verdict {
    if id !in records then
      Verdict(id, false, "credential not found")
    else
      var status := CredentialStatus(w, records[id], now);
      var reason := if status == "" then ProofVerdict(w, dids, records[id]) else status;
      Verdict(records[id].id, reason == "", reason)
  }

  // ---- What the answers mean ----

  // A non-empty text member.
  predicate IsText(payload: Payload, key: string, s: string) {
    key in payload && payload[key] == JString(s) && s != ""
  }

  // The issuer is named by a text or by an object with an id.
  predicate NamesIssuer(payload: Payload, did: string) {
    IsText(payload, "issuer", did)
    || ("issuer" in payload && payload["issuer"].JObject? && IsText(payload["issuer"].fields, "id", did))
  }

  predicate NamesSubject(payload: Payload, did: string) {
    "credentialSubject" in payload && payload["credentialSubject"].JObject?
    && IsText(payload["credentialSubject"].fields, "id", did)
  }

  predicate HasTypes(payload: Payload, types: seq<string>) {
    && "type" in payload && payload["type"].JArray? && |payload["type"].items| == |types| > 0
    && forall i | 0 <= i < |types| :: payload["type"].items[i] == JString(types[i]) && types[i] != ""
  }

  // An expiry given as a text is a date after the issuance; any other is no expiry.
  ghost predicate ExpiryFits(w: World, payload: Payload, issued: Instant) {
    forall s: string | IsText(payload, "expirationDate", s) ::
      w.parseTime(s).Some? && w.parseTime(s).value > issued
  }

  ghost predicate IsCredential(w: World, payload: Payload) {
    && (exists id: string :: IsText(payload, "id", id))
    && (exists did: string :: NamesIssuer(payload, did))
    && (exists did: string :: NamesSubject(payload, did))
    && (exists types: seq<string> :: HasTypes(payload, types))
    && IsDated(w, payload)
  }

  ghost predicate IsDated(w: World, payload: Payload) {
    exists s: string ::
      IsText(payload, "issuanceDate", s) && w.parseTime(s).Some? && ExpiryFits(w, payload, w.parseTime(s).value)
  }

  lemma StringFieldIff(payload: Payload, key: string)
    ensures StringField(payload, key).Some? ==> IsText(payload, key, StringField(payload, key).value)
    ensures forall s: string | IsText(payload, key, s) :: StringField(payload, key) == Some(s)
  {
  }

  lemma IssuerDidIff(payload: Payload)
    ensures IssuerDid(payload).Some? ==> NamesIssuer(payload, IssuerDid(payload).value)
    ensures forall did: string | NamesIssuer(payload, did) :: IssuerDid(payload) == Some(did)
  {
  }

  lemma SubjectDidIff(payload: Payload)
    ensures SubjectDid(payload).Some? ==> NamesSubject(payload, SubjectDid(payload).value)
    ensures forall did: string | NamesSubject(payload, did) :: SubjectDid(payload) == Some(did)
  {
  }

  lemma TypesIff(payload: Payload)
    ensures Types(payload).Some? ==> HasTypes(payload, Types(payload).value)
    ensures forall types: seq<string> | HasTypes(payload, types) :: Types(payload) == Some(types)
  {
    if Types(payload).Some? {
      var items := payload["type"].items;
      assert forall i | 0 <= i < |items| :: items[i] in items;
    }
    forall types: seq<string> | HasTypes(payload, types) ensures Types(payload) == Some(types) {
      assert forall v | v in payload["type"].items :: IsTypeName(v);
      assert Types(payload).value == types;
    }
  }

  lemma DatesIff(w: World, payload: Payload)
    ensures IsDated(w, payload)
       <==> StringField(payload, "issuanceDate").Some?
            && var s := StringField(payload, "issuanceDate").value;
               w.parseTime(s).Some?
               && (ExpirationDate(payload) == ""
                   || (w.parseTime(ExpirationDate(payload)).Some?
                       && w.parseTime(ExpirationDate(payload)).value > w.parseTime(s).value))
  {
    StringFieldIff(payload, "issuanceDate");
    StringFieldIff(payload, "expirationDate");
    if StringField(payload, "issuanceDate").Some? {
      var s := StringField(payload, "issuanceDate").value;
      assert IsText(payload, "issuanceDate", s);
      if ExpirationDate(payload) != "" {
        assert IsText(payload, "expirationDate", ExpirationDate(payload));
      }
    }
  }

  // A payload is accepted exactly when it is a credential.
  lemma PayloadErrorIff(w: World, payload: Payload)
    ensures PayloadError(w, payload) == "" <==> IsCredential(w, payload)
  {
    StringFieldIff(payload, "id");
    IssuerDidIff(payload);
    SubjectDidIff(payload);
    TypesIff(payload);
    DatesIff(w, payload);
  }

  // And the record has what the payload says, under the time of its acceptance.
  lemma RecordSays(w: World, payload: Payload, now: Instant)
    requires PayloadError(w, payload) == ""
    ensures var r := RecordOf(w, payload, now);
            && IsText(payload, "id", r.id) && NamesIssuer(payload, r.issuerDid) && NamesSubject(payload, r.subjectDid)
            && HasTypes(payload, r.types) && IsText(payload, "issuanceDate", r.issuanceDate) && r.credential == payload
            && (r.expirationDate != "" <==> exists s: string :: IsText(payload, "expirationDate", s))
            && (r.expirationDate != "" ==> IsText(payload, "expirationDate", r.expirationDate))
            && r.createdAt == w.formatTime(now) && r.revokedAt == "" && r.revocationReason == ""
  {
    StringFieldIff(payload, "expirationDate");
    TypesIff(payload);
  }

  // A stored, active issuer's key verifies a signature, found in the proof,
  // over the canonical text of everything else in the credential.
  ghost predicate SignedByIssuer(w: World, dids: Dids, issuer: string, credential: Payload) {
    && issuer in dids && !dids[issuer].deactivated
    && exists key: Bytes, proof: Payload, proofValue: string, sig: Bytes ::
         && DecodeKey(dids[issuer].publicKeyBase64) == Some(key)
         && IsProof(credential, issuer, proof, proofValue) && DecodeStd(proofValue) == Some(sig)
         && w.verify(key, GoText(w.nums, JObject(credential - {"proof"})), sig)
  }

  predicate IsProof(credential: Payload, issuer: string, proof: Payload, proofValue: string) {
    && "proof" in credential && credential["proof"] == JObject(proof) && IsText(proof, "proofValue", proofValue)
    && IsText(proof, "type", "Ed25519Signature2020") && IsText(proof, "proofPurpose", "assertionMethod")
    && IsText(proof, "verificationMethod", issuer + "#keys-1")
  }

  lemma ProofErrorIff(record: Record)
    ensures ProofError(record) == ""
       <==> exists proof: Payload, proofValue: string ::
              IsProof(record.credential, record.issuerDid, proof, proofValue) && DecodeStd(proofValue).Some?
    ensures forall proof: Payload, proofValue: string |
              IsProof(record.credential, record.issuerDid, proof, proofValue) && DecodeStd(proofValue).Some? ::
              ProofError(record) == "" && Some(ProofSignature(record)) == DecodeStd(proofValue)
  {
    if ProofError(record) == "" {
      var proof := record.credential["proof"].fields;
      StringFieldIff(proof, "proofValue");
      StringFieldIff(proof, "type");
      StringFieldIff(proof, "proofPurpose");
      StringFieldIff(proof, "verificationMethod");
      assert IsProof(record.credential, record.issuerDid, proof, StringField(proof, "proofValue").value);
    }
  }

  // The proof check passes exactly when the issuer signed.
  lemma ProofVerdictIff(w: World, dids: Dids, record: Record)
    ensures ProofVerdict(w, dids, record) == "" <==> SignedByIssuer(w, dids, record.issuerDid, record.credential)
  {
    ProofErrorIff(record);
    assert SignedText(w, record.credential) == GoText(w.nums, JObject(record.credential - {"proof"}));
    if ProofVerdict(w, dids, record) == "" {
      var key := DecodeKey(dids[record.issuerDid].publicKeyBase64).value;
      var proof: Payload, proofValue: string :|
        IsProof(record.credential, record.issuerDid, proof, proofValue) && DecodeStd(proofValue).Some?;
      assert DecodeStd(proofValue) == Some(ProofSignature(record));
      assert w.verify(key, GoText(w.nums, JObject(record.credential - {"proof"})), ProofSignature(record));
    }
  }

  // The subject the payload names is known, and the issuer it names signed it.
  ghost predicate IsGenuine(w: World, dids: Dids, payload: Payload) {
    exists issuer: string, subject: string ::
      NamesIssuer(payload, issuer) && NamesSubject(payload, subject)
      && subject in dids && SignedByIssuer(w, dids, issuer, payload)
  }

  lemma GenuineIff(w: World, dids: Dids, payload: Payload, r: Record)
    requires NamesIssuer(payload, r.issuerDid) && NamesSubject(payload, r.subjectDid) && r.credential == payload
    ensures r.subjectDid in dids && ProofVerdict(w, dids, r) == "" <==> IsGenuine(w, dids, payload)
  {
    IssuerDidIff(payload);
    SubjectDidIff(payload);
    ProofVerdictIff(w, dids, r);
  }

  // Issue stores exactly a genuine credential whose id is new; a taken id is a
  // conflict, and all else a bad request.
  lemma IssuedIff(w: World, dids: Dids, records: Records, payload: Payload, now: Instant)
    ensures var (records', reply) := Issue(w, dids, records, Some(payload), now);
            && (reply.status == 201 || reply.status == 409 <==> IsCredential(w, payload) && IsGenuine(w, dids, payload))
            && (reply.status == 409 ==> forall id: string | IsText(payload, "id", id) :: id in records)
            && (reply.status == 201 ==>
                  PayloadError(w, payload) == ""
                  && forall id: string | IsText(payload, "id", id) ::
                       id !in records && records' == records[id := RecordOf(w, payload, now)])
            && (reply.status != 201 ==> records' == records)
            && (reply.status == 201 || reply.status == 409 || reply.status == 400)
  {
    PayloadErrorIff(w, payload);
    if PayloadError(w, payload) == "" {
      RecordSays(w, payload, now);
      GenuineIff(w, dids, payload, RecordOf(w, payload, now));
    }
  }

  // Revoking succeeds exactly on a stored credential, and marks an unrevoked
  // one with the time and the reason given.
  lemma RevokedIff(w: World, records: Records, id: string, reason: string, now: Instant)
    ensures var (records', reply) := RevokeCredential(w, records, id, reason, now);
            && reply.status == (if id == "" then 400 else if id in records then 200 else 404)
            && records'.Keys == records.Keys
            && (forall other | other in records && other != id :: records'[other] == records[other])
            && (id in records && (records[id].revokedAt != "" || id == "") ==> records'[id] == records[id])
            && (id in records && records[id].revokedAt == "" && id != "" ==>
                  records'[id].revokedAt == w.formatTime(now) && records'[id].revocationReason == reason
                  && records'[id] == records[id].(revokedAt := records'[id].revokedAt, revocationReason := reason))
  {
  }

  // Verify says valid exactly of a stored credential that is not revoked, not
  // expired, and signed by its issuer as the registry now has it.
  lemma VerifiedIff(w: World, dids: Dids, records: Records, id: string, now: Instant)
    ensures var v := VerifyCredential(w, dids, records, id, now);
            && (v.valid <==>
                  id in records && records[id].revokedAt == ""
                  && (records[id].expirationDate == ""
                      || (w.parseTime(records[id].expirationDate).Some?
                          && now < w.parseTime(records[id].expirationDate).value))
                  && SignedByIssuer(w, dids, records[id].issuerDid, records[id].credential))
            && (v.valid <==> v.reason == "")
            && v.id == (if id in records then records[id].id else id)
            && (v.reason == "credential not found" <==> id !in records)
            && (v.reason == "credential revoked" <==> id in records && records[id].revokedAt != "")
  {
    if id in records {
      ProofVerdictIff(w, dids, records[id]);
      ReasonsDiffer(w, dids, records[id], now);
    }
  }

  lemma ReasonsDiffer(w: World, dids: Dids, record: Record, now: Instant)
    ensures CredentialStatus(w, record, now) != "credential not found"
    ensures CredentialStatus(w, record, now) == "credential revoked" <==> record.revokedAt != ""
    ensures ProofVerdict(w, dids, record) != "credential not found"
    ensures ProofVerdict(w, dids, record) != "credential revoked"
  {
  }

  // ---- The store ----

  class MemoryCredentialStore {
    const w: World
    var credentials: Records

    constructor (w: World)
      ensures this.w == w && credentials == map[]
    {
      this.w := w;
      credentials := map[];
    }

    method Create(record: Record) returns (created: bool)
      modifies this
      ensures created <==> record.id !in old(credentials)
      ensures credentials == if created then old(credentials)[record.id := record] else old(credentials)
    {
      if record.id in credentials {
        return false;
      }
      credentials := credentials[record.id := record];
      return true;
    }

    method Get(id: string) returns (record: Option<Record>)
      ensures record == if id in credentials then Some(credentials[id]) else None
    {
      record := if id in credentials then Some(credentials[id]) else None;
    }

    method Revoke(id: string, reason: string, now: Instant) returns (found: bool)
      modifies this
      ensures found <==> id in old(credentials)
      ensures credentials ==
              if found && old(credentials)[id].revokedAt == "" then
                old(credentials)[id :=
                  old(credentials)[id].(revokedAt := w.formatTime(now), revocationReason := reason)]
              else old(credentials)
    {
      if id !in credentials {
        return false;
      }
      var record := credentials[id];
      if record.revokedAt == "" {
        record := record.(revokedAt := w.formatTime(now));
        record := record.(revocationReason := reason);
        credentials := credentials[id := record];
      }
      return true;
    }
  }

  // ---- The handlers ----

  class CredentialHandler {
    const w: World
    const chain: Client
    const store: MemoryCredentialStore

    constructor (w: World, chain: Client, store: MemoryCredentialStore)
      requires store.w == w
      ensures this.w == w && this.chain == chain && this.store == store
    {
      this.w := w;
      this.chain := chain;
      this.store := store;
    }

    method VerifyCredentialProof(record: Record) returns (reason: string)
      ensures reason == ProofVerdict(w, chain.store.dids, record)
    {
      var issuerDoc := chain.ResolveDid(record.issuerDid);
      if issuerDoc.None? {
        return "credential issuer DID not found";
      }
      if issuerDoc.value.deactivated {
        return "credential issuer DID is deactivated";
      }
      var publicKey := DecodeStd(issuerDoc.value.publicKeyBase64);
      if publicKey.None? || |publicKey.value| != KEY_SIZE {
        return "invalid issuer public key";
      }
      if "proof" !in record.credential || !record.credential["proof"].JObject? {
        return "credential proof is required";
      }
      var proof := record.credential["proof"].fields;
      var proofValue := StringField(proof, "proofValue");
      if proofValue.None? {
        return "credential proofValue is required";
      }
      var proofType := StringField(proof, "type");
      if proofType.None? || proofType.value != "Ed25519Signature2020" {
        return "unsupported credential proof type";
      }
      var proofPurpose := StringField(proof, "proofPurpose");
      if proofPurpose.None? || proofPurpose.value != "assertionMethod" {
        return "invalid credential proof purpose";
      }
      var verificationMethod := StringField(proof, "verificationMethod");
      if verificationMethod.None? || verificationMethod.value != record.issuerDid + "#keys-1" {
        return "invalid credential verification method";
      }
      var signature := DecodeStd(proofValue.value);
      if signature.None? {
        return "invalid credential proof encoding";
      }
      var message := GoCanonical.CanonicalCredential(w.nums, record.credential);
      if !w.verify(publicKey.value, message, signature.value) {
        return "invalid credential proof";
      }
      return "";
    }

    method HandleIssue(payload: Option<Payload>, now: Instant) returns (reply: Reply)
      modifies store
      ensures (store.credentials, reply) == Issue(w, chain.store.dids, old(store.credentials), payload, now)
    {
      if payload.None? {
        return Reply(400, "credential is required");
      }
      var record, error := RecordFromPayload(w, payload.value, now);
      if error != "" {
        return Reply(400, error);
      }
      var subject := chain.ResolveDid(record.value.subjectDid);
      if subject.None? {
        return Reply(400, "credential subject DID not found");
      }
      var reason := VerifyCredentialProof(record.value);
      if reason != "" {
        return Reply(400, reason);
      }
      var created := store.Create(record.value);
      if !created {
        return Reply(409, "credential already exists");
      }
      return Reply(201, "ISSUED");
    }

    method HandleRevoke(id: string, reason: string, now: Instant) returns (reply: Reply)
      requires store.w == w
      modifies store
      ensures (store.credentials, reply) == RevokeCredential(w, old(store.credentials), id, reason, now)
    {
      if id == "" {
        return Reply(400, "id is required");
      }
      var found := store.Revoke(id, reason, now);
      if !found {
        return Reply(404, "credential not found");
      }
      return Reply(200, "REVOKED");
    }

    method HandleVerify(id: string, now: Instant) returns (verdict: Verdict)
      ensures verdict == VerifyCredential(w, chain.store.dids, store.credentials, id, now)
    {
      var record := store.Get(id);
      if record.None? {
        return Verdict(id, false, "credential not found");
      }
      var reason := CredentialStatus(w, record.value, now);
      if reason == "" {
        reason := VerifyCredentialProof(record.value);
      }
      return Verdict(record.value.id, reason == "", reason);
    }
  }
}
