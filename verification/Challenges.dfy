// Authentication challenges: the in-memory store and the handlers that issue a
// challenge and check the presentation that answers it.
module Challenges {
  import opened Wrappers
  import opened Base64
  import Decimal
  import opened World
  import opened SignedTexts
  import opened DidRegistry
  import opened Presentations

  datatype Challenge = Challenge(
    challengeId: string, nonce: string, serviceId: string, serviceName: string,
    issuedAt: string, expiresAt: string, qrCode: string)

  type ChallengeMap = map<string, Challenge>

  // `headerServiceId` is the X-Service-ID header; `idBytes` and `nonceBytes` are what crypto/rand yields.
  datatype ChallengeRequest = ChallengeRequest(
    serviceId: string, serviceName: string, headerServiceId: string, idBytes: Bytes, nonceBytes: Bytes)

  datatype AuthRequest = AuthRequest(challengeId: string, presentation: string, serviceId: string)

  datatype AuthResult = AuthResult(valid: bool, did: string, reason: string)

  const CHALLENGE_LIFE: int := 300 * SECOND
  const MAX_AGE: int := 300 * SECOND
  const MAX_FUTURE: int := 30 * SECOND

  // ---- Specification ----

  function NewChallenge(w: World, req: ChallengeRequest, now: Instant): Challenge {
    var id := RandomId(req.idBytes);
    Challenge(id, RandomId(req.nonceBytes), req.serviceId,
              if req.serviceName == "" then req.serviceId else req.serviceName,
              w.formatTime(now), w.formatTime(now + CHALLENGE_LIFE), "uddi://auth?challengeId=" + id)
  }

  function CreateChallenge(w: World, cs: ChallengeMap, req: ChallengeRequest, now: Instant): (ChallengeMap, Reply) {
    if req.serviceId == "" then
      (cs, Reply(400, "serviceId is required"))
    else if req.headerServiceId != "" && req.headerServiceId != req.serviceId then
      (cs, Reply(403, "service ID mismatch"))
    else
      var challenge := NewChallenge(w, req, now);
      (cs[challenge.challengeId := challenge], Reply(201, challenge.challengeId))
  }

  function PresentedAt(timestamp: int): Instant {
    timestamp * MILLISECOND
  }

  predicate IsTimestampValid(timestamp: int, now: Instant) {
    now - MAX_AGE <= PresentedAt(timestamp) <= now + MAX_FUTURE
  }

  // An expiry that does not parse is Go's zero time, long past.
  predicate IsLive(w: World, challenge: Challenge, now: Instant) {
    w.parseTime(challenge.expiresAt).Some? && now < w.parseTime(challenge.expiresAt).value
  }

  function CheckSignature(
    w: World, dids: Dids, challenge: Challenge, challengeId: string, p: Presentation): AuthResult
  {
    if p.did !in dids then
      AuthResult(false, p.did, "DID not found")
    else if DecodeKey(dids[p.did].publicKeyBase64).None? then
      AuthResult(false, p.did, "invalid DID public key")
    else if DecodeStd(p.signature).None? then
      AuthResult(false, p.did, "invalid signature encoding")
    else if !w.verify(DecodeKey(dids[p.did].publicKeyBase64).value,
                      AuthText(challengeId, challenge.nonce, p.did, p.timestamp),
                      DecodeStd(p.signature).value) then
      AuthResult(false, p.did, "invalid signature")
    else
      AuthResult(true, p.did, "")
  }

  // The checks made once the challenge has been consumed.
  function CheckPresentation(w: World, dids: Dids, challenge: Challenge, req: AuthRequest, now: Instant): AuthResult {
    if req.serviceId != "" && req.serviceId != challenge.serviceId then
      AuthResult(false, "", "service mismatch")
    else if !IsLive(w, challenge, now) then
      AuthResult(false, "", "challenge expired")
    else if Presentations.Decode(req.presentation).None? then
      AuthResult(false, "", "invalid presentation")
    else
      var p := Presentations.Decode(req.presentation).value;
      if p.challengeId != req.challengeId then
        AuthResult(false, "", "challenge mismatch")
      else if !IsTimestampValid(p.timestamp, now) then
        AuthResult(false, p.did, "presentation timestamp outside allowed window")
      else
        CheckSignature(w, dids, challenge, req.challengeId, p)
  }

  function VerifyAuth(
    w: World, dids: Dids, cs: ChallengeMap, req: AuthRequest, now: Instant): (ChallengeMap, AuthResult)
  {
    if req.challengeId !in cs || req.presentation == "" then
      (cs, AuthResult(false, "", "challenge not found or presentation missing"))
    else
      (cs - {req.challengeId}, CheckPresentation(w, dids, cs[req.challengeId], req, now))
  }

  // ---- What the answers mean ----

  // A challenge is issued exactly to a service that names itself and is not
  // another than its header says. It lives for five minutes.
  lemma CreatedIff(w: World, cs: ChallengeMap, req: ChallengeRequest, now: Instant)
    ensures var (cs', reply) := CreateChallenge(w, cs, req, now);
            && (reply.status == 201
                <==> req.serviceId != "" && (req.headerServiceId == "" || req.headerServiceId == req.serviceId))
            && (reply.status == 403 <==>
                  req.serviceId != "" && req.headerServiceId != "" && req.headerServiceId != req.serviceId)
            && (reply.status == 400 <==> req.serviceId == "")
            && (reply.status != 201 ==> cs' == cs)
            && (reply.status == 201 ==>
                  var id := EncodeRawUrl(req.idBytes);
                  reply.message == id && cs' == cs[id := cs'[id]]
                  && cs'[id].challengeId == id && cs'[id].nonce == EncodeRawUrl(req.nonceBytes)
                  && cs'[id].serviceId == req.serviceId
                  && cs'[id].serviceName == (if req.serviceName == "" then req.serviceId else req.serviceName)
                  && cs'[id].issuedAt == w.formatTime(now) && cs'[id].expiresAt == w.formatTime(now + 300 * SECOND)
                  && cs'[id].qrCode == "uddi://auth?challengeId=" + id)
  {
  }

  // The presentation answers the challenge, for the service that asked, within
  // five minutes before and thirty seconds after this instant, under the key
  // of a registered DID.
  ghost predicate Answers(w: World, dids: Dids, challenge: Challenge, req: AuthRequest, p: Presentation, now: Instant) {
    && Presentations.Decode(req.presentation) == Some(p) && p.challengeId == req.challengeId
    && (req.serviceId == "" || req.serviceId == challenge.serviceId)
    && now - 300 * SECOND <= p.timestamp * MILLISECOND <= now + 30 * SECOND
    && w.parseTime(challenge.expiresAt).Some? && now < w.parseTime(challenge.expiresAt).value
    && p.did in dids && DecodeKey(dids[p.did].publicKeyBase64).Some?
    && Signs(w, DecodeKey(dids[p.did].publicKeyBase64).value,
             req.challengeId + ":" + challenge.nonce + ":" + p.did + ":" + Decimal.OfInt(p.timestamp), p.signature)
  }

  lemma SignatureCheckedIff(w: World, dids: Dids, challenge: Challenge, id: string, p: Presentation)
    ensures var result := CheckSignature(w, dids, challenge, id, p);
            && (result.valid <==>
                  p.did in dids && DecodeKey(dids[p.did].publicKeyBase64).Some?
                  && Signs(w, DecodeKey(dids[p.did].publicKeyBase64).value,
                           id + ":" + challenge.nonce + ":" + p.did + ":" + Decimal.OfInt(p.timestamp), p.signature))
            && (result.valid <==> result.reason == "") && result.did == p.did
  {
  }

  lemma PresentationCheckedIff(w: World, dids: Dids, challenge: Challenge, req: AuthRequest, now: Instant)
    ensures var result := CheckPresentation(w, dids, challenge, req, now);
            && (result.valid <==>
                  Presentations.Decode(req.presentation).Some?
                  && Answers(w, dids, challenge, req, Presentations.Decode(req.presentation).value, now))
            && (result.valid <==> result.reason == "")
            && (result.valid ==> result.did == Presentations.Decode(req.presentation).value.did)
  {
    if Presentations.Decode(req.presentation).Some? {
      SignatureCheckedIff(w, dids, challenge, req.challengeId, Presentations.Decode(req.presentation).value);
    }
  }

  // VerifyAuth says valid exactly of such a presentation for a stored
  // challenge, and reports its DID. Whatever it says, an attempt that found
  // its challenge and brought something has consumed it.
  lemma AcceptedIff(w: World, dids: Dids, cs: ChallengeMap, req: AuthRequest, now: Instant)
    ensures var (cs', result) := VerifyAuth(w, dids, cs, req, now);
            && (result.valid <==>
                  req.challengeId in cs && req.presentation != ""
                  && exists p: Presentation :: Answers(w, dids, cs[req.challengeId], req, p, now))
            && (result.valid ==>
                  exists p: Presentation :: Answers(w, dids, cs[req.challengeId], req, p, now) && result.did == p.did)
            && (result.valid <==> result.reason == "")
            && cs' == (if req.presentation == "" then cs else cs - {req.challengeId})
  {
    if req.challengeId in cs && req.presentation != "" {
      PresentationCheckedIff(w, dids, cs[req.challengeId], req, now);
    }
  }

  // ---- The store ----

  class MemoryChallengeStore {
    var challenges: ChallengeMap

    constructor ()
      ensures challenges == map[]
    {
      challenges := map[];
    }

    method Save(challenge: Challenge)
      modifies this
      ensures challenges == old(challenges)[challenge.challengeId := challenge]
    {
      challenges := challenges[challenge.challengeId := challenge];
    }

    method Get(challengeId: string) returns (challenge: Option<Challenge>)
      ensures challenge == if challengeId in challenges then Some(challenges[challengeId]) else None
    {
      challenge := if challengeId in challenges then Some(challenges[challengeId]) else None;
    }

    method Delete(challengeId: string)
      modifies this
      ensures challenges == old(challenges) - {challengeId}
    {
      challenges := challenges - {challengeId};
    }
  }

  // ---- The handlers ----

  class VerifyHandler {
    const w: World
    const chain: Client
    const challengeStore: MemoryChallengeStore

    constructor (w: World, chain: Client, challengeStore: MemoryChallengeStore)
      ensures this.w == w && this.chain == chain && this.challengeStore == challengeStore
    {
      this.w := w;
      this.chain := chain;
      this.challengeStore := challengeStore;
    }

    method HandleCreate(req: ChallengeRequest, now: Instant) returns (reply: Reply)
      modifies challengeStore
      ensures (challengeStore.challenges, reply) == CreateChallenge(w, old(challengeStore.challenges), req, now)
    {
      if req.serviceId == "" {
        return Reply(400, "serviceId is required");
      }
      if req.headerServiceId != "" && req.headerServiceId != req.serviceId {
        return Reply(403, "service ID mismatch");
      }
      var serviceName := req.serviceName;
      if serviceName == "" {
        serviceName := req.serviceId;
      }
      var challenge := Challenge(
        RandomId(req.idBytes), RandomId(req.nonceBytes), req.serviceId, serviceName,
        w.formatTime(now), w.formatTime(now + 300 * SECOND), "");
      challenge := challenge.(qrCode := "uddi://auth?challengeId=" + challenge.challengeId);
      challengeStore.Save(challenge);
      return Reply(201, challenge.challengeId);
    }

    method HandleVerify(req: AuthRequest, now: Instant) returns (result: AuthResult)
      modifies challengeStore
      ensures (challengeStore.challenges, result)
           == VerifyAuth(w, chain.store.dids, old(challengeStore.challenges), req, now)
    {
      var found := challengeStore.Get(req.challengeId);
      if found.None? || req.presentation == "" {
        return AuthResult(false, "", "challenge not found or presentation missing");
      }
      var challenge := found.value;
      challengeStore.Delete(req.challengeId);

      if req.serviceId != "" && req.serviceId != challenge.serviceId {
        return AuthResult(false, "", "service mismatch");
      }
      var expiresAt := w.parseTime(challenge.expiresAt);
      if expiresAt.None? || !(now < expiresAt.value) {
        return AuthResult(false, "", "challenge expired");
      }
      var decoded := Presentations.Decode(req.presentation);
      if decoded.None? {
        return AuthResult(false, "", "invalid presentation");
      }
      var presentation := decoded.value;
      if presentation.challengeId != req.challengeId {
        return AuthResult(false, "", "challenge mismatch");
      }
      if !IsTimestampValid(presentation.timestamp, now) {
        return AuthResult(false, presentation.did, "presentation timestamp outside allowed window");
      }
      var didDoc := chain.ResolveDid(presentation.did);
      if didDoc.None? {
        return AuthResult(false, presentation.did, "DID not found");
      }
      var pubKeyBytes := DecodeStd(didDoc.value.publicKeyBase64);
      if pubKeyBytes.None? || |pubKeyBytes.value| != KEY_SIZE {
        return AuthResult(false, presentation.did, "invalid DID public key");
      }
      var signature := DecodeStd(presentation.signature);
      if signature.None? {
        return AuthResult(false, presentation.did, "invalid signature encoding");
      }
      var message := AuthText(req.challengeId, challenge.nonce, presentation.did, presentation.timestamp);
      if !w.verify(pubKeyBytes.value, message, signature.value) {
        return AuthResult(false, presentation.did, "invalid signature");
      }
      return AuthResult(true, presentation.did, "");
    }
  }
}
