// The holder's client: it creates an identity, registers it, rotates its key
// and answers challenges. Its key pair must stay the one the registry holds.
module Holder {
  import opened Wrappers
  import opened Base64
  import Decimal
  import opened World
  import opened SignedTexts
  import opened DidRegistry
  import opened Presentations
  import opened Challenges

  datatype Identity = Identity(did: string, privateKey: Bytes, publicKey: Bytes, createdAt: string)

  // generateIdentity, from the random bytes of the private key
  function GenerateIdentity(w: World, privateKey: Bytes, now: Instant): Identity {
    var publicKey := w.publicKey(privateKey);
    Identity(DID_PREFIX + w.didSuffix(publicKey), privateKey, publicKey, w.isoTime(now))
  }

  // exportPublicIdentity
  function ExportPublicKey(identity: Identity): string {
    EncodeStd(identity.publicKey)
  }

  // signMessage
  function SignMessage(w: World, message: string, privateKey: Bytes): string {
    EncodeStd(w.sign(privateKey, message))
  }

  // Date.now().toString()
  function Millis(now: Instant): string {
    Decimal.OfInt(now / MILLISECOND)
  }

  function RegisterBody(w: World, identity: Identity, now: Instant): RegisterRequest {
    RegisterRequest(identity.did, ExportPublicKey(identity),
                    SignMessage(w, RegisterText(identity.did, Millis(now)), identity.privateKey), Millis(now))
  }

  function RotateBody(w: World, current: Identity, next: Identity, context: seq<string>, now: Instant): UpdateRequest {
    UpdateRequest(current.did, current.did, ExportPublicKey(next), context,
                  SignMessage(w, UpdateText(current.did, ExportPublicKey(next), Millis(now)), current.privateKey),
                  Millis(now))
  }

  function RevokeBody(w: World, identity: Identity, now: Instant): RevokeRequest {
    RevokeRequest(identity.did, SignMessage(w, RevokeText(identity.did, Millis(now)), identity.privateKey), Millis(now))
  }

  // createAuthPresentation
  function AuthPresentation(
    w: World, challengeId: string, nonce: string, identity: Identity, now: Instant): Presentation
  {
    var timestamp := now / MILLISECOND;
    Presentation(identity.did, challengeId,
                 SignMessage(w, AuthText(challengeId, nonce, identity.did, timestamp), identity.privateKey), timestamp)
  }

  // A fresh identity: its DID is read off its public key, which is that of its private key.
  lemma IdentityIs(w: World, privateKey: Bytes, now: Instant)
    requires w.ClockText()
    ensures var i := GenerateIdentity(w, privateKey, now);
            && i.did == "did:uddi:z" + w.didSuffix(w.publicKey(privateKey))
            && i.privateKey == privateKey && i.publicKey == w.publicKey(privateKey)
            && w.parseTime(i.createdAt) == Some(now - now % MILLISECOND)
  {
  }

  // Every request of the client is dated in whole milliseconds.
  lemma RequestsAreDated(w: World, identity: Identity, next: Identity, context: seq<string>, now: Instant)
    ensures Decimal.ReadInt(RegisterBody(w, identity, now).timestamp) == Some(now / 1_000_000)
    ensures Decimal.ReadInt(RotateBody(w, identity, next, context, now).timestamp) == Some(now / 1_000_000)
    ensures Decimal.ReadInt(RevokeBody(w, identity, now).timestamp) == Some(now / 1_000_000)
  {
    Decimal.ReadIntOfInt(now / MILLISECOND);
  }

  // ---- In step with the registry ----

  // The client can sign for the key the registry holds.
  ghost predicate InStep(w: World, dids: Dids, identity: Identity) {
    identity.did in dids && dids[identity.did].id == identity.did
    && identity.publicKey == w.publicKey(identity.privateKey)
    && dids[identity.did].publicKeyBase64 == EncodeStd(identity.publicKey)
  }

  lemma InStepKey(w: World, dids: Dids, identity: Identity)
    requires w.HonestSignatures() && InStep(w, dids, identity)
    ensures DecodeKey(dids[identity.did].publicKeyBase64) == Some(w.publicKey(identity.privateKey))
  {
    Base64.DecodeEncode(identity.publicKey);
  }

  lemma SignatureDecodes(w: World, message: string, sk: Bytes)
    requires w.HonestSignatures()
    ensures DecodeStd(SignMessage(w, message, sk)).Some?
    ensures w.verify(w.publicKey(sk), message, DecodeStd(SignMessage(w, message, sk)).value)
  {
    Base64.DecodeEncode(w.sign(sk, message));
  }

  lemma ExportedKeyDecodes(w: World, sk: Bytes, now: Instant)
    requires w.HonestSignatures()
    ensures DecodeKey(ExportPublicKey(GenerateIdentity(w, sk, now))) == Some(w.publicKey(sk))
  {
    Base64.DecodeEncode(w.publicKey(sk));
  }

  // A fresh identity registers exactly when its DID has an acceptable length and is free.
  lemma RegistrationAcceptedIff(w: World, dids: Dids, sk: Bytes, now: Instant)
    requires w.HonestSignatures()
    ensures var identity := GenerateIdentity(w, sk, now);
            var (dids', reply) := Register(w, dids, RegisterBody(w, identity, now), now);
            && (reply == REGISTERED <==> IsValidDidGo(identity.did) && identity.did !in dids)
            && (reply == REGISTERED ==> InStep(w, dids', identity))
  {
    var identity := GenerateIdentity(w, sk, now);
    ExportedKeyDecodes(w, sk, now);
    SignatureDecodes(w, RegisterText(identity.did, Millis(now)), sk);
  }

  // A client in step has its rotation accepted exactly while its DID is active,
  // and the new pair is then the registry's.
  lemma RotationAcceptedIff(w: World, dids: Dids, current: Identity, sk: Bytes, context: seq<string>, now: Instant)
    requires w.HonestSignatures() && InStep(w, dids, current) && IsValidDidGo(current.did)
    ensures var next := GenerateIdentity(w, sk, now);
            var (dids', reply) := Update(w, dids, RotateBody(w, current, next, context, now), now);
            && (reply == UPDATED <==> !dids[current.did].deactivated)
            && (reply == UPDATED ==> InStep(w, dids', next.(did := current.did, createdAt := current.createdAt)))
            && (reply == UPDATED ==>
                  dids'[current.did].context == if context == [] then dids[current.did].context else context)
            && (reply != UPDATED ==> dids' == dids)
  {
    var next := GenerateIdentity(w, sk, now);
    InStepKey(w, dids, current);
    ExportedKeyDecodes(w, sk, now);
    SignatureDecodes(w, UpdateText(current.did, ExportPublicKey(next), Millis(now)), current.privateKey);
    assert current.did != "";
  }

  // ---- The client ----

  // What becomes of a request on the network.
  datatype Delivery = Answered | RequestLost | AnswerLost

  class UddiClient {
    const w: World
    const api: DidHandler
    const hasStorage: bool
    var stored: Option<Identity>
    var identity: Option<Identity>

    constructor (w: World, api: DidHandler, hasStorage: bool)
      ensures this.w == w && this.api == api && this.hasStorage == hasStorage
      ensures identity == None && stored == None
    {
      this.w := w;
      this.api := api;
      this.hasStorage := hasStorage;
      stored := None;
      identity := None;
    }

    ghost predicate Wired() {
      api.w == w && api.Wired() && w.HonestSignatures()
    }

    ghost predicate Synced()
      reads this, api.chain.store
    {
      identity.Some? && InStep(w, api.chain.store.dids, identity.value)
      && (hasStorage ==> stored == identity)
    }

    // Fails, with the identity nevertheless set, when it cannot be saved or the
    // registration is refused or its answer lost. `saves`: storage.save succeeds.
    method CreateIdentity(
      privateKey: Bytes, now: Instant, delivery: Delivery, saves: bool) returns (did: Option<string>)
      requires Wired()
      modifies this, api.chain.store
      ensures old(identity).Some? ==> did == None && identity == old(identity) && stored == old(stored)
      ensures old(identity).Some? ==> api.chain.store.dids == old(api.chain.store.dids)
      ensures old(identity).None? ==> identity == Some(GenerateIdentity(w, privateKey, now))
      ensures old(identity).None? ==> stored == if hasStorage && saves then identity else old(stored)
      ensures old(identity).None? && hasStorage && !saves ==> api.chain.store.dids == old(api.chain.store.dids)
      ensures did.Some? ==> Synced() && did.value == identity.value.did && IsValidDidGo(did.value)
      ensures did.Some? == (old(identity).None? && (hasStorage ==> saves) && delivery == Answered
                            && IsValidDidGo(GenerateIdentity(w, privateKey, now).did)
                            && GenerateIdentity(w, privateKey, now).did !in old(api.chain.store.dids))
    {
      if identity.Some? {
        return None;
      }
      var created := GenerateIdentity(w, privateKey, now);
      identity := Some(created);
      if hasStorage {
        if !saves {
          return None;
        }
        stored := identity;
      }
      RegistrationAcceptedIff(w, api.chain.store.dids, privateKey, now);
      if delivery == RequestLost {
        return None;
      }
      var reply := api.HandleRegister(RegisterBody(w, created, now), now);
      if delivery == AnswerLost || reply.status != 201 {
        return None;
      }
      return Some(created.did);
    }

    // The key pair changes exactly on a success answer. Client, storage and
    // registry stay in step exactly unless the acceptance of a different key
    // was lost on the way back, or the new pair could not be saved.
    method RotateIdentityKey(
      privateKey: Bytes, context: seq<string>, now: Instant, delivery: Delivery, saves: bool) returns (ok: bool)
      requires Wired() && Synced() && IsValidDidGo(identity.value.did)
      modifies this, api.chain.store
      ensures var current := old(identity).value;
              var accepted := !old(api.chain.store.dids)[current.did].deactivated;
              && identity.Some? && identity.value.did == current.did
              && (ok <==> delivery == Answered && accepted && (hasStorage ==> saves))
              && identity == (if delivery == Answered && accepted then
                                Some(Identity(current.did, privateKey, w.publicKey(privateKey), current.createdAt))
                              else old(identity))
              && stored == (if ok && hasStorage then identity else old(stored))
              && (Synced() <==>
                    !(accepted && delivery == AnswerLost && w.publicKey(privateKey) != current.publicKey)
                    && !(accepted && delivery == Answered && hasStorage && !saves && privateKey != current.privateKey))
    {
      var current := identity.value;
      var next := GenerateIdentity(w, privateKey, now);
      RotationAcceptedIff(w, api.chain.store.dids, current, privateKey, context, now);
      if delivery == RequestLost {
        return false;
      }
      ghost var before := api.chain.store.dids;
      var reply := api.HandleUpdate(RotateBody(w, current, next, context, now), now);
      if delivery == AnswerLost || reply.status != 200 {
        LostAnswer(w, before, api.chain.store.dids, current, next, context, now, reply);
        return false;
      }
      identity := Some(Identity(current.did, next.privateKey, next.publicKey, current.createdAt));
      if hasStorage {
        if !saves {
          return false;
        }
        stored := identity;
      }
      return true;
    }

    // Where the registry holds the client's key, the presentation answers its
    // challenge: with it VerifyAuth is valid for as long as the challenge lives.
    method Authenticate(challengeId: string, nonce: string, now: Instant) returns (presentation: Option<string>)
      ensures presentation ==
              match identity
              case None => None
              case Some(i) => Some(Presentations.Encode(AuthPresentation(w, challengeId, nonce, i, now)))
      ensures Wired() && Synced() && IsInt64(now / MILLISECOND) ==>
                presentation.Some?
                && LetsIn(w, api.chain.store.dids, identity.value, challengeId, nonce, presentation.value, now)
    {
      if identity.None? {
        return None;
      }
      if Wired() && Synced() && IsInt64(now / MILLISECOND) {
        PresentationLetsIn(w, api.chain.store.dids, identity.value, challengeId, nonce, now);
      }
      return Some(Presentations.Encode(AuthPresentation(w, challengeId, nonce, identity.value, now)));
    }

    // On success the identity is forgotten and the registry has the DID
    // deactivated. When only the answer is lost, or the storage does not delete
    // it (`deletes`), the client still holds on to an identity that is revoked.
    method RevokeIdentity(now: Instant, delivery: Delivery, deletes: bool) returns (ok: bool)
      requires Wired() && Synced()
      modifies this, api.chain.store
      ensures ok <==> delivery == Answered && (hasStorage ==> deletes)
      ensures ok ==> identity == None && (hasStorage ==> stored == None)
      ensures !ok ==> identity == old(identity) && stored == old(stored)
      ensures api.chain.store.dids ==
              if delivery == RequestLost then old(api.chain.store.dids)
              else old(api.chain.store.dids)[old(identity).value.did :=
                     Deactivated(w, old(api.chain.store.dids)[old(identity).value.did], now)]
    {
      var current := identity.value;
      InStepKey(w, api.chain.store.dids, current);
      SignatureDecodes(w, RevokeText(current.did, Millis(now)), current.privateKey);
      KeyAlsoDecodesPlainly(w, api.chain.store.dids, current.did);
      if delivery == RequestLost {
        return false;
      }
      var reply := api.HandleRevoke(RevokeBody(w, current, now), now);
      if delivery == AnswerLost || reply.status != 200 {
        return false;
      }
      if hasStorage {
        if !deletes {
          return false;
        }
        stored := None;
      }
      identity := None;
      return true;
    }
  }

  lemma KeyAlsoDecodesPlainly(w: World, dids: Dids, did: string)
    requires did in dids && DecodeKey(dids[did].publicKeyBase64).Some?
    ensures DecodeStd(dids[did].publicKeyBase64) == DecodeKey(dids[did].publicKeyBase64)
  {
  }

  lemma EncodeInjective(a: Bytes, b: Bytes)
    requires EncodeStd(a) == EncodeStd(b)
    ensures a == b
  {
    Base64.DecodeEncode(a);
    Base64.DecodeEncode(b);
  }

  // The old pair still matches exactly when the update was refused or named the same key.
  lemma LostAnswer(w: World, before: Dids, after: Dids, current: Identity, next: Identity, context: seq<string>,
                   now: Instant, reply: Reply)
    requires w.HonestSignatures() && InStep(w, before, current) && IsValidDidGo(current.did)
    requires next == GenerateIdentity(w, next.privateKey, now)
    requires (after, reply) == Update(w, before, RotateBody(w, current, next, context, now), now)
    ensures reply == UPDATED <==> !before[current.did].deactivated
    ensures reply.status == 200 ==> reply == UPDATED
    ensures InStep(w, after, current) <==> before[current.did].deactivated || next.publicKey == current.publicKey
  {
    RotationAcceptedIff(w, before, current, next.privateKey, context, now);
    if reply == UPDATED && InStep(w, after, current) {
      EncodeInjective(next.publicKey, current.publicKey);
    }
  }

  // ---- A client in step is let in ----

  // The presentation it builds is accepted whenever the challenge is stored and
  // live, was asked for by the same service, and the timestamp is in the window.
  lemma HonestPresentationAccepted(w: World, dids: Dids, cs: ChallengeMap, identity: Identity,
                                   challengeId: string, serviceId: string, signedAt: Instant, now: Instant)
    requires w.HonestSignatures() && InStep(w, dids, identity)
    requires challengeId in cs && IsLive(w, cs[challengeId], now)
    requires serviceId == "" || serviceId == cs[challengeId].serviceId
    requires IsInt64(signedAt / MILLISECOND) && IsTimestampValid(signedAt / MILLISECOND, now)
    ensures var p := AuthPresentation(w, challengeId, cs[challengeId].nonce, identity, signedAt);
            var r := AuthRequest(challengeId, Presentations.Encode(p), serviceId);
            VerifyAuth(w, dids, cs, r, now) == (cs - {challengeId}, AuthResult(true, identity.did, ""))
  {
    var p := AuthPresentation(w, challengeId, cs[challengeId].nonce, identity, signedAt);
    Presentations.DecodeEncode(p);
    EncodedIsNotEmpty(p);
    InStepKey(w, dids, identity);
    SignatureDecodes(w, AuthText(challengeId, cs[challengeId].nonce, identity.did, p.timestamp), identity.privateKey);
  }

  // The gateway answers valid, and names the client's DID, whenever the
  // challenge is stored with that nonce, is live and was asked for by the same
  // service, and the presentation was made in the window.
  ghost predicate LetsIn(w: World, dids: Dids, identity: Identity, challengeId: string, nonce: string,
                         presentation: string, signedAt: Instant)
  {
    forall cs: ChallengeMap, serviceId: string, now: Instant
      | && challengeId in cs && cs[challengeId].nonce == nonce && IsLive(w, cs[challengeId], now)
        && (serviceId == "" || serviceId == cs[challengeId].serviceId)
        && IsTimestampValid(signedAt / MILLISECOND, now) ::
      VerifyAuth(w, dids, cs, AuthRequest(challengeId, presentation, serviceId), now)
      == (cs - {challengeId}, AuthResult(true, identity.did, ""))
  }

  lemma PresentationLetsIn(
    w: World, dids: Dids, identity: Identity, challengeId: string, nonce: string, signedAt: Instant)
    requires w.HonestSignatures() && InStep(w, dids, identity) && IsInt64(signedAt / MILLISECOND)
    ensures LetsIn(w, dids, identity, challengeId, nonce,
                   Presentations.Encode(AuthPresentation(w, challengeId, nonce, identity, signedAt)), signedAt)
  {
    var presentation := Presentations.Encode(AuthPresentation(w, challengeId, nonce, identity, signedAt));
    forall cs: ChallengeMap, serviceId: string, now: Instant
      | && challengeId in cs && cs[challengeId].nonce == nonce && IsLive(w, cs[challengeId], now)
        && (serviceId == "" || serviceId == cs[challengeId].serviceId)
        && IsTimestampValid(signedAt / MILLISECOND, now)
      ensures VerifyAuth(w, dids, cs, AuthRequest(challengeId, presentation, serviceId), now)
           == (cs - {challengeId}, AuthResult(true, identity.did, ""))
    {
      HonestPresentationAccepted(w, dids, cs, identity, challengeId, serviceId, signedAt, now);
    }
  }

  lemma EncodedIsNotEmpty(p: Presentation)
    requires IsInt64(p.timestamp)
    ensures Presentations.Encode(p) != ""
  {
    Presentations.DecodeEncode(p);
    assert DecodeStd("") == Some([]);
  }
}
