// The holder's client over whole runs of the gateway, with other clients'
// requests in between.
module HolderRuns {
  import opened Wrappers
  import opened Base64
  import opened World
  import opened SignedTexts
  import opened DidRegistry
  import opened Presentations
  import opened Challenges
  import opened Gateway
  import opened Holder
  import DidRuns

  // The client's own rotation, answered either way, or any other request.
  datatype Turn = Rotate(privateKey: Bytes, context: seq<string>, now: Instant) | Other(event: Event)

  ghost function TurnEvent(w: World, identity: Identity, t: Turn): Event {
    match t
    case Rotate(sk, context, now) =>
      Event(UpdateDid(RotateBody(w, identity, GenerateIdentity(w, sk, now), context, now)), now)
    case Other(e) => e
  }

  // The client takes the new pair exactly on a success answer.
  ghost function IdentityAfter(w: World, s: State, identity: Identity, t: Turn): Identity {
    match t
    case Rotate(sk, context, now) =>
      if Step(w, s, TurnEvent(w, identity, t)).1 == Gateway.Plain(UPDATED) then
        GenerateIdentity(w, sk, now).(did := identity.did, createdAt := identity.createdAt)
      else
        identity
    case Other(_) => identity
  }

  ghost function RunTurns(w: World, s: State, identity: Identity, turns: seq<Turn>): (State, Identity)
    decreases |turns|
  {
    if |turns| == 0 then (s, identity)
    else
      var next := Step(w, s, TurnEvent(w, identity, turns[0])).0;
      RunTurns(w, next, IdentityAfter(w, s, identity, turns[0]), turns[1..])
  }

  // Someone else's request to rotate this DID's key, with a signature that
  // verifies under the key the client holds at that moment.
  ghost predicate Forged(w: World, identity: Identity, t: Turn) {
    t.Other? && t.event.request.UpdateDid? &&
    var r := t.event.request.update;
    && BodyDid(r) == identity.did && DecodeStd(r.signatureBase64).Some?
    && w.verify(identity.publicKey, UpdateText(identity.did, r.publicKeyBase64, r.timestamp),
                DecodeStd(r.signatureBase64).value)
  }

  // Of the other requests none is forged under the client's key of its turn;
  // requests with any other signature are as many as they like.
  ghost predicate Unforged(w: World, s: State, identity: Identity, turns: seq<Turn>)
    decreases |turns|
  {
    |turns| == 0 ||
    (!Forged(w, identity, turns[0]) &&
     var next := Step(w, s, TurnEvent(w, identity, turns[0])).0;
     Unforged(w, next, IdentityAfter(w, s, identity, turns[0]), turns[1..]))
  }

  // A rotation of this DID by someone else that the gateway will accept, to a
  // different key: signed under the client's key, while the DID is active.
  ghost predicate Hijacks(w: World, dids: Dids, identity: Identity, e: Event) {
    Forged(w, identity, Other(e)) && identity.did in dids &&
    var r := e.request.update;
    && r.pathDid == identity.did && IsValidDidGo(identity.did) && !dids[identity.did].deactivated
    && DecodeKey(r.publicKeyBase64).Some? && DecodeKey(r.publicKeyBase64) != Some(identity.publicKey)
  }

  // Another's request takes the client out of step exactly when it is such a one.
  lemma OtherKeepsInStepIff(w: World, dids: Dids, identity: Identity, e: Event)
    requires w.HonestSignatures() && Intact(dids) && InStep(w, dids, identity)
    ensures InStep(w, NextDids(w, dids, e), identity) <==> !Hijacks(w, dids, identity, e)
  {
    match e.request
    case RegisterDid(r) => RegisterEffect(w, dids, r, e.now);
    case UpdateDid(r) =>
      RotationKeepsInStepIff(w, dids, identity, r, e.now);
      HijackIsAcceptedRotation(w, dids, identity, e);
    case RevokeDid(r) => RevokeEffect(w, dids, r, e.now);
    case _ =>
  }

  lemma HijackIsAcceptedRotation(w: World, dids: Dids, identity: Identity, e: Event)
    requires w.HonestSignatures() && Intact(dids) && InStep(w, dids, identity) && e.request.UpdateDid?
    ensures Hijacks(w, dids, identity, e)
       <==> BodyDid(e.request.update) == identity.did && Update(w, dids, e.request.update, e.now).1 == UPDATED
            && DecodeKey(e.request.update.publicKeyBase64) != Some(identity.publicKey)
  {
    InStepKey(w, dids, identity);
  }

  lemma RotationKeepsInStepIff(w: World, dids: Dids, identity: Identity, r: UpdateRequest, now: Instant)
    requires Intact(dids) && InStep(w, dids, identity)
    ensures InStep(w, Update(w, dids, r, now).0, identity)
       <==> !(BodyDid(r) == identity.did && Update(w, dids, r, now).1 == UPDATED
              && DecodeKey(r.publicKeyBase64) != Some(identity.publicKey))
  {
    UpdateEffect(w, dids, r, now);
    if BodyDid(r) == identity.did && Update(w, dids, r, now).1 == UPDATED {
      var key := DecodeKey(r.publicKeyBase64).value;
      if EncodeStd(key) == EncodeStd(identity.publicKey) {
        EncodeInjective(key, identity.publicKey);
      }
    }
  }

  lemma OneTurn(w: World, s: State, identity: Identity, t: Turn)
    requires w.HonestSignatures() && Intact(s.dids)
    requires InStep(w, s.dids, identity) && IsValidDidGo(identity.did) && !Forged(w, identity, t)
    ensures IdentityAfter(w, s, identity, t).did == identity.did
    ensures InStep(w, Step(w, s, TurnEvent(w, identity, t)).0.dids, IdentityAfter(w, s, identity, t))
  {
    match t
    case Rotate(sk, context, now) => RotationAcceptedIff(w, s.dids, identity, sk, context, now);
    case Other(e) =>
      OtherKeepsInStepIff(w, s.dids, identity, e);
  }

  // From the state createIdentity leaves, through any number of rotations
  // accepted or refused and any other traffic without a forged signature, the
  // DID never changes and the client's pair is always the registry's.
  lemma {:induction false} ClientStaysInStep(w: World, s: State, identity: Identity, turns: seq<Turn>)
    requires w.HonestSignatures() && Intact(s.dids)
    requires InStep(w, s.dids, identity) && IsValidDidGo(identity.did)
    requires Unforged(w, s, identity, turns)
    ensures var (s', identity') := RunTurns(w, s, identity, turns);
            identity'.did == identity.did && InStep(w, s'.dids, identity')
    decreases |turns|
  {
    if |turns| > 0 {
      var t := turns[0];
      var e := TurnEvent(w, identity, t);
      DidRuns.NextKeepsIntact(w, s.dids, e);
      OneTurn(w, s, identity, t);
      ClientStaysInStep(w, Step(w, s, e).0, IdentityAfter(w, s, identity, t), turns[1..]);
    }
  }

  // createIdentity puts the client there, in any run, exactly when its fresh
  // DID has an acceptable length and is free.
  lemma CreatedIsInStepIff(w: World, run: seq<Event>, sk: Bytes, now: Instant)
    requires w.HonestSignatures()
    ensures var identity := GenerateIdentity(w, sk, now);
            var run' := run + [Event(RegisterDid(RegisterBody(w, identity, now)), now)];
            && (AnswerAt(w, run', |run|) == Gateway.Plain(REGISTERED)
                <==> IsValidDidGo(identity.did) && identity.did !in After(w, run).dids)
            && (AnswerAt(w, run', |run|) == Gateway.Plain(REGISTERED) ==>
                  Intact(After(w, run').dids) && InStep(w, After(w, run').dids, identity))
  {
    var identity := GenerateIdentity(w, sk, now);
    var run' := run + [Event(RegisterDid(RegisterBody(w, identity, now)), now)];
    assert run'[..|run|] == run;
    RegistrationAcceptedIff(w, After(w, run).dids, sk, now);
    DidRuns.RegistryIntact(w, run');
  }

  // In any run a client in step has its rotation accepted exactly when nobody
  // has revoked its DID: in particular right after its registration.
  lemma RotationAcceptedUnlessRevoked(
    w: World, run: seq<Event>, identity: Identity, sk: Bytes, context: seq<string>, now: Instant)
    requires w.HonestSignatures() && InStep(w, After(w, run).dids, identity) && IsValidDidGo(identity.did)
    ensures var body := RotateBody(w, identity, GenerateIdentity(w, sk, now), context, now);
            var answer := Respond(w, After(w, run), Event(UpdateDid(body), now));
            answer == Gateway.Plain(UPDATED) <==> !DidRuns.WasRevoked(w, run, identity.did)
  {
    RotationAcceptedIff(w, After(w, run).dids, identity, sk, context, now);
    DidRuns.DeactivatedIffRevoked(w, run, identity.did);
  }

  lemma NewClientCanRotate(
    w: World, run: seq<Event>, sk: Bytes, now: Instant, next: Bytes, context: seq<string>, later: Instant)
    requires w.HonestSignatures()
    ensures var identity := GenerateIdentity(w, sk, now);
            var run' := run + [Event(RegisterDid(RegisterBody(w, identity, now)), now)];
            AnswerAt(w, run', |run|) == Gateway.Plain(REGISTERED) ==>
              var body := RotateBody(w, identity, GenerateIdentity(w, next, later), context, later);
              Respond(w, After(w, run'), Event(UpdateDid(body), later)) == Gateway.Plain(UPDATED)
  {
    var identity := GenerateIdentity(w, sk, now);
    var e := Event(RegisterDid(RegisterBody(w, identity, now)), now);
    var run' := run + [e];
    assert run'[..|run|] == run;
    if AnswerAt(w, run', |run|) == Gateway.Plain(REGISTERED) {
      CreatedIsInStepIff(w, run, sk, now);
      RegisteredIff(w, After(w, run).dids, e.request.register, now);
      RotationAcceptedIff(w, After(w, run').dids, identity, next, context, later);
    }
  }

  // So it can still sign in: its presentation answers any live challenge.
  lemma ClientCanAlwaysSignIn(w: World, s: State, identity: Identity, turns: seq<Turn>,
                              challengeId: string, signedAt: Instant, now: Instant)
    requires w.HonestSignatures() && Intact(s.dids)
    requires InStep(w, s.dids, identity) && IsValidDidGo(identity.did)
    requires Unforged(w, s, identity, turns)
    requires var cs := RunTurns(w, s, identity, turns).0.challenges;
             challengeId in cs && IsLive(w, cs[challengeId], now)
    requires IsInt64(signedAt / MILLISECOND) && IsTimestampValid(signedAt / MILLISECOND, now)
    ensures var (s', identity') := RunTurns(w, s, identity, turns);
            var p := AuthPresentation(w, challengeId, s'.challenges[challengeId].nonce, identity', signedAt);
            var r := AuthRequest(challengeId, Presentations.Encode(p), s'.challenges[challengeId].serviceId);
            Step(w, s', Event(Request.VerifyAuth(r), now)).1 == Auth(AuthResult(true, identity.did, ""))
  {
    ClientStaysInStep(w, s, identity, turns);
    var (s', identity') := RunTurns(w, s, identity, turns);
    HonestPresentationAccepted(w, s'.dids, s'.challenges, identity', challengeId,
                               s'.challenges[challengeId].serviceId, signedAt, now);
    var p := AuthPresentation(w, challengeId, s'.challenges[challengeId].nonce, identity', signedAt);
    AuthStep(w, s', AuthRequest(challengeId, Presentations.Encode(p), s'.challenges[challengeId].serviceId), now);
  }

  lemma AuthStep(w: World, s: State, r: AuthRequest, now: Instant)
    ensures Step(w, s, Event(Request.VerifyAuth(r), now)).1
         == Auth(Challenges.VerifyAuth(w, s.dids, s.challenges, r, now).1)
  {
  }
}
