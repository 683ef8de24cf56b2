// What every run keeps about DIDs: each stored key ends a chain of signatures
// that starts at the one accepted registration.
module DidRuns {
  import opened Wrappers
  import opened Base64
  import opened World
  import opened SignedTexts
  import opened DidRegistry
  import opened Gateway
  import Challenges
  import Credentials

  lemma NextKeepsIntact(w: World, dids: Dids, e: Event)
    requires Intact(dids)
    ensures Intact(NextDids(w, dids, e))
  {
    match e.request
    case RegisterDid(r) => RegisterKeepsIntact(w, dids, r, e.now);
    case UpdateDid(r) => UpdateKeepsIntact(w, dids, r, e.now);
    case RevokeDid(r) => RevokeKeepsIntact(w, dids, r, e.now);
    case _ =>
  }

  // Every stored document is filed under its id and holds a key of the right size.
  lemma {:induction false} RegistryIntact(w: World, run: seq<Event>)
    ensures Intact(After(w, run).dids)
  {
    if |run| > 0 {
      RegistryIntact(w, run[..|run| - 1]);
      NextKeepsIntact(w, After(w, run[..|run| - 1]).dids, run[|run| - 1]);
    }
  }

  // An accepted registration or rotation, as the request carried it.
  datatype KeyEvent =
    | Registered(keyText: string, timestamp: string, signature: string)
    | Rotated(keyText: string, timestamp: string, signature: string)
  {
    function Key(): Bytes {
      match DecodeKey(keyText)
      case Some(k) => k
      case None => []
    }

    predicate SignedUnder(w: World, key: Bytes, did: string) {
      DecodeKey(keyText).Some? && DecodeStd(signature).Some? &&
      w.verify(key, if Registered? then RegisterText(did, timestamp) else UpdateText(did, keyText, timestamp),
               DecodeStd(signature).value)
    }
  }

  // Read off the requests and their answers alone.
  ghost function KeyLog(w: World, run: seq<Event>, did: string): seq<KeyEvent> {
    if |run| == 0 then []
    else
      var n := |run| - 1;
      KeyLog(w, run[..n], did) +
      match run[n].request
      case RegisterDid(r) =>
        if r.did == did && AnswerAt(w, run, n) == Plain(REGISTERED) then
          [Registered(r.publicKeyBase64, r.timestamp, r.signatureBase64)] else []
      case UpdateDid(r) =>
        if BodyDid(r) == did && AnswerAt(w, run, n) == Plain(UPDATED) then
          [Rotated(r.publicKeyBase64, r.timestamp, r.signatureBase64)] else []
      case _ => []
  }

  // One registration signed under its own key, then rotations each signed under the key before it.
  predicate IsChain(w: World, log: seq<KeyEvent>, did: string) {
    |log| > 0 && log[0].Registered? && log[0].SignedUnder(w, log[0].Key(), did)
    && forall i | 0 < i < |log| :: Follows(w, log[i - 1], log[i], did)
  }

  predicate Follows(w: World, before: KeyEvent, e: KeyEvent, did: string) {
    e.Rotated? && e.SignedUnder(w, before.Key(), did)
  }

  ghost predicate EndsChain(w: World, dids: Dids, log: seq<KeyEvent>, did: string) {
    if did in dids then
      IsChain(w, log, did) && dids[did].id == did && dids[did].publicKeyBase64 == EncodeStd(log[|log| - 1].Key())
    else
      log == []
  }

  lemma StoredKeyDecodes(w: World, dids: Dids, log: seq<KeyEvent>, did: string)
    requires did in dids && EndsChain(w, dids, log, did)
    ensures DecodeKey(dids[did].publicKeyBase64) == Some(log[|log| - 1].Key())
  {
    var last := log[|log| - 1];
    assert |log| > 1 ==> Follows(w, log[|log| - 2], log[|log| - 1], did);
    assert DecodeKey(last.keyText).Some?;
    DecodeEncode(last.Key());
  }

  lemma ChainStarts(w: World, did: string, e: KeyEvent)
    requires e.Registered? && e.SignedUnder(w, e.Key(), did)
    ensures IsChain(w, [e], did)
  {
  }

  lemma ChainExtends(w: World, log: seq<KeyEvent>, did: string, e: KeyEvent)
    requires IsChain(w, log, did) && Follows(w, log[|log| - 1], e, did)
    ensures IsChain(w, log + [e], did)
  {
    var longer := log + [e];
    forall i | 0 < i < |longer| ensures Follows(w, longer[i - 1], longer[i], did) {
      if i < |log| {
        assert longer[i - 1] == log[i - 1] && longer[i] == log[i];
      }
    }
  }

  // In every run, a DID is stored exactly when a registration of it was
  // accepted, and its stored key is the end of the chain.
  lemma {:induction false} KeyChain(w: World, run: seq<Event>, did: string)
    ensures EndsChain(w, After(w, run).dids, KeyLog(w, run, did), did)
  {
    if |run| > 0 {
      var prev := run[..|run| - 1];
      KeyChain(w, prev, did);
      RegistryIntact(w, prev);
      match run[|run| - 1].request
      case RegisterDid(r) => KeyChainRegister(w, run, did, r);
      case UpdateDid(r) => KeyChainUpdate(w, run, did, r);
      case _ => KeyChainOther(w, run, did);
    }
  }

  lemma KeyChainOther(w: World, run: seq<Event>, did: string)
    requires |run| > 0 && !run[|run| - 1].request.RegisterDid? && !run[|run| - 1].request.UpdateDid?
    requires Intact(After(w, run[..|run| - 1]).dids)
    requires EndsChain(w, After(w, run[..|run| - 1]).dids, KeyLog(w, run[..|run| - 1], did), did)
    ensures EndsChain(w, After(w, run).dids, KeyLog(w, run, did), did)
  {
    var n := |run| - 1;
    OtherKeepsKeys(w, After(w, run[..n]).dids, run[n], did);
    var log := KeyLog(w, run[..n], did);
    assert KeyLog(w, run, did) == log + [] == log;
  }

  lemma OtherKeepsKeys(w: World, dids: Dids, e: Event, did: string)
    requires Intact(dids) && !e.request.RegisterDid? && !e.request.UpdateDid?
    ensures var dids' := NextDids(w, dids, e);
            (did in dids' <==> did in dids)
            && (did in dids ==>
                  dids'[did].id == dids[did].id && dids'[did].publicKeyBase64 == dids[did].publicKeyBase64)
  {
    if e.request.RevokeDid? {
      RevokeEffect(w, dids, e.request.revoke, e.now);
    }
  }

  lemma KeyChainRegister(w: World, run: seq<Event>, did: string, r: RegisterRequest)
    requires |run| > 0 && run[|run| - 1].request == RegisterDid(r)
    requires EndsChain(w, After(w, run[..|run| - 1]).dids, KeyLog(w, run[..|run| - 1], did), did)
    ensures EndsChain(w, After(w, run).dids, KeyLog(w, run, did), did)
  {
    var n := |run| - 1;
    RegisterEffect(w, After(w, run[..n]).dids, r, run[n].now);
    var e := Registered(r.publicKeyBase64, r.timestamp, r.signatureBase64);
    if r.did == did && AnswerAt(w, run, n) == Plain(REGISTERED) {
      ChainStarts(w, did, e);
      assert KeyLog(w, run, did) == [e];
    } else {
      assert KeyLog(w, run, did) == KeyLog(w, run[..n], did);
    }
  }

  // One rotation request, accepted or not, keeps the chain of any DID.
  lemma UpdateKeepsChain(w: World, dids: Dids, log: seq<KeyEvent>, did: string, r: UpdateRequest, now: Instant)
    requires Intact(dids) && EndsChain(w, dids, log, did)
    ensures var accepted := BodyDid(r) == did && Update(w, dids, r, now).1 == UPDATED;
            EndsChain(w, Update(w, dids, r, now).0,
                      if accepted then log + [Rotated(r.publicKeyBase64, r.timestamp, r.signatureBase64)] else log, did)
  {
    UpdateEffect(w, dids, r, now);
    if BodyDid(r) == did && Update(w, dids, r, now).1 == UPDATED {
      StoredKeyDecodes(w, dids, log, did);
      ChainExtends(w, log, did, Rotated(r.publicKeyBase64, r.timestamp, r.signatureBase64));
    }
  }

  lemma KeyChainUpdate(w: World, run: seq<Event>, did: string, r: UpdateRequest)
    requires |run| > 0 && run[|run| - 1].request == UpdateDid(r)
    requires Intact(After(w, run[..|run| - 1]).dids)
    requires EndsChain(w, After(w, run[..|run| - 1]).dids, KeyLog(w, run[..|run| - 1], did), did)
    ensures EndsChain(w, After(w, run).dids, KeyLog(w, run, did), did)
  {
    var n := |run| - 1;
    var log := KeyLog(w, run[..n], did);
    UpdateKeepsChain(w, After(w, run[..n]).dids, log, did, r, run[n].now);
    assert log + [] == log;
  }

  // The error branches that blame the registry's own data are never taken, and no request panics.
  lemma StoredDataIsNeverInvalid(w: World, run: seq<Event>, i: nat)
    requires i < |run|
    ensures AnswerAt(w, run, i).Plain? ==> AnswerAt(w, run, i).reply.status < 500
    ensures run[i].request.IssueCredential? ==> AnswerAt(w, run, i).reply.message != "invalid issuer public key"
    ensures AnswerAt(w, run, i).Auth? ==> AnswerAt(w, run, i).result.reason != "invalid DID public key"
    ensures AnswerAt(w, run, i).Status? ==> AnswerAt(w, run, i).verdict.reason != "invalid issuer public key"
  {
    var s, now := Before(w, run, i), run[i].now;
    RegistryIntact(w, run[..i]);
    match run[i].request
    case VerifyAuth(r) => AuthNeverBlamesKey(w, s.dids, s.challenges, r, now);
    case VerifyCredential(id) =>
      if id in s.records { VerdictNeverBlamesKey(w, s.dids, s.records[id], now); }
    case _ => ReplyNeverBlamesGateway(w, s, run[i]);
  }

  lemma ReplyNeverBlamesGateway(w: World, s: State, e: Event)
    requires Intact(s.dids) && !e.request.VerifyAuth? && !e.request.VerifyCredential?
    ensures Respond(w, s, e).Plain? && Respond(w, s, e).reply.status < 500
    ensures e.request.IssueCredential? ==> Respond(w, s, e).reply.message != "invalid issuer public key"
  {
    match e.request
    case RegisterDid(r) => RegisterEffect(w, s.dids, r, e.now);
    case UpdateDid(r) => UpdateEffect(w, s.dids, r, e.now);
    case RevokeDid(r) => RevokeEffect(w, s.dids, r, e.now);
    case IssueCredential(p) => IssueNeverBlamesGateway(w, s.dids, s.records, p, e.now);
    case _ =>
  }

  lemma PayloadErrorBlamesNoKey(w: World, p: Credentials.Payload)
    ensures Credentials.PayloadError(w, p) != "invalid issuer public key"
  {
  }

  lemma IssueAnswers(w: World, dids: Dids, rs: Credentials.Records, p: Credentials.Payload, now: Instant)
    requires Credentials.PayloadError(w, p) == ""
    ensures var r := Credentials.RecordOf(w, p, now);
            var reply := Credentials.Issue(w, dids, rs, Some(p), now).1;
            reply == Reply(201, "ISSUED") || reply == Reply(409, "credential already exists")
            || reply == Reply(400, "credential subject DID not found")
            || reply == Reply(400, Credentials.ProofVerdict(w, dids, r))
  {
  }

  lemma IssueNeverBlamesGateway(
    w: World, dids: Dids, rs: Credentials.Records, p: Option<Credentials.Payload>, now: Instant)
    requires Intact(dids)
    ensures Credentials.Issue(w, dids, rs, p, now).1.status < 500
    ensures Credentials.Issue(w, dids, rs, p, now).1.message != "invalid issuer public key"
  {
    if p.Some? {
      PayloadErrorBlamesNoKey(w, p.value);
      if Credentials.PayloadError(w, p.value) == "" {
        IssueAnswers(w, dids, rs, p.value, now);
        VerdictNeverBlamesKey(w, dids, Credentials.RecordOf(w, p.value, now), now);
      }
    }
  }

  lemma AuthNeverBlamesKey(w: World, dids: Dids, cs: Challenges.ChallengeMap, r: Challenges.AuthRequest, now: Instant)
    requires Intact(dids)
    ensures Challenges.VerifyAuth(w, dids, cs, r, now).1.reason != "invalid DID public key"
  {
  }

  lemma VerdictNeverBlamesKey(w: World, dids: Dids, record: Credentials.Record, now: Instant)
    requires Intact(dids)
    ensures Credentials.ProofVerdict(w, dids, record) != "invalid issuer public key"
    ensures Credentials.CredentialStatus(w, record, now) != "invalid issuer public key"
  {
  }

  // ---- What never changes ----

  // `later` continues `earlier`: same identity and birth; once deactivated, frozen but for its update time.
  predicate Continues(earlier: DidDocument, later: DidDocument) {
    later.id == earlier.id && later.created == earlier.created
    && (earlier.deactivated ==>
          later.deactivated && later.publicKeyBase64 == earlier.publicKeyBase64 && later.context == earlier.context)
  }

  lemma NextContinues(w: World, dids: Dids, e: Event, did: string)
    requires Intact(dids) && did in dids
    ensures did in NextDids(w, dids, e) && Continues(dids[did], NextDids(w, dids, e)[did])
  {
    match e.request
    case RegisterDid(r) => RegisterEffect(w, dids, r, e.now);
    case UpdateDid(r) => UpdateEffect(w, dids, r, e.now);
    case RevokeDid(r) => RevokeEffect(w, dids, r, e.now);
    case _ =>
  }

  lemma OneStepContinues(w: World, run: seq<Event>, j: nat, did: string)
    requires j < |run| && did in After(w, run[..j]).dids
    ensures did in After(w, run[..j + 1]).dids
    ensures Continues(After(w, run[..j]).dids[did], After(w, run[..j + 1]).dids[did])
  {
    RegistryIntact(w, run[..j]);
    AfterStep(w, run, j);
    NextContinues(w, After(w, run[..j]).dids, run[j], did);
  }

  // No DID disappears; its id and creation time never change; revocation is
  // permanent and freezes the key and the context.
  lemma DidsContinue(w: World, run: seq<Event>, i: nat, j: nat, did: string)
    requires i <= j <= |run| && did in After(w, run[..i]).dids
    ensures did in After(w, run[..j]).dids
    ensures Continues(After(w, run[..i]).dids[did], After(w, run[..j]).dids[did])
  {
    var path := seq(|run| + 1, k requires 0 <= k <= |run| => After(w, run[..k]).dids);
    forall k | 0 <= k < |run| && did in path[k]
      ensures did in path[k + 1] && Continues(path[k][did], path[k + 1][did])
    {
      OneStepContinues(w, run, k, did);
    }
    PathContinues(path, Continues, i, j, did);
  }

  // A registration of a DID is accepted at most once in a run.
  lemma RegisteredOnce(w: World, run: seq<Event>, i: nat, j: nat)
    requires i < j < |run| && run[i].request.RegisterDid? && run[j].request.RegisterDid?
    requires run[i].request.register.did == run[j].request.register.did
    requires AnswerAt(w, run, i) == Plain(REGISTERED)
    ensures AnswerAt(w, run, j) != Plain(REGISTERED)
  {
    AfterStep(w, run, i);
    RegisterEffect(w, Before(w, run, i).dids, run[i].request.register, run[i].now);
    DidsContinue(w, run, i + 1, j, run[i].request.register.did);
    RegisterEffect(w, Before(w, run, j).dids, run[j].request.register, run[j].now);
  }

  // A revocation answered with success holds ever after.
  lemma RevocationIsPermanent(w: World, run: seq<Event>, i: nat, j: nat)
    requires i < j <= |run| && run[i].request.RevokeDid?
    requires AnswerAt(w, run, i) == Plain(REVOKED)
    ensures var did := run[i].request.revoke.did;
            did in After(w, run[..j]).dids && After(w, run[..j]).dids[did].deactivated
  {
    var did := run[i].request.revoke.did;
    RegistryIntact(w, run[..i]);
    RevokeEffect(w, Before(w, run, i).dids, run[i].request.revoke, run[i].now);
    AfterStep(w, run, i);
    DidsContinue(w, run, i + 1, j, did);
  }

  // This request revokes the DID.
  ghost predicate Revokes(w: World, s: State, e: Event, did: string) {
    e.request.RevokeDid? && e.request.revoke.did == did && Respond(w, s, e) == Plain(REVOKED)
  }

  // Request by request, which ones did.
  ghost function Revocations(w: World, run: seq<Event>, did: string): (flags: seq<bool>)
    ensures |flags| == |run|
  {
    seq(|run|, i requires 0 <= i < |run| => Revokes(w, Before(w, run, i), run[i], did))
  }

  ghost predicate WasRevoked(w: World, run: seq<Event>, did: string) {
    exists i :: 0 <= i < |run| && Revocations(w, run, did)[i]
  }

  lemma RevocationInPrefix(w: World, run: seq<Event>, n: nat, i: nat, did: string)
    requires i < n <= |run|
    ensures Revocations(w, run[..n], did)[i] == Revocations(w, run, did)[i]
  {
    assert run[..n][..i] == run[..i] && run[..n][i] == run[i];
  }

  lemma RevocationsSnoc(w: World, run: seq<Event>, n: nat, did: string)
    requires |run| == n + 1
    ensures Revocations(w, run, did) == Revocations(w, run[..n], did) + [Revokes(w, Before(w, run, n), run[n], did)]
  {
    var all, before := Revocations(w, run, did), Revocations(w, run[..n], did);
    forall i | 0 <= i < n ensures all[i] == before[i] {
      RevocationInPrefix(w, run, n, i, did);
    }
    LastApart(all, before, n);
  }

  lemma LastApart(all: seq<bool>, before: seq<bool>, n: nat)
    requires |all| == n + 1 && |before| == n && forall i | 0 <= i < n :: all[i] == before[i]
    ensures all == before + [all[n]]
  {
  }

  lemma WasRevokedSnoc(w: World, run: seq<Event>, n: nat, did: string)
    requires |run| == n + 1
    ensures WasRevoked(w, run, did) <==> WasRevoked(w, run[..n], did) || Revokes(w, Before(w, run, n), run[n], did)
  {
    RevocationsSnoc(w, run, n, did);
    AnySnoc(Revocations(w, run[..n], did), Revokes(w, Before(w, run, n), run[n], did));
  }

  lemma AnySnoc(flags: seq<bool>, last: bool)
    ensures (exists i :: 0 <= i < |flags + [last]| && (flags + [last])[i])
       <==> (exists i :: 0 <= i < |flags| && flags[i]) || last
  {
    var all := flags + [last];
    if exists i :: 0 <= i < |flags| && flags[i] {
      var i :| 0 <= i < |flags| && flags[i];
      assert all[i];
    }
    if last {
      assert all[|flags|];
    }
  }

  // One step: a stored DID is deactivated after it exactly when it was before
  // or this request revoked it; a new DID is active and was never revoked.
  lemma DeactivatedStep(w: World, dids: Dids, e: Event, did: string)
    requires Intact(dids) && did in NextDids(w, dids, e)
    ensures NextDids(w, dids, e)[did].deactivated
       <==> (did in dids && dids[did].deactivated)
            || (e.request.RevokeDid? && e.request.revoke.did == did
                && Revoke(w, dids, e.request.revoke, e.now).1 == REVOKED)
    ensures did !in dids ==> e.request.RegisterDid?
  {
    match e.request
    case RegisterDid(r) => RegisteredIff(w, dids, r, e.now);
    case UpdateDid(r) =>
      UpdatedIff(w, dids, r, e.now);
      UpdateChanges(w, dids, r, e.now);
    case RevokeDid(r) => RevokedIff(w, dids, r, e.now);
    case _ =>
  }

  lemma {:induction false} UnknownWasNotRevoked(w: World, run: seq<Event>, did: string)
    requires did !in After(w, run).dids
    ensures !WasRevoked(w, run, did)
  {
    assert run[..|run|] == run;
    if WasRevoked(w, run, did) {
      var i :| 0 <= i < |run| && Revocations(w, run, did)[i];
      RevocationIsPermanent(w, run, i, |run|);
    }
  }

  // In every run a stored DID is deactivated exactly when some request
  // revoking it was answered with success: none is born revoked, and no
  // registration or rotation changes it.
  lemma {:induction false} DeactivatedIffRevoked(w: World, run: seq<Event>, did: string)
    requires did in After(w, run).dids
    ensures After(w, run).dids[did].deactivated <==> WasRevoked(w, run, did)
  {
    var n := |run| - 1;
    var prev := run[..n];
    var dids := After(w, prev).dids;
    RegistryIntact(w, prev);
    DeactivatedStep(w, dids, run[n], did);
    WasRevokedSnoc(w, run, n, did);
    if did in dids {
      DeactivatedIffRevoked(w, prev, did);
    } else {
      UnknownWasNotRevoked(w, prev, did);
    }
  }
}
