// What every run keeps about credentials: records stay faithful to what was
// submitted and verified, and a credential that has gone bad stays bad.
module CredentialRuns {
  import opened Wrappers
  import opened Base64
  import opened JsonValue
  import opened Canonical
  import opened World
  import opened DidRegistry
  import opened Credentials
  import opened Gateway
  import DidRuns

  // ---- Steps ----

  // A record changes in one way only: it gains a revocation, time and reason together.
  predicate RecordContinues(earlier: Record, later: Record) {
    later == earlier
    || (earlier.revokedAt == "" && later.revokedAt != ""
        && later == earlier.(revokedAt := later.revokedAt, revocationReason := later.revocationReason))
  }

  // The part of it that needs nothing of the clock's text.
  predicate RecordKept(earlier: Record, later: Record) {
    later == earlier.(revokedAt := later.revokedAt, revocationReason := later.revocationReason)
    && (earlier.revokedAt != "" ==> later == earlier)
  }

  lemma NextRecordKept(w: World, dids: Dids, rs: Records, e: Event, id: string)
    requires id in rs
    ensures id in NextRecords(w, dids, rs, e) && RecordKept(rs[id], NextRecords(w, dids, rs, e)[id])
  {
    if e.request.IssueCredential? {
      IssueKeeps(w, dids, rs, e.request.payload, e.now, id);
    }
  }

  lemma NextRecordContinues(w: World, dids: Dids, rs: Records, e: Event, id: string)
    requires w.ClockText() && id in rs
    ensures id in NextRecords(w, dids, rs, e) && RecordContinues(rs[id], NextRecords(w, dids, rs, e)[id])
  {
    match e.request
    case IssueCredential(p) => IssueKeeps(w, dids, rs, p, e.now, id);
    case RevokeCredential(id', reason) =>
      assert w.parseTime(w.formatTime(e.now)).Some?;
    case _ =>
  }

  lemma IssueKeeps(w: World, dids: Dids, rs: Records, p: Option<Payload>, now: Instant, id: string)
    requires id in rs
    ensures id in Issue(w, dids, rs, p, now).0 && Issue(w, dids, rs, p, now).0[id] == rs[id]
  {
  }

  // No record disappears, and a record changes in one way only, hence at most once.
  lemma RecordsContinue(w: World, run: seq<Event>, i: nat, j: nat, id: string)
    requires w.ClockText() && i <= j <= |run| && id in After(w, run[..i]).records
    ensures id in After(w, run[..j]).records
    ensures RecordContinues(After(w, run[..i]).records[id], After(w, run[..j]).records[id])
  {
    var path := seq(|run| + 1, k requires 0 <= k <= |run| => After(w, run[..k]).records);
    forall k | 0 <= k < |run| && id in path[k]
      ensures id in path[k + 1] && RecordContinues(path[k][id], path[k + 1][id])
    {
      AfterStep(w, run, k);
      NextRecordContinues(w, After(w, run[..k]).dids, After(w, run[..k]).records, run[k], id);
    }
    PathContinues(path, RecordContinues, i, j, id);
  }

  lemma RecordsKept(w: World, run: seq<Event>, i: nat, j: nat, id: string)
    requires i <= j <= |run| && id in After(w, run[..i]).records
    ensures id in After(w, run[..j]).records
    ensures RecordKept(After(w, run[..i]).records[id], After(w, run[..j]).records[id])
  {
    var path := seq(|run| + 1, k requires 0 <= k <= |run| => After(w, run[..k]).records);
    forall k | 0 <= k < |run| && id in path[k]
      ensures id in path[k + 1] && RecordKept(path[k][id], path[k + 1][id])
    {
      AfterStep(w, run, k);
      NextRecordKept(w, After(w, run[..k]).dids, After(w, run[..k]).records, run[k], id);
    }
    PathContinues(path, RecordKept, i, j, id);
  }

  // ---- Records are faithful ----

  // The k-th request submitted this record's payload, and its proof verified then.
  ghost predicate AcceptedAt(w: World, run: seq<Event>, k: nat, r: Record) {
    k < |run| && run[k].request == IssueCredential(Some(r.credential))
    && PayloadError(w, r.credential) == ""
    && r == RecordOf(w, r.credential, run[k].now).(revokedAt := r.revokedAt, revocationReason := r.revocationReason)
    && r.subjectDid in Before(w, run, k).dids
    && ProofVerdict(w, Before(w, run, k).dids, r) == ""
    && r.id !in Before(w, run, k).records
  }

  // The proof check does not look at the revocation.
  lemma VerdictIgnoresRevocation(w: World, dids: Dids, r: Record, q: Record)
    requires RecordContinues(r, q)
    ensures ProofVerdict(w, dids, q) == ProofVerdict(w, dids, r)
  {
  }

  // Only an accepted Issue adds a record.
  lemma NewRecord(w: World, dids: Dids, rs: Records, e: Event, id: string)
    requires id !in rs && id in NextRecords(w, dids, rs, e)
    ensures var r := NextRecords(w, dids, rs, e)[id];
            && r.id == id && e.request == IssueCredential(Some(r.credential))
            && PayloadError(w, r.credential) == "" && r == RecordOf(w, r.credential, e.now)
            && r.subjectDid in dids && ProofVerdict(w, dids, r) == ""
  {
    if e.request.IssueCredential? && e.request.payload.Some? && PayloadError(w, e.request.payload.value) == "" {
      IssueEffect(w, dids, rs, e.request.payload.value, e.now, id);
    }
  }

  lemma IssueEffect(w: World, dids: Dids, records: Records, p: Payload, now: Instant, id: string)
    requires PayloadError(w, p) == ""
    requires id !in records && id in Issue(w, dids, records, Some(p), now).0
    ensures var r := RecordOf(w, p, now);
            r.id == id && Issue(w, dids, records, Some(p), now).0 == records[id := r]
            && r.subjectDid in dids && ProofVerdict(w, dids, r) == ""
  {
  }

  // Every stored record was submitted, verified and re-extracted as stored.
  lemma {:induction false} RecordsAreFaithful(w: World, run: seq<Event>, id: string) returns (k: nat)
    requires w.ClockText() && id in After(w, run).records
    ensures After(w, run).records[id].id == id && AcceptedAt(w, run, k, After(w, run).records[id])
    ensures After(w, run).records[id].revokedAt == "" ==> After(w, run).records[id].revocationReason == ""
  {
    var n := |run| - 1;
    var prev := run[..n];
    var s := After(w, prev);
    if id in s.records {
      k := RecordsAreFaithful(w, prev, id);
      NextRecordContinues(w, s.dids, s.records, run[n], id);
      AcceptedPersists(w, run, n, k, s.records[id], After(w, run).records[id]);
    } else {
      k := n;
      NewRecord(w, s.dids, s.records, run[n], id);
      var r := After(w, run).records[id];
      assert r.(revokedAt := r.revokedAt, revocationReason := r.revocationReason) == r;
    }
  }

  lemma AcceptedPersists(w: World, run: seq<Event>, n: nat, k: nat, r: Record, q: Record)
    requires n <= |run| && AcceptedAt(w, run[..n], k, r) && RecordContinues(r, q)
    ensures AcceptedAt(w, run, k, q)
  {
    assert run[..n][k] == run[k] && run[..n][..k] == run[..k];
    VerdictIgnoresRevocation(w, Before(w, run, k).dids, r, q);
  }

  // Hence a stored expiry always parses and lies after the issuance: the
  // "invalid credential expiration" answer is never given.
  lemma ExpiryIsSound(w: World, run: seq<Event>, id: string, now: Instant)
    requires w.ClockText() && id in After(w, run).records
    ensures var r := After(w, run).records[id];
            && w.parseTime(r.issuanceDate).Some?
            && (r.expirationDate != "" ==>
                  w.parseTime(r.expirationDate).Some?
                  && w.parseTime(r.expirationDate).value > w.parseTime(r.issuanceDate).value)
            && CredentialStatus(w, r, now) != "invalid credential expiration"
  {
    var k := RecordsAreFaithful(w, run, id);
  }

  // ---- Nothing unsigned gets through ----

  // At the k-th request the issuer is active, and the key that ends its chain
  // of registration and rotations verifies a signature in the credential over
  // all the rest of it.
  ghost predicate VouchedFor(w: World, run: seq<Event>, k: nat, issuer: string, credential: Payload)
    requires k < |run|
  {
    var log := DidRuns.KeyLog(w, run[..k], issuer);
    && |log| > 0 && !DidRuns.WasRevoked(w, run[..k], issuer)
    && exists proof: Payload, proofValue: string, sig: Bytes ::
         && IsProof(credential, issuer, proof, proofValue) && DecodeStd(proofValue) == Some(sig)
         && w.verify(log[|log| - 1].Key(), GoText(w.nums, JObject(credential - {"proof"})), sig)
  }

  lemma SignedIsVouchedFor(w: World, run: seq<Event>, k: nat, issuer: string, credential: Payload)
    requires k < |run|
    ensures SignedByIssuer(w, Before(w, run, k).dids, issuer, credential) <==> VouchedFor(w, run, k, issuer, credential)
  {
    var dids := Before(w, run, k).dids;
    DidRuns.KeyChain(w, run[..k], issuer);
    if issuer in dids {
      DidRuns.DeactivatedIffRevoked(w, run[..k], issuer);
      DidRuns.StoredKeyDecodes(w, dids, DidRuns.KeyLog(w, run[..k], issuer), issuer);
    }
  }

  // Every credential a run accepts is vouched for at that moment.
  lemma IssuedIsVouchedFor(w: World, run: seq<Event>, k: nat, p: Payload)
    requires k < |run| && run[k].request == IssueCredential(Some(p))
    requires AnswerAt(w, run, k) == Gateway.Plain(Reply(201, "ISSUED"))
    ensures IsCredential(w, p) && exists issuer: string :: NamesIssuer(p, issuer) && VouchedFor(w, run, k, issuer, p)
  {
    var s := Before(w, run, k);
    IssuedIff(w, s.dids, s.records, p, run[k].now);
    var issuer: string, subject: string :|
      NamesIssuer(p, issuer) && NamesSubject(p, subject) && subject in s.dids && SignedByIssuer(w, s.dids, issuer, p);
    SignedIsVouchedFor(w, run, k, issuer, p);
  }

  // Verify says valid in a run exactly of a stored credential that is
  // unrevoked, unexpired and vouched for by its issuer now.
  lemma ValidIsVouchedFor(w: World, run: seq<Event>, k: nat, id: string)
    requires k < |run| && run[k].request == VerifyCredential(id)
    ensures var records, now := Before(w, run, k).records, run[k].now;
            AnswerAt(w, run, k).Status?
            && (AnswerAt(w, run, k).verdict.valid <==>
                  id in records && records[id].revokedAt == ""
                  && (records[id].expirationDate == ""
                      || (w.parseTime(records[id].expirationDate).Some?
                          && now < w.parseTime(records[id].expirationDate).value))
                  && VouchedFor(w, run, k, records[id].issuerDid, records[id].credential))
  {
    var s := Before(w, run, k);
    VerifiedIff(w, s.dids, s.records, id, run[k].now);
    if id in s.records {
      SignedIsVouchedFor(w, run, k, s.records[id].issuerDid, s.records[id].credential);
    }
  }

  // ---- Bad stays bad ----

  const REVOKED_REASON := "credential revoked"
  const EXPIRED_REASON := "credential expired"
  const DEACTIVATED_REASON := "credential issuer DID is deactivated"

  predicate IsFinal(reason: string) {
    reason == REVOKED_REASON || reason == EXPIRED_REASON || reason == DEACTIVATED_REASON
  }

  // Why a record is bad for good: revoked, expired, or issued by a deactivated DID.
  ghost predicate Spoiled(w: World, s: State, id: string, now: Instant) {
    id in s.records &&
    var r := s.records[id];
    || r.revokedAt != ""
    || (r.expirationDate != "" && w.parseTime(r.expirationDate).Some? && now >= w.parseTime(r.expirationDate).value)
    || (r.issuerDid in s.dids && s.dids[r.issuerDid].deactivated)
  }

  lemma FinalMeansSpoiled(w: World, s: State, id: string, now: Instant)
    requires IsFinal(Credentials.VerifyCredential(w, s.dids, s.records, id, now).reason)
    ensures Spoiled(w, s, id, now)
  {
    if id in s.records {
      ReasonsApart(w, s.dids, s.records[id], now);
    }
  }

  lemma ReasonsApart(w: World, dids: Dids, r: Record, now: Instant)
    ensures CredentialStatus(w, r, now) != DEACTIVATED_REASON
    ensures ProofVerdict(w, dids, r) != REVOKED_REASON && ProofVerdict(w, dids, r) != EXPIRED_REASON
    ensures ProofVerdict(w, dids, r) == DEACTIVATED_REASON ==> r.issuerDid in dids && dids[r.issuerDid].deactivated
  {
  }

  lemma SpoiledMeansInvalid(w: World, s: State, id: string, now: Instant)
    requires Spoiled(w, s, id, now)
    ensures !Credentials.VerifyCredential(w, s.dids, s.records, id, now).valid
  {
  }

  lemma SpoiledStays(w: World, run: seq<Event>, i: nat, j: nat, id: string, before: Instant, now: Instant)
    requires i <= j <= |run| && before <= now
    requires Spoiled(w, After(w, run[..i]), id, before)
    ensures Spoiled(w, After(w, run[..j]), id, now)
  {
    RecordsKept(w, run, i, j, id);
    var issuer := After(w, run[..i]).records[id].issuerDid;
    if issuer in After(w, run[..i]).dids {
      DidRuns.DidsContinue(w, run, i, j, issuer);
    }
  }

  // Once Verify has answered revoked, expired or issuer deactivated, no later
  // Verify of that id answers valid, whatever requests come in between.
  lemma InvalidForGood(w: World, run: seq<Event>, i: nat, j: nat, id: string)
    requires Clocked(run) && i < j < |run|
    requires run[i].request == VerifyCredential(id) && run[j].request == VerifyCredential(id)
    requires IsFinal(AnswerAt(w, run, i).verdict.reason)
    ensures !AnswerAt(w, run, j).verdict.valid
  {
    FinalMeansSpoiled(w, Before(w, run, i), id, run[i].now);
    SpoiledStays(w, run, i, j, id, run[i].now, run[j].now);
    SpoiledMeansInvalid(w, Before(w, run, j), id, run[j].now);
  }

  // A revocation answered with success takes effect at once and for good.
  lemma RevocationTakesEffect(w: World, run: seq<Event>, i: nat, j: nat, id: string, reason: string)
    requires w.ClockText() && i < j < |run|
    requires run[i].request == RevokeCredential(id, reason) && run[j].request == VerifyCredential(id)
    requires AnswerAt(w, run, i) == Gateway.Plain(Reply(200, "REVOKED"))
    ensures AnswerAt(w, run, j).verdict.reason == REVOKED_REASON
  {
    AfterStep(w, run, i);
    assert After(w, run[..i + 1]).records[id].revokedAt != "" by {
      assert w.parseTime(w.formatTime(run[i].now)).Some?;
    }
    RecordsKept(w, run, i + 1, j, id);
  }

  // Deactivating an issuer's DID invalidates everything it issued, for good.
  lemma DeactivationTakesEffect(w: World, run: seq<Event>, i: nat, j: nat, id: string)
    requires i < j < |run|
    requires run[i].request.RevokeDid? && AnswerAt(w, run, i) == Gateway.Plain(REVOKED)
    requires run[j].request == VerifyCredential(id)
    requires id in Before(w, run, j).records
    requires Before(w, run, j).records[id].issuerDid == run[i].request.revoke.did
    ensures !AnswerAt(w, run, j).verdict.valid
  {
    DidRuns.RevocationIsPermanent(w, run, i, j);
    SpoiledMeansInvalid(w, Before(w, run, j), id, run[j].now);
  }

  // An id is never issued twice in a run.
  lemma IssuedOnce(w: World, run: seq<Event>, i: nat, j: nat, p: Payload, q: Payload)
    requires i < j < |run|
    requires run[i].request == IssueCredential(Some(p)) && run[j].request == IssueCredential(Some(q))
    requires StringField(p, "id") == StringField(q, "id")
    requires AnswerAt(w, run, i) == Gateway.Plain(Reply(201, "ISSUED"))
    ensures AnswerAt(w, run, j) != Gateway.Plain(Reply(201, "ISSUED"))
  {
    var id := StringField(p, "id").value;
    IssuedIsStored(w, Before(w, run, i).dids, Before(w, run, i).records, p, run[i].now);
    AfterStep(w, run, i);
    RecordsKept(w, run, i + 1, j, id);
    TakenIsRefused(w, Before(w, run, j).dids, Before(w, run, j).records, q, run[j].now);
  }

  lemma IssuedIsStored(w: World, dids: Dids, rs: Records, p: Payload, now: Instant)
    requires Issue(w, dids, rs, Some(p), now).1 == Reply(201, "ISSUED")
    ensures PayloadError(w, p) == ""
    ensures Issue(w, dids, rs, Some(p), now).0 == rs[StringField(p, "id").value := RecordOf(w, p, now)]
  {
  }

  lemma TakenIsRefused(w: World, dids: Dids, rs: Records, p: Payload, now: Instant)
    requires StringField(p, "id").Some? && StringField(p, "id").value in rs
    ensures Issue(w, dids, rs, Some(p), now).1 != Reply(201, "ISSUED")
  {
  }
}
