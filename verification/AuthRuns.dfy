// What every run keeps about authentication: a challenge is answered at most
// once, in time, by a fresh presentation signed under the DID's current key.
module AuthRuns {
  import opened Wrappers
  import opened Base64
  import opened World
  import opened SignedTexts
  import opened DidRegistry
  import opened Presentations
  import opened Challenges
  import opened Gateway

  // The i-th request issued a challenge.
  ghost predicate Issued(w: World, run: seq<Event>, i: nat)
    requires i < |run|
  {
    run[i].request.CreateChallenge? &&
    AnswerAt(w, run, i) == Gateway.Plain(Reply(201, RandomId(run[i].request.challenge.idBytes)))
  }

  ghost function IssuedChallenge(w: World, run: seq<Event>, i: nat): Challenge
    requires i < |run| && run[i].request.CreateChallenge?
  {
    NewChallenge(w, run[i].request.challenge, run[i].now)
  }

  // crypto/rand does not repeat itself.
  predicate FreshIds(run: seq<Event>) {
    forall i, j | 0 <= i < j < |run| && run[i].request.CreateChallenge? && run[j].request.CreateChallenge? ::
      RandomId(run[i].request.challenge.idBytes) != RandomId(run[j].request.challenge.idBytes)
  }

  // A valid answer to the i-th request.
  ghost predicate Accepted(w: World, run: seq<Event>, i: nat)
    requires i < |run|
  {
    run[i].request.VerifyAuth? && AnswerAt(w, run, i).Auth? && AnswerAt(w, run, i).result.valid
  }

  // An attempt that finds its challenge and brings a presentation, whatever comes of it.
  ghost predicate Consumes(w: World, run: seq<Event>, i: nat, id: string)
    requires i < |run|
  {
    run[i].request.VerifyAuth? && run[i].request.auth.challengeId == id
    && run[i].request.auth.presentation != "" && id in Before(w, run, i).challenges
  }

  // ---- Steps ----

  // A challenge in the next state was there before, or this request issued it.
  lemma NextChallenge(w: World, dids: Dids, cs: ChallengeMap, e: Event, id: string)
    requires id in NextChallenges(w, dids, cs, e)
    ensures var c := NextChallenges(w, dids, cs, e)[id];
            (id in cs && c == cs[id])
            || (e.request.CreateChallenge? && RandomId(e.request.challenge.idBytes) == id
                && Challenges.CreateChallenge(w, cs, e.request.challenge, e.now).1 == Reply(201, id)
                && c == NewChallenge(w, e.request.challenge, e.now))
  {
  }

  // Every stored challenge is one the run issued.
  lemma {:induction false} StoredWasIssued(w: World, run: seq<Event>, id: string) returns (k: nat)
    requires id in After(w, run).challenges
    ensures k < |run| && Issued(w, run, k) && RandomId(run[k].request.challenge.idBytes) == id
    ensures After(w, run).challenges[id] == IssuedChallenge(w, run, k)
  {
    var n := |run| - 1;
    var prev := run[..n];
    NextChallenge(w, After(w, prev).dids, After(w, prev).challenges, run[n], id);
    if id in After(w, prev).challenges && After(w, run).challenges[id] == After(w, prev).challenges[id] {
      k := StoredWasIssued(w, prev, id);
      assert prev[k] == run[k] && prev[..k] == run[..k];
    } else {
      k := n;
    }
  }

  // A challenge that is not stored only comes back by being issued again.
  lemma StaysGoneOneStep(w: World, run: seq<Event>, j: nat, id: string)
    requires j < |run| && id !in After(w, run[..j]).challenges
    requires run[j].request.CreateChallenge? ==> RandomId(run[j].request.challenge.idBytes) != id
    ensures id !in After(w, run[..j + 1]).challenges
  {
    var s := After(w, run[..j]);
    AfterStep(w, run, j);
    if id in NextChallenges(w, s.dids, s.challenges, run[j]) {
      NextChallenge(w, s.dids, s.challenges, run[j], id);
    }
  }

  lemma NotIssuedLater(w: World, run: seq<Event>, i: nat, j: nat, id: string)
    requires FreshIds(run) && i <= j < |run| && id in Before(w, run, i).challenges
    ensures run[j].request.CreateChallenge? ==> RandomId(run[j].request.challenge.idBytes) != id
  {
    var k := StoredWasIssued(w, run[..i], id);
    assert run[..i][k] == run[k];
  }

  lemma ConsumedIsGone(w: World, run: seq<Event>, i: nat, id: string)
    requires i < |run| && Consumes(w, run, i, id)
    ensures id !in After(w, run[..i + 1]).challenges
  {
    AfterStep(w, run, i);
  }

  lemma GoneOneStepMore(w: World, run: seq<Event>, i: nat, j: nat, id: string)
    requires FreshIds(run) && i < j < |run| && id in Before(w, run, i).challenges
    requires id !in After(w, run[..j]).challenges
    ensures id !in After(w, run[..j + 1]).challenges
  {
    NotIssuedLater(w, run, i, j, id);
    StaysGoneOneStep(w, run, j, id);
  }

  // Once consumed, a challenge is gone for the rest of the run.
  lemma {:induction false} ConsumedStaysGone(w: World, run: seq<Event>, i: nat, j: nat, id: string)
    requires FreshIds(run) && i < j <= |run| && Consumes(w, run, i, id)
    ensures id !in After(w, run[..j]).challenges
    decreases j
  {
    if j == i + 1 {
      ConsumedIsGone(w, run, i, id);
    } else {
      ConsumedStaysGone(w, run, i, j - 1, id);
      GoneOneStepMore(w, run, i, j - 1, id);
    }
  }

  // ---- What a valid answer took ----

  // One request: everything VerifyAuth checked before it said valid.
  lemma ValidNeeds(w: World, dids: Dids, cs: ChallengeMap, r: AuthRequest, now: Instant)
    requires Challenges.VerifyAuth(w, dids, cs, r, now).1.valid
    ensures r.challengeId in cs && r.presentation != ""
    ensures IsLive(w, cs[r.challengeId], now)
    ensures r.serviceId == "" || r.serviceId == cs[r.challengeId].serviceId
    ensures Presentations.Decode(r.presentation).Some?
    ensures var p := Presentations.Decode(r.presentation).value;
            && p.challengeId == r.challengeId && IsTimestampValid(p.timestamp, now)
            && p.did in dids && DecodeKey(dids[p.did].publicKeyBase64).Some? && DecodeStd(p.signature).Some?
            && w.verify(DecodeKey(dids[p.did].publicKeyBase64).value,
                        AuthText(r.challengeId, cs[r.challengeId].nonce, p.did, p.timestamp),
                        DecodeStd(p.signature).value)
            && Challenges.VerifyAuth(w, dids, cs, r, now).1 == AuthResult(true, p.did, "")
  {
  }

  // What the statement of a valid answer names.
  ghost predicate Justified(w: World, run: seq<Event>, j: nat, k: nat, p: Presentation)
    requires j < |run| && run[j].request.VerifyAuth?
  {
    var r, now, dids := run[j].request.auth, run[j].now, Before(w, run, j).dids;
    k < j && Issued(w, run, k)
    && Presentations.Decode(r.presentation) == Some(p)
    && RandomId(run[k].request.challenge.idBytes) == r.challengeId == p.challengeId
    // in time: strictly within five minutes of issue
    && run[k].now <= now < run[k].now + 300 * SECOND
    // for the service that asked
    && (r.serviceId == "" || r.serviceId == run[k].request.challenge.serviceId)
    // signed over this challenge's nonce by the current key of the DID that is reported
    && p.did in dids && DecodeKey(dids[p.did].publicKeyBase64).Some? && DecodeStd(p.signature).Some?
    && w.verify(DecodeKey(dids[p.did].publicKeyBase64).value,
                AuthText(r.challengeId, RandomId(run[k].request.challenge.nonceBytes), p.did, p.timestamp),
                DecodeStd(p.signature).value)
    && AnswerAt(w, run, j) == Auth(AuthResult(true, p.did, ""))
    // made close to the challenge
    && run[k].now - 300 * SECOND <= p.timestamp * MILLISECOND < run[k].now + 330 * SECOND
  }

  lemma ValidIsJustified(w: World, run: seq<Event>, j: nat) returns (k: nat, p: Presentation)
    requires w.Lawful() && Clocked(run) && j < |run| && Accepted(w, run, j)
    ensures Justified(w, run, j, k, p)
  {
    var s, r := Before(w, run, j), run[j].request.auth;
    ValidNeeds(w, s.dids, s.challenges, r, run[j].now);
    p := Presentations.Decode(r.presentation).value;
    k := StoredWasIssued(w, run[..j], r.challengeId);
    assert run[..j][k] == run[k] && run[..j][..k] == run[..k];
    var expires := run[k].now + CHALLENGE_LIFE;
    assert w.parseTime(w.formatTime(expires)) == Some(TruncateTo(SECOND, expires));
  }

  // Each issued challenge yields at most one valid answer in the whole run:
  // after any attempt that consumed it, valid or not, no later one is valid.
  lemma AnsweredAtMostOnce(w: World, run: seq<Event>, i: nat, j: nat, id: string)
    requires FreshIds(run) && i < j < |run| && Consumes(w, run, i, id)
    requires run[j].request.VerifyAuth? && run[j].request.auth.challengeId == id
    ensures !Accepted(w, run, j)
  {
    ConsumedStaysGone(w, run, i, j, id);
  }

  lemma AcceptedConsumes(w: World, run: seq<Event>, i: nat)
    requires i < |run| && Accepted(w, run, i)
    ensures Consumes(w, run, i, run[i].request.auth.challengeId)
  {
    var s := Before(w, run, i);
    ValidNeeds(w, s.dids, s.challenges, run[i].request.auth, run[i].now);
  }

  lemma TwoValidAnswersDiffer(w: World, run: seq<Event>, i: nat, j: nat)
    requires FreshIds(run) && i < j < |run| && Accepted(w, run, i) && Accepted(w, run, j)
    ensures run[i].request.auth.challengeId != run[j].request.auth.challengeId
  {
    AcceptedConsumes(w, run, i);
    if run[i].request.auth.challengeId == run[j].request.auth.challengeId {
      AnsweredAtMostOnce(w, run, i, j, run[i].request.auth.challengeId);
    }
  }
}
