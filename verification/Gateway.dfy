// The gateway as a state machine: each HTTP request is one atomic step with
// one clock reading. A run is any sequence of requests, honest or not.
module Gateway {
  import opened Wrappers
  import opened World
  import DidRegistry
  import Challenges
  import Credentials

  datatype State = State(
    dids: DidRegistry.Dids, challenges: Challenges.ChallengeMap, records: Credentials.Records)

  datatype Request =
    | RegisterDid(register: DidRegistry.RegisterRequest)
    | RevokeDid(revoke: DidRegistry.RevokeRequest)
    | UpdateDid(update: DidRegistry.UpdateRequest)
    | CreateChallenge(challenge: Challenges.ChallengeRequest)
    | VerifyAuth(auth: Challenges.AuthRequest)
    | IssueCredential(payload: Option<Credentials.Payload>)
    | RevokeCredential(id: string, reason: string)
    | VerifyCredential(id: string)

  datatype Answer =
    | Plain(reply: Reply)
    | Auth(result: Challenges.AuthResult)
    | Status(verdict: Credentials.Verdict)

  datatype Event = Event(request: Request, now: Instant)

  const INITIAL := State(map[], map[], map[])

  // Each part of the state is changed by its own requests only.
  ghost function NextDids(w: World, dids: DidRegistry.Dids, e: Event): DidRegistry.Dids {
    match e.request
    case RegisterDid(r) => DidRegistry.Register(w, dids, r, e.now).0
    case RevokeDid(r) => DidRegistry.Revoke(w, dids, r, e.now).0
    case UpdateDid(r) => DidRegistry.Update(w, dids, r, e.now).0
    case _ => dids
  }

  ghost function NextChallenges(
    w: World, dids: DidRegistry.Dids, cs: Challenges.ChallengeMap, e: Event): Challenges.ChallengeMap
  {
    match e.request
    case CreateChallenge(r) => Challenges.CreateChallenge(w, cs, r, e.now).0
    case VerifyAuth(r) => Challenges.VerifyAuth(w, dids, cs, r, e.now).0
    case _ => cs
  }

  ghost function NextRecords(w: World, dids: DidRegistry.Dids, rs: Credentials.Records, e: Event): Credentials.Records {
    match e.request
    case IssueCredential(p) => Credentials.Issue(w, dids, rs, p, e.now).0
    case RevokeCredential(id, reason) => Credentials.RevokeCredential(w, rs, id, reason, e.now).0
    case _ => rs
  }

  ghost function Respond(w: World, s: State, e: Event): Answer {
    match e.request
    case RegisterDid(r) => Plain(DidRegistry.Register(w, s.dids, r, e.now).1)
    case RevokeDid(r) => Plain(DidRegistry.Revoke(w, s.dids, r, e.now).1)
    case UpdateDid(r) => Plain(DidRegistry.Update(w, s.dids, r, e.now).1)
    case CreateChallenge(r) => Plain(Challenges.CreateChallenge(w, s.challenges, r, e.now).1)
    case VerifyAuth(r) => Auth(Challenges.VerifyAuth(w, s.dids, s.challenges, r, e.now).1)
    case IssueCredential(p) => Plain(Credentials.Issue(w, s.dids, s.records, p, e.now).1)
    case RevokeCredential(id, reason) => Plain(Credentials.RevokeCredential(w, s.records, id, reason, e.now).1)
    case VerifyCredential(id) => Status(Credentials.VerifyCredential(w, s.dids, s.records, id, e.now))
  }

  ghost function Step(w: World, s: State, e: Event): (State, Answer) {
    (State(NextDids(w, s.dids, e), NextChallenges(w, s.dids, s.challenges, e), NextRecords(w, s.dids, s.records, e)),
     Respond(w, s, e))
  }

  ghost function After(w: World, run: seq<Event>): State {
    if |run| == 0 then INITIAL else Step(w, After(w, run[..|run| - 1]), run[|run| - 1]).0
  }

  // The state the i-th request finds, and the answer it gets.
  ghost function Before(w: World, run: seq<Event>, i: nat): State
    requires i < |run|
  {
    After(w, run[..i])
  }

  ghost function AnswerAt(w: World, run: seq<Event>, i: nat): Answer
    requires i < |run|
  {
    Step(w, Before(w, run, i), run[i]).1
  }

  lemma AfterStep(w: World, run: seq<Event>, i: nat)
    requires i < |run|
    ensures After(w, run[..i + 1]) == Step(w, After(w, run[..i]), run[i]).0
  {
    assert run[..i + 1][..i] == run[..i];
  }

  predicate Clocked(run: seq<Event>) {
    forall i, j | 0 <= i <= j < |run| :: run[i].now <= run[j].now
  }

  // What every step keeps of the entry under a key, the whole path keeps, if
  // the relation is reflexive and transitive.
  lemma {:induction false} PathContinues<V>(
    path: seq<map<string, V>>, keeps: (V, V) -> bool, i: nat, j: nat, key: string)
    requires (forall v :: keeps(v, v)) && (forall a, b, c | keeps(a, b) && keeps(b, c) :: keeps(a, c))
    requires i <= j < |path| && key in path[i]
    requires forall k | 0 <= k < |path| - 1 && key in path[k] ::
               key in path[k + 1] && keeps(path[k][key], path[k + 1][key])
    ensures key in path[j] && keeps(path[i][key], path[j][key])
    decreases j
  {
    if i < j {
      PathContinues(path, keeps, i, j - 1, key);
      assert j == j - 1 + 1;
    }
  }
}
