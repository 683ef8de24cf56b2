// The gateway put together: its handlers over their stores carry out, request
// by request, exactly the steps of the state machine.
module Server {
  import opened World
  import opened Gateway
  import DidRegistry
  import Challenges
  import Credentials

  class Server {
    const w: World
    const didHandler: DidRegistry.DidHandler
    const verifyHandler: Challenges.VerifyHandler
    const credentialHandler: Credentials.CredentialHandler

    // All handlers share one chain client.
    ghost predicate Wired() {
      didHandler.w == w && didHandler.Wired()
      && verifyHandler.w == w && verifyHandler.chain == didHandler.chain
      && credentialHandler.w == w && credentialHandler.chain == didHandler.chain && credentialHandler.store.w == w
    }

    function Contents(): State
      reads didHandler.chain.store, verifyHandler.challengeStore, credentialHandler.store
    {
      State(didHandler.chain.store.dids, verifyHandler.challengeStore.challenges, credentialHandler.store.credentials)
    }

    // NewRouter's wiring over empty in-memory stores.
    constructor (w: World)
      ensures Wired() && this.w == w && Contents() == INITIAL
      ensures fresh(didHandler.chain.store) && fresh(verifyHandler.challengeStore) && fresh(credentialHandler.store)
    {
      var dids := new DidRegistry.MemoryDidStore(w);
      var chain := new DidRegistry.Client(w, dids);
      var challenges := new Challenges.MemoryChallengeStore();
      var credentials := new Credentials.MemoryCredentialStore(w);
      this.w := w;
      didHandler := new DidRegistry.DidHandler(w, chain);
      verifyHandler := new Challenges.VerifyHandler(w, chain, challenges);
      credentialHandler := new Credentials.CredentialHandler(w, chain, credentials);
    }

    method Handle(request: Request, now: Instant) returns (answer: Answer)
      requires Wired()
      modifies didHandler.chain.store, verifyHandler.challengeStore, credentialHandler.store
      ensures (Contents(), answer) == Step(w, old(Contents()), Event(request, now))
    {
      match request
      case RegisterDid(r) =>
        var reply := didHandler.HandleRegister(r, now);
        answer := Plain(reply);
      case RevokeDid(r) =>
        var reply := didHandler.HandleRevoke(r, now);
        answer := Plain(reply);
      case UpdateDid(r) =>
        var reply := didHandler.HandleUpdate(r, now);
        answer := Plain(reply);
      case CreateChallenge(r) =>
        var reply := verifyHandler.HandleCreate(r, now);
        answer := Plain(reply);
      case VerifyAuth(r) =>
        var result := verifyHandler.HandleVerify(r, now);
        answer := Auth(result);
      case IssueCredential(payload) =>
        var reply := credentialHandler.HandleIssue(payload, now);
        answer := Plain(reply);
      case RevokeCredential(id, reason) =>
        var reply := credentialHandler.HandleRevoke(id, reason, now);
        answer := Plain(reply);
      case VerifyCredential(id) =>
        var verdict := credentialHandler.HandleVerify(id, now);
        answer := Status(verdict);
    }
  }
}
