// The chain client between its two store calls. Each operation resolves (or
// looks for) a document under one lock and writes under another; in between,
// other operations may write. When does a write survive?
module StoreRaces {
  import opened Base64
  import opened World
  import opened DidRegistry

  // A call of RegisterDID (with the handler's check that the DID is free), UpdateDID or RevokeDID.
  datatype Operation =
    | Register(did: string, key: Bytes, at: Instant)
    | Update(did: string, key: Bytes, context: seq<string>, at: Instant)
    | Revoke(did: string, at: Instant)

  // `held` has the document each operation has prepared and not yet written.
  datatype State = State(dids: Dids, held: map<nat, DidDocument>)

  datatype Step = Resolve(op: nat) | Write(op: nat, now: Instant)

  // What an operation prepares from what it finds; nothing when it gives up.
  function Prepared(w: World, dids: Dids, op: Operation): map<string, DidDocument> {
    match op
    case Register(did, key, at) =>
      if did in dids then map[] else map[did := NewDocument(w, did, key, at)]
    case Update(did, key, context, at) =>
      if did !in dids || dids[did].deactivated then map[]
      else map[did := Updated(w, dids[did], key, context, at)]
    case Revoke(did, at) =>
      if did !in dids then map[] else map[did := dids[did].(deactivated := true)]
  }

  // The store's Update stamps the time of the write; its Create does not.
  function Stamped(w: World, op: Operation, doc: DidDocument, now: Instant): DidDocument {
    if op.Register? then doc else doc.(updated := w.formatTime(now))
  }

  function Next(w: World, ops: seq<Operation>, s: State, step: Step): State {
    if step.op >= |ops| then
      s
    else
      var op := ops[step.op];
      match step
      case Resolve(o) =>
        if o in s.held || op.did !in Prepared(w, s.dids, op) then s
        else s.(held := s.held[o := Prepared(w, s.dids, op)[op.did]])
      case Write(o, now) =>
        if o !in s.held then s
        else State(s.dids[s.held[o].id := Stamped(w, op, s.held[o], now)], s.held - {o})
  }

  // Documents are filed, and held, under their own id.
  ghost predicate Filed(ops: seq<Operation>, s: State) {
    (forall did | did in s.dids :: s.dids[did].id == did)
    && (forall o | o in s.held :: o < |ops| && s.held[o].id == ops[o].did)
  }

  lemma NextKeepsFiled(w: World, ops: seq<Operation>, s: State, step: Step)
    requires Filed(ops, s)
    ensures Filed(ops, Next(w, ops, s, step))
  {
  }

  // Undisturbed, an operation does what the client's method does in one go.
  lemma UndisturbedIsWhole(w: World, ops: seq<Operation>, s: State, o: nat, now: Instant)
    requires Filed(ops, s) && o < |ops| && o !in s.held
    ensures var op := ops[o];
            var after := Next(w, ops, Next(w, ops, s, Resolve(o)), Write(o, now));
            && after.held == s.held
            && after.dids == match op
                             case Register(did, key, at) =>
                               if did in s.dids then s.dids else s.dids[did := NewDocument(w, did, key, at)]
                             case Update(did, key, context, at) =>
                               if did !in s.dids || s.dids[did].deactivated then s.dids
                               else s.dids[did := DidRegistry.Updated(w, s.dids[did], key, context, now)]
                             case Revoke(did, at) =>
                               if did !in s.dids then s.dids
                               else s.dids[did := Deactivated(w, s.dids[did], now)]
  {
    var mid := Next(w, ops, s, Resolve(o));
    if o in mid.held {
      assert mid.held - {o} == s.held;
    }
  }

  // ---- A revocation ----

  predicate IsRevoked(s: State, did: string) {
    did in s.dids && s.dids[did].deactivated
  }

  // The DID is revoked now and after each of the steps.
  ghost predicate StaysRevoked(w: World, ops: seq<Operation>, s: State, steps: seq<Step>, did: string)
    decreases |steps|
  {
    IsRevoked(s, did) && (|steps| > 0 ==> StaysRevoked(w, ops, Next(w, ops, s, steps[0]), steps[1..], did))
  }

  // A document that was prepared while the DID was still active.
  predicate Stale(s: State, did: string, o: nat) {
    o in s.held && s.held[o].id == did && !s.held[o].deactivated
  }

  predicate Writes(steps: seq<Step>, o: nat) {
    exists m :: 0 <= m < |steps| && steps[m].Write? && steps[m].op == o
  }

  lemma WritesFirstOrLater(steps: seq<Step>, o: nat)
    requires |steps| > 0
    ensures Writes(steps, o) <==> (steps[0].Write? && steps[0].op == o) || Writes(steps[1..], o)
  {
    if Writes(steps, o) {
      var m :| 0 <= m < |steps| && steps[m].Write? && steps[m].op == o;
      if m > 0 {
        assert steps[1..][m - 1] == steps[m];
      }
    }
    if Writes(steps[1..], o) {
      var m :| 0 <= m < |steps[1..]| && steps[1..][m].Write? && steps[1..][m].op == o;
      assert steps[m + 1] == steps[1..][m];
    }
  }

  // Unless a stale document is written, a step leaves the DID revoked and makes no document stale.
  lemma RevokedStep(w: World, ops: seq<Operation>, s: State, step: Step, did: string)
    requires Filed(ops, s) && IsRevoked(s, did)
    ensures var s' := Next(w, ops, s, step);
            if step.Write? && Stale(s, did, step.op) then !IsRevoked(s', did)
            else IsRevoked(s', did) && forall o :: Stale(s', did, o) <==> Stale(s, did, o)
  {
  }

  // A revocation outlasts any steps of any operations exactly when none of
  // them writes a document prepared before it: updates prepared later give up.
  lemma {:induction false} RevocationSurvivesIff(w: World, ops: seq<Operation>, s: State, steps: seq<Step>, did: string)
    requires Filed(ops, s) && IsRevoked(s, did)
    ensures StaysRevoked(w, ops, s, steps, did) <==> forall o | Stale(s, did, o) :: !Writes(steps, o)
    decreases |steps|
  {
    if |steps| > 0 {
      var s' := Next(w, ops, s, steps[0]);
      RevokedStep(w, ops, s, steps[0], did);
      NextKeepsFiled(w, ops, s, steps[0]);
      forall o ensures Writes(steps, o) <==> (steps[0].Write? && steps[0].op == o) || Writes(steps[1..], o) {
        WritesFirstOrLater(steps, o);
      }
      if !(steps[0].Write? && Stale(s, did, steps[0].op)) {
        RevocationSurvivesIff(w, ops, s', steps[1..], did);
      }
    }
  }

  // ---- A registration ----

  // Some step stores a registration of the DID.
  ghost predicate RegistersAgain(w: World, ops: seq<Operation>, s: State, steps: seq<Step>, did: string)
    decreases |steps|
  {
    |steps| > 0 &&
    ((steps[0].Write? && Pending(ops, s, did, steps[0].op))
     || RegistersAgain(w, ops, Next(w, ops, s, steps[0]), steps[1..], did))
  }

  // A registration that found the DID free and has not been stored yet.
  predicate Pending(ops: seq<Operation>, s: State, did: string, o: nat) {
    o < |ops| && ops[o].Register? && ops[o].did == did && o in s.held
  }

  lemma RegisteredStep(w: World, ops: seq<Operation>, s: State, step: Step, did: string)
    requires Filed(ops, s) && did in s.dids
    ensures var s' := Next(w, ops, s, step);
            did in s'.dids
            && forall o :: Pending(ops, s', did, o) <==> Pending(ops, s, did, o) && !(step.Write? && step.op == o)
  {
  }

  // Once a DID is stored, it is registered over exactly by the registrations
  // that had found it free before: of two at once the later write wins.
  lemma {:induction false} RegisteredAgainIff(w: World, ops: seq<Operation>, s: State, steps: seq<Step>, did: string)
    requires Filed(ops, s) && did in s.dids
    ensures RegistersAgain(w, ops, s, steps, did) <==> exists o :: Pending(ops, s, did, o) && Writes(steps, o)
    decreases |steps|
  {
    if |steps| > 0 {
      var s' := Next(w, ops, s, steps[0]);
      RegisteredStep(w, ops, s, steps[0], did);
      NextKeepsFiled(w, ops, s, steps[0]);
      RegisteredAgainIff(w, ops, s', steps[1..], did);
      forall o ensures Writes(steps, o) <==> (steps[0].Write? && steps[0].op == o) || Writes(steps[1..], o) {
        WritesFirstOrLater(steps, o);
      }
      if exists o :: Pending(ops, s', did, o) && Writes(steps[1..], o) {
        var o :| Pending(ops, s', did, o) && Writes(steps[1..], o);
        assert Pending(ops, s, did, o) && Writes(steps, o);
      }
      if exists o :: Pending(ops, s, did, o) && Writes(steps, o) {
        var o :| Pending(ops, s, did, o) && Writes(steps, o);
        assert (steps[0].Write? && steps[0].op == o) || (Pending(ops, s', did, o) && Writes(steps[1..], o));
      }
    }
  }

  // ---- Instances ----

  // A rotation prepared before a whole revocation and written after it makes the DID active again.
  lemma RotationUndoesRevocation(w: World, s: State, did: string, key: Bytes, now: Instant)
    requires s.held == map[] && did in s.dids && s.dids[did].id == did && !s.dids[did].deactivated
    ensures var ops := [Update(did, key, [], now), Revoke(did, now)];
            var revoked := Next(w, ops, Next(w, ops, Next(w, ops, s, Resolve(0)), Resolve(1)), Write(1, now));
            IsRevoked(revoked, did) && !IsRevoked(Next(w, ops, revoked, Write(0, now)), did)
  {
  }
}
