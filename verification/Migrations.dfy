// Schema migrations run by any number of processes at once, each of which may
// fail or stop anywhere. The database commits a migration's schema change and
// its record in one transaction.
module Migrations {

  datatype Migration = Migration(version: int, name: string)

  // The list the gateway ships.
  const SHIPPED := [Migration(1, "create_dids"), Migration(2, "create_api_keys"), Migration(3, "create_credentials")]

  function Versions(ms: seq<Migration>): (vs: seq<int>)
    ensures |vs| == |ms| && forall i | 0 <= i < |ms| :: vs[i] == ms[i].version
  {
    seq(|ms|, i requires 0 <= i < |ms| => ms[i].version)
  }

  predicate DistinctVersions(ms: seq<Migration>) {
    forall i, j | 0 <= i < j < |ms| :: ms[i].version != ms[j].version
  }

  lemma ShippedIsDistinct()
    ensures DistinctVersions(SHIPPED) && Versions(SHIPPED) == [1, 2, 3]
  {
    assert |SHIPPED| == 3;
  }

  // ---- The transition system ----

  // Where a migrator stands: `i` is the migration it is at. Executed and
  // Inserted hold an open transaction, whose writes nobody else sees yet.
  datatype Phase =
    | Ready
    | Checking(i: nat)
    | Applying(i: nat)
    | Executed(i: nat)
    | Inserted(i: nat)
    | Returned(ok: bool)

  // `records` are the committed rows of schema_migrations, `schema` the
  // committed schema changes, both in commit order.
  datatype System = System(tableExists: bool, records: seq<int>, schema: seq<int>, procs: seq<Phase>)

  datatype Action =
    | Start                   // another migrator begins
    | Advance(p: nat)         // migrator p's next statement succeeds
    | Fail(p: nat)            // it fails, or p stops: an open transaction is rolled back
    | CommitThenFail(p: nat)  // the commit takes effect but p is told it failed

  const EMPTY := System(false, [], [], [])

  predicate Running(s: System, p: nat) {
    p < |s.procs| && !s.procs[p].Returned?
  }

  // Another open transaction has inserted the same version: the insert waits.
  predicate Blocked(s: System, p: nat, i: nat) {
    exists q | 0 <= q < |s.procs| :: q != p && s.procs[q] == Inserted(i)
  }

  function Commit(ms: seq<Migration>, s: System, i: nat): System
    requires i < |ms|
  {
    s.(records := s.records + [ms[i].version], schema := s.schema + [ms[i].version])
  }

  function Moved(s: System, p: nat, phase: Phase): System
    requires p < |s.procs|
  {
    s.(procs := s.procs[p := phase])
  }

  function Advanced(ms: seq<Migration>, s: System, p: nat): System
    requires Running(s, p)
  {
    match s.procs[p]
    case Ready => Moved(s, p, Checking(0)).(tableExists := true)
    case Checking(i) =>
      if i >= |ms| then Moved(s, p, Returned(true))
      else if ms[i].version in s.records then Moved(s, p, Checking(i + 1))
      else Moved(s, p, Applying(i))
    case Applying(i) => Moved(s, p, Executed(i))
    case Executed(i) =>
      if i >= |ms| then s
      else if ms[i].version in s.records then Moved(s, p, Checking(i + 1))  // unique violation, rolled back
      else if Blocked(s, p, i) then s
      else Moved(s, p, Inserted(i))
    case Inserted(i) =>
      if i >= |ms| then s else Moved(Commit(ms, s, i), p, Checking(i + 1))
  }

  function Next(ms: seq<Migration>, s: System, a: Action): System {
    match a
    case Start => s.(procs := s.procs + [Ready])
    case Advance(p) => if Running(s, p) then Advanced(ms, s, p) else s
    case Fail(p) => if Running(s, p) then Moved(s, p, Returned(false)) else s
    case CommitThenFail(p) =>
      if Running(s, p) && s.procs[p].Inserted? && s.procs[p].i < |ms| then
        Moved(Commit(ms, s, s.procs[p].i), p, Returned(false))
      else
        s
  }

  function Run(ms: seq<Migration>, s: System, actions: seq<Action>): System {
    if |actions| == 0 then s else Next(ms, Run(ms, s, actions[..|actions| - 1]), actions[|actions| - 1])
  }

  lemma {:induction false} RunConcat(ms: seq<Migration>, s: System, a: seq<Action>, b: seq<Action>)
    ensures Run(ms, s, a + b) == Run(ms, Run(ms, s, a), b)
  {
    if |b| == 0 {
      assert a + b == a;
    } else {
      assert (a + b)[..|a + b| - 1] == a + b[..|b| - 1];
      RunConcat(ms, s, a, b[..|b| - 1]);
    }
  }

  // ---- The invariant ----

  // A migrator at i has seen everything before i recorded; one that holds an
  // uncommitted record is alone in doing so and holds the very next one.
  predicate PhaseOk(ms: seq<Migration>, s: System, phase: Phase) {
    match phase
    case Ready => true
    case Checking(i) => s.tableExists && i <= |s.records|
    case Applying(i) => s.tableExists && i <= |s.records| && i < |ms|
    case Executed(i) => s.tableExists && i <= |s.records| && i < |ms|
    case Inserted(i) => s.tableExists && i == |s.records| && i < |ms|
    case Returned(ok) => ok ==> |s.records| == |ms|
  }

  ghost predicate Inv(ms: seq<Migration>, s: System) {
    |s.records| <= |ms|
    && s.records == Versions(ms)[..|s.records|]
    && s.schema == s.records
    && (forall p | 0 <= p < |s.procs| :: PhaseOk(ms, s, s.procs[p]))
    && (forall p, q | 0 <= p < q < |s.procs| :: !(s.procs[p].Inserted? && s.procs[q].Inserted?))
  }

  lemma RecordedIff(ms: seq<Migration>, s: System, i: nat)
    requires DistinctVersions(ms) && Inv(ms, s) && i < |ms|
    ensures ms[i].version in s.records <==> i < |s.records|
  {
    if i < |s.records| {
      assert s.records[i] == ms[i].version;
    }
  }

  lemma CommitKeepsPrefix(ms: seq<Migration>, s: System, p: nat, phase: Phase)
    requires DistinctVersions(ms) && Inv(ms, s)
    requires Running(s, p) && s.procs[p].Inserted?
    requires phase == Checking(s.procs[p].i + 1) || phase == Returned(false)
    ensures Inv(ms, Moved(Commit(ms, s, s.procs[p].i), p, phase))
  {
    var i := s.procs[p].i;
    var t := Moved(Commit(ms, s, i), p, phase);
    assert t.records == Versions(ms)[..i + 1];
    forall q | 0 <= q < |t.procs| ensures PhaseOk(ms, t, t.procs[q]) {
      if q != p {
        assert !s.procs[q].Inserted?;
      }
    }
  }

  lemma InvNext(ms: seq<Migration>, s: System, a: Action)
    requires DistinctVersions(ms) && Inv(ms, s)
    ensures Inv(ms, Next(ms, s, a))
  {
    match a
    case Start =>
    case Fail(p) =>
    case Advance(p) =>
      if Running(s, p) && s.procs[p].Inserted? {
        CommitKeepsPrefix(ms, s, p, Checking(s.procs[p].i + 1));
      } else if Running(s, p) {
        AdvanceKeeps(ms, s, p);
      }
    case CommitThenFail(p) =>
      if Running(s, p) && s.procs[p].Inserted? {
        CommitKeepsPrefix(ms, s, p, Returned(false));
      }
  }

  lemma AdvanceKeeps(ms: seq<Migration>, s: System, p: nat)
    requires DistinctVersions(ms) && Inv(ms, s)
    requires Running(s, p) && !s.procs[p].Inserted?
    ensures Inv(ms, Advanced(ms, s, p))
  {
    var t := Advanced(ms, s, p);
    match s.procs[p]
    case Checking(i) => if i < |ms| { RecordedIff(ms, s, i); }
    case Executed(i) =>
      RecordedIff(ms, s, i);
      assert forall q | 0 <= q < |s.procs| && s.procs[q].Inserted? :: s.procs[q] == Inserted(|s.records|);
    case _ =>
  }

  lemma {:induction false} InvRun(ms: seq<Migration>, s: System, actions: seq<Action>)
    requires DistinctVersions(ms) && Inv(ms, s)
    ensures Inv(ms, Run(ms, s, actions))
  {
    if |actions| > 0 {
      InvRun(ms, s, actions[..|actions| - 1]);
      InvNext(ms, Run(ms, s, actions[..|actions| - 1]), actions[|actions| - 1]);
    }
  }

  // What the database gains, it gains by a commit, record and schema change
  // together; a commit reported as failed has taken effect all the same, and a
  // failure of any other kind leaves nothing behind.
  lemma OnlyCommitsWrite(ms: seq<Migration>, s: System, a: Action)
    requires DistinctVersions(ms) && Inv(ms, s)
    ensures var t := Next(ms, s, a);
            var commits := (a.Advance? || a.CommitThenFail?) && Running(s, a.p) && s.procs[a.p].Inserted?;
            && (commits ==> t.records == s.records + [ms[s.procs[a.p].i].version]
                            && t.schema == s.schema + [ms[s.procs[a.p].i].version])
            && (!commits ==> t.records == s.records && t.schema == s.schema)
            && (a.Fail? && Running(s, a.p) ==> t.procs[a.p] == Returned(false))
            && (a.CommitThenFail? && commits ==> t.procs[a.p] == Returned(false))
  {
  }

  // ---- Main results, over every interleaving and every failure ----

  // The records are always a prefix of the list, each version once, and the
  // committed schema changes are exactly the recorded ones.
  lemma RecordsArePrefix(ms: seq<Migration>, actions: seq<Action>)
    requires DistinctVersions(ms)
    ensures var s := Run(ms, EMPTY, actions);
            && |s.records| <= |ms| && s.records == Versions(ms)[..|s.records|]
            && s.schema == s.records
            && forall i, j | 0 <= i < j < |s.schema| :: s.schema[i] != s.schema[j]
  {
    InvRun(ms, EMPTY, actions);
  }

  // A migrator that returned without error left every migration applied.
  lemma SuccessMeansAllApplied(ms: seq<Migration>, actions: seq<Action>, p: nat)
    requires DistinctVersions(ms)
    requires p < |Run(ms, EMPTY, actions).procs| && Run(ms, EMPTY, actions).procs[p] == Returned(true)
    ensures Run(ms, EMPTY, actions).schema == Versions(ms)
  {
    InvRun(ms, EMPTY, actions);
  }

  // Nothing committed is ever undone.
  lemma {:induction false} CommittedStays(ms: seq<Migration>, s: System, actions: seq<Action>)
    requires DistinctVersions(ms) && Inv(ms, s)
    ensures s.records <= Run(ms, s, actions).records && s.schema <= Run(ms, s, actions).schema
  {
    if |actions| > 0 {
      CommittedStays(ms, s, actions[..|actions| - 1]);
    }
  }

  // Once everything is applied no run of any migrators changes the database.
  lemma RerunChangesNothing(ms: seq<Migration>, before: seq<Action>, more: seq<Action>)
    requires DistinctVersions(ms)
    requires |Run(ms, EMPTY, before).records| == |ms|
    ensures var s, t := Run(ms, EMPTY, before), Run(ms, EMPTY, before + more);
            t.records == s.records && t.schema == s.schema
  {
    var s := Run(ms, EMPTY, before);
    RunConcat(ms, EMPTY, before, more);
    InvRun(ms, EMPTY, before);
    InvRun(ms, s, more);
    CommittedStays(ms, s, more);
  }

  // ---- A migrator left alone finishes ----

  // p's next n statements, with no other migrator moving.
  function Alone(ms: seq<Migration>, s: System, p: nat, n: nat): System
    decreases n
  {
    if n == 0 then s else Alone(ms, Next(ms, s, Advance(p)), p, n - 1)
  }

  function StepsLeft(ms: seq<Migration>, phase: Phase): int {
    match phase
    case Ready => 4 * |ms| + 2
    case Checking(i) => 4 * (|ms| - i) + 1
    case Applying(i) => 4 * (|ms| - i)
    case Executed(i) => 4 * (|ms| - i) - 1
    case Inserted(i) => 4 * (|ms| - i) - 2
    case Returned(_) => 0
  }

  predicate NobodyElseInserted(s: System, p: nat) {
    forall q | 0 <= q < |s.procs| && q != p :: !s.procs[q].Inserted?
  }

  lemma LoneStep(ms: seq<Migration>, s: System, p: nat)
    requires DistinctVersions(ms) && Inv(ms, s) && Running(s, p) && NobodyElseInserted(s, p)
    ensures var t := Next(ms, s, Advance(p));
            Inv(ms, t) && p < |t.procs| && t.procs[p] != Returned(false) && NobodyElseInserted(t, p)
            && 0 <= StepsLeft(ms, t.procs[p]) < StepsLeft(ms, s.procs[p]) <= 4 * |ms| + 2
  {
    InvNext(ms, s, Advance(p));
    if s.procs[p].Executed? {
      assert !Blocked(s, p, s.procs[p].i);
    }
  }

  // Whatever failures went before, a migrator that is not blocked by another's
  // open insert and whose statements succeed returns without error within
  // four statements per migration, and everything is then applied.
  lemma {:induction false} LoneMigratorFinishes(ms: seq<Migration>, s: System, p: nat) returns (n: nat)
    requires DistinctVersions(ms) && Inv(ms, s)
    requires p < |s.procs| && s.procs[p] != Returned(false) && NobodyElseInserted(s, p)
    ensures n <= 4 * |ms| + 2 && n <= StepsLeft(ms, s.procs[p])
    ensures var t := Alone(ms, s, p, n);
            p < |t.procs| && t.procs[p] == Returned(true) && t.schema == Versions(ms)
    decreases StepsLeft(ms, s.procs[p])
  {
    if s.procs[p].Returned? {
      n := 0;
      assert PhaseOk(ms, s, s.procs[p]);
    } else {
      LoneStep(ms, s, p);
      var m := LoneMigratorFinishes(ms, Next(ms, s, Advance(p)), p);
      n := m + 1;
    }
  }
}
