// Migrate and applyMigration as one process runs them, statement by statement,
// against a database other migrators are using at the same time. Every
// statement may fail, and between any two the others may do anything the
// transition system lets them do.
module Migrator {
  import opened Migrations

  datatype Outcome = Fine | Fails | CommitLost

  // What happens around this process's n-th statement.
  datatype Turn = Turn(others: seq<Action>, outcome: Outcome)

  predicate Concerns(a: Action, me: nat) {
    match a
    case Start => false
    case Advance(p) => p == me
    case Fail(p) => p == me
    case CommitThenFail(p) => p == me
  }

  lemma OthersKeepPhase(ms: seq<Migration>, s: System, a: Action, me: nat)
    requires me < |s.procs| && !Concerns(a, me)
    ensures me < |Next(ms, s, a).procs| && Next(ms, s, a).procs[me] == s.procs[me]
  {
  }

  // What a migrator does itself does not change who else blocks it.
  lemma MovedKeepsBlocked(s: System, me: nat, phase: Phase, i: nat)
    requires me < |s.procs|
    ensures Blocked(Moved(s, me, phase), me, i) <==> Blocked(s, me, i)
  {
    var t := Moved(s, me, phase);
    assert forall q | 0 <= q < |s.procs| && q != me :: t.procs[q] == s.procs[q];
  }

  lemma {:induction false} RunExtends(ms: seq<Migration>, history: seq<Action>, a: Action)
    ensures Run(ms, EMPTY, history + [a]) == Next(ms, Run(ms, EMPTY, history), a)
  {
    assert (history + [a])[..|history|] == history;
  }

  class Database {
    const ms: seq<Migration>
    const turns: nat -> Turn
    var turn: nat
    var sys: System
    ghost var history: seq<Action>

    // The statements of one call, counted by turns: none failed.
    predicate AllFine(from: nat, to: nat) {
      forall t | from < t <= to :: turns(t).outcome == Fine
    }

    // This process could not record migration i because another's open
    // transaction holds the same version.
    predicate Stuck(me: nat, i: nat)
      reads this
      requires i < |ms|
    {
      ms[i].version !in sys.records && Blocked(sys, me, i)
    }

    // None failed, and none was left waiting.
    predicate Undisturbed(me: nat, from: nat, to: nat)
      reads this
    {
      AllFine(from, to) && forall i | 0 <= i < |ms| :: !Stuck(me, i)
    }

    // A database some run of migrators has produced.
    ghost predicate Valid()
      reads this
    {
      DistinctVersions(ms) && sys == Run(ms, EMPTY, history)
    }

    constructor (ms: seq<Migration>, turns: nat -> Turn)
      requires DistinctVersions(ms)
      ensures Valid() && this.ms == ms && this.turns == turns && history == [] && sys == EMPTY
    {
      this.ms := ms;
      this.turns := turns;
      turn := 0;
      sys := EMPTY;
      history := [];
    }

    method Step(a: Action)
      requires Valid()
      modifies this`sys, this`history
      ensures Valid() && sys == Next(ms, old(sys), a) && history == old(history) + [a]
    {
      RunExtends(ms, history, a);
      sys := Next(ms, sys, a);
      history := history + [a];
    }

    // The other migrators' statements before this process's next one.
    method LetOthersRun(me: nat)
      requires Valid() && me < |sys.procs|
      modifies this
      ensures Valid() && old(history) <= history
      ensures me < |sys.procs| && sys.procs[me] == old(sys.procs)[me]
      ensures turn == old(turn) + 1
    {
      var others := turns(turn).others;
      turn := turn + 1;
      for i := 0 to |others|
        invariant Valid() && old(history) <= history && turn == old(turn) + 1
        invariant me < |sys.procs| && sys.procs[me] == old(sys.procs)[me]
      {
        if !Concerns(others[i], me) {
          OthersKeepPhase(ms, sys, others[i], me);
          Step(others[i]);
        }
      }
    }

    // CREATE TABLE IF NOT EXISTS schema_migrations
    method CreateTable(me: nat) returns (err: bool)
      requires Valid() && me < |sys.procs| && sys.procs[me] == Ready
      modifies this
      ensures Valid() && old(history) <= history && me < |sys.procs|
      ensures sys.procs[me] == if err then Returned(false) else Checking(0)
      ensures turn == old(turn) + 1 && (err <==> turns(turn).outcome != Fine)
    {
      LetOthersRun(me);
      err := turns(turn).outcome != Fine;
      Step(if err then Fail(me) else Advance(me));
    }

    // SELECT EXISTS(... WHERE version = $1)
    method MigrationApplied(me: nat, i: nat) returns (applied: bool, err: bool)
      requires Valid() && me < |sys.procs| && sys.procs[me] == Checking(i) && i < |ms|
      modifies this
      ensures Valid() && old(history) <= history && me < |sys.procs|
      ensures sys.procs[me] == if err then Returned(false) else if applied then Checking(i + 1) else Applying(i)
      ensures turn == old(turn) + 1 && (err <==> turns(turn).outcome != Fine)
    {
      LetOthersRun(me);
      err := turns(turn).outcome != Fine;
      applied := ms[i].version in sys.records;
      Step(if err then Fail(me) else Advance(me));
    }

    // BEGIN and the migration's SQL
    method ExecSql(me: nat, i: nat) returns (err: bool)
      requires Valid() && me < |sys.procs| && sys.procs[me] == Applying(i)
      modifies this
      ensures Valid() && old(history) <= history && me < |sys.procs|
      ensures sys.procs[me] == if err then Returned(false) else Executed(i)
      ensures turn == old(turn) + 1 && (err <==> turns(turn).outcome != Fine)
    {
      LetOthersRun(me);
      err := turns(turn).outcome != Fine;
      Step(if err then Fail(me) else Advance(me));
    }

    // INSERT INTO schema_migrations. It waits for another open insert of the
    // same version; if that one is still open at the deadline it is an error.
    method InsertRecord(me: nat, i: nat) returns (violation: bool, err: bool)
      requires Valid() && me < |sys.procs| && sys.procs[me] == Executed(i) && i < |ms|
      modifies this
      ensures Valid() && old(history) <= history && me < |sys.procs|
      ensures !(violation && err)
      ensures sys.procs[me] == if err then Returned(false) else if violation then Checking(i + 1) else Inserted(i)
      ensures turn == old(turn) + 1 && (err <==> turns(turn).outcome != Fine || Stuck(me, i))
      ensures violation ==> ms[i].version in sys.records
    {
      LetOthersRun(me);
      violation := ms[i].version in sys.records;
      err := turns(turn).outcome != Fine || (!violation && Blocked(sys, me, i));
      violation := violation && !err;
      MovedKeepsBlocked(sys, me, Returned(false), i);
      MovedKeepsBlocked(sys, me, Inserted(i), i);
      Step(if err then Fail(me) else Advance(me));
    }

    // COMMIT. It may take effect and still be reported as failed.
    method CommitTx(me: nat, i: nat) returns (err: bool)
      requires Valid() && me < |sys.procs| && sys.procs[me] == Inserted(i) && i < |ms|
      modifies this
      ensures Valid() && old(history) <= history && me < |sys.procs|
      ensures sys.procs[me] == if err then Returned(false) else Checking(i + 1)
      ensures turn == old(turn) + 1 && (err <==> turns(turn).outcome != Fine)
      ensures !err ==> ms[i].version in sys.records
    {
      LetOthersRun(me);
      var outcome := turns(turn).outcome;
      err := outcome != Fine;
      Step(match outcome case Fine => Advance(me) case Fails => Fail(me) case CommitLost => CommitThenFail(me));
    }
  }

  // It reports an error exactly when one of its statements failed, or its
  // insert waited on another's to the end. Losing the race to a migrator that
  // has committed the version is no error.
  method ApplyMigration(db: Database, me: nat, i: nat) returns (err: bool)
    requires db.Valid() && me < |db.sys.procs| && db.sys.procs[me] == Applying(i) && i < |db.ms|
    modifies db
    ensures db.Valid() && old(db.history) <= db.history && me < |db.sys.procs|
    ensures db.sys.procs[me] == if err then Returned(false) else Checking(i + 1)
    ensures old(db.turn) <= db.turn && (err <==> !db.AllFine(old(db.turn), db.turn) || db.Stuck(me, i))
    ensures !err ==> db.ms[i].version in db.sys.records
  {
    err := db.ExecSql(me, i);
    if err {
      return;
    }
    var violation: bool;
    violation, err := db.InsertRecord(me, i);
    if violation {
      return false;  // another migrator recorded it first
    }
    if err {
      return;
    }
    err := db.CommitTx(me, i);
  }

  // What a caller of Migrate may rely on, whatever the others did and whatever
  // failed: the database is one that migrators can produce, so its schema is
  // the recorded prefix of the list; nothing committed was undone; and success
  // means the whole list is applied. It succeeds exactly when every statement
  // did and no insert was left waiting.
  method Migrate(db: Database, me: nat) returns (ok: bool)
    requires db.Valid() && me < |db.sys.procs| && db.sys.procs[me] == Ready
    modifies db
    ensures db.Valid() && old(db.history) <= db.history
    ensures me < |db.sys.procs| && db.sys.procs[me] == Returned(ok)
    ensures old(db.sys.schema) <= db.sys.schema <= Versions(db.ms) && db.sys.records == db.sys.schema
    ensures ok ==> db.sys.schema == Versions(db.ms)
    ensures old(db.turn) <= db.turn && (ok <==> db.Undisturbed(me, old(db.turn), db.turn))
  {
    ghost var before, from := db.history, db.turn;
    var err := db.CreateTable(me);
    if err {
      ok := false;
    } else {
      ok := MigrateEach(db, me, from);
    }
    CallerMayRely(db, before, me, ok);
  }

  // The loop over the migrations.
  method MigrateEach(db: Database, me: nat, ghost from: nat) returns (ok: bool)
    requires db.Valid() && me < |db.sys.procs| && db.sys.procs[me] == Checking(0)
    requires from <= db.turn && db.AllFine(from, db.turn)
    modifies db
    ensures db.Valid() && old(db.history) <= db.history
    ensures me < |db.sys.procs| && db.sys.procs[me] == Returned(ok)
    ensures old(db.turn) <= db.turn
    ensures if ok then db.AllFine(from, db.turn) else !db.Undisturbed(me, from, db.turn)
  {
    for i := 0 to |db.ms|
      invariant db.Valid() && old(db.history) <= db.history
      invariant me < |db.sys.procs| && db.sys.procs[me] == Checking(i)
      invariant old(db.turn) <= db.turn && db.AllFine(from, db.turn)
    {
      ghost var mid := db.turn;
      var applied, err := db.MigrationApplied(me, i);
      if err {
        return false;
      }
      if applied {
        continue;
      }
      err := ApplyMigration(db, me, i);
      if err {
        Disturbed(db, me, i, from, mid + 1);
        return false;
      }
    }
    db.Step(Advance(me));
    return true;
  }

  lemma Disturbed(db: Database, me: nat, i: nat, from: nat, mid: nat)
    requires i < |db.ms| && from <= mid <= db.turn
    requires !db.AllFine(mid, db.turn) || db.Stuck(me, i)
    ensures !db.Undisturbed(me, from, db.turn)
  {
  }

  lemma CallerMayRely(db: Database, before: seq<Action>, me: nat, ok: bool)
    requires db.Valid() && before <= db.history
    requires me < |db.sys.procs| && db.sys.procs[me] == Returned(ok)
    ensures Run(db.ms, EMPTY, before).schema <= db.sys.schema <= Versions(db.ms)
    ensures db.sys.records == db.sys.schema
    ensures ok ==> db.sys.schema == Versions(db.ms) && forall i | 0 <= i < |db.ms| :: !db.Stuck(me, i)
  {
    var more := db.history[|before|..];
    assert before + more == db.history;
    InvRun(db.ms, EMPTY, before);
    InvRun(db.ms, EMPTY, db.history);
    RunConcat(db.ms, EMPTY, before, more);
    CommittedStays(db.ms, Run(db.ms, EMPTY, before), more);
    RecordsArePrefix(db.ms, db.history);
    if ok {
      SuccessMeansAllApplied(db.ms, db.history, me);
      assert forall i | 0 <= i < |db.ms| :: Versions(db.ms)[i] in db.sys.records;
    }
  }
}
