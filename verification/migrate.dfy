/** The two migration runners: server/db/migrate.ts, which runs each script inside its
    own transaction and logs to `_migrations`, and scripts/migrate.js, which runs scripts
    without a transaction, logs to `migrations` and tolerates a missing directory.

    A script's execution is an abstract outcome supplied by `outcome`. The database is
    the log table (whether it exists, and the names in it) and the sequence of schema
    effects the scripts left behind. */
module Migrate {
  import opened Wrappers
  import Strings
  import Sequences

  /** The error a failing step raises: a missing file or directory, or anything else. */
  datatype ErrorCode = Enoent | OtherError

  datatype ScriptOutcome = Succeeds | Fails(code: ErrorCode)

  /** A script's effect on the schema: all of it, or, outside a transaction, the
      statements that ran before the failing one (possibly none). */
  datatype Effect = Applied(name: string) | PartiallyApplied(name: string)

  datatype Db = Db(logTable: bool, log: set<string>, effects: seq<Effect>)

  /** The scripts attempted, in order, the database afterwards and the error the run
      ends with (`None`: it returns normally). */
  datatype RunResult = RunResult(db: Db, attempted: seq<string>, error: Option<ErrorCode>)

  predicate IsSqlName(name: string) {
    |name| >= 4 && name[|name| - 4..] == ".sql"
  }

  /** JavaScript's default `sort` comparison on file names. */
  const ByName: (string, string) -> bool := (a: string, b: string) => Strings.LexLe(a, b)

  lemma ByNameTotalPreorder()
    ensures Sequences.TotalPreorder(ByName)
  {
    forall a: string, b: string ensures ByName(a, b) || ByName(b, a) {
      Strings.LexLeTotal(a, b);
    }
    forall a: string, b: string, c: string | ByName(a, b) && ByName(b, c) ensures ByName(a, c) {
      Strings.LexLeTrans(a, b, c);
    }
  }

  /** `readdirSync(dir).filter(f => f.endsWith('.sql')).sort()`. */
  function SqlFiles(listing: seq<string>): (r: seq<string>)
    ensures multiset(r) == multiset(Sequences.Filter(IsSqlName, listing))
    ensures forall i | 0 <= i < |r| :: IsSqlName(r[i]) && r[i] in listing
    ensures Sequences.SortedBy(ByName, r)
  {
    ByNameTotalPreorder();
    var r := Sequences.SortBy(ByName, Sequences.Filter(IsSqlName, listing));
    Sequences.SortSorted(ByName, Sequences.Filter(IsSqlName, listing));
    assert forall i | 0 <= i < |r| :: r[i] in multiset(Sequences.Filter(IsSqlName, listing));
    r
  }

  /** The scripts of `files` not in the log read at the start of the run, in order. */
  function Pending(applied: set<string>, files: seq<string>): (r: seq<string>)
    ensures forall i | 0 <= i < |r| :: r[i] !in applied && r[i] in files
    ensures forall f | f in files && f !in applied :: f in r
  {
    if files == [] then []
    else if files[0] in applied then Pending(applied, files[1..])
    else [files[0]] + Pending(applied, files[1..])
  }

  function AppliedEffects(names: seq<string>): (r: seq<Effect>)
    ensures |r| == |names|
    ensures forall i | 0 <= i < |r| :: r[i] == Applied(names[i])
  {
    seq(|names|, i requires 0 <= i < |names| => Applied(names[i]))
  }

  /** The names a sequence of scripts logs. */
  function Names(s: seq<string>): set<string> {
    set f | f in s
  }

  /** The position of the first pending script that fails, or the number of pending
      scripts when none does. */
  function FirstFailure(pending: seq<string>, outcome: string -> ScriptOutcome): (k: nat)
    ensures k <= |pending|
    ensures forall i | 0 <= i < k :: outcome(pending[i]).Succeeds?
    ensures k < |pending| ==> outcome(pending[k]).Fails?
  {
    if pending == [] || outcome(pending[0]).Fails? then 0 else 1 + FirstFailure(pending[1..], outcome)
  }

  /** What a run over `pending` amounts to, stated in one step: the scripts before the
      first failure are applied and logged, the failing one is attempted and, outside a
      transaction, may leave part of itself behind, and nothing after it is attempted. */
  function RunOutcome(db: Db, pending: seq<string>, outcome: string -> ScriptOutcome, transactional: bool): RunResult {
    var k := FirstFailure(pending, outcome);
    var done := pending[..k];
    var db' := Db(db.logTable, db.log + Names(done), db.effects + AppliedEffects(done));
    if k == |pending| then RunResult(db', pending, None)
    else
      var db'' := if transactional then db' else db'.(effects := db'.effects + [PartiallyApplied(pending[k])]);
      RunResult(db'', pending[..k + 1], Some(outcome(pending[k]).code))
  }

  /** The loop over the sorted files. A script whose name was in the log when the run
      began is skipped; any other is executed and, if it succeeds, logged; the first
      failure ends the loop and is raised. */
  function ApplyAll(db: Db, applied: set<string>, files: seq<string>,
                    outcome: string -> ScriptOutcome, transactional: bool): (r: RunResult)
    decreases |files|
  {
    if files == [] then RunResult(db, [], None)
    else if files[0] in applied then ApplyAll(db, applied, files[1..], outcome, transactional)
    else
      var f := files[0];
      match outcome(f)
      case Fails(code) =>
        var db' := if transactional then db else db.(effects := db.effects + [PartiallyApplied(f)]);
        RunResult(db', [f], Some(code))
      case Succeeds =>
        var rest := ApplyAll(Db(db.logTable, db.log + {f}, db.effects + [Applied(f)]), applied, files[1..], outcome, transactional);
        RunResult(rest.db, [f] + rest.attempted, rest.error)
  }

  /** A first script that fails ends the run at once. */
  lemma RunOutcomeFails(db: Db, f: string, rest: seq<string>, outcome: string -> ScriptOutcome, transactional: bool)
    requires outcome(f).Fails?
    ensures RunOutcome(db, [f] + rest, outcome, transactional)
         == RunResult(if transactional then db else db.(effects := db.effects + [PartiallyApplied(f)]),
                      [f], Some(outcome(f).code))
  {
    var p := [f] + rest;
    assert FirstFailure(p, outcome) == 0;
    assert p[..0] == [] && p[..1] == [f];
    assert Names([]) == {};
    assert db.effects + AppliedEffects([]) == db.effects;
  }

  /** A first script that succeeds is logged and applied, and the run goes on with the rest. */
  lemma RunOutcomeSucceeds(db: Db, f: string, rest: seq<string>, outcome: string -> ScriptOutcome, transactional: bool)
    requires outcome(f).Succeeds?
    ensures var r := RunOutcome(Db(db.logTable, db.log + {f}, db.effects + [Applied(f)]), rest, outcome, transactional);
      RunOutcome(db, [f] + rest, outcome, transactional) == RunResult(r.db, [f] + r.attempted, r.error)
  {
    var p := [f] + rest;
    assert p[1..] == rest;
    var k := FirstFailure(rest, outcome);
    assert FirstFailure(p, outcome) == k + 1;
    assert p[..k + 1] == [f] + rest[..k];
    assert Names(p[..k + 1]) == {f} + Names(rest[..k]);
    assert AppliedEffects(p[..k + 1]) == [Applied(f)] + AppliedEffects(rest[..k]);
    assert db.effects + AppliedEffects(p[..k + 1]) == (db.effects + [Applied(f)]) + AppliedEffects(rest[..k]);
    assert db.log + Names(p[..k + 1]) == (db.log + {f}) + Names(rest[..k]);
    if k < |rest| {
      assert p[..k + 2] == [f] + rest[..k + 1];
      assert p[k + 1] == rest[k];
    }
  }

  /** The loop computes `RunOutcome` of the pending scripts. */
  lemma {:induction false} ApplyAllIsRunOutcome(db: Db, applied: set<string>, files: seq<string>,
                                                outcome: string -> ScriptOutcome, transactional: bool)
    decreases |files|
    ensures ApplyAll(db, applied, files, outcome, transactional)
         == RunOutcome(db, Pending(applied, files), outcome, transactional)
  {
    if files == [] {
      assert Pending(applied, files) == [];
      assert FirstFailure([], outcome) == 0;
      assert Names([]) == {};
      assert db.effects + AppliedEffects([]) == db.effects;
    } else {
      var f := files[0];
      if f in applied {
        ApplyAllIsRunOutcome(db, applied, files[1..], outcome, transactional);
      } else {
        assert Pending(applied, files) == [f] + Pending(applied, files[1..]);
        if outcome(f).Succeeds? {
          var db1 := Db(db.logTable, db.log + {f}, db.effects + [Applied(f)]);
          ApplyAllIsRunOutcome(db1, applied, files[1..], outcome, transactional);
          RunOutcomeSucceeds(db, f, Pending(applied, files[1..]), outcome, transactional);
        } else {
          RunOutcomeFails(db, f, Pending(applied, files[1..]), outcome, transactional);
        }
      }
    }
  }

  /** `CREATE TABLE IF NOT EXISTS`: creates an empty log, keeps an existing one. */
  function EnsureLogTable(db: Db): (db': Db)
    ensures db'.logTable
    ensures db'.log == (if db.logTable then db.log else {}) && db'.effects == db.effects
  {
    if db.logTable then db else Db(true, {}, db.effects)
  }

  /** The `.sql` files of the listing not yet in the log, in name order. */
  function PendingFiles(db: Db, listing: seq<string>): seq<string> {
    Pending(EnsureLogTable(db).log, SqlFiles(listing))
  }

  /** server/db/migrate.ts. The log is read once, before any script runs. `directory` is
      `None` when the migrations directory does not exist: `readdirSync` throws and the
      error propagates. Each script runs between `BEGIN` and `COMMIT`, and a failure
      rolls it back before rethrowing. */
  function RunTransactional(db: Db, directory: Option<seq<string>>, outcome: string -> ScriptOutcome): (r: RunResult)
    ensures r.db.logTable
    ensures directory.None? ==> r == RunResult(EnsureLogTable(db), [], Some(Enoent))
    ensures directory.Some? ==> r == RunOutcome(EnsureLogTable(db), PendingFiles(db, directory.value), outcome, true)
  {
    var db1 := EnsureLogTable(db);
    match directory
    case None => RunResult(db1, [], Some(Enoent))
    case Some(listing) =>
      ApplyAllIsRunOutcome(db1, db1.log, SqlFiles(listing), outcome, true);
      ApplyAll(db1, db1.log, SqlFiles(listing), outcome, true)
  }

  /** scripts/migrate.js. The same loop without a transaction. A missing directory, or
      any later step failing with ENOENT, is caught and the run returns normally; every
      other error propagates. */
  function RunScript(db: Db, directory: Option<seq<string>>, outcome: string -> ScriptOutcome): (r: RunResult)
    ensures r.db.logTable
    ensures directory.None? ==> r == RunResult(EnsureLogTable(db), [], None)
    ensures directory.Some? ==>
      var expected := RunOutcome(EnsureLogTable(db), PendingFiles(db, directory.value), outcome, false);
      r == if expected.error == Some(Enoent) then expected.(error := None) else expected
  {
    var db1 := EnsureLogTable(db);
    match directory
    case None => RunResult(db1, [], None)
    case Some(listing) =>
      ApplyAllIsRunOutcome(db1, db1.log, SqlFiles(listing), outcome, false);
      var r := ApplyAll(db1, db1.log, SqlFiles(listing), outcome, false);
      if r.error == Some(Enoent) then r.(error := None) else r
  }

  lemma FilterMember(f: string, listing: seq<string>)
    requires f in listing && IsSqlName(f)
    ensures f in multiset(Sequences.Filter(IsSqlName, listing))
  {
    Sequences.FilterCount(IsSqlName, listing, f);
  }

  lemma {:induction false} PendingSorted(applied: set<string>, files: seq<string>)
    requires Sequences.SortedBy(ByName, files)
    ensures Sequences.SortedBy(ByName, Pending(applied, files))
  {
    if files != [] {
      PendingSorted(applied, files[1..]);
      var p := Pending(applied, files[1..]);
      forall k | 0 <= k < |p| ensures ByName(files[0], p[k]) {
        var j :| 0 <= j < |files[1..]| && files[1..][j] == p[k];
        assert files[j + 1] == p[k];
      }
    }
  }

  /** Only `.sql` names are run, in ascending name order, and never one that the log
      held when the run began. */
  lemma RunsOnlyPendingSqlInOrder(db: Db, listing: seq<string>, outcome: string -> ScriptOutcome, transactional: bool)
    ensures var r := RunOutcome(EnsureLogTable(db), PendingFiles(db, listing), outcome, transactional);
      && Sequences.SortedBy(ByName, r.attempted)
      && forall f | f in r.attempted :: IsSqlName(f) && f in listing && f !in EnsureLogTable(db).log
  {
    var p := PendingFiles(db, listing);
    PendingSorted(EnsureLogTable(db).log, SqlFiles(listing));
    var r := RunOutcome(EnsureLogTable(db), p, outcome, transactional);
    assert r.attempted <= p;
  }

  /** When no script fails, the log afterwards is the old log together with every `.sql`
      name in the directory. */
  lemma SuccessfulRunLogsEverySqlName(db: Db, listing: seq<string>, outcome: string -> ScriptOutcome, transactional: bool)
    requires RunOutcome(EnsureLogTable(db), PendingFiles(db, listing), outcome, transactional).error.None?
    ensures RunOutcome(EnsureLogTable(db), PendingFiles(db, listing), outcome, transactional).db.log
         == EnsureLogTable(db).log + (set f | f in listing && IsSqlName(f))
  {
    var log := EnsureLogTable(db).log;
    var p := PendingFiles(db, listing);
    var r := RunOutcome(EnsureLogTable(db), p, outcome, transactional);
    assert FirstFailure(p, outcome) == |p|;
    assert p[..|p|] == p;
    assert r.db.log == log + Names(p);
    forall f | f in listing && IsSqlName(f) ensures f in log + Names(p) {
      SqlFileListed(f, listing);
    }
  }

  lemma SqlFileListed(f: string, listing: seq<string>)
    requires f in listing && IsSqlName(f)
    ensures f in SqlFiles(listing)
  {
    FilterMember(f, listing);
    assert f in multiset(SqlFiles(listing));
  }

  /** A run over `pending` that meets a failure at position `k`. */
  lemma RunOutcomeStopsAtFailure(db: Db, pending: seq<string>, outcome: string -> ScriptOutcome, transactional: bool)
    requires FirstFailure(pending, outcome) < |pending|
    ensures var r := RunOutcome(db, pending, outcome, transactional);
      var k := FirstFailure(pending, outcome);
      && r.attempted == pending[..k + 1]
      && r.error == Some(outcome(pending[k]).code)
      && r.db.log == db.log + Names(pending[..k])
      && r.db.effects == db.effects + AppliedEffects(pending[..k])
                         + (if transactional then [] else [PartiallyApplied(pending[k])])
  {
  }

  /** A failure of the k-th pending script under migrate.ts: the scripts before it stay
      applied and logged, it is rolled back and not logged, nothing after it is
      attempted, and its error propagates. */
  lemma TransactionalFailure(db: Db, listing: seq<string>, outcome: string -> ScriptOutcome)
    requires RunTransactional(db, Some(listing), outcome).error.Some?
    ensures var r := RunTransactional(db, Some(listing), outcome);
      var p := PendingFiles(db, listing);
      var k := |r.attempted| - 1;
      && 0 <= k < |p|
      && r.attempted == p[..k + 1]
      && outcome(p[k]) == Fails(r.error.value)
      && p[k] !in EnsureLogTable(db).log
      && r.db.log == EnsureLogTable(db).log + Names(p[..k])
      && r.db.effects == db.effects + AppliedEffects(p[..k])
  {
  }

  /** The same failure under migrate.js: the script is not logged and nothing after it
      runs, but the statements it ran before failing stay; the error is rethrown unless
      it is ENOENT, in which case the run returns normally. */
  lemma ScriptFailure(db: Db, listing: seq<string>, outcome: string -> ScriptOutcome)
    requires FirstFailure(PendingFiles(db, listing), outcome) < |PendingFiles(db, listing)|
    ensures var r := RunScript(db, Some(listing), outcome);
      var p := PendingFiles(db, listing);
      var k := FirstFailure(p, outcome);
      && r.attempted == p[..k + 1]
      && r.db.log == EnsureLogTable(db).log + Names(p[..k])
      && r.db.effects == db.effects + AppliedEffects(p[..k]) + [PartiallyApplied(p[k])]
      && r.error == (if outcome(p[k]) == Fails(Enoent) then None else Some(OtherError))
  {
    var p := PendingFiles(db, listing);
    var db1 := EnsureLogTable(db);
    RunOutcomeStopsAtFailure(db1, p, outcome, false);
    var k := FirstFailure(p, outcome);
    var e := RunOutcome(db1, p, outcome, false);
    var r := RunScript(db, Some(listing), outcome);
    assert r.db == e.db && r.attempted == e.attempted;
    assert outcome(p[k]).Fails?;
    if outcome(p[k]).code == Enoent {
      assert r.error == None;
    } else {
      assert r.error == Some(OtherError);
    }
  }

  lemma {:induction false} NothingPendingWhenAllLogged(log: set<string>, files: seq<string>)
    requires forall f | f in files :: f in log
    ensures Pending(log, files) == []
  {
    if files != [] {
      NothingPendingWhenAllLogged(log, files[1..]);
    }
  }

  /** Running migrate.ts again over the same directory after a run that ended normally
      executes nothing and leaves the database as it was. */
  lemma TransactionalRerunIsNoOp(db: Db, listing: seq<string>, outcome1: string -> ScriptOutcome, outcome2: string -> ScriptOutcome)
    requires RunTransactional(db, Some(listing), outcome1).error.None?
    ensures var db' := RunTransactional(db, Some(listing), outcome1).db;
      RunTransactional(db', Some(listing), outcome2) == RunResult(db', [], None)
  {
    SuccessfulRunLogsEverySqlName(db, listing, outcome1, true);
    var db' := RunTransactional(db, Some(listing), outcome1).db;
    NothingPendingWhenAllLogged(db'.log, SqlFiles(listing));
    NothingToRun(db', PendingFiles(db', listing), outcome2, true);
  }

  /** With nothing pending, a run leaves the database as it found it. */
  lemma NothingToRun(db: Db, pending: seq<string>, outcome: string -> ScriptOutcome, transactional: bool)
    requires pending == []
    ensures RunOutcome(db, pending, outcome, transactional) == RunResult(db, [], None)
  {
    assert Names([]) == {};
    assert AppliedEffects([]) == [];
  }

  /** Running migrate.js again over the same directory after a run in which every script
      succeeded executes nothing and leaves the database as it was. */
  lemma ScriptRerunIsNoOp(db: Db, listing: seq<string>, outcome1: string -> ScriptOutcome, outcome2: string -> ScriptOutcome)
    requires FirstFailure(PendingFiles(db, listing), outcome1) == |PendingFiles(db, listing)|
    ensures var db' := RunScript(db, Some(listing), outcome1).db;
      RunScript(db', Some(listing), outcome2) == RunResult(db', [], None)
  {
    var p := PendingFiles(db, listing);
    var first := RunOutcome(EnsureLogTable(db), p, outcome1, false);
    assert first.error.None?;
    assert RunScript(db, Some(listing), outcome1) == first;
    SuccessfulRunLogsEverySqlName(db, listing, outcome1, false);
    var db' := first.db;
    assert EnsureLogTable(db') == db';
    NothingPendingWhenAllLogged(db'.log, SqlFiles(listing));
    NothingToRun(db', PendingFiles(db', listing), outcome2, false);
  }
}
