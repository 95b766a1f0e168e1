/** Jobs which nobody disturbs: a writer can always get through, and what it then leaves in the database. */
module ForgeJobs {
  import opened Basics
  import T = Transactions
  import opened Forge

  /** The actions can be taken one after the other and lead from `s` to `s'`. */
  ghost predicate Leads(hash: Header -> Hash, s: System, actions: seq<Action>, s': System)
    decreases |actions|
  {
    if actions == [] then s' == s
    else Enabled(hash, s, actions[0]) && Leads(hash, Next(hash, s, actions[0]), actions[1..], s')
  }

  lemma {:induction false} LeadsOn(
    hash: Header -> Hash, s: System, a: seq<Action>, s': System, b: seq<Action>, s'': System)
    requires Leads(hash, s, a, s') && Leads(hash, s', b, s'')
    ensures Leads(hash, s, a + b, s'')
    decreases |a|
  {
    if a == [] {
      assert a + b == b;
    } else {
      LeadsOn(hash, Next(hash, s, a[0]), a[1..], s', b, s'');
      assert (a + b)[1..] == a[1..] + b;
    }
  }

  lemma LeadsOne(hash: Header -> Hash, s: System, a: Action, s': System)
    requires Enabled(hash, s, a) && s' == Next(hash, s, a)
    ensures Leads(hash, s, [a], s')
  {
    assert [a][1..] == [];
  }

  /** Nobody is in a transaction. */
  ghost function Idle(db: Db, jobs: map<nat, Local>): (s: System)
  {
    System(T.Init(db), jobs)
  }

  /** Process `p` is in a transaction with these writes so far. */
  ghost function Within(db: Db, jobs: map<nat, Local>, p: nat, local: Local, writes: seq<Write>): (s: System)
  {
    System(T.Open(db, p, writes), jobs[p := local])
  }

  lemma AcquireLeads(hash: Header -> Hash, db: Db, jobs: map<nat, Local>, p: nat, job: Job, acquired: System)
    requires p !in jobs
    requires acquired == System(T.State(0, T.Free, None, map[p := T.Acquired], map[], db, false), jobs[p := Beginning(job)])
    ensures Leads(hash, Idle(db, jobs), [Call(p, job)] + [Store(T.Acquire(p))], acquired)
  {
    var s := Idle(db, jobs);
    var called := Next(hash, s, Call(p, job));
    LeadsOne(hash, s, Call(p, job), called);
    LeadsOne(hash, called, Store(T.Acquire(p)), acquired);
    LeadsOn(hash, s, [Call(p, job)], called, [Store(T.Acquire(p))], acquired);
  }

  lemma BeginLeads(hash: Header -> Hash, db: Db, jobs: map<nat, Local>, p: nat, job: Job, acquired: System)
    requires acquired == System(T.State(0, T.Free, None, map[p := T.Acquired], map[], db, false), jobs[p := Beginning(job)])
    ensures Leads(hash, acquired, [Store(T.LockSlot(p))] + [Store(T.BeginOk(p))], Within(db, jobs, p, Reading(job), []))
  {
    var begun := Within(db, jobs, p, Reading(job), []);
    var locked := Next(hash, acquired, Store(T.LockSlot(p)));
    assert locked.store.holders == map[p := T.Opening];
    assert Next(hash, locked, Store(T.BeginOk(p))).jobs == begun.jobs;
    assert Next(hash, locked, Store(T.BeginOk(p))).store.holders == begun.store.holders;
    LeadsOne(hash, acquired, Store(T.LockSlot(p)), locked);
    LeadsOne(hash, locked, Store(T.BeginOk(p)), begun);
    LeadsOn(hash, acquired, [Store(T.LockSlot(p))], locked, [Store(T.BeginOk(p))], begun);
  }

  lemma StartLeads(hash: Header -> Hash, db: Db, jobs: map<nat, Local>, p: nat, job: Job)
    returns (actions: seq<Action>)
    requires p !in jobs
    ensures Leads(hash, Idle(db, jobs), actions, Within(db, jobs, p, Reading(job), []))
  {
    var acquired := System(T.State(0, T.Free, None, map[p := T.Acquired], map[], db, false), jobs[p := Beginning(job)]);
    var begin := [Store(T.LockSlot(p))] + [Store(T.BeginOk(p))];
    AcquireLeads(hash, db, jobs, p, job, acquired);
    BeginLeads(hash, db, jobs, p, job, acquired);
    actions := [Call(p, job)] + [Store(T.Acquire(p))];
    LeadsOn(hash, Idle(db, jobs), actions, acquired, begin, Within(db, jobs, p, Reading(job), []));
    actions := actions + begin;
  }

  lemma QueryLeads(hash: Header -> Hash, s: System, p: nat, a: Action, s': System)
    requires Enabled(hash, s, Store(T.QueryStart(p))) && Enabled(hash, Next(hash, s, Store(T.QueryStart(p))), a)
    requires s' == Next(hash, Next(hash, s, Store(T.QueryStart(p))), a)
    ensures Leads(hash, s, [Store(T.QueryStart(p))] + [a], s')
  {
    var started := Next(hash, s, Store(T.QueryStart(p)));
    LeadsOne(hash, s, Store(T.QueryStart(p)), started);
    LeadsOne(hash, started, a, s');
    LeadsOn(hash, s, [Store(T.QueryStart(p))], started, [a], s');
  }

  lemma ReadLeads(
    hash: Header -> Hash, db: Db, jobs: map<nat, Local>, p: nat, job: Job, latest: Option<Header>)
    returns (actions: seq<Action>)
    requires IsLatest(hash, db, AuthorOf(job), LogOf(job), latest)
    requires latest.Some? ==> latest.value.seqNum + 1 < SEQ_LIMIT
    ensures Leads(hash, Within(db, jobs, p, Reading(job), []), actions,
                  Within(db, jobs, p, Plan(hash, job, latest, IsStored(hash, db, job)), []))
  {
    var s := Within(db, jobs, p, Reading(job), []);
    var stored := IsStored(hash, db, job);
    var a := Read(p, latest, stored);
    var s' := Within(db, jobs, p, Plan(hash, job, latest, stored), []);
    var started := Next(hash, s, Store(T.QueryStart(p)));
    assert View(hash, started) == db;
    assert Next(hash, started, a).jobs == s'.jobs;
    QueryLeads(hash, s, p, a, s');
    actions := [Store(T.QueryStart(p))] + [a];
  }

  lemma {:induction false} WritesLead(
    hash: Header -> Hash, db: Db, jobs: map<nat, Local>, p: nat, done: seq<Write>, plan: seq<Write>)
    returns (actions: seq<Action>)
    ensures Leads(hash, Within(db, jobs, p, Writing(plan), done), actions,
                  Within(db, jobs, p, Writing([]), done + plan))
    decreases |plan|
  {
    if plan == [] {
      actions := [];
      assert done + plan == done;
    } else {
      var s, s' := Within(db, jobs, p, Writing(plan), done), Within(db, jobs, p, Writing(plan[1..]), done + [plan[0]]);
      assert Next(hash, Next(hash, s, Store(T.QueryStart(p))), Wrote(p)).jobs == s'.jobs;
      QueryLeads(hash, s, p, Wrote(p), s');
      var rest := WritesLead(hash, db, jobs, p, done + [plan[0]], plan[1..]);
      assert done + [plan[0]] + plan[1..] == done + plan;
      actions := [Store(T.QueryStart(p))] + [Wrote(p)];
      LeadsOn(hash, s, actions, s', rest, Within(db, jobs, p, Writing([]), done + plan));
      actions := actions + rest;
    }
  }

  lemma CommitLeads(hash: Header -> Hash, db: Db, jobs: map<nat, Local>, p: nat, writes: seq<Write>)
    returns (actions: seq<Action>)
    requires p !in jobs
    ensures Leads(hash, Within(db, jobs, p, Writing([]), writes), actions,
                  Idle(T.Fold(Applier(hash), db, writes), jobs))
  {
    var s, s' := Within(db, jobs, p, Writing([]), writes), Idle(T.Fold(Applier(hash), db, writes), jobs);
    var take, end := Store(T.CommitTake(p)), Store(T.CommitEnd(p, true));
    var taken := Next(hash, s, take);
    assert Next(hash, taken, end).jobs == jobs;
    assert taken.store.holders - {p} == map[];
    LeadsOne(hash, s, take, taken);
    LeadsOne(hash, taken, end, s');
    LeadsOn(hash, s, [take], taken, [end], s');
    actions := [take] + [end];
  }

  lemma TaskLeads(hash: Header -> Hash, db: Db, jobs: map<nat, Local>, dropped: System)
    requires dropped == System(T.State(0, T.Free, Some([]), map[], map[0 := T.Waiting], db, false), jobs)
    ensures Leads(hash, dropped, [Store(T.TaskTake(0))] + [Store(T.TaskEnd(0))], Idle(db, jobs))
  {
    var take, end := Store(T.TaskTake(0)), Store(T.TaskEnd(0));
    var taken := Next(hash, dropped, take);
    assert taken.store.tasks - {0} == map[];
    LeadsOne(hash, dropped, take, taken);
    LeadsOne(hash, taken, end, Idle(db, jobs));
    LeadsOn(hash, dropped, [take], taken, [end], Idle(db, jobs));
  }

  /** A process with nothing to write drops its permit, and the transaction is rolled back. */
  lemma GiveUpLeads(hash: Header -> Hash, db: Db, jobs: map<nat, Local>, p: nat) returns (actions: seq<Action>)
    requires p !in jobs
    ensures Leads(hash, Within(db, jobs, p, Failed, []), actions, Idle(db, jobs))
  {
    var s, drop := Within(db, jobs, p, Failed, []), Store(T.PermitDropped(p, 0));
    var dropped := System(T.State(0, T.Free, Some([]), map[], map[0 := T.Waiting], db, false), jobs);
    assert Next(hash, s, drop).jobs == jobs;
    assert Next(hash, s, drop).store.holders == map[];
    LeadsOne(hash, s, drop, dropped);
    TaskLeads(hash, db, jobs, dropped);
    var rest := [Store(T.TaskTake(0))] + [Store(T.TaskEnd(0))];
    LeadsOn(hash, s, [drop], dropped, rest, Idle(db, jobs));
    actions := [drop] + rest;
  }

  /** The highest entry of a log among some rows. */
  lemma {:induction false} HighestExists(db: Db, author: Author, log: LogId, keys: set<Hash>) returns (r: Option<Hash>)
    ensures r.None? ==> forall key :: key in keys ==> !InLog(db, key, author, log)
    ensures r.Some? ==> r.value in keys && InLog(db, r.value, author, log)
    ensures r.Some? ==> forall key :: key in keys && InLog(db, key, author, log) ==>
              db.operations[key].header.seqNum <= db.operations[r.value].header.seqNum
    decreases keys
  {
    if keys == {} {
      r := None;
    } else {
      var k :| k in keys;
      r := HighestExists(db, author, log, keys - {k});
      if InLog(db, k, author, log)
         && (r.None? || db.operations[r.value].header.seqNum < db.operations[k].header.seqNum) {
        r := Some(k);
      }
    }
  }

  lemma LatestExists(hash: Header -> Hash, db: Db, author: Author, log: LogId) returns (latest: Option<Header>)
    requires ForkFree(hash, db)
    ensures IsLatest(hash, db, author, log, latest)
  {
    var key := HighestExists(db, author, log, db.operations.Keys);
    latest := if key.None? then None else Some(db.operations[key.value].header);
  }

  /** The log has room for one more sequence number. */
  ghost predicate HasRoom(db: Db, author: Author, log: LogId)
  {
    forall key :: InLog(db, key, author, log) ==> db.operations[key].header.seqNum + 1 < SEQ_LIMIT
  }

  /** What the job leaves behind: its entry at the end of the log, or nothing if there is no such entry to write. */
  ghost predicate Outcome(hash: Header -> Hash, db: Db, job: Job, db': Db)
  {
    if job.Create? || (Continues(hash, db, job.entry) && !IsStored(hash, db, job))
    then exists entry :: JobDone(hash, db, db', job, entry) && Continues(hash, db, entry) && AtEnd(hash, db, db', entry)
    else db' == db
  }

  /** The entry is now the latest one of its log, unless its hash was taken. */
  ghost predicate AtEnd(hash: Header -> Hash, db: Db, db': Db, entry: Entry)
  {
    hash(entry.header) in db.operations || IsLatest(hash, db', entry.header.author, entry.log, Some(entry.header))
  }

  lemma ContinuesAtEnd(hash: Header -> Hash, db: Db, db': Db, entry: Entry)
    requires Continues(hash, db, entry) && db'.operations == Inserted(hash, db.operations, entry)
    ensures AtEnd(hash, db, db', entry)
  {
    forall key | InLog(db', key, entry.header.author, entry.log)
      ensures key == hash(entry.header) || InLog(db, key, entry.header.author, entry.log)
    {
    }
  }

  /** The header built from the latest entry continues the log. */
  lemma CreatedContinues(hash: Header -> Hash, db: Db, job: Job, latest: Option<Header>)
    requires job.Create? && IsLatest(hash, db, job.author, job.log, latest)
    requires latest.Some? ==> latest.value.seqNum + 1 < SEQ_LIMIT
    ensures Continues(hash, db, Entry(job.log, NextHeader(hash, job.author, latest, job.payload)))
  {
  }

  lemma PlanOutcome(hash: Header -> Hash, db: Db, job: Job, latest: Option<Header>)
    requires ForkFree(hash, db) && IsLatest(hash, db, AuthorOf(job), LogOf(job), latest)
    requires latest.Some? ==> latest.value.seqNum + 1 < SEQ_LIMIT
    ensures var plan := Plan(hash, job, latest, IsStored(hash, db, job));
      Outcome(hash, db, job, if plan.Writing? then T.Fold(Applier(hash), db, plan.plan) else db)
  {
    WritesIffContinues(hash, db, job, latest);
    if job.Create? {
      CreateApplied(hash, db, job, latest);
      CreatedContinues(hash, db, job, latest);
      var entry := Entry(job.log, NextHeader(hash, job.author, latest, job.payload));
      ContinuesAtEnd(hash, db, T.Fold(Applier(hash), db, Plan(hash, job, latest, false).plan), entry);
    } else if Plan(hash, job, latest, IsStored(hash, db, job)).Writing? {
      IngestApplied(hash, db, job, latest);
      ContinuesAtEnd(hash, db, T.Fold(Applier(hash), db, Plan(hash, job, latest, false).plan), job.entry);
    }
  }

  /** From reading the log to the end of the transaction. */
  lemma TransactionLeads(hash: Header -> Hash, db: Db, jobs: map<nat, Local>, p: nat, job: Job, latest: Option<Header>)
    returns (actions: seq<Action>, db': Db)
    requires p !in jobs && IsLatest(hash, db, AuthorOf(job), LogOf(job), latest)
    requires latest.Some? ==> latest.value.seqNum + 1 < SEQ_LIMIT
    ensures Leads(hash, Within(db, jobs, p, Reading(job), []), actions, Idle(db', jobs))
    ensures var plan := Plan(hash, job, latest, IsStored(hash, db, job));
      db' == if plan.Writing? then T.Fold(Applier(hash), db, plan.plan) else db
  {
    var s, plan := Within(db, jobs, p, Reading(job), []), Plan(hash, job, latest, IsStored(hash, db, job));
    actions := ReadLeads(hash, db, jobs, p, job, latest);
    if plan.Writing? {
      db' := T.Fold(Applier(hash), db, plan.plan);
      var writes := WritesLead(hash, db, jobs, p, [], plan.plan);
      var commit := CommitLeads(hash, db, jobs, p, plan.plan);
      assert [] + plan.plan == plan.plan;
      LeadsOn(hash, Within(db, jobs, p, plan, []), writes, Within(db, jobs, p, Writing([]), plan.plan), commit, Idle(db', jobs));
      LeadsOn(hash, s, actions, Within(db, jobs, p, plan, []), writes + commit, Idle(db', jobs));
      actions := actions + (writes + commit);
    } else {
      db' := db;
      var giveUp := GiveUpLeads(hash, db, jobs, p);
      LeadsOn(hash, s, actions, Within(db, jobs, p, Failed, []), giveUp, Idle(db, jobs));
      actions := actions + giveUp;
    }
  }

  /**
   * A job which nobody disturbs gets through, whoever else is waiting: a created operation always ends up at the
   * end of its log, a received one exactly if it is new and continues its log, and otherwise nothing changes.
   */
  lemma UndisturbedJob(hash: Header -> Hash, db: Db, jobs: map<nat, Local>, p: nat, job: Job)
    returns (actions: seq<Action>, db': Db)
    requires ForkFree(hash, db) && p !in jobs && HasRoom(db, AuthorOf(job), LogOf(job))
    ensures Leads(hash, Idle(db, jobs), actions, Idle(db', jobs))
    ensures Outcome(hash, db, job, db')
  {
    var latest := LatestExists(hash, db, AuthorOf(job), LogOf(job));
    var start := StartLeads(hash, db, jobs, p, job);
    actions, db' := TransactionLeads(hash, db, jobs, p, job, latest);
    LeadsOn(hash, Idle(db, jobs), start, Within(db, jobs, p, Reading(job), []), actions, Idle(db', jobs));
    actions := start + actions;
    PlanOutcome(hash, db, job, latest);
  }

  /** Wherever a process is in its transaction, its query or commit can fail and its future can be dropped. */
  lemma FailsAnywhere(hash: Header -> Hash, s: System, p: nat, t: nat, applied: bool)
    requires Inv(hash, s) && p in s.store.holders
    ensures p in s.jobs
    ensures T.Busy(s.store, p) ==>
      Enabled(hash, s, QueryFailed(p)) && Next(hash, s, QueryFailed(p)).jobs == s.jobs[p := Failed]
    ensures !T.Busy(s.store, p) ==> exists l ::
      && T.Enabled(s.store, l) && Enabled(hash, s, Store(l)) && (T.Commits(l) ==> applied)
      && (l.BeginFail? || l == T.PermitDropped(p, t) || l == T.CommitDropped(p, t, applied))
      && Next(hash, s, Store(l)).jobs == s.jobs - {p}
    ensures s.store.holders[p].Committing? ==>
      && Enabled(hash, s, Store(T.CommitEnd(p, false)))
      && Next(hash, s, Store(T.CommitEnd(p, false))) == System(T.Release(s.store, p), s.jobs - {p})
  {
    T.Alone(s.store);
    if !T.Busy(s.store, p) {
      var l := T.DroppedAnywhere(Applier(hash), s.store, p, t, applied);
      assert Enabled(hash, s, Store(l));
    }
  }
}
