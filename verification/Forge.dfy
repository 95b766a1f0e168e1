/**
 * Writers of append-only logs on top of the transaction protocol: any number of
 * processes create operations (`create_operation`) or ingest received ones, each in
 * one transaction, interleaved and failing at any point.
 */
module Forge {
  import opened Basics
  import T = Transactions

  /** Sequence numbers are 32 bits wide. */
  const SEQ_LIMIT := 0x1_0000_0000

  // Identifiers and payloads are opaque to the log; numbers stand for them.
  type Author = nat
  type LogId = nat
  type Topic = nat
  type Hash = nat
  type Payload = nat

  datatype Header = Header(author: Author, seqNum: nat, backlink: Option<Hash>, payload: Payload)

  /** A row of the operations table; its key is the hash of the header. */
  datatype Entry = Entry(log: LogId, header: Header)

  datatype Association = Association(topic: Topic, author: Author, log: LogId)

  datatype Db = Db(operations: map<Hash, Entry>, topics: set<Association>)

  datatype Write =
    | InsertOperation(entry: Entry)
    | Associate(association: Association)

  /** What a process was asked to do. */
  datatype Job =
    | Create(author: Author, log: LogId, topic: Option<Topic>, payload: Payload)
    | Ingest(entry: Entry, intoTopic: Topic)

  /** How far it got: before its transaction, before reading the log, with writes left to do, or with nothing to write. */
  datatype Local =
    | Beginning(job: Job)
    | Reading(job: Job)
    | Writing(plan: seq<Write>)
    | Failed

  datatype System = System(
    store: T.State<Db, Write>,
    jobs: map<nat, Local>)

  datatype Action =
    | Call(p: nat, job: Job)
    | Store(step: T.Label<Write>)         // any step of the store but the end of a query
    | Read(p: nat, latest: Option<Header>, stored: bool)  // the queries about the log and the operation succeed
    | Wrote(p: nat)                                       // the next planned write succeeds
    | QueryFailed(p: nat)                                 // a query fails or is dropped

  // ---------------------------------------------------------------------
  // The database
  // ---------------------------------------------------------------------

  /** `INSERT OR IGNORE` keeps a row which already has the key. */
  function ApplyWrite(hash: Header -> Hash, db: Db, w: Write): (r: Db)
  {
    match w
    case InsertOperation(entry) =>
      var key := hash(entry.header);
      if key in db.operations then db else db.(operations := db.operations[key := entry])
    case Associate(association) => db.(topics := db.topics + {association})
  }

  function Applier(hash: Header -> Hash): (r: (Db, Write) -> Db)
  {
    (db, w) => ApplyWrite(hash, db, w)
  }

  ghost predicate InLog(db: Db, key: Hash, author: Author, log: LogId)
  {
    key in db.operations && db.operations[key].log == log && db.operations[key].header.author == author
  }

  /** The answer of the query for the entry with the highest sequence number of a log. */
  ghost predicate IsLatest(
    hash: Header -> Hash, db: Db, author: Author, log: LogId, latest: Option<Header>)
  {
    match latest
    case None => forall key :: !InLog(db, key, author, log)
    case Some(header) =>
      && InLog(db, hash(header), author, log)
      && db.operations[hash(header)].header == header
      && forall key :: InLog(db, key, author, log) ==> db.operations[key].header.seqNum <= header.seqNum
  }

  /**
   * A log without forks and gaps: rows are stored under their hash, no two rows share a
   * sequence number, and each row but the first has the row before it as its backlink.
   */
  ghost predicate ForkFree(hash: Header -> Hash, db: Db)
  {
    && (forall key :: key in db.operations ==> key == hash(db.operations[key].header))
    && (forall a, b, author, log ::
          (InLog(db, a, author, log) && InLog(db, b, author, log)
           && db.operations[a].header.seqNum == db.operations[b].header.seqNum)
          ==> a == b)
    && (forall key :: key in db.operations ==> Linked(db, key))
  }

  ghost predicate Linked(db: Db, key: Hash)
    requires key in db.operations
  {
    var entry := db.operations[key];
    match entry.header.backlink
    case None => entry.header.seqNum == 0
    case Some(previous) =>
      && InLog(db, previous, entry.header.author, entry.log)
      && db.operations[previous].header.seqNum + 1 == entry.header.seqNum
  }

  /** The header continues the log: the next sequence number, linked to the current latest entry. */
  ghost predicate Continues(hash: Header -> Hash, db: Db, entry: Entry)
  {
    exists latest ::
      && IsLatest(hash, db, entry.header.author, entry.log, latest)
      && entry.header.seqNum == (if latest.Some? then latest.value.seqNum + 1 else 0)
      && entry.header.backlink == (if latest.Some? then Some(hash(latest.value)) else None)
  }

  /** A fork-free log has every sequence number up to its highest. */
  lemma {:induction false} GapFree(hash: Header -> Hash, db: Db, key: Hash, n: nat)
    requires ForkFree(hash, db) && key in db.operations && n <= db.operations[key].header.seqNum
    ensures exists k :: InLog(db, k, db.operations[key].header.author, db.operations[key].log)
                        && db.operations[k].header.seqNum == n
    decreases db.operations[key].header.seqNum
  {
    var entry := db.operations[key];
    assert InLog(db, key, entry.header.author, entry.log);
    if n < entry.header.seqNum {
      assert Linked(db, key);
      GapFree(hash, db, entry.header.backlink.value, n);
    }
  }

  lemma InsertForkFree(hash: Header -> Hash, db: Db, entry: Entry)
    requires ForkFree(hash, db) && Continues(hash, db, entry)
    ensures ForkFree(hash, ApplyWrite(hash, db, InsertOperation(entry)))
  {
    var db' := ApplyWrite(hash, db, InsertOperation(entry));
    var latest :|
      && IsLatest(hash, db, entry.header.author, entry.log, latest)
      && entry.header.seqNum == (if latest.Some? then latest.value.seqNum + 1 else 0)
      && entry.header.backlink == (if latest.Some? then Some(hash(latest.value)) else None);
    forall k | k in db'.operations ensures Linked(db', k) {
      if k in db.operations {
        assert Linked(db, k);
      }
    }
    forall a, b, author, log | InLog(db', a, author, log) && InLog(db', b, author, log)
      && db'.operations[a].header.seqNum == db'.operations[b].header.seqNum ensures a == b
    {
      assert a in db.operations ==> InLog(db, a, author, log);
      assert b in db.operations ==> InLog(db, b, author, log);
    }
  }

  // ---------------------------------------------------------------------
  // The processes
  // ---------------------------------------------------------------------

  function Topics(job: Job): (r: seq<Write>)
  {
    match job
    case Create(author, log, None, _) => []
    case Create(author, log, Some(topic), _) => [Associate(Association(topic, author, log))]
    case Ingest(entry, topic) => [Associate(Association(topic, entry.header.author, entry.log))]
  }

  function AuthorOf(job: Job): (r: Author)
  {
    match job case Create(author, _, _, _) => author case Ingest(entry, _) => entry.header.author
  }

  function LogOf(job: Job): (r: LogId)
  {
    match job case Create(_, log, _, _) => log case Ingest(entry, _) => entry.log
  }

  /** The backlink check for a log without pruning, given the format check that only the first header has no backlink. */
  predicate ValidBacklink(hash: Header -> Hash, latest: Option<Header>, header: Header)
  {
    && (header.backlink.Some? <==> header.seqNum > 0)
    && (if header.seqNum > 0 || latest.Some?
        then latest.Some? && latest.value.seqNum + 1 == header.seqNum && header.backlink == Some(hash(latest.value))
        else true)
  }

  /** The header of a created operation. */
  function NextHeader(hash: Header -> Hash, author: Author, latest: Option<Header>, payload: Payload): (r: Header)
  {
    match latest
    case None => Header(author, 0, None, payload)
    case Some(past) => Header(author, (past.seqNum + 1) % SEQ_LIMIT, Some(hash(past)), payload)
  }

  /** What a process does once it knows the latest entry of its log, and whether a received operation is stored already. */
  function Plan(hash: Header -> Hash, job: Job, latest: Option<Header>, stored: bool): (r: Local)
  {
    match job
    case Create(author, log, _, payload) =>
      Writing(Topics(job) + [InsertOperation(Entry(log, NextHeader(hash, author, latest, payload)))])
    case Ingest(entry, _) =>
      if !stored && ValidBacklink(hash, latest, entry.header) then Writing([InsertOperation(entry)] + Topics(job)) else Failed
  }

  /** The answer to whether the operation to be ingested is stored, in whatever log. */
  ghost predicate IsStored(hash: Header -> Hash, db: Db, job: Job)
  {
    job.Ingest? && hash(job.entry.header) in db.operations
  }

  /** The database as the open transaction sees it. */
  ghost function View(hash: Header -> Hash, s: System): (r: Db)
    requires s.store.slot.Some?
  {
    T.Fold(Applier(hash), s.store.db, s.store.slot.value)
  }

  /** The store step an action stands for. */
  ghost function LabelOf(s: System, a: Action): (l: T.Label<Write>)
    requires !a.Call?
    requires a.Wrote? ==> a.p in s.jobs && s.jobs[a.p].Writing? && s.jobs[a.p].plan != []
  {
    match a
    case Store(l) => l
    case Read(p, _, _) => T.QueryEnd(p, None)
    case Wrote(p) => T.QueryEnd(p, Some(s.jobs[p].plan[0]))
    case QueryFailed(p) => T.QueryEnd(p, None)
  }

  /** Which store steps a process may take at which point of its program. */
  ghost predicate MayStep(s: System, l: T.Label<Write>)
  {
    match l
    case Acquire(p) => p in s.jobs && s.jobs[p].Beginning?
    case LockSlot(p) => true
    case BeginOk(p) => p in s.jobs && s.jobs[p].Beginning?
    case BeginFail(p) => true
    case QueryStart(p) => p in s.store.holders && p in s.jobs && (s.jobs[p].Reading? || (s.jobs[p].Writing? && s.jobs[p].plan != []))
    case QueryEnd(_, _) => false
    case QueryMissing(p) => false
    case CommitTake(p) => p in s.jobs && s.jobs[p].Writing? && s.jobs[p].plan == []
    case CommitEnd(p, _) => true
    case CommitDropped(p, _, _) => true
    case RollbackTake(p) => false
    case RollbackEnd(p) => false
    case RollbackDropped(p, _) => false
    case PermitDropped(p, _) => true
    case TaskTake(_) => true
    case TaskEnd(_) => true
  }

  ghost predicate Enabled(hash: Header -> Hash, s: System, a: Action)
  {
    match a
    case Call(p, _) => p !in s.jobs
    case Store(l) => T.Enabled(s.store, l) && MayStep(s, l)
    case Read(p, latest, stored) =>
      && p in s.jobs && s.jobs[p].Reading? && T.Enabled(s.store, T.QueryEnd(p, None))
      && IsLatest(hash, View(hash, s), AuthorOf(s.jobs[p].job), LogOf(s.jobs[p].job), latest)
      && (latest.Some? ==> latest.value.seqNum + 1 < SEQ_LIMIT)
      && stored == IsStored(hash, View(hash, s), s.jobs[p].job)
    case Wrote(p) =>
      && p in s.jobs && s.jobs[p].Writing? && s.jobs[p].plan != []
      && T.Enabled(s.store, T.QueryEnd(p, Some(s.jobs[p].plan[0])))
    case QueryFailed(p) => p in s.jobs && T.Enabled(s.store, T.QueryEnd(p, None))
  }

  /** How the step changes the program of the process which takes it. */
  ghost function Jobs(hash: Header -> Hash, s: System, a: Action)
    : (r: map<nat, Local>)
    requires a.Read? ==> a.p in s.jobs && s.jobs[a.p].Reading?
    requires a.Wrote? ==> a.p in s.jobs && s.jobs[a.p].Writing? && s.jobs[a.p].plan != []
    requires a.Store? && a.step.BeginOk? ==> a.step.p in s.jobs && s.jobs[a.step.p].Beginning?
  {
    match a
    case Call(p, job) => s.jobs[p := Beginning(job)]
    case Read(p, latest, stored) => s.jobs[p := Plan(hash, s.jobs[p].job, latest, stored)]
    case Wrote(p) => s.jobs[p := Writing(s.jobs[p].plan[1..])]
    case QueryFailed(p) => s.jobs[p := Failed]
    case Store(l) =>
      match l
      case BeginOk(p) => s.jobs[p := Reading(s.jobs[p].job)]
      case BeginFail(p) => s.jobs - {p}
      case CommitEnd(p, _) => s.jobs - {p}
      case CommitDropped(p, _, _) => s.jobs - {p}
      case PermitDropped(p, _) => s.jobs - {p}
      case _ => s.jobs
  }

  ghost function Next(hash: Header -> Hash, s: System, a: Action): (r: System)
    requires Enabled(hash, s, a)
  {
    System(if a.Call? then s.store else T.Next(Applier(hash), s.store, LabelOf(s, a)), Jobs(hash, s, a))
  }

  // ---------------------------------------------------------------------
  // Fork-freedom in every interleaving
  // ---------------------------------------------------------------------

  /** A plan inserts at most one entry, and that entry still continues its log. */
  ghost predicate PlanOk(hash: Header -> Hash, db: Db, plan: seq<Write>)
  {
    forall i :: 0 <= i < |plan| && plan[i].InsertOperation? ==>
      Continues(hash, db, plan[i].entry) && forall j :: 0 <= j < |plan| && j != i ==> plan[j].Associate?
  }

  /** The store runs on behalf of a process exactly what its program says. */
  ghost predicate PhaseMatches(phase: T.Phase<Write>, local: Local)
  {
    match phase
    case Acquired => local.Beginning?
    case Opening => local.Beginning?
    case Holding => !local.Beginning?
    case Committing(_) => local == Writing([])
    case RollingBack => false
  }

  ghost predicate ProgramsMatch(s: System)
  {
    && (forall p :: p in s.store.holders ==> p in s.jobs && PhaseMatches(s.store.holders[p], s.jobs[p]))
    && (forall p :: p in s.jobs && p !in s.store.holders ==> s.jobs[p].Beginning?)
    && (s.store.lock.HeldByQuery? ==> s.store.lock.p in s.store.holders)
  }

  ghost predicate DataOk(hash: Header -> Hash, s: System)
  {
    && ForkFree(hash, s.store.db)
    && (s.store.slot.Some? ==> ForkFree(hash, View(hash, s)))
    && (forall p :: p in s.store.holders && s.store.holders[p].Committing? ==>
          ForkFree(hash, T.Fold(Applier(hash), s.store.db, s.store.holders[p].writes)))
    && (forall p :: p in s.store.holders && p in s.jobs && s.jobs[p].Writing? && s.store.slot.Some? ==>
          PlanOk(hash, View(hash, s), s.jobs[p].plan))
  }

  ghost predicate Inv(hash: Header -> Hash, s: System)
  {
    T.Inv(s.store) && ProgramsMatch(s) && DataOk(hash, s)
  }

  lemma PlanIsOk(hash: Header -> Hash, db: Db, job: Job, latest: Option<Header>, stored: bool)
    requires IsLatest(hash, db, AuthorOf(job), LogOf(job), latest)
    requires latest.Some? ==> latest.value.seqNum + 1 < SEQ_LIMIT
    ensures var local := Plan(hash, job, latest, stored);
      local.Writing? ==> PlanOk(hash, db, local.plan) && forall w :: w in local.plan && w.InsertOperation? ==>
        w.entry.header.seqNum <= 0xFFFF_FFFF
  {
  }

  /** In a fork-free log there is one latest entry. */
  lemma LatestUnique(hash: Header -> Hash, db: Db, author: Author, log: LogId, a: Option<Header>, b: Option<Header>)
    requires ForkFree(hash, db) && IsLatest(hash, db, author, log, a) && IsLatest(hash, db, author, log, b)
    ensures a == b
  {
    if a.Some? && b.Some? {
      assert InLog(db, hash(a.value), author, log) && InLog(db, hash(b.value), author, log);
    }
  }

  /** A created operation is always written; a received one exactly if it is new and continues its log. */
  lemma WritesIffContinues(hash: Header -> Hash, db: Db, job: Job, latest: Option<Header>)
    requires ForkFree(hash, db) && IsLatest(hash, db, AuthorOf(job), LogOf(job), latest)
    ensures Plan(hash, job, latest, IsStored(hash, db, job)).Writing? <==>
            job.Create? || (Continues(hash, db, job.entry) && !IsStored(hash, db, job))
  {
    if job.Ingest? && Continues(hash, db, job.entry) {
      var other :|
        && IsLatest(hash, db, job.entry.header.author, job.entry.log, other)
        && job.entry.header.seqNum == (if other.Some? then other.value.seqNum + 1 else 0)
        && job.entry.header.backlink == (if other.Some? then Some(hash(other.value)) else None);
      LatestUnique(hash, db, AuthorOf(job), LogOf(job), latest, other);
    }
  }

  lemma SameOperations(hash: Header -> Hash, a: Db, b: Db)
    requires a.operations == b.operations
    ensures ForkFree(hash, a) ==> ForkFree(hash, b)
    ensures forall entry :: Continues(hash, a, entry) ==> Continues(hash, b, entry)
  {
    forall key, author, log ensures InLog(a, key, author, log) <==> InLog(b, key, author, log) {
    }
    forall entry | Continues(hash, a, entry) ensures Continues(hash, b, entry) {
      var latest :|
        && IsLatest(hash, a, entry.header.author, entry.log, latest)
        && entry.header.seqNum == (if latest.Some? then latest.value.seqNum + 1 else 0)
        && entry.header.backlink == (if latest.Some? then Some(hash(latest.value)) else None);
      assert IsLatest(hash, b, entry.header.author, entry.log, latest);
    }
    if ForkFree(hash, a) {
      forall key | key in b.operations ensures Linked(b, key) {
        assert Linked(a, key);
      }
    }
  }

  /** One planned write keeps the logs fork-free and the rest of the plan valid. */
  lemma WriteOk(hash: Header -> Hash, db: Db, plan: seq<Write>)
    requires ForkFree(hash, db) && plan != [] && PlanOk(hash, db, plan)
    ensures ForkFree(hash, ApplyWrite(hash, db, plan[0]))
    ensures PlanOk(hash, ApplyWrite(hash, db, plan[0]), plan[1..])
  {
    match plan[0] {
      case InsertOperation(entry) =>
        InsertForkFree(hash, db, entry);
      case Associate(_) =>
        SameOperations(hash, db, ApplyWrite(hash, db, plan[0]));
        var rest := plan[1..];
        forall i | 0 <= i < |rest| && rest[i].InsertOperation?
          ensures forall j :: 0 <= j < |rest| && j != i ==> rest[j].Associate?
        {
          assert plan[i + 1] == rest[i];
          forall j | 0 <= j < |rest| && j != i ensures rest[j].Associate? {
            assert plan[j + 1] == rest[j];
          }
        }
    }
  }

  lemma CallPreserves(hash: Header -> Hash, s: System, a: Action)
    requires Inv(hash, s) && Enabled(hash, s, a) && a.Call?
    ensures Inv(hash, Next(hash, s, a))
  {
  }

  lemma ReadPreserves(hash: Header -> Hash, s: System, a: Action)
    requires Inv(hash, s) && Enabled(hash, s, a) && (a.Read? || a.QueryFailed?)
    ensures Inv(hash, Next(hash, s, a))
  {
    T.InvPreserved(Applier(hash), s.store, LabelOf(s, a));
    T.Alone(s.store);
    if a.Read? {
      PlanIsOk(hash, View(hash, s), s.jobs[a.p].job, a.latest, a.stored);
    }
  }

  lemma WrotePreserves(hash: Header -> Hash, s: System, a: Action)
    requires Inv(hash, s) && Enabled(hash, s, a) && a.Wrote?
    ensures Inv(hash, Next(hash, s, a))
  {
    T.InvPreserved(Applier(hash), s.store, LabelOf(s, a));
    T.Alone(s.store);
    var plan, writes := s.jobs[a.p].plan, s.store.slot.value;
    WriteOk(hash, View(hash, s), plan);
    assert (writes + [plan[0]])[..|writes|] == writes;
    assert View(hash, Next(hash, s, a)) == ApplyWrite(hash, View(hash, s), plan[0]);
  }

  predicate Finishes(l: T.Label<Write>)
  {
    l.BeginFail? || l.CommitEnd? || l.CommitDropped? || l.PermitDropped?
  }

  lemma LeaveKeepsPrograms(s: System, s': System, p: nat)
    requires ProgramsMatch(s) && p in s.store.holders && forall q :: q in s.store.holders ==> q == p
    requires s'.store.holders == s.store.holders - {p} && s'.jobs == s.jobs - {p} && !s'.store.lock.HeldByQuery?
    ensures ProgramsMatch(s')
  {
  }

  /** A process which finishes runs no query. */
  lemma FinishWithoutQuery(s: T.State<Db, Write>, l: T.Label<Write>)
    requires T.Inv(s) && T.Enabled(s, l) && Finishes(l)
    requires s.lock.HeldByQuery? ==> s.lock.p in s.holders
    ensures l.p in s.holders && !s.lock.HeldByQuery?
  {
    T.Alone(s);
  }

  lemma FinishKeepsPrograms(hash: Header -> Hash, s: System, a: Action)
    requires T.Inv(s.store) && ProgramsMatch(s) && Enabled(hash, s, a) && a.Store? && Finishes(a.step)
    ensures ProgramsMatch(Next(hash, s, a))
  {
    T.Alone(s.store);
    FinishWithoutQuery(s.store, a.step);
    LeaveKeepsPrograms(s, Next(hash, s, a), a.step.p);
  }

  lemma StoreKeepsPrograms(hash: Header -> Hash, s: System, a: Action)
    requires T.Inv(s.store) && ProgramsMatch(s) && Enabled(hash, s, a) && a.Store?
    ensures ProgramsMatch(Next(hash, s, a))
  {
    if Finishes(a.step) {
      FinishKeepsPrograms(hash, s, a);
    } else {
      T.Alone(s.store);
    }
  }

  lemma AcquireKeepsData(hash: Header -> Hash, s: System, a: Action)
    requires Inv(hash, s) && Enabled(hash, s, a) && a.Store?
    requires a.step.Acquire? || a.step.LockSlot? || a.step.BeginFail?
    ensures DataOk(hash, Next(hash, s, a))
  {
    T.Alone(s.store);
  }

  lemma BeginKeepsData(hash: Header -> Hash, s: System, a: Action)
    requires Inv(hash, s) && Enabled(hash, s, a) && a.Store? && a.step.BeginOk?
    ensures DataOk(hash, Next(hash, s, a))
  {
    T.Alone(s.store);
  }

  lemma CommitTakeKeepsData(hash: Header -> Hash, s: System, a: Action)
    requires Inv(hash, s) && Enabled(hash, s, a) && a.Store? && a.step.CommitTake?
    ensures DataOk(hash, Next(hash, s, a))
  {
    T.Alone(s.store);
  }

  lemma CommitKeepsData(hash: Header -> Hash, s: System, a: Action)
    requires Inv(hash, s) && Enabled(hash, s, a) && a.Store? && (a.step.CommitEnd? || a.step.CommitDropped?)
    ensures DataOk(hash, Next(hash, s, a))
  {
    T.Alone(s.store);
    assert s.store.holders - {a.step.p} == map[];
  }

  lemma NoHolderKeepsData(hash: Header -> Hash, s: System, s': System)
    requires DataOk(hash, s) && s'.store.db == s.store.db && s'.store.holders == map[]
    requires s'.store.slot.None? || s'.store.slot == s.store.slot
    ensures DataOk(hash, s')
  {
  }

  lemma DropKeepsData(hash: Header -> Hash, s: System, a: Action)
    requires Inv(hash, s) && Enabled(hash, s, a) && a.Store?
    requires a.step.PermitDropped? || a.step.TaskTake? || a.step.TaskEnd?
    ensures DataOk(hash, Next(hash, s, a))
  {
    T.Alone(s.store);
    if a.step.PermitDropped? {
      assert s.store.holders - {a.step.p} == map[];
    }
    NoHolderKeepsData(hash, s, Next(hash, s, a));
  }

  lemma StoreKeepsData(hash: Header -> Hash, s: System, a: Action)
    requires Inv(hash, s) && Enabled(hash, s, a) && a.Store?
    ensures DataOk(hash, Next(hash, s, a))
  {
    if a.step.Acquire? || a.step.LockSlot? || a.step.BeginFail? {
      AcquireKeepsData(hash, s, a);
    } else if a.step.BeginOk? {
      BeginKeepsData(hash, s, a);
    } else if a.step.CommitTake? {
      CommitTakeKeepsData(hash, s, a);
    } else if a.step.CommitEnd? || a.step.CommitDropped? {
      CommitKeepsData(hash, s, a);
    } else if a.step.PermitDropped? || a.step.TaskTake? || a.step.TaskEnd? {
      DropKeepsData(hash, s, a);
    } else {
      QueryKeepsData(hash, s, a);
    }
  }

  lemma QueryKeepsData(hash: Header -> Hash, s: System, a: Action)
    requires Inv(hash, s) && Enabled(hash, s, a) && a.Store? && a.step.QueryStart?
    ensures DataOk(hash, Next(hash, s, a))
  {
  }

  lemma StorePreserves(hash: Header -> Hash, s: System, a: Action)
    requires Inv(hash, s) && Enabled(hash, s, a) && a.Store?
    ensures Inv(hash, Next(hash, s, a))
  {
    T.InvPreserved(Applier(hash), s.store, a.step);
    StoreKeepsPrograms(hash, s, a);
    StoreKeepsData(hash, s, a);
  }

  lemma InvPreserved(hash: Header -> Hash, s: System, a: Action)
    requires Inv(hash, s) && Enabled(hash, s, a)
    ensures Inv(hash, Next(hash, s, a))
  {
    match a {
      case Call(_, _) => CallPreserves(hash, s, a);
      case Store(_) => StorePreserves(hash, s, a);
      case Read(_, _, _) => ReadPreserves(hash, s, a);
      case Wrote(_) => WrotePreserves(hash, s, a);
      case QueryFailed(_) => ReadPreserves(hash, s, a);
    }
  }

  ghost predicate Run(hash: Header -> Hash, db: Db, states: seq<System>, actions: seq<Action>)
  {
    && |states| == |actions| + 1
    && states[0] == System(T.Init(db), map[])
    && forall i :: 0 <= i < |actions| ==> StepAt(hash, states, actions, i)
  }

  ghost predicate StepAt(hash: Header -> Hash, states: seq<System>, actions: seq<Action>, i: nat)
    requires |states| == |actions| + 1 && i < |actions|
  {
    Enabled(hash, states[i], actions[i]) && states[i + 1] == Next(hash, states[i], actions[i])
  }

  /** From a fork-free database, no interleaving of any number of writers ever commits a fork or a gap. */
  lemma {:induction false} LogsStayForkFree(
    hash: Header -> Hash, db: Db, states: seq<System>, actions: seq<Action>, i: nat)
    requires Run(hash, db, states, actions) && i < |states| && ForkFree(hash, db)
    ensures ForkFree(hash, states[i].store.db) && Inv(hash, states[i])
  {
    if i > 0 {
      LogsStayForkFree(hash, db, states, actions, i - 1);
      assert StepAt(hash, states, actions, i - 1);
      InvPreserved(hash, states[i - 1], actions[i - 1]);
    }
  }

  // ---------------------------------------------------------------------
  // All or nothing
  // ---------------------------------------------------------------------

  function Associations(job: Job): (r: set<Association>)
  {
    match job
    case Create(author, log, topic, _) => if topic.Some? then {Association(topic.value, author, log)} else {}
    case Ingest(entry, topic) => {Association(topic, entry.header.author, entry.log)}
  }

  ghost function Inserted(hash: Header -> Hash, operations: map<Hash, Entry>, entry: Entry): (r: map<Hash, Entry>)
  {
    if hash(entry.header) in operations then operations else operations[hash(entry.header) := entry]
  }

  /** The database after a job was done: one more entry in its log, and the log associated with its topic. */
  ghost predicate JobDone(hash: Header -> Hash, db: Db, db': Db, job: Job, entry: Entry)
  {
    && entry.log == LogOf(job) && entry.header.author == AuthorOf(job)
    && (job.Ingest? ==> entry == job.entry) && (job.Create? ==> entry.header.payload == job.payload)
    && db'.operations == Inserted(hash, db.operations, entry)
    && db'.topics == db.topics + Associations(job)
  }

  /** These are all the writes of one job. */
  ghost predicate WholePlan(hash: Header -> Hash, writes: seq<Write>)
  {
    exists job, latest :: Plan(hash, job, latest, false) == Writing(writes)
  }

  /** One job has been done in between. */
  ghost predicate ByOneJob(hash: Header -> Hash, db: Db, db': Db)
  {
    exists job, entry :: JobDone(hash, db, db', job, entry)
  }

  lemma FoldOne(hash: Header -> Hash, db: Db, w: Write)
    ensures T.Fold(Applier(hash), db, [w]) == ApplyWrite(hash, db, w)
  {
    assert [w][..0] == [];
  }

  lemma FoldTwo(hash: Header -> Hash, db: Db, v: Write, w: Write)
    ensures T.Fold(Applier(hash), db, [v, w]) == ApplyWrite(hash, ApplyWrite(hash, db, v), w)
  {
    assert [v, w][..1] == [v];
    FoldOne(hash, db, v);
  }

  lemma CreateApplied(hash: Header -> Hash, db: Db, job: Job, latest: Option<Header>)
    requires job.Create?
    ensures JobDone(hash, db, T.Fold(Applier(hash), db, Plan(hash, job, latest, false).plan), job,
                    Entry(job.log, NextHeader(hash, job.author, latest, job.payload)))
  {
    var writes := Plan(hash, job, latest, false).plan;
    var entry := Entry(job.log, NextHeader(hash, job.author, latest, job.payload));
    if job.topic.None? {
      assert writes == [InsertOperation(entry)];
      FoldOne(hash, db, InsertOperation(entry));
      assert db.topics + Associations(job) == db.topics;
    } else {
      var association := Association(job.topic.value, job.author, job.log);
      assert writes == [Associate(association), InsertOperation(entry)];
      FoldTwo(hash, db, Associate(association), InsertOperation(entry));
    }
  }

  lemma IngestApplied(hash: Header -> Hash, db: Db, job: Job, latest: Option<Header>)
    requires job.Ingest? && Plan(hash, job, latest, false).Writing?
    ensures JobDone(hash, db, T.Fold(Applier(hash), db, Plan(hash, job, latest, false).plan), job, job.entry)
  {
    var writes := Plan(hash, job, latest, false).plan;
    var association := Association(job.intoTopic, job.entry.header.author, job.entry.log);
    assert writes == [InsertOperation(job.entry), Associate(association)];
    FoldTwo(hash, db, InsertOperation(job.entry), Associate(association));
  }

  lemma PlanApplied(hash: Header -> Hash, db: Db, writes: seq<Write>)
    requires WholePlan(hash, writes)
    ensures ByOneJob(hash, db, T.Fold(Applier(hash), db, writes))
  {
    var job, latest :| Plan(hash, job, latest, false) == Writing(writes);
    if job.Create? {
      CreateApplied(hash, db, job, latest);
    } else {
      IngestApplied(hash, db, job, latest);
    }
  }

  /** What a process has written and still has to write are the writes of one job. */
  ghost predicate PlansOk(hash: Header -> Hash, s: System)
  {
    && (forall p :: p in s.store.holders && p in s.jobs && s.jobs[p].Reading? && s.store.slot.Some? ==>
          s.store.slot.value == [])
    && (forall p :: p in s.store.holders && p in s.jobs && s.jobs[p].Writing? && s.store.slot.Some? ==>
          WholePlan(hash, s.store.slot.value + s.jobs[p].plan))
    && (forall p :: p in s.store.holders && s.store.holders[p].Committing? ==>
          WholePlan(hash, s.store.holders[p].writes))
  }

  lemma ReadKeepsPlans(hash: Header -> Hash, s: System, a: Action)
    requires T.Inv(s.store) && ProgramsMatch(s) && PlansOk(hash, s) && Enabled(hash, s, a) && a.Read?
    ensures PlansOk(hash, Next(hash, s, a))
  {
    T.Alone(s.store);
    var plan := Plan(hash, s.jobs[a.p].job, a.latest, a.stored);
    assert plan.Writing? ==> [] + plan.plan == plan.plan && plan == Plan(hash, s.jobs[a.p].job, a.latest, false);
  }

  lemma WroteKeepsPlans(hash: Header -> Hash, s: System, a: Action)
    requires T.Inv(s.store) && ProgramsMatch(s) && PlansOk(hash, s) && Enabled(hash, s, a) && a.Wrote?
    ensures PlansOk(hash, Next(hash, s, a))
  {
    T.Alone(s.store);
    var done, plan := s.store.slot.value, s.jobs[a.p].plan;
    assert done + [plan[0]] + plan[1..] == done + plan;
  }

  lemma FailedKeepsPlans(hash: Header -> Hash, s: System, a: Action)
    requires T.Inv(s.store) && ProgramsMatch(s) && PlansOk(hash, s) && Enabled(hash, s, a) && a.QueryFailed?
    ensures PlansOk(hash, Next(hash, s, a))
  {
    T.Alone(s.store);
  }

  lemma FinishKeepsPlans(hash: Header -> Hash, s: System, a: Action)
    requires T.Inv(s.store) && ProgramsMatch(s) && Enabled(hash, s, a) && a.Store? && Finishes(a.step)
    ensures PlansOk(hash, Next(hash, s, a))
  {
    T.Alone(s.store);
    FinishWithoutQuery(s.store, a.step);
    assert s.store.holders - {a.step.p} == map[];
    NoHolderKeepsPlans(hash, Next(hash, s, a));
  }

  lemma NoHolderKeepsPlans(hash: Header -> Hash, s: System)
    requires s.store.holders == map[]
    ensures PlansOk(hash, s)
  {
  }

  lemma TakeKeepsPlans(hash: Header -> Hash, s: System, a: Action)
    requires T.Inv(s.store) && PlansOk(hash, s) && Enabled(hash, s, a) && a.Store? && a.step.CommitTake?
    ensures PlansOk(hash, Next(hash, s, a))
  {
    T.Alone(s.store);
    assert s.store.slot.value + [] == s.store.slot.value;
  }

  lemma BeginKeepsPlans(hash: Header -> Hash, s: System, a: Action)
    requires T.Inv(s.store) && PlansOk(hash, s) && Enabled(hash, s, a) && a.Store?
    requires a.step.Acquire? || a.step.LockSlot? || a.step.BeginOk?
    ensures PlansOk(hash, Next(hash, s, a))
  {
    T.Alone(s.store);
  }

  lemma QueryKeepsPlans(hash: Header -> Hash, s: System, a: Action)
    requires PlansOk(hash, s) && Enabled(hash, s, a) && a.Store? && a.step.QueryStart?
    ensures PlansOk(hash, Next(hash, s, a))
  {
  }

  lemma TaskKeepsPlans(hash: Header -> Hash, s: System, a: Action)
    requires T.Inv(s.store) && Enabled(hash, s, a) && a.Store? && (a.step.TaskTake? || a.step.TaskEnd?)
    ensures PlansOk(hash, Next(hash, s, a))
  {
    TaskWithoutHolder(hash, s.store, a.step);
    NoHolderKeepsPlans(hash, Next(hash, s, a));
  }

  lemma TaskWithoutHolder(hash: Header -> Hash, s: T.State<Db, Write>, l: T.Label<Write>)
    requires T.Inv(s) && T.Enabled(s, l) && (l.TaskTake? || l.TaskEnd?)
    ensures T.Next(Applier(hash), s, l).holders == map[]
  {
    T.Alone(s);
  }

  lemma StoreKeepsPlans(hash: Header -> Hash, s: System, a: Action)
    requires T.Inv(s.store) && ProgramsMatch(s) && PlansOk(hash, s) && Enabled(hash, s, a) && a.Store?
    ensures PlansOk(hash, Next(hash, s, a))
  {
    if Finishes(a.step) {
      FinishKeepsPlans(hash, s, a);
    } else if a.step.CommitTake? {
      TakeKeepsPlans(hash, s, a);
    } else if a.step.Acquire? || a.step.LockSlot? || a.step.BeginOk? {
      BeginKeepsPlans(hash, s, a);
    } else if a.step.QueryStart? {
      QueryKeepsPlans(hash, s, a);
    } else {
      TaskKeepsPlans(hash, s, a);
    }
  }

  lemma PlansStep(hash: Header -> Hash, s: System, a: Action, s': System)
    requires Enabled(hash, s, a) && s' == Next(hash, s, a) && Inv(hash, s) && PlansOk(hash, s)
    ensures PlansOk(hash, s')
  {
    match a
    case Call(_, _) =>
    case Store(_) => StoreKeepsPlans(hash, s, a);
    case Read(_, _, _) => ReadKeepsPlans(hash, s, a);
    case Wrote(_) => WroteKeepsPlans(hash, s, a);
    case QueryFailed(_) => FailedKeepsPlans(hash, s, a);
  }

  lemma FullStep(hash: Header -> Hash, s: System, a: Action, s': System)
    requires Enabled(hash, s, a) && s' == Next(hash, s, a) && Full(hash, s)
    ensures Full(hash, s')
  {
    InvPreserved(hash, s, a);
    PlansStep(hash, s, a, s');
  }

  ghost predicate Full(hash: Header -> Hash, s: System)
  {
    Inv(hash, s) && PlansOk(hash, s)
  }

  lemma {:induction false} RunKeepsPlans(hash: Header -> Hash, db: Db, states: seq<System>, actions: seq<Action>, i: nat)
    requires Run(hash, db, states, actions) && i < |states| && ForkFree(hash, db)
    ensures Full(hash, states[i])
  {
    if i > 0 {
      var s, a, s' := states[i - 1], actions[i - 1], states[i];
      assert StepAt(hash, states, actions, i - 1);
      RunKeepsPlans(hash, db, states, actions, i - 1);
      FullStep(hash, s, a, s');
    }
  }

  predicate Commits(a: Action)
  {
    a.Store? && T.Commits(a.step)
  }

  lemma CommitApplies(hash: Header -> Hash, s: System, a: Action)
    requires PlansOk(hash, s) && Enabled(hash, s, a)
    ensures var db' := Next(hash, s, a).store.db;
      if Commits(a) then ByOneJob(hash, s.store.db, db') else db' == s.store.db
  {
    if a.Store? && (a.step.CommitEnd? || a.step.CommitDropped?) {
      PlanApplied(hash, s.store.db, s.store.holders[a.step.p].writes);
    }
  }

  /**
   * Whatever the interleaving and wherever processes fail, every commit changes the database by a whole job, its
   * entry together with the association of its log, and nothing else changes it.
   */
  lemma CommitsWholeJobs(hash: Header -> Hash, db: Db, states: seq<System>, actions: seq<Action>, i: nat)
    requires Run(hash, db, states, actions) && i < |actions| && ForkFree(hash, db)
    ensures if Commits(actions[i]) then ByOneJob(hash, states[i].store.db, states[i + 1].store.db)
            else states[i + 1].store.db == states[i].store.db
  {
    RunKeepsPlans(hash, db, states, actions, i);
    assert StepAt(hash, states, actions, i);
    CommitApplies(hash, states[i], actions[i]);
  }
}
