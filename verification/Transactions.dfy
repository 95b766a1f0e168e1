/**
 * Transactions of the SQLite store as an interleaving of atomic steps, one for each
 * stretch of code between two awaits: the one-permit semaphore, the mutex around the
 * transaction slot, commit and rollback, and the task which rolls back when a permit
 * is dropped without being used.
 */
module Transactions {
  import opened Basics
  import opened Sequences

  /** Where a process is between acquiring the semaphore permit and giving it back. */
  datatype Phase<W> =
    | Acquired                       // `begin`: waiting for the slot
    | Opening                        // `begin`: slot locked, waiting for the database
    | Holding                        // owns a transaction permit
    | Committing(writes: seq<W>)     // `commit`: transaction taken from the slot
    | RollingBack                    // `rollback`: transaction taken from the slot

  /** A spawned rollback task: before and after it looked into the slot. */
  datatype Task = Waiting | Rolling

  datatype Lock = Free | HeldByBegin(p: nat) | HeldByQuery(p: nat)

  /**
   * `holders` are the processes which own a permit; all others are outside any
   * transaction. `slot` is the shared transaction with its uncommitted writes.
   */
  datatype State<D, W> = State(
    permits: nat,
    lock: Lock,
    slot: Option<seq<W>>,
    holders: map<nat, Phase<W>>,
    tasks: map<nat, Task>,
    db: D,
    panicked: bool)

  datatype Label<W> =
    | Acquire(p: nat)                         // semaphore permit acquired
    | LockSlot(p: nat)                        // slot locked in `begin`, assertion checked
    | BeginOk(p: nat)
    | BeginFail(p: nat)                       // database error, or the future was dropped
    | QueryStart(p: nat)                      // `tx`: slot locked, transaction present
    | QueryEnd(p: nat, effect: Option<W>)     // a query without effect reads, fails or was dropped
    | QueryMissing(p: nat)                    // `tx`: no transaction
    | CommitTake(p: nat)
    | CommitEnd(p: nat, ok: bool)
    | CommitDropped(p: nat, t: nat, applied: bool) // the future was dropped while the database commits
    | RollbackTake(p: nat)
    | RollbackEnd(p: nat)
    | RollbackDropped(p: nat, t: nat)
    | PermitDropped(p: nat, t: nat)
    | TaskTake(t: nat)
    | TaskEnd(t: nat)

  function Init<D, W>(db: D): (s: State<D, W>)
  {
    State(1, Free, None, map[], map[], db, false)
  }

  function Fold<D, W>(apply: (D, W) -> D, db: D, writes: seq<W>): (r: D)
  {
    if writes == [] then db else apply(Fold(apply, db, writes[..|writes| - 1]), writes[|writes| - 1])
  }

  /** A process does one thing at a time: while its query runs it cannot end its transaction. */
  predicate Busy<D, W>(s: State<D, W>, p: nat)
  {
    s.lock == HeldByQuery(p)
  }

  ghost predicate InPhase<D, W>(s: State<D, W>, p: nat, phase: Phase<W>)
  {
    p in s.holders && s.holders[p] == phase
  }

  ghost predicate Enabled<D, W>(s: State<D, W>, l: Label<W>)
  {
    !s.panicked &&
    match l
    case Acquire(p) => s.permits > 0 && p !in s.holders && !Busy(s, p)
    case LockSlot(p) => InPhase(s, p, Acquired) && s.lock.Free?
    case BeginOk(p) => InPhase(s, p, Opening)
    case BeginFail(p) => InPhase(s, p, Acquired) || InPhase(s, p, Opening)
    case QueryStart(p) => (p in s.holders ==> s.holders[p].Holding?) && s.lock.Free? && s.slot.Some?
    case QueryEnd(p, _) => Busy(s, p) && s.slot.Some?
    case QueryMissing(p) => (p in s.holders ==> s.holders[p].Holding?) && s.lock.Free? && s.slot.None?
    case CommitTake(p) => InPhase(s, p, Holding) && s.lock.Free?
    case CommitEnd(p, _) => p in s.holders && s.holders[p].Committing?
    case CommitDropped(p, t, _) => p in s.holders && s.holders[p].Committing? && t !in s.tasks
    case RollbackTake(p) => InPhase(s, p, Holding) && s.lock.Free?
    case RollbackEnd(p) => InPhase(s, p, RollingBack)
    case RollbackDropped(p, t) => InPhase(s, p, RollingBack) && t !in s.tasks
    case PermitDropped(p, t) => InPhase(s, p, Holding) && !Busy(s, p) && t !in s.tasks
    case TaskTake(t) => t in s.tasks && s.tasks[t].Waiting? && s.lock.Free?
    case TaskEnd(t) => t in s.tasks && s.tasks[t].Rolling?
  }

  /** A process gives its permit back to the semaphore. */
  function Release<D, W>(s: State<D, W>, p: nat): (r: State<D, W>)
  {
    s.(permits := s.permits + 1, holders := s.holders - {p})
  }

  /** A permit is dropped unused: a spawned task takes it over. */
  function Spawn<D, W>(s: State<D, W>, p: nat, t: nat): (r: State<D, W>)
  {
    s.(holders := s.holders - {p}, tasks := s.tasks[t := Waiting])
  }

  ghost function Next<D, W>(apply: (D, W) -> D, s: State<D, W>, l: Label<W>): (r: State<D, W>)
    requires Enabled(s, l)
  {
    match l
    case Acquire(p) => s.(permits := s.permits - 1, holders := s.holders[p := Acquired])
    case LockSlot(p) =>
      if s.slot.Some? then s.(panicked := true)
      else s.(lock := HeldByBegin(p), holders := s.holders[p := Opening])
    case BeginOk(p) => s.(lock := Free, slot := Some([]), holders := s.holders[p := Holding])
    case BeginFail(p) => Release(if s.holders[p].Opening? then s.(lock := Free) else s, p)
    case QueryStart(p) => s.(lock := HeldByQuery(p))
    case QueryEnd(p, effect) =>
      s.(lock := Free, slot := match effect case None => s.slot case Some(w) => Some(s.slot.value + [w]))
    case QueryMissing(p) => s
    case CommitTake(p) =>
      if s.slot.None? then s.(panicked := true)
      else s.(slot := None, holders := s.holders[p := Committing(s.slot.value)])
    case CommitEnd(p, ok) => Release(if ok then Commit(apply, s, p) else s, p)
    case CommitDropped(p, t, applied) => Spawn(if applied then Commit(apply, s, p) else s, p, t)
    case RollbackTake(p) =>
      if s.slot.None? then s.(panicked := true)
      else s.(slot := None, holders := s.holders[p := RollingBack])
    case RollbackEnd(p) => Release(s, p)
    case RollbackDropped(p, t) => Spawn(s, p, t)
    case PermitDropped(p, t) => Spawn(s, p, t)
    case TaskTake(t) =>
      if s.slot.Some? then s.(slot := None, tasks := s.tasks[t := Rolling])
      else s.(permits := s.permits + 1, tasks := s.tasks - {t})
    case TaskEnd(t) => s.(permits := s.permits + 1, tasks := s.tasks - {t})
  }

  ghost function Commit<D, W>(apply: (D, W) -> D, s: State<D, W>, p: nat): (r: State<D, W>)
    requires p in s.holders && s.holders[p].Committing?
  {
    s.(db := Fold(apply, s.db, s.holders[p].writes))
  }

  // ---------------------------------------------------------------------
  // Permit exclusivity
  // ---------------------------------------------------------------------

  /** Exactly one of: the permit is available, a process holds it, a rollback task holds it. */
  ghost predicate OnePermit<D, W>(s: State<D, W>)
  {
    s.permits + |s.holders| + |s.tasks| == 1
  }

  /** The slot is filled exactly by the transaction of the holding process, or waits for a rollback task. */
  ghost predicate SlotOwned<D, W>(s: State<D, W>)
  {
    && (forall p :: p in s.holders ==> (s.slot.Some? <==> s.holders[p].Holding?))
    && (s.permits == 1 ==> s.slot.None?)
    && (forall t :: t in s.tasks && s.tasks[t].Rolling? ==> s.slot.None?)
  }

  ghost predicate LockOwned<D, W>(s: State<D, W>)
  {
    && (forall p :: s.lock == HeldByBegin(p) <==> p in s.holders && s.holders[p].Opening?)
    && (s.lock.HeldByQuery? ==> s.slot.Some?)
  }

  ghost predicate Inv<D, W>(s: State<D, W>)
  {
    !s.panicked && OnePermit(s) && SlotOwned(s) && LockOwned(s)
  }

  lemma RemoveSize<K, V>(m: map<K, V>, k: K)
    requires k in m
    ensures |m - {k}| == |m| - 1
  {
    assert (m - {k}).Keys == m.Keys - {k};
    assert |m - {k}| == |(m - {k}).Keys| && |m| == |m.Keys|;
  }

  /** Whoever holds the permit holds it alone. */
  lemma Alone<D, W>(s: State<D, W>)
    requires OnePermit(s)
    ensures forall p, q :: p in s.holders && q in s.holders ==> p == q
    ensures forall p :: p in s.holders ==> s.tasks == map[] && s.permits == 0
    ensures forall t, u :: t in s.tasks && u in s.tasks ==> t == u
    ensures forall t :: t in s.tasks ==> s.holders == map[] && s.permits == 0
  {
    forall p, q | p in s.holders && q in s.holders ensures p == q {
      SubsetSize({p, q}, s.holders.Keys);
      assert |s.holders| == |s.holders.Keys|;
    }
    forall t, u | t in s.tasks && u in s.tasks ensures t == u {
      SubsetSize({t, u}, s.tasks.Keys);
      assert |s.tasks| == |s.tasks.Keys|;
    }
  }

  lemma BeginPreserves<D, W>(apply: (D, W) -> D, s: State<D, W>, l: Label<W>)
    requires Inv(s) && Enabled(s, l) && (l.Acquire? || l.LockSlot? || l.BeginOk?)
    ensures Inv(Next(apply, s, l))
  {
    Alone(s);
  }

  lemma QueryPreserves<D, W>(apply: (D, W) -> D, s: State<D, W>, l: Label<W>)
    requires Inv(s) && Enabled(s, l) && (l.QueryStart? || l.QueryEnd? || l.QueryMissing?)
    ensures Inv(Next(apply, s, l))
  {
    Alone(s);
  }

  lemma TakePreserves<D, W>(apply: (D, W) -> D, s: State<D, W>, l: Label<W>)
    requires Inv(s) && Enabled(s, l) && (l.CommitTake? || l.RollbackTake?)
    ensures Inv(Next(apply, s, l))
  {
    Alone(s);
  }

  lemma ReleasePreserves<D, W>(apply: (D, W) -> D, s: State<D, W>, l: Label<W>)
    requires Inv(s) && Enabled(s, l) && (l.BeginFail? || l.CommitEnd? || l.RollbackEnd?)
    ensures Inv(Next(apply, s, l))
  {
    Alone(s);
    RemoveSize(s.holders, l.p);
    assert s.holders - {l.p} == map[];
  }

  lemma DropPreserves<D, W>(apply: (D, W) -> D, s: State<D, W>, l: Label<W>)
    requires Inv(s) && Enabled(s, l) && (l.CommitDropped? || l.RollbackDropped? || l.PermitDropped?)
    ensures Inv(Next(apply, s, l))
  {
    Alone(s);
    RemoveSize(s.holders, l.p);
    assert s.holders - {l.p} == map[];
  }

  lemma TaskPreserves<D, W>(apply: (D, W) -> D, s: State<D, W>, l: Label<W>)
    requires Inv(s) && Enabled(s, l) && (l.TaskTake? || l.TaskEnd?)
    ensures Inv(Next(apply, s, l))
  {
    Alone(s);
    RemoveSize(s.tasks, l.t);
    assert s.tasks - {l.t} == map[];
  }

  lemma InvPreserved<D, W>(apply: (D, W) -> D, s: State<D, W>, l: Label<W>)
    requires Inv(s) && Enabled(s, l)
    ensures Inv(Next(apply, s, l))
  {
    if l.Acquire? || l.LockSlot? || l.BeginOk? {
      BeginPreserves(apply, s, l);
    } else if l.QueryStart? || l.QueryEnd? || l.QueryMissing? {
      QueryPreserves(apply, s, l);
    } else if l.CommitTake? || l.RollbackTake? {
      TakePreserves(apply, s, l);
    } else if l.BeginFail? || l.CommitEnd? || l.RollbackEnd? {
      ReleasePreserves(apply, s, l);
    } else if l.TaskTake? || l.TaskEnd? {
      TaskPreserves(apply, s, l);
    } else {
      DropPreserves(apply, s, l);
    }
  }

  // ---------------------------------------------------------------------
  // Whole runs
  // ---------------------------------------------------------------------

  /** An interleaving from a fresh store: `labels[i]` leads from `states[i]` to `states[i + 1]`. */
  ghost predicate Run<D, W>(apply: (D, W) -> D, db: D, states: seq<State<D, W>>, labels: seq<Label<W>>)
  {
    && |states| == |labels| + 1
    && states[0] == Init(db)
    && forall i :: 0 <= i < |labels| ==> StepAt(apply, states, labels, i)
  }

  ghost predicate StepAt<D, W>(apply: (D, W) -> D, states: seq<State<D, W>>, labels: seq<Label<W>>, i: nat)
    requires |states| == |labels| + 1 && i < |labels|
  {
    Enabled(states[i], labels[i]) && states[i + 1] == Next(apply, states[i], labels[i])
  }

  lemma InvStep<D, W>(apply: (D, W) -> D, s: State<D, W>, l: Label<W>, s': State<D, W>)
    requires Enabled(s, l) && s' == Next(apply, s, l) && Inv(s)
    ensures Inv(s')
  {
    InvPreserved(apply, s, l);
  }

  /** In every reachable state the permit is exclusive, the slot owned, and no assertion or panic was reached. */
  lemma {:induction false} Reachable<D, W>(
    apply: (D, W) -> D, db: D, states: seq<State<D, W>>, labels: seq<Label<W>>, i: nat)
    requires Run(apply, db, states, labels) && i < |states|
    ensures Inv(states[i]) && !states[i].panicked
  {
    if i > 0 {
      var s, l := states[i - 1], labels[i - 1];
      assert StepAt(apply, states, labels, i - 1);
      Reachable(apply, db, states, labels, i - 1);
      InvStep(apply, s, l, states[i]);
    }
  }

  /** A serial reading of a run: the transactions committed so far, and the writes since the last `begin`. */
  datatype Serial<W> = Serial(committed: seq<seq<W>>, open: seq<W>)

  ghost function Serially<W>(r: Serial<W>, l: Label<W>): (r': Serial<W>)
  {
    match l
    case BeginOk(_) => r.(open := [])
    case QueryEnd(_, Some(w)) => r.(open := r.open + [w])
    case CommitEnd(_, true) => r.(committed := r.committed + [r.open])
    case CommitDropped(_, _, true) => r.(committed := r.committed + [r.open])
    case _ => r
  }

  ghost function Replay<W>(labels: seq<Label<W>>): (r: Serial<W>)
  {
    if labels == [] then Serial([], [])
    else Serially(Replay(labels[..|labels| - 1]), labels[|labels| - 1])
  }

  ghost function FoldAll<D, W>(apply: (D, W) -> D, db: D, txs: seq<seq<W>>): (r: D)
  {
    if txs == [] then db else Fold(apply, FoldAll(apply, db, txs[..|txs| - 1]), txs[|txs| - 1])
  }

  /** The concurrent state agrees with the serial reading. */
  ghost predicate Agrees<D, W>(apply: (D, W) -> D, db: D, s: State<D, W>, r: Serial<W>)
  {
    && s.db == FoldAll(apply, db, r.committed)
    && (s.slot.Some? ==> s.slot.value == r.open)
    && forall p :: p in s.holders && s.holders[p].Committing? ==> s.holders[p].writes == r.open
  }

  lemma AgreesCommit<D, W>(apply: (D, W) -> D, db: D, s: State<D, W>, r: Serial<W>, l: Label<W>)
    requires Inv(s) && Enabled(s, l) && Agrees(apply, db, s, r) && Commits(l)
    ensures Agrees(apply, db, Next(apply, s, l), Serially(r, l))
  {
    Alone(s);
    assert (r.committed + [r.open])[..|r.committed|] == r.committed;
  }

  lemma AgreesOpen<D, W>(apply: (D, W) -> D, db: D, s: State<D, W>, r: Serial<W>, l: Label<W>)
    requires Inv(s) && Enabled(s, l) && Agrees(apply, db, s, r) && (l.BeginOk? || l.QueryEnd? || l.CommitTake?)
    ensures Agrees(apply, db, Next(apply, s, l), Serially(r, l))
  {
    Alone(s);
  }

  lemma AgreesStep<D, W>(apply: (D, W) -> D, db: D, s: State<D, W>, r: Serial<W>, l: Label<W>)
    requires Inv(s) && Enabled(s, l) && Agrees(apply, db, s, r)
    ensures Agrees(apply, db, Next(apply, s, l), Serially(r, l))
  {
    if Commits(l) {
      AgreesCommit(apply, db, s, r, l);
    } else if l.BeginOk? || l.QueryEnd? || l.CommitTake? {
      AgreesOpen(apply, db, s, r, l);
    }
  }

  /**
   * Atomicity: whatever the interleaving, the database is the fold of exactly the committed
   * transactions in commit order, each with all the writes made since its `begin`.
   */
  lemma {:induction false} Atomicity<D, W>(
    apply: (D, W) -> D, db: D, states: seq<State<D, W>>, labels: seq<Label<W>>, i: nat)
    requires Run(apply, db, states, labels) && i < |states|
    ensures states[i].db == FoldAll(apply, db, Replay(labels[..i]).committed)
    ensures Agrees(apply, db, states[i], Replay(labels[..i]))
  {
    if i > 0 {
      var j := i - 1;
      Atomicity(apply, db, states, labels, j);
      Reachable(apply, db, states, labels, j);
      assert StepAt(apply, states, labels, j);
      AgreesStep(apply, db, states[j], Replay(labels[..j]), labels[j]);
      assert labels[..i][..j] == labels[..j];
    }
  }

  predicate Commits<W>(l: Label<W>)
  {
    (l.CommitEnd? && l.ok) || (l.CommitDropped? && l.applied)
  }

  /** Without a commit nothing reaches the database, however the transactions in between ended. */
  lemma {:induction false} NoTraceWithoutCommit<D, W>(
    apply: (D, W) -> D, db: D, states: seq<State<D, W>>, labels: seq<Label<W>>, i: nat, j: nat)
    requires Run(apply, db, states, labels) && i <= j < |states|
    requires forall k :: i <= k < j ==> !Commits(labels[k])
    ensures states[j].db == states[i].db
    decreases j - i
  {
    if i < j {
      NoTraceWithoutCommit(apply, db, states, labels, i, j - 1);
      assert StepAt(apply, states, labels, j - 1);
    }
  }

  /**
   * A rollback task keeps everybody else out until its own last step, which is not the one that takes the
   * transaction: the permit only comes back after the rollback itself.
   */
  lemma TaskExcludes<D, W>(apply: (D, W) -> D, s: State<D, W>, l: Label<W>, s': State<D, W>, t: nat)
    requires Enabled(s, l) && s' == Next(apply, s, l) && Inv(s) && t in s.tasks
    ensures !l.Acquire? && !l.BeginOk?
    ensures t in s'.tasks || (s'.slot.None? && (l == TaskTake(t) || l == TaskEnd(t)))
    ensures t in s'.tasks || s.slot.None?
    ensures RollsBack(s, t) ==> if l == TaskEnd(t) then t !in s'.tasks && s'.permits == 1 else RollsBack(s', t)
  {
    Alone(s);
  }

  /** The task has a transaction to roll back, or is about to. */
  ghost predicate RollsBack<D, W>(s: State<D, W>, t: nat)
  {
    t in s.tasks && (s.slot.Some? || s.tasks[t].Rolling?)
  }

  /**
   * No transaction begins before a pending automatic rollback has given its permit back, and if there is a
   * transaction to roll back, that is after its rollback has ended.
   */
  lemma {:induction false} RollbackBeforeBegin<D, W>(
    apply: (D, W) -> D, db: D, states: seq<State<D, W>>, labels: seq<Label<W>>, i: nat, j: nat, t: nat)
    returns (k: nat)
    requires Run(apply, db, states, labels) && i <= j < |labels|
    requires t in states[i].tasks && (labels[j].Acquire? || labels[j].BeginOk?)
    ensures i <= k < j && (labels[k] == TaskTake(t) || labels[k] == TaskEnd(t))
    ensures t !in states[k + 1].tasks && states[k + 1].slot.None?
    ensures RollsBack(states[i], t) ==> labels[k] == TaskEnd(t)
    decreases j - i
  {
    assert StepAt(apply, states, labels, i);
    Reachable(apply, db, states, labels, i);
    TaskExcludes(apply, states[i], labels[i], states[i + 1], t);
    if t in states[i + 1].tasks {
      k := RollbackBeforeBegin(apply, db, states, labels, i + 1, j, t);
    } else {
      k := i;
    }
  }

  // ---------------------------------------------------------------------
  // Progress
  // ---------------------------------------------------------------------

  /** The steps can be taken one after the other and lead from `s` to `s'`. */
  ghost predicate Leads<D, W>(apply: (D, W) -> D, s: State<D, W>, labels: seq<Label<W>>, s': State<D, W>)
    decreases |labels|
  {
    if labels == [] then s' == s
    else Enabled(s, labels[0]) && Leads(apply, Next(apply, s, labels[0]), labels[1..], s')
  }

  lemma LeadsOne<D, W>(apply: (D, W) -> D, s: State<D, W>, l: Label<W>)
    requires Enabled(s, l)
    ensures Leads(apply, s, [l], Next(apply, s, l))
  {
    assert [l][1..] == [];
  }

  lemma {:induction false} LeadsOn<D, W>(
    apply: (D, W) -> D, s: State<D, W>, a: seq<Label<W>>, s': State<D, W>, b: seq<Label<W>>, s'': State<D, W>)
    requires Leads(apply, s, a, s') && Leads(apply, s', b, s'')
    ensures Leads(apply, s, a + b, s'')
    decreases |a|
  {
    if a == [] {
      assert a + b == b;
    } else {
      LeadsOn(apply, Next(apply, s, a[0]), a[1..], s', b, s'');
      assert (a + b)[1..] == a[1..] + b;
    }
  }

  lemma LeadsTwo<D, W>(apply: (D, W) -> D, s: State<D, W>, l: Label<W>, m: Label<W>)
    requires Enabled(s, l) && Enabled(Next(apply, s, l), m)
    ensures Leads(apply, s, [l, m], Next(apply, Next(apply, s, l), m))
  {
    LeadsOne(apply, s, l);
    LeadsOne(apply, Next(apply, s, l), m);
    LeadsOn(apply, s, [l], Next(apply, s, l), [m], Next(apply, Next(apply, s, l), m));
  }

  /** A process which runs no query can give the permit back without committing. */
  lemma HolderReleases<D, W>(apply: (D, W) -> D, s: State<D, W>, p: nat) returns (labels: seq<Label<W>>)
    requires Inv(s) && !s.lock.HeldByQuery? && p in s.holders
    ensures Leads(apply, s, labels, Init(s.db)) && |labels| <= 2
  {
    Alone(s);
    assert s.holders - {p} == map[];
    if s.holders[p].Holding? {
      labels := [RollbackTake(p), RollbackEnd(p)];
      assert s.holders[p := RollingBack] - {p} == map[];
      LeadsTwo(apply, s, RollbackTake(p), RollbackEnd(p));
    } else {
      var l := match s.holders[p]
        case RollingBack => RollbackEnd(p)
        case Committing(_) => CommitEnd(p, false)
        case _ => BeginFail(p);
      LeadsOne(apply, s, l);
      assert Next(apply, s, l) == Init(s.db);
      labels := [l];
    }
  }

  /** So can a rollback task. */
  lemma TaskReleases<D, W>(apply: (D, W) -> D, s: State<D, W>, t: nat) returns (labels: seq<Label<W>>)
    requires Inv(s) && !s.lock.HeldByQuery? && t in s.tasks
    ensures Leads(apply, s, labels, Init(s.db)) && |labels| <= 2
  {
    Alone(s);
    assert s.tasks - {t} == map[];
    if s.tasks[t].Waiting? && s.slot.Some? {
      labels := [TaskTake(t), TaskEnd(t)];
      assert s.tasks[t := Rolling] - {t} == map[];
      LeadsTwo(apply, s, TaskTake(t), TaskEnd(t));
    } else {
      var l := if s.tasks[t].Waiting? then TaskTake(t) else TaskEnd(t);
      LeadsOne(apply, s, l);
      assert Next(apply, s, l) == Init(s.db);
      labels := [l];
    }
  }

  lemma PermitReleased<D, W>(apply: (D, W) -> D, s: State<D, W>) returns (labels: seq<Label<W>>)
    requires Inv(s) && !s.lock.HeldByQuery?
    ensures Leads(apply, s, labels, Init(s.db)) && |labels| <= 2
  {
    if p :| p in s.holders {
      labels := HolderReleases(apply, s, p);
    } else if t :| t in s.tasks {
      labels := TaskReleases(apply, s, t);
    } else {
      assert s.holders == map[] && s.tasks == map[];
      labels := [];
    }
  }

  /** The assertion and the panics are where the slot is not as it has to be, and nowhere else. */
  lemma PanicsExactly<D, W>(apply: (D, W) -> D, s: State<D, W>, l: Label<W>)
    requires Enabled(s, l)
    ensures Next(apply, s, l).panicked <==>
            (l.LockSlot? && s.slot.Some?) || ((l.CommitTake? || l.RollbackTake?) && s.slot.None?)
  {
  }

  /** A query finds a transaction exactly if there is one, and whoever holds a permit always does. */
  lemma QueryFindsTransaction<D, W>(s: State<D, W>, p: nat)
    requires Inv(s) && s.lock.Free? && (p in s.holders ==> s.holders[p].Holding?)
    ensures Enabled(s, QueryStart(p)) <==> s.slot.Some?
    ensures Enabled(s, QueryMissing(p)) <==> s.slot.None?
    ensures p in s.holders ==> Enabled(s, QueryStart(p))
  {
  }

  /** A process can be dropped wherever it is; with a permit in its hands it leaves a task behind. */
  lemma DroppedAnywhere<D, W>(apply: (D, W) -> D, s: State<D, W>, p: nat, t: nat, applied: bool) returns (l: Label<W>)
    requires Inv(s) && p in s.holders && !Busy(s, p)
    ensures l == match s.holders[p]
      case Holding => PermitDropped(p, t)
      case Committing(_) => CommitDropped(p, t, applied)
      case RollingBack => RollbackDropped(p, t)
      case _ => BeginFail(p)
    ensures Enabled(s, l) && p !in Next(apply, s, l).holders
    ensures t in Next(apply, s, l).tasks <==> !l.BeginFail?
    ensures RollsBack(Next(apply, s, l), t) <==> s.holders[p].Holding?
    ensures Next(apply, s, l).permits == if l.BeginFail? then 1 else 0
  {
    Alone(s);
    l := match s.holders[p]
      case Holding => PermitDropped(p, t)
      case Committing(_) => CommitDropped(p, t, applied)
      case RollingBack => RollbackDropped(p, t)
      case _ => BeginFail(p);
  }

  /** From every reachable state at most three steps lead back to where everybody can begin. */
  lemma PermitComesBack<D, W>(apply: (D, W) -> D, s: State<D, W>) returns (labels: seq<Label<W>>)
    requires Inv(s)
    ensures Leads(apply, s, labels, Init(s.db)) && |labels| <= 3
  {
    if s.lock.HeldByQuery? {
      var l := QueryEnd(s.lock.p, None);
      InvPreserved(apply, s, l);
      LeadsOne(apply, s, l);
      var rest := PermitReleased(apply, Next(apply, s, l));
      LeadsOn(apply, s, [l], Next(apply, s, l), rest, Init(s.db));
      labels := [l] + rest;
    } else {
      labels := PermitReleased(apply, s);
    }
  }

  /** A transaction of `p` with these writes so far, and nobody else around. */
  ghost function Open<D, W>(db: D, p: nat, writes: seq<W>): (s: State<D, W>)
  {
    State(0, Free, Some(writes), map[p := Holding], map[], db, false)
  }

  lemma BeginLeads<D, W>(apply: (D, W) -> D, db: D, p: nat) returns (labels: seq<Label<W>>)
    ensures Leads(apply, Init(db), labels, Open(db, p, []))
  {
    var s: State<D, W> := Init(db);
    var locked := Next(apply, Next(apply, s, Acquire(p)), LockSlot(p));
    LeadsTwo(apply, s, Acquire(p), LockSlot(p));
    LeadsOne(apply, locked, BeginOk(p));
    LeadsOn(apply, s, [Acquire(p), LockSlot(p)], locked, [BeginOk(p)], Next(apply, locked, BeginOk(p)));
    labels := [Acquire(p), LockSlot(p)] + [BeginOk(p)];
    assert Next(apply, locked, BeginOk(p)).holders == map[p := Holding];
  }

  lemma {:induction false} WritesLead<D, W>(apply: (D, W) -> D, db: D, p: nat, writes: seq<W>)
    returns (labels: seq<Label<W>>)
    ensures Leads(apply, Open(db, p, []), labels, Open(db, p, writes))
  {
    if writes == [] {
      labels := [];
    } else {
      var n := |writes| - 1;
      labels := WritesLead(apply, db, p, writes[..n]);
      var s, w := Open(db, p, writes[..n]), writes[n];
      LeadsTwo(apply, s, QueryStart(p), QueryEnd(p, Some(w)));
      assert writes[..n] + [w] == writes;
      LeadsOn(apply, Open(db, p, []), labels, s, [QueryStart(p), QueryEnd(p, Some(w))], Open(db, p, writes));
      labels := labels + [QueryStart(p), QueryEnd(p, Some(w))];
    }
  }

  lemma EndLeads<D, W>(apply: (D, W) -> D, db: D, p: nat, writes: seq<W>, commit: bool) returns (labels: seq<Label<W>>)
    ensures Leads(apply, Open(db, p, writes), labels, Init(if commit then Fold(apply, db, writes) else db))
  {
    var s := Open(db, p, writes);
    var take := if commit then CommitTake(p) else RollbackTake(p);
    var end := if commit then CommitEnd(p, true) else RollbackEnd(p);
    LeadsTwo(apply, s, take, end);
    var taken := Next(apply, s, take);
    assert taken.holders - {p} == map[];
    assert Next(apply, taken, end) == Init(if commit then Fold(apply, db, writes) else db);
    labels := [take, end];
  }

  /** Any process can run a whole transaction, with exactly its writes committed or none of them. */
  lemma WholeTransaction<D, W>(apply: (D, W) -> D, db: D, p: nat, writes: seq<W>, commit: bool)
    returns (labels: seq<Label<W>>)
    ensures Leads(apply, Init(db), labels, Init(if commit then Fold(apply, db, writes) else db))
  {
    var begin := BeginLeads(apply, db, p);
    var queries := WritesLead(apply, db, p, writes);
    var end := EndLeads(apply, db, p, writes, commit);
    LeadsOn(apply, Init(db), begin, Open(db, p, []), queries, Open(db, p, writes));
    LeadsOn(apply, Init(db), begin + queries, Open(db, p, writes), end,
            Init(if commit then Fold(apply, db, writes) else db));
    labels := begin + queries + end;
  }
}
