/** The recursive drain of the persisted orderer. */
module SqliteDrain {
  import opened Sequences
  import O = Orderer
  import opened SqliteOrderer

  /** What the drain of `key` reads at its start. */
  ghost predicate Snapshot<T(!new)>(items: set<Dependent<T>>, y: Tables<T>, key: T, received: map<T, seq<T>>)
  {
    && Children(items) == Waiting(y, key)
    && forall it :: it in items ==> SnapshotItem(it, y, key, received)
  }

  ghost predicate SnapshotItem<T(!new)>(it: Dependent<T>, y: Tables<T>, key: T, received: map<T, seq<T>>)
  {
    && it.child in received
    && key in received[it.child]
    && key in Ids(y.pending, it.child)
    && Uniform(it.deps, Elements(received[it.child]), |Ids(y.pending, it.child)|)
  }

  /** Nothing which waits for a newly ready key is ready itself. */
  ghost predicate Fresh<T>(y: Tables<T>, key: T)
  {
    forall row :: row in y.pending && row.id == key ==> row.child !in y.ready
  }

  /** Rows of ready ids belong to the drains in progress, which are all ancestors of the current one. */
  ghost predicate Nested<T(!new)>(y: Tables<T>, key: T, received: map<T, seq<T>>)
  {
    forall row :: row in y.pending && row.id in y.ready && row.id != key ==> Ancestor(row.id, key, received)
  }

  /** A child is only released by `key` when no other drain in progress and no other missing key holds a row for it. */
  ghost predicate Releasable<T>(y: Tables<T>, child: T, key: T)
  {
    && (forall row :: row in y.pending && row.child == child && row.id in y.ready ==> row.id == key)
    && (key in Ids(y.pending, child) ==> Ids(y.pending, child) == {key})
  }

  /** How far the drain of `key` has come from `y`; its own rows are removed last. */
  ghost predicate Progress<T(!new)>(y: Tables<T>, r: Tables<T>, key: T, received: map<T, seq<T>>)
  {
    && y.ready <= r.ready
    && (forall z :: z in r.ready && z !in y.ready ==> Ancestor(key, z, received) && Releasable(y, z, key))
    && (forall row :: row in r.pending <==> row in y.pending && (row.id in r.ready ==> row.id in y.ready))
  }

  ghost predicate Drained<T(!new)>(y: Tables<T>, r: Tables<T>, key: T, received: map<T, seq<T>>)
  {
    && y.ready <= r.ready
    && (forall z :: z in r.ready && z !in y.ready ==> Ancestor(key, z, received) && Releasable(y, z, key))
    && (forall row :: row in r.pending <==>
          row in y.pending && row.id != key && (row.id in r.ready ==> row.id in y.ready))
  }

  /** Everything which became ready was queued, in that order. */
  ghost predicate Appended<T>(y: Tables<T>, r: Tables<T>)
  {
    y.ready <= r.ready && r.queue == y.queue + r.ready[|y.ready|..]
  }

  lemma AppendedMore<T>(y: Tables<T>, a: Tables<T>, b: Tables<T>, id: T)
    requires Appended(y, a) && id !in a.ready && Appended(MarkReady(a, id).0, b)
    ensures Appended(y, b)
  {
    var m := MarkReady(a, id).0;
    assert b.ready[|y.ready|..] == a.ready[|y.ready|..] + [id] + b.ready[|m.ready|..];
  }

  lemma SnapshotOf<T(!new)>(items: set<Dependent<T>>, y: Tables<T>, key: T, received: map<T, seq<T>>)
    requires Shape(y.pending, received)
    requires Children(items) == Waiting(y, key) && forall it :: it in items ==> RestoredFrom(it, y, key)
    ensures Snapshot(items, y, key, received)
  {
    forall it | it in items ensures SnapshotItem(it, y, key, received) {
      var row :| row in y.pending && row.id == key && it.child == row.child && Restored(y.pending, row, it.deps);
      RestoredDeps(y.pending, row, it.deps, received);
    }
  }

  /** The check on a snapshot item: it passes exactly when its dependencies are met and `key` is the only id left. */
  lemma CheckItem<T(!new)>(y: Tables<T>, r: Tables<T>, items: set<Dependent<T>>, it: Dependent<T>, key: T, received: map<T, seq<T>>)
    requires Snapshot(items, y, key, received) && it in items
    ensures Ready(r, it.deps) <==>
      Ids(y.pending, it.child) == {key} && O.AllReady(Elements(r.ready), received[it.child])
  {
    var ids := Ids(y.pending, it.child);
    SubsetSize({key}, ids);
    assert key in Elements(received[it.child]);
    ReadyUniform(r, it.deps, Elements(received[it.child]), |ids|);
  }

  lemma SnapshotUnique<T(!new)>(items: set<Dependent<T>>, a: Dependent<T>, b: Dependent<T>, y: Tables<T>, key: T, received: map<T, seq<T>>)
    requires Snapshot(items, y, key, received) && a in items && b in items && a.child == b.child
    ensures a == b
  {
    assert a.deps == b.deps;
  }

  /** Marking a key with met dependencies. */
  lemma MarkReadyInv<T(!new)>(y: Tables<T>, key: T, received: map<T, seq<T>>)
    requires Inv(y, received) && key in received && O.AllReady(Elements(y.ready), received[key]) && key !in y.ready
    ensures Inv(MarkReady(y, key).0, received) && Fresh(MarkReady(y, key).0, key)
  {
    var r := MarkReady(y, key).0;
    forall i | 0 <= i < |r.ready| ensures r.ready[i] in received && forall d :: d in received[r.ready[i]] ==> d in r.ready[..i] {
      assert r.ready[..i] == y.ready[..i];
      if i == |y.ready| {
        assert y.ready[..i] == y.ready;
      }
    }
    O.CausalHasDependencies(y.ready, received);
  }

  lemma NestedStep<T(!new)>(y: Tables<T>, r: Tables<T>, key: T, next: T, received: map<T, seq<T>>)
    requires Nested(y, key, received) && Progress(y, r, key, received)
    requires next in received && key in received[next] && next !in r.ready
    ensures Nested(MarkReady(r, next).0, next, received)
  {
    var r1 := MarkReady(r, next).0;
    forall row | row in r1.pending && row.id in r1.ready && row.id != next ensures Ancestor(row.id, next, received) {
      AncestorDirect(key, next, received);
      if row.id != key {
        AncestorTransitive(row.id, key, next, received);
      }
    }
  }

  lemma ProgressStep<T(!new)>(y: Tables<T>, r: Tables<T>, r2: Tables<T>, key: T, next: T, received: map<T, seq<T>>)
    requires key in y.ready && Progress(y, r, key, received)
    requires next in received && key in received[next] && next !in r.ready
    requires Ids(y.pending, next) == {key}
    requires Drained(MarkReady(r, next).0, r2, next, received)
    ensures Progress(y, r2, key, received)
  {
    var r1 := MarkReady(r, next).0;
    assert r1.ready == r.ready + [next] && forall id :: id in r1.ready ==> id in r2.ready;
    AncestorDirect(key, next, received);
    forall z | z in r2.ready && z !in y.ready ensures Ancestor(key, z, received) && Releasable(y, z, key) {
      if z !in r1.ready {
        AncestorTransitive(key, next, z, received);
        forall row | row in y.pending && row.child == z ensures row.id !in y.ready {
          assert row.id in y.ready ==> row in r1.pending && row.id in r1.ready && row.id != next;
        }
      } else if z == next {
        forall row | row in y.pending && row.child == z ensures row.id == key {
          assert row.id in Ids(y.pending, next);
        }
      }
    }
  }

  /** What still waits under `key` is not released by the drain of another key. */
  lemma TodoStaysPending<T(!new)>(r1: Tables<T>, r2: Tables<T>, key: T, next: T, child: T, received: map<T, seq<T>>)
    requires Drained(r1, r2, next, received) && key in r1.ready && key != next
    requires key in Ids(r1.pending, child) && child !in r1.ready
    ensures child !in r2.ready
  {
    var row :| row in r1.pending && row.child == child && row.id == key;
  }

  /** A second key under which a child is indexed can only be ready if the child's list is not reduced. */
  lemma OtherIdReady<T(!new)>(
    y: Tables<T>, r: Tables<T>, child: T, other: T, key: T, received: map<T, seq<T>>)
    requires Shape(y.pending, received) && Nested(y, key, received) && Progress(y, r, key, received)
    requires child in received && key in received[child] && other in Ids(y.pending, child) && other != key
    ensures other in received[child]
    ensures other in r.ready ==> !ReducedItem(child, received)
  {
    var row :| row in y.pending && row.child == child && row.id == other;
    assert other in r.ready ==> Ancestor(other, key, received) || Ancestor(key, other, received);
  }

  /** With reduced dependency lists the length comparison never rejects an item whose dependencies are met. */
  lemma SkippedNotReady<T(!new)>(
    y: Tables<T>, r: Tables<T>, items: set<Dependent<T>>, it: Dependent<T>, key: T, received: map<T, seq<T>>)
    requires Reduced(received) && Shape(y.pending, received) && Nested(y, key, received) && Progress(y, r, key, received)
    requires Snapshot(items, y, key, received) && it in items && !Ready(r, it.deps) && O.Causal(r.ready, received)
    ensures !O.AllReady(Elements(r.ready), received[it.child])
  {
    CheckItem(y, r, items, it, key, received);
    var ids := Ids(y.pending, it.child);
    if ids != {key} {
      var other :| other in ids && other != key;
      OtherIdReady(y, r, it.child, other, key, received);
      MetIsReduced(r.ready, received, it.child);
      assert O.AllReady(Elements(r.ready), received[it.child]) ==> other in Elements(r.ready);
    }
  }

  lemma MetIsReduced<T(!new)>(h: seq<T>, received: map<T, seq<T>>, k: T)
    requires Reduced(received) && O.Causal(h, received) && k in received
    ensures O.AllReady(Elements(h), received[k]) ==> ReducedItem(k, received)
  {
    if O.AllReady(Elements(h), received[k]) {
      MetIsReleased(h, received, k);
    }
  }

  lemma SettledSkip<T(!new)>(r: Tables<T>, todo: set<Dependent<T>>, it: Dependent<T>, received: map<T, seq<T>>, excused: set<T>)
    requires Settled(r, received, excused + Children(todo)) && it in todo && it.child in received
    requires !O.AllReady(Elements(r.ready), received[it.child])
    ensures Settled(r, received, excused + Children(todo - {it}))
  {
    assert Children(todo) == Children(todo - {it}) + {it.child};
  }

  lemma SettledMark<T(!new)>(y: Tables<T>, key: T, received: map<T, seq<T>>, excused: set<T>)
    requires Settled(y, received, excused) && IndexComplete(y, received) && key !in y.ready
    ensures var r := MarkReady(y, key).0; Settled(r, received, (excused - {key}) + Waiting(r, key))
  {
    var r := MarkReady(y, key).0;
    assert Elements(r.ready) == Elements(y.ready) + {key};
    forall k | k in received && O.AllReady(Elements(r.ready), received[k])
      ensures k in r.ready || k in (excused - {key}) + Waiting(r, key)
    {
      if k !in r.ready && key in received[k] {
        assert key in Ids(y.pending, k);
      } else if k !in r.ready {
        assert O.AllReady(Elements(y.ready), received[k]);
      }
    }
  }

  lemma RemovePendingInv<T(!new)>(y: Tables<T>, r: Tables<T>, key: T, received: map<T, seq<T>>)
    requires Inv(r, received) && Progress(y, r, key, received) && key in y.ready
    ensures Inv(RemovePending(r, key), received) && Drained(y, RemovePending(r, key), key, received)
  {
    var r' := RemovePending(r, key);
    forall k, d | k in received && k !in r'.ready && d in received[k] && d !in r'.ready ensures d in Ids(r'.pending, k) {
      assert d in Ids(r.pending, k);
      var row :| row in r.pending && row.child == k && row.id == d;
      assert row in r'.pending;
    }
  }

  lemma TodoKept<T(!new)>(
    y: Tables<T>, before: Tables<T>, r: Tables<T>,
    items: set<Dependent<T>>, it: Dependent<T>, other: Dependent<T>, key: T, received: map<T, seq<T>>)
    requires Snapshot(items, y, key, received) && it in items && other in items && it != other
    requires key in y.ready && Progress(y, before, key, received) && it.child !in before.ready && other.child !in before.ready
    requires Drained(MarkReady(before, it.child).0, r, it.child, received)
    ensures other.child !in r.ready
  {
    if other.child == it.child {
      SnapshotUnique(items, it, other, y, key, received);
    }
    var marked := MarkReady(before, it.child).0;
    var row :| row in y.pending && row.child == other.child && row.id == key;
    assert row in marked.pending;
    TodoStaysPending(marked, r, key, it.child, other.child, received);
  }

  /** The state of the drain of `key`, started in `y`, with `todo` left to visit. */
  ghost predicate Draining<T(!new)>(
    y: Tables<T>, r: Tables<T>, todo: set<Dependent<T>>, key: T, received: map<T, seq<T>>, excused: set<T>)
  {
    && Inv(r, received)
    && Progress(y, r, key, received)
    && (forall it :: it in todo ==> it.child !in r.ready)
    && (Reduced(received) ==> Settled(r, received, excused + Children(todo)))
  }

  lemma Skip<T(!new)>(
    y: Tables<T>, r: Tables<T>, items: set<Dependent<T>>, todo: set<Dependent<T>>, it: Dependent<T>,
    key: T, received: map<T, seq<T>>, excused: set<T>)
    requires Shape(y.pending, received) && Nested(y, key, received) && Snapshot(items, y, key, received)
    requires Draining(y, r, todo, key, received, excused) && it in todo && todo <= items && !Ready(r, it.deps)
    ensures Draining(y, r, todo - {it}, key, received, excused)
  {
    if Reduced(received) {
      SkippedNotReady(y, r, items, it, key, received);
      SettledSkip(r, todo, it, received, excused);
    }
  }

  lemma EnterSettled<T(!new)>(
    r: Tables<T>, todo: set<Dependent<T>>, it: Dependent<T>, received: map<T, seq<T>>, excused: set<T>)
    requires Settled(r, received, excused + Children(todo)) && IndexComplete(r, received)
    requires it in todo && it.child !in r.ready
    ensures var r1 := MarkReady(r, it.child).0;
      Settled(r1, received, excused + Children(todo - {it}) + Waiting(r1, it.child))
  {
    SettledMark(r, it.child, received, excused + Children(todo));
    assert Children(todo) == Children(todo - {it}) + {it.child};
  }

  lemma Enter<T(!new)>(
    y: Tables<T>, r: Tables<T>, items: set<Dependent<T>>, todo: set<Dependent<T>>, it: Dependent<T>,
    key: T, received: map<T, seq<T>>, excused: set<T>)
    requires key in y.ready && Nested(y, key, received) && Snapshot(items, y, key, received)
    requires Draining(y, r, todo, key, received, excused) && it in todo && todo <= items && Ready(r, it.deps)
    ensures var r1 := MarkReady(r, it.child).0;
      && Inv(r1, received) && it.child in r1.ready && Fresh(r1, it.child) && Nested(r1, it.child, received)
      && (Reduced(received) ==> Settled(r1, received, excused + Children(todo - {it}) + Waiting(r1, it.child)))
      && IndexOf(y.ready, key) < IndexOf(r1.ready, it.child) < |received|
  {
    CheckItem(y, r, items, it, key, received);
    MarkReadyInv(r, it.child, received);
    NestedStep(y, r, key, it.child, received);
    if Reduced(received) {
      EnterSettled(r, todo, it, received, excused);
    }
    O.LaterThanDependency(y.ready, MarkReady(r, it.child).0.ready, key, it.child, received);
  }

  lemma Leave<T(!new)>(
    y: Tables<T>, r: Tables<T>, r2: Tables<T>, items: set<Dependent<T>>, todo: set<Dependent<T>>, it: Dependent<T>,
    key: T, received: map<T, seq<T>>, excused: set<T>)
    requires key in y.ready && Snapshot(items, y, key, received)
    requires Draining(y, r, todo, key, received, excused) && it in todo && todo <= items && Ready(r, it.deps)
    requires Inv(r2, received) && Drained(MarkReady(r, it.child).0, r2, it.child, received)
    requires Reduced(received) ==> Settled(r2, received, excused + Children(todo - {it}))
    ensures Draining(y, r2, todo - {it}, key, received, excused)
  {
    CheckItem(y, r, items, it, key, received);
    ProgressStep(y, r, r2, key, it.child, received);
    forall other | other in todo - {it} ensures other.child !in r2.ready {
      TodoKept(y, r, r2, items, it, other, key, received);
    }
  }

  method ProcessPending<T(==, !new)>(y: Tables<T>, key: T, ghost received: map<T, seq<T>>, ghost excused: set<T>)
    returns (r: Tables<T>)
    requires Inv(y, received) && key in y.ready && Fresh(y, key) && Nested(y, key, received)
    requires Reduced(received) ==> Settled(y, received, excused + Waiting(y, key))
    ensures Inv(r, received) && Drained(y, r, key, received) && Appended(y, r)
    ensures Reduced(received) ==> Settled(r, received, excused)
    decreases |received| - Rank(y.ready, key)
  {
    var dependents := GetNextPending(y, key);
    SnapshotOf(dependents, y, key, received);
    r := y;
    var todo := dependents;
    while todo != {}
      invariant todo <= dependents
      invariant Draining(y, r, todo, key, received, excused) && Appended(y, r)
      decreases todo
    {
      var it :| it in todo;
      if Ready(r, it.deps) {
        ghost var before := r;
        Enter(y, r, dependents, todo, it, key, received, excused);
        r := MarkReady(r, it.child).0;
        r := ProcessPending(r, it.child, received, excused + Children(todo - {it}));
        AppendedMore(y, before, r, it.child);
        Leave(y, before, r, dependents, todo, it, key, received, excused);
      } else {
        Skip(y, r, dependents, todo, it, key, received, excused);
      }
      todo := todo - {it};
    }
    RemovePendingInv(y, r, key, received);
    r := RemovePending(r, key);
  }
}
