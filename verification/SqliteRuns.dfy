/** Submissions to the persisted orderer and whole runs of it. */
module SqliteRuns {
  import opened Sequences
  import O = Orderer
  import opened SqliteDrain
  import opened SqliteOrderer

  /** Between two submissions no row belongs to a ready id. */
  ghost predicate Quiet<T>(y: Tables<T>)
  {
    forall row :: row in y.pending ==> row.id !in y.ready
  }

  lemma ChainSubset<T>(p: seq<T>, small: map<T, seq<T>>, big: map<T, seq<T>>)
    requires Chain(p, small) && forall k :: k in small ==> k in big && big[k] == small[k]
    ensures Chain(p, big)
  {
    forall i | 0 < i < |p| ensures DependsAt(p, big, i) {
      assert DependsAt(p, small, i);
    }
  }

  lemma ReducedSubset<T(!new)>(small: map<T, seq<T>>, big: map<T, seq<T>>)
    requires Reduced(big) && forall k :: k in small ==> k in big && big[k] == small[k]
    ensures Reduced(small)
  {
    forall k | k in small && Released(k, small) ensures ReducedItem(k, small) {
      var h :| O.Causal(h, small) && k in h;
      assert O.Causal(h, big);
      assert ReducedItem(k, big);
      forall a, b | a in small[k] && b in small[k] ensures !Ancestor(a, b, small) {
        if p :| Chain(p, small) && p[0] == a && p[|p| - 1] == b {
          ChainSubset(p, small, big);
        }
      }
    }
  }

  lemma MarkPendingInv<T(!new)>(y: Tables<T>, r: Tables<T>, item: O.Item<T>, received: map<T, seq<T>>)
    requires Inv(y, received) && Quiet(y) && (item.key in received ==> received[item.key] == item.deps)
    requires r.ready == y.ready
    requires forall row :: row in r.pending <==>
      row in y.pending || (row.child == item.key && row.id in item.deps && row.id !in y.ready
                           && row.parent in item.deps && row.digest == multiset(item.deps))
    ensures Inv(r, received[item.key := item.deps]) && Quiet(r)
  {
    var received' := received[item.key := item.deps];
    forall row, p | row in r.pending && p in received'[row.child]
      ensures Row(row.id, row.child, p, multiset(received'[row.child])) in r.pending
    {
    }
    forall k, d | k in received' && k !in r.ready && d in received'[k] && d !in r.ready ensures d in Ids(r.pending, k) {
      if k == item.key {
        assert Row(d, k, d, multiset(item.deps)) in r.pending;
      } else {
        assert d in Ids(y.pending, k);
        var row :| row in y.pending && row.child == k && row.id == d;
        assert row in r.pending;
      }
    }
  }

  lemma MarkPendingSettled<T(!new)>(y: Tables<T>, r: Tables<T>, item: O.Item<T>, received: map<T, seq<T>>)
    requires Settled(y, received, {}) && r.ready == y.ready && (item.key in received ==> received[item.key] == item.deps)
    requires !O.AllReady(Elements(y.ready), item.deps)
    ensures Settled(r, received[item.key := item.deps], {})
  {
  }

  /** A submitted item whose dependencies are met, before it is marked. */
  lemma AcceptItem<T(!new)>(y: Tables<T>, item: O.Item<T>, received: map<T, seq<T>>)
    requires Inv(y, received) && (item.key in received ==> received[item.key] == item.deps)
    requires O.AllReady(Elements(y.ready), item.deps)
    ensures Inv(y, received[item.key := item.deps])
    ensures Settled(y, received, {}) ==> Settled(y, received[item.key := item.deps], {item.key})
  {
  }

  lemma EnterSubmitted<T(!new)>(y: Tables<T>, item: O.Item<T>, received: map<T, seq<T>>)
    requires Inv(y, received) && Quiet(y) && (item.key in received ==> received[item.key] == item.deps)
    requires O.AllReady(Elements(y.ready), item.deps)
    requires Reduced(received[item.key := item.deps]) ==> Settled(y, received, {})
    ensures var received', r := received[item.key := item.deps], MarkReady(y, item.key).0;
      && Inv(r, received') && item.key in r.ready && Fresh(r, item.key) && Nested(r, item.key, received')
      && (Reduced(received') ==> Settled(r, received', {} + Waiting(r, item.key)))
  {
    var received' := received[item.key := item.deps];
    AcceptItem(y, item, received);
    if item.key !in y.ready {
      MarkReadyInv(y, item.key, received');
      if Reduced(received') {
        SettledMark(y, item.key, received', {item.key});
        assert {item.key} - {item.key} == {};
      }
    }
  }

  /** Only an item with met, duplicate-free dependencies releases anything, and nothing which waits under another key. */
  ghost predicate Submitted<T>(y: Tables<T>, item: O.Item<T>, r: Tables<T>)
  {
    && ((Distinct(item.deps) && O.AllReady(Elements(y.ready), item.deps)) || r.ready == y.ready)
    && (forall c :: c in r.ready && c !in y.ready && item.key in Ids(y.pending, c) ==>
          c == item.key || Ids(y.pending, c) == {item.key})
  }

  lemma LeaveSubmitted<T(!new)>(y: Tables<T>, r: Tables<T>, key: T, received: map<T, seq<T>>)
    requires Quiet(y) && Drained(MarkReady(y, key).0, r, key, received)
    ensures Quiet(r)
    ensures forall c :: c in r.ready && c !in y.ready && key in Ids(y.pending, c) ==> c == key || Ids(y.pending, c) == {key}
  {
    var marked := MarkReady(y, key).0;
    assert forall id :: id in marked.ready <==> id in y.ready || id == key;
    assert marked.pending == y.pending;
  }

  method Process<T(==, !new)>(y: Tables<T>, item: O.Item<T>, ghost received: map<T, seq<T>>)
    returns (r: Tables<T>, isReady: bool)
    requires Inv(y, received) && Quiet(y)
    requires item.key in received ==> received[item.key] == item.deps
    requires Reduced(received) ==> Settled(y, received, {})
    ensures Inv(r, received[item.key := item.deps]) && Quiet(r)
    ensures Reduced(received[item.key := item.deps]) ==> Settled(r, received[item.key := item.deps], {})
    ensures isReady <==> Distinct(item.deps) && O.AllReady(Elements(y.ready), item.deps)
    ensures isReady ==> item.key in r.ready && item.key in r.queue && Appended(MarkReady(y, item.key).0, r)
    ensures !isReady ==> r.ready == y.ready && r.queue == y.queue
    ensures Submitted(y, item, r)
  {
    ghost var received' := received[item.key := item.deps];
    ReadySubmitted(y, item.deps);
    if Reduced(received') {
      ReducedSubset(received, received');
      CausalMore(y.ready, received, item);
      MetIsReduced(y.ready, received', item.key);
    }
    isReady := Ready(y, multiset(item.deps));
    if !isReady {
      var inserted;
      r, inserted := MarkPending(y, item.key, item.deps);
      MarkPendingInv(y, r, item, received);
      if Reduced(received') {
        MarkPendingSettled(y, r, item, received);
      }
      return;
    }
    EnterSubmitted(y, item, received);
    r := MarkReady(y, item.key).0;
    r := ProcessPending(r, item.key, received', {});
    LeaveSubmitted(y, r, item.key, received');
  }

  /** What was taken and what is queued: all ready ids and no others, each after its dependencies. */
  ghost predicate Queued<T>(y: Tables<T>, taken: seq<T>, received: map<T, seq<T>>)
  {
    && O.Causal(taken + y.queue, received)
    && Elements(taken + y.queue) == Elements(y.ready)
    && Distinct(y.queue)
  }

  lemma CausalMore<T>(h: seq<T>, received: map<T, seq<T>>, item: O.Item<T>)
    requires O.Causal(h, received) && (item.key in received ==> received[item.key] == item.deps)
    ensures O.Causal(h, received[item.key := item.deps])
  {
  }

  lemma QueuedMark<T>(y: Tables<T>, taken: seq<T>, received: map<T, seq<T>>, key: T)
    requires Queued(y, taken, received) && key in received && O.AllReady(Elements(y.ready), received[key])
    ensures Queued(MarkReady(y, key).0, taken, received)
    ensures key in MarkReady(y, key).0.queue && y.queue <= MarkReady(y, key).0.queue
    ensures MarkReady(y, key).1 <==> key !in y.queue
  {
    var m := MarkReady(y, key).0;
    if m.queue != y.queue {
      assert taken + m.queue == taken + y.queue + [key];
      CausalAppend(taken + y.queue, received, key);
    }
  }

  lemma {:induction false} QueuedAppended<T>(
    y: Tables<T>, r: Tables<T>, taken: seq<T>, received: map<T, seq<T>>, n: nat)
    requires Queued(y, taken, received) && O.Causal(r.ready, received) && Distinct(r.ready)
    requires Appended(y, r) && |y.ready| + n <= |r.ready|
    ensures var k := |y.ready| + n; Queued(r.(ready := r.ready[..k], queue := y.queue + r.ready[|y.ready|..k]), taken, received)
  {
    var k := |y.ready| + n;
    if n == 0 {
      assert r.ready[..k] == y.ready && r.ready[|y.ready|..k] == [];
      assert y.queue + [] == y.queue;
    } else {
      QueuedAppended(y, r, taken, received, n - 1);
      var before := r.(ready := r.ready[..k - 1], queue := y.queue + r.ready[|y.ready|..k - 1]);
      var x := r.ready[k - 1];
      TakeNext(r.ready, k - 1);
      assert r.ready[|y.ready|..k] == r.ready[|y.ready|..k - 1] + [x];
      QueuedMark(before, taken, received, x);
      assert x !in before.ready;
      assert MarkReady(before, x).0.queue == y.queue + r.ready[|y.ready|..k];
      assert MarkReady(before, x).0 == r.(ready := r.ready[..k], queue := y.queue + r.ready[|y.ready|..k]);
    }
  }

  /** Taking hands out the first of the queue, and nothing only if the queue is empty. */
  lemma QueuedTake<T>(y: Tables<T>, taken: seq<T>, received: map<T, seq<T>>)
    requires Queued(y, taken, received)
    ensures var (rest, next) := TakeNextReady(y);
      && Queued(rest, taken + next, received)
      && next + rest.queue == y.queue && |next| == (if y.queue == [] then 0 else 1)
      && rest.ready == y.ready && rest.pending == y.pending
  {
    var (rest, next) := TakeNextReady(y);
    assert taken + next + rest.queue == taken + y.queue;
  }

  lemma QueuedProcess<T>(
    y: Tables<T>, r: Tables<T>, taken: seq<T>, received: map<T, seq<T>>, item: O.Item<T>)
    requires Queued(y, taken, received) && (item.key in received ==> received[item.key] == item.deps)
    requires O.AllReady(Elements(y.ready), item.deps) && Appended(MarkReady(y, item.key).0, r)
    requires O.Causal(r.ready, received[item.key := item.deps]) && Distinct(r.ready)
    ensures Queued(r, taken, received[item.key := item.deps])
  {
    var received', m := received[item.key := item.deps], MarkReady(y, item.key).0;
    CausalMore(taken + y.queue, received, item);
    QueuedMark(y, taken, received', item.key);
    QueuedAppended(m, r, taken, received', |r.ready| - |m.ready|);
    assert r.ready[..|r.ready|] == r.ready;
  }

  /** What holds between two events. */
  ghost predicate Running<T(!new)>(y: Tables<T>, taken: seq<T>, received: map<T, seq<T>>)
  {
    && Inv(y, received) && Quiet(y) && Queued(y, taken, received)
    && (Reduced(received) ==> Settled(y, received, {}))
  }

  ghost function Extended<T>(received: map<T, seq<T>>, event: O.Event<T>): (r: map<T, seq<T>>)
  {
    if event.Submit? then received[event.item.key := event.item.deps] else received
  }

  lemma ReceivedNext<T>(events: seq<O.Event<T>>, i: nat)
    requires i < |events|
    ensures O.Received(events[..i + 1]) == Extended(O.Received(events[..i]), events[i])
  {
    assert events[..i + 1][..i] == events[..i];
  }

  method Step<T(==, !new)>(y: Tables<T>, taken: seq<T>, event: O.Event<T>, ghost received: map<T, seq<T>>)
    returns (y': Tables<T>, taken': seq<T>)
    requires Running(y, taken, received)
    requires event.Submit? && event.item.key in received ==> received[event.item.key] == event.item.deps
    ensures Running(y', taken', Extended(received, event))
    ensures event.Submit? ==> Submitted(y, event.item, y') && taken' == taken
    ensures event.Take? ==> |taken'| + |y'.queue| == |taken| + |y.queue|
    ensures event.Take? ==> |y'.queue| == if y.queue == [] then 0 else |y.queue| - 1
  {
    y', taken' := y, taken;
    match event
    case Submit(item) =>
      var isReady;
      y', isReady := Process(y, item, received);
      if isReady {
        QueuedProcess(y, y', taken, received, item);
      } else {
        CausalMore(taken + y.queue, received, item);
      }
    case Take =>
      QueuedTake(y, taken, received);
      var (rest, next) := TakeNextReady(y);
      y', taken' := rest, taken + next;
  }

  ghost predicate LastStep<T>(events: seq<O.Event<T>>, before: Tables<T>, y: Tables<T>)
    requires events != []
  {
    var n := |events| - 1;
    && Inv(before, O.Received(events[..n]))
    && (events[n].Submit? ==> Submitted(before, events[n].item, y))
  }

  lemma QueueBound<T(!new)>(y: Tables<T>, taken: seq<T>, received: map<T, seq<T>>)
    requires Running(y, taken, received)
    ensures |y.queue| <= |received|
  {
    O.CausalHasDependencies(taken + y.queue, received);
    forall x | x in y.queue ensures x in received.Keys {
      assert x in taken + y.queue;
    }
    DistinctBound(y.queue, received.Keys);
  }

  /** The tables after a run of the events: what every run keeps, and what its last step did. */
  ghost predicate Ends<T(!new)>(events: seq<O.Event<T>>, y: Tables<T>)
  {
    Inv(y, O.Received(events)) && (events != [] ==> exists before :: LastStep(events, before, y))
  }

  method Run<T(==, !new)>(events: seq<O.Event<T>>) returns (y: Tables<T>, taken: seq<T>)
    requires O.Consistent(events)
    ensures Ends(events, y) && Quiet(y) && Queued(y, taken, O.Received(events))
    ensures Reduced(O.Received(events)) ==> O.IsLeastClosure(Elements(y.ready), O.Received(events))
    ensures |taken| <= O.Takes(events)
    ensures O.LastTakes(events) >= |O.Received(events)| ==> y.queue == [] && Elements(taken) == Elements(y.ready)
  {
    y, taken := Tables([], [], {}), [];
    ghost var before := y;
    for i := 0 to |events|
      invariant Running(y, taken, O.Received(events[..i]))
      invariant O.Answered(|y.queue|, |taken|, events[..i])
      invariant i > 0 ==> Inv(before, O.Received(events[..i - 1]))
      invariant i > 0 && events[i - 1].Submit? ==> Submitted(before, events[i - 1].item, y)
    {
      ReceivedNext(events, i);
      if events[i].Submit? {
        O.ReceivedIffDelivered(events[..i], events[i].item.key);
      }
      before := y;
      y, taken := Step(y, taken, events[i], O.Received(events[..i]));
      QueueBound(y, taken, O.Received(events[..i + 1]));
      assert events[..i + 1][..i] == events[..i];
    }
    assert events[..|events|] == events;
    assert y.queue == [] ==> taken + y.queue == taken;
    assert events != [] ==> LastStep(events, before, y);
    if Reduced(O.Received(events)) {
      LeastClosure(y, O.Received(events));
    }
  }

  lemma LeastClosure<T(!new)>(y: Tables<T>, received: map<T, seq<T>>)
    requires O.Causal(y.ready, received) && Settled(y, received, {})
    ensures O.IsLeastClosure(Elements(y.ready), received)
  {
    forall other: set<T> | O.Closed(other, received) ensures Elements(y.ready) <= other {
      O.CausalBelowClosed(y.ready, received, other);
    }
  }
}
