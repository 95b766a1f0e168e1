/**
 * The in-memory causal orderer: items wait in a reverse-dependency index until
 * everything they depend on is ready, and leave through a queue.
 */
module Orderer {
  import opened Sequences

  /** An item and the keys it depends on. */
  datatype Item<T> = Item(key: T, deps: seq<T>)

  datatype OrdererState<T> = OrdererState(
    ready: set<T>,
    queue: seq<T>,
    pending: map<T, set<Item<T>>>)

  /** Everything the caller does to an orderer. */
  datatype Event<T> = Submit(item: Item<T>) | Take

  // ---------------------------------------------------------------------
  // Specification
  // ---------------------------------------------------------------------

  ghost predicate AllReady<T>(ready: set<T>, deps: seq<T>)
  {
    forall d :: d in deps ==> d in ready
  }

  /** Every key ever marked ready, in that order: what was taken, then what is queued. */
  ghost function History<T>(y: OrdererState<T>, taken: seq<T>): (h: seq<T>)
  {
    taken + y.queue
  }

  /** Each entry comes after everything it depends on. */
  ghost predicate Causal<T>(h: seq<T>, received: map<T, seq<T>>)
  {
    forall i :: 0 <= i < |h| ==> h[i] in received && forall d :: d in received[h[i]] ==> d in h[..i]
  }

  /** The index only holds received items, under keys they depend on. */
  ghost predicate IndexSound<T>(y: OrdererState<T>, received: map<T, seq<T>>)
  {
    forall p, it :: p in y.pending && it in y.pending[p] ==>
      it.key in received && it.deps == received[it.key] && p in it.deps
  }

  /** A waiting item is indexed under each dependency it still waits for. */
  ghost predicate IndexComplete<T>(y: OrdererState<T>, received: map<T, seq<T>>)
  {
    forall k, d :: k in received && k !in y.ready && d in received[k] && d !in y.ready ==>
      d in y.pending && Item(k, received[k]) in y.pending[d]
  }

  /** Items whose dependencies are met are ready, unless a drain in progress still has to visit them. */
  ghost predicate Settled<T>(y: OrdererState<T>, received: map<T, seq<T>>, excused: set<T>)
  {
    forall k :: k in received && AllReady(y.ready, received[k]) ==> k in y.ready || k in excused
  }

  ghost predicate Valid<T>(y: OrdererState<T>, received: map<T, seq<T>>, taken: seq<T>, excused: set<T>)
  {
    var h := History(y, taken);
    && Distinct(h)
    && Elements(h) == y.ready
    && Causal(h, received)
    && IndexSound(y, received)
    && IndexComplete(y, received)
    && Settled(y, received, excused)
  }

  /** The keys waiting under one index entry. */
  ghost function Waiting<T>(y: OrdererState<T>, key: T): (w: set<T>)
  {
    Keys(Dependents(y, key))
  }

  /** The items indexed under a key (`get_next_pending`, with "no entry" as the empty set). */
  function Dependents<T>(y: OrdererState<T>, key: T): (r: set<Item<T>>)
  {
    if key in y.pending then y.pending[key] else {}
  }

  /** What `MarkPending` adds to the index entry of `p`. */
  ghost function Added<T>(y: OrdererState<T>, item: Item<T>, deps: seq<T>, p: T): (r: set<Item<T>>)
  {
    if p in deps && p !in y.ready then {item} else {}
  }

  ghost function Keys<T>(items: set<Item<T>>): (r: set<T>)
    ensures forall it :: it in items ==> it.key in r
    ensures forall k :: k in r ==> exists it :: it in items && it.key == k
  {
    set it | it in items :: it.key
  }

  // ---------------------------------------------------------------------
  // Operations
  // ---------------------------------------------------------------------

  function Init<T>(): (y: OrdererState<T>)
    ensures Valid(y, map[], [], {})
  {
    OrdererState({}, [], map[])
  }

  function MarkReady<T(==)>(y: OrdererState<T>, key: T): (r: (OrdererState<T>, bool))
  {
    if key in y.ready then (y, false)
    else (y.(ready := y.ready + {key}, queue := y.queue + [key]), true)
  }

  function Ready<T(==)>(y: OrdererState<T>, deps: seq<T>): (r: bool)
    ensures r <==> AllReady(y.ready, deps)
  {
    (set d | d in deps) <= y.ready
  }

  function RemovePending<T(==)>(y: OrdererState<T>, key: T): (r: (OrdererState<T>, bool))
  {
    (y.(pending := y.pending - {key}), key in y.pending)
  }

  function TakeNextReady<T(==)>(y: OrdererState<T>): (r: (OrdererState<T>, seq<T>))
  {
    if y.queue == [] then (y, []) else (y.(queue := y.queue[1..]), [y.queue[0]])
  }

  method MarkPending<T(==)>(y: OrdererState<T>, key: T, deps: seq<T>) returns (r: OrdererState<T>, inserted: bool)
    ensures r.ready == y.ready && r.queue == y.queue
    ensures forall p :: Dependents(r, p) == Dependents(y, p) + Added(y, Item(key, deps), deps, p)
    ensures !inserted
  {
    inserted := false;
    r := y;
    for i := 0 to |deps|
      invariant r.ready == y.ready && r.queue == y.queue
      invariant forall p :: Dependents(r, p) == Dependents(y, p) + Added(y, Item(key, deps), deps[..i], p)
    {
      ghost var before := r;
      var dep := deps[i];
      if dep !in r.ready {
        r := r.(pending := r.pending[dep := Dependents(r, dep) + {Item(key, deps)}]);
      }
      assert deps[..i + 1] == deps[..i] + [dep];
      forall p ensures Dependents(r, p) == Dependents(y, p) + Added(y, Item(key, deps), deps[..i + 1], p) {
        assert Dependents(before, p) == Dependents(y, p) + Added(y, Item(key, deps), deps[..i], p);
      }
    }
    assert deps[..|deps|] == deps;
  }

  /** Marking a key with met dependencies keeps the history causal. */
  lemma MarkReadyCausal<T>(y: OrdererState<T>, key: T, received: map<T, seq<T>>, taken: seq<T>)
    requires key !in y.ready && Elements(History(y, taken)) == y.ready && Causal(History(y, taken), received)
    requires key in received && AllReady(y.ready, received[key])
    ensures Causal(History(y, taken) + [key], received)
  {
    var h := History(y, taken);
    var h' := h + [key];
    forall i | 0 <= i < |h'| ensures h'[i] in received && forall d :: d in received[h'[i]] ==> d in h'[..i] {
      assert h'[..i] == h[..i];
      if i == |h| {
        assert h[..i] == h;
      }
    }
  }

  /** Marking a key ready leaves only the keys indexed under it unsettled. */
  lemma MarkReadySettled<T>(y: OrdererState<T>, key: T, received: map<T, seq<T>>, excused: set<T>)
    requires IndexComplete(y, received) && Settled(y, received, excused) && key !in y.ready
    ensures var r := MarkReady(y, key).0;
      IndexComplete(r, received) && Settled(r, received, (excused - {key}) + Waiting(r, key))
  {
    var r := MarkReady(y, key).0;
    forall k | k in received && AllReady(r.ready, received[k])
      ensures k in r.ready || k in (excused - {key}) + Waiting(r, key)
    {
      if k !in r.ready && key in received[k] {
        assert Item(k, received[k]) in Dependents(r, key);
      } else if k !in r.ready {
        assert AllReady(y.ready, received[k]);
      }
    }
  }

  lemma MarkReadyValid<T>(y: OrdererState<T>, key: T, received: map<T, seq<T>>, taken: seq<T>, excused: set<T>)
    requires Valid(y, received, taken, excused)
    requires key in received && AllReady(y.ready, received[key])
    ensures var r := MarkReady(y, key).0;
      && Valid(r, received, taken, (excused - {key}) + Waiting(r, key))
      && key in r.ready
      && y.queue <= r.queue
      && (MarkReady(y, key).1 <==> key !in History(y, taken))
  {
    if key !in y.ready {
      var r := MarkReady(y, key).0;
      assert History(r, taken) == History(y, taken) + [key];
      MarkReadyCausal(y, key, received, taken);
      MarkReadySettled(y, key, received, excused);
    }
  }

  /** Visiting one waiting item: either it still misses a dependency, or it is marked and its own dependents follow. */
  lemma VisitValid<T>(
    y: OrdererState<T>, next: Item<T>, todo: set<Item<T>>,
    received: map<T, seq<T>>, taken: seq<T>, excused: set<T>)
    requires Valid(y, received, taken, excused + Keys(todo))
    requires next in todo && next.key in received && received[next.key] == next.deps
    ensures !AllReady(y.ready, next.deps) ==> Valid(y, received, taken, excused + Keys(todo - {next}))
    ensures AllReady(y.ready, next.deps) ==>
      var r := MarkReady(y, next.key).0;
      && Valid(r, received, taken, excused + Keys(todo - {next}) + Waiting(r, next.key))
      && next.key in r.ready
      && y.queue <= r.queue
  {
    var rest := todo - {next};
    assert Keys(todo) == Keys(rest) + {next.key};
    if AllReady(y.ready, next.deps) {
      MarkReadyValid(y, next.key, received, taken, excused + Keys(todo));
      var r := MarkReady(y, next.key).0;
      assert (excused + Keys(todo) - {next.key}) + Waiting(r, next.key) <= excused + Keys(rest) + Waiting(r, next.key);
    }
  }

  lemma RemovePendingValid<T>(y: OrdererState<T>, key: T, received: map<T, seq<T>>, taken: seq<T>, excused: set<T>)
    requires Valid(y, received, taken, excused) && key in y.ready
    ensures Valid(RemovePending(y, key).0, received, taken, excused)
    ensures RemovePending(y, key).1 <==> RemovePending(y, key).0 != y
  {
    assert key !in RemovePending(y, key).0.pending;
  }

  /** The measure of the recursion: a released item became ready after the key that released it. */
  lemma LaterThanDependency<T>(h: seq<T>, h': seq<T>, key: T, next: T, received: map<T, seq<T>>)
    requires h <= h' && Distinct(h') && Causal(h', received)
    requires key in h && next in h' && key in received[next]
    ensures IndexOf(h, key) < IndexOf(h', next) < |received|
  {
    IndexOfPrefix(h, h', key);
    var i := IndexOf(h', next);
    assert key in h'[..i];
    IndexOfPrefix(h'[..i], h', key);
    DistinctBound(h', received.Keys);
  }

  lemma Later<T>(
    y: OrdererState<T>, r: OrdererState<T>, key: T, next: T, received: map<T, seq<T>>, taken: seq<T>)
    requires y.queue <= r.queue && Distinct(History(r, taken)) && Causal(History(r, taken), received)
    requires key in History(y, taken) && next in History(r, taken) && key in received[next]
    ensures IndexOf(History(y, taken), key) < IndexOf(History(r, taken), next) < |received|
  {
    assert History(r, taken) == History(y, taken) + r.queue[|y.queue|..];
    LaterThanDependency(History(y, taken), History(r, taken), key, next, received);
  }

  /**
   * Release every pending item which became ready through `key`, recursively.
   *
   * Neither acyclic dependencies nor a bound on the recursion is required: each
   * nested call is for a key which became ready strictly later than `key`.
   */
  method ProcessPending<T(==)>(
    y: OrdererState<T>, key: T,
    ghost received: map<T, seq<T>>, ghost taken: seq<T>, ghost excused: set<T>)
    returns (r: OrdererState<T>)
    requires Valid(y, received, taken, excused + Waiting(y, key))
    requires key in y.ready
    ensures Valid(r, received, taken, excused)
    ensures y.queue <= r.queue && y.ready <= r.ready
    ensures key !in r.pending
    decreases |received| - Rank(History(y, taken), key)
  {
    if key !in y.pending {
      return y;
    }
    r := y;
    var todo := y.pending[key];
    while todo != {}
      invariant todo <= y.pending[key]
      invariant Valid(r, received, taken, excused + Keys(todo))
      invariant y.queue <= r.queue && key in r.ready
      decreases todo
    {
      var next :| next in todo;
      VisitValid(r, next, todo, received, taken, excused);
      if Ready(r, next.deps) {
        r := MarkReady(r, next.key).0;
        Later(y, r, key, next.key, received, taken);
        r := ProcessPending(r, next.key, received, taken, excused + Keys(todo - {next}));
      }
      todo := todo - {next};
    }
    RemovePendingValid(r, key, received, taken, excused);
    r := RemovePending(r, key).0;
  }

  /** Indexing a received item whose dependencies are not all met. */
  lemma MarkPendingValid<T>(
    y: OrdererState<T>, r: OrdererState<T>, item: Item<T>, received: map<T, seq<T>>, taken: seq<T>)
    requires Valid(y, received, taken, {})
    requires item.key in received ==> received[item.key] == item.deps
    requires !AllReady(y.ready, item.deps)
    requires r.ready == y.ready && r.queue == y.queue
    requires forall p :: Dependents(r, p) == Dependents(y, p) + Added(y, item, item.deps, p)
    ensures Valid(r, received[item.key := item.deps], taken, {})
  {
    var received' := received[item.key := item.deps];
    forall p, it | p in r.pending && it in r.pending[p]
      ensures it.key in received' && it.deps == received'[it.key] && p in it.deps
    {
      assert it in Dependents(r, p);
    }
    forall k, d | k in received' && k !in r.ready && d in received'[k] && d !in r.ready
      ensures d in r.pending && Item(k, received'[k]) in r.pending[d]
    {
      if k != item.key {
        assert Item(k, received[k]) in Dependents(y, d);
      }
      assert Item(k, received'[k]) in Dependents(r, d);
    }
  }

  lemma CausalHasDependencies<T>(h: seq<T>, received: map<T, seq<T>>)
    requires Causal(h, received)
    ensures forall k :: k in h ==> k in received && AllReady(Elements(h), received[k])
  {
    forall k | k in h ensures k in received && AllReady(Elements(h), received[k]) {
      var i :| 0 <= i < |h| && h[i] == k;
      assert forall d :: d in h[..i] ==> d in h;
    }
  }

  /** The caller's step: mark an item with met dependencies and drain what it releases, otherwise buffer it. */
  method Process<T(==)>(y: OrdererState<T>, item: Item<T>, ghost received: map<T, seq<T>>, ghost taken: seq<T>)
    returns (r: OrdererState<T>, isReady: bool)
    requires Valid(y, received, taken, {})
    requires item.key in received ==> received[item.key] == item.deps
    ensures Valid(r, received[item.key := item.deps], taken, {})
    ensures y.queue <= r.queue
    ensures isReady <==> item.key in r.ready
  {
    ghost var received' := received[item.key := item.deps];
    CausalHasDependencies(History(y, taken), received);
    if !Ready(y, item.deps) {
      r, isReady := MarkPending(y, item.key, item.deps);
      MarkPendingValid(y, r, item, received, taken);
      return;
    }
    assert Valid(y, received', taken, {item.key});
    MarkReadyValid(y, item.key, received', taken, {item.key});
    r := MarkReady(y, item.key).0;
    assert {item.key} - {item.key} + Waiting(r, item.key) == {} + Waiting(r, item.key);
    r := ProcessPending(r, item.key, received', taken, {});
    isReady := true;
  }

  // ---------------------------------------------------------------------
  // Whole runs
  // ---------------------------------------------------------------------

  /** Deliveries of the same key always name the same dependencies. */
  ghost predicate Consistent<T>(events: seq<Event<T>>)
  {
    forall i, j ::
      (0 <= i < j < |events| && events[i].Submit? && events[j].Submit? && events[i].item.key == events[j].item.key)
      ==> events[i].item == events[j].item
  }

  /** The dependencies of every key delivered so far. */
  ghost function Received<T>(events: seq<Event<T>>): (r: map<T, seq<T>>)
  {
    if events == [] then map[]
    else
      var before := Received(events[..|events| - 1]);
      match events[|events| - 1]
      case Submit(item) => before[item.key := item.deps]
      case Take => before
  }

  lemma {:induction false} ReceivedIffDelivered<T>(events: seq<Event<T>>, key: T)
    requires Consistent(events)
    ensures key in Received(events) <==> exists e :: e in events && e.Submit? && e.item.key == key
    ensures forall e :: e in events && e.Submit? && e.item.key == key ==> Received(events)[key] == e.item.deps
  {
    if events != [] {
      var n := |events| - 1;
      ReceivedIffDelivered(events[..n], key);
      assert events == events[..n] + [events[n]];
      forall e | e in events && e.Submit? && e.item.key == key ensures Received(events)[key] == e.item.deps {
        if events[n].Submit? && events[n].item.key == key {
          var i :| 0 <= i < |events| && events[i] == e;
          assert i == n || events[i].item == events[n].item;
        }
      }
    }
  }

  /** A set of keys that contains every received item whose dependencies it contains. */
  ghost predicate Closed<T>(s: set<T>, received: map<T, seq<T>>)
  {
    forall k :: k in received && AllReady(s, received[k]) ==> k in s
  }

  ghost predicate IsLeastClosure<T(!new)>(s: set<T>, received: map<T, seq<T>>)
  {
    Closed(s, received) && forall other: set<T> :: Closed(other, received) ==> s <= other
  }

  lemma {:induction false} CausalBelowClosed<T>(h: seq<T>, received: map<T, seq<T>>, other: set<T>)
    requires Causal(h, received) && Closed(other, received)
    ensures Elements(h) <= other
  {
    if h != [] {
      var n := |h| - 1;
      forall i | 0 <= i < n ensures h[..n][i] in received && forall d :: d in received[h[..n][i]] ==> d in h[..n][..i] {
        assert h[..n][..i] == h[..i];
      }
      CausalBelowClosed(h[..n], received, other);
      assert h == h[..n] + [h[n]];
      assert AllReady(other, received[h[n]]);
    }
  }

  /** Nothing is stuck and nothing is early: the ready set is the least closure of what was received. */
  lemma ReadyIsLeastClosure<T(!new)>(y: OrdererState<T>, received: map<T, seq<T>>, taken: seq<T>)
    requires Valid(y, received, taken, {})
    ensures IsLeastClosure(y.ready, received)
    ensures forall k :: k in received ==> (k in y.ready <==> AllReady(y.ready, received[k]))
  {
    var h := History(y, taken);
    forall other: set<T> | Closed(other, received) ensures y.ready <= other {
      CausalBelowClosed(h, received, other);
    }
    CausalHasDependencies(History(y, taken), received);
  }

  /** Taking hands out the first of the queue, and nothing only if the queue is empty. */
  lemma TakeValid<T>(y: OrdererState<T>, received: map<T, seq<T>>, taken: seq<T>)
    requires Valid(y, received, taken, {})
    ensures var (rest, next) := TakeNextReady(y);
      && Valid(rest, received, taken + next, {})
      && next + rest.queue == y.queue && |next| == (if y.queue == [] then 0 else 1)
      && rest.ready == y.ready && rest.pending == y.pending
  {
    var (rest, next) := TakeNextReady(y);
    assert (taken + next) + rest.queue == taken + y.queue;
  }

  ghost function Takes<T>(events: seq<Event<T>>): (n: nat)
  {
    if events == [] then 0
    else Takes(events[..|events| - 1]) + if events[|events| - 1].Take? then 1 else 0
  }

  /** How many takes there are after the last delivery. */
  ghost function LastTakes<T>(events: seq<Event<T>>): (n: nat)
  {
    if events == [] || events[|events| - 1].Submit? then 0 else LastTakes(events[..|events| - 1]) + 1
  }

  /** Nothing leaves the queue without a take, and every take since the last delivery was answered while it could be. */
  ghost predicate Answered<T>(queued: nat, taken: nat, events: seq<Event<T>>)
  {
    taken <= Takes(events) && (queued + LastTakes(events) <= |Received(events)| || queued == 0)
  }

  lemma QueueBound<T>(y: OrdererState<T>, received: map<T, seq<T>>, taken: seq<T>)
    requires Valid(y, received, taken, {})
    ensures |y.queue| <= |received|
  {
    DistinctBound(History(y, taken), received.Keys);
  }

  method Run<T(==, !new)>(events: seq<Event<T>>) returns (y: OrdererState<T>, taken: seq<T>)
    requires Consistent(events)
    ensures IsLeastClosure(y.ready, Received(events))
    ensures forall k :: k in Received(events) ==> (k in y.ready <==> AllReady(y.ready, Received(events)[k]))
    ensures Distinct(taken + y.queue) && Causal(taken + y.queue, Received(events))
    ensures Elements(taken + y.queue) == y.ready
    ensures |taken| <= Takes(events)
    ensures LastTakes(events) >= |Received(events)| ==> y.queue == [] && Elements(taken) == y.ready
  {
    y, taken := Init(), [];
    for i := 0 to |events|
      invariant Valid(y, Received(events[..i]), taken, {})
      invariant Answered(|y.queue|, |taken|, events[..i])
    {
      assert events[..i + 1][..i] == events[..i];
      match events[i] {
        case Submit(item) =>
          ReceivedIffDelivered(events[..i], item.key);
          var isReady;
          y, isReady := Process(y, item, Received(events[..i]), taken);
          QueueBound(y, Received(events[..i + 1]), taken);
        case Take =>
          var (rest, next) := TakeNextReady(y);
          TakeValid(y, Received(events[..i]), taken);
          y, taken := rest, taken + next;
      }
    }
    assert events[..|events|] == events;
    assert y.queue == [] ==> taken + y.queue == taken;
    ReadyIsLeastClosure(y, Received(events), taken);
  }

  /** Two runs deliver the same items, in any order and any number of times. */
  ghost predicate SameItems<T(!new)>(a: seq<Event<T>>, b: seq<Event<T>>)
  {
    forall item :: Submit(item) in a <==> Submit(item) in b
  }

  lemma SameItemsReceived<T(!new)>(a: seq<Event<T>>, b: seq<Event<T>>)
    requires Consistent(a) && Consistent(b) && SameItems(a, b)
    ensures Received(a) == Received(b)
  {
    forall k: T ensures k in Received(a) <==> k in Received(b) {
      ReceivedIffDelivered(a, k);
      ReceivedIffDelivered(b, k);
      if e :| e in a && e.Submit? && e.item.key == k {
        assert Submit(e.item) in b;
      }
      if e :| e in b && e.Submit? && e.item.key == k {
        assert Submit(e.item) in a;
      }
    }
    forall k: T | k in Received(a) ensures Received(a)[k] == Received(b)[k] {
      ReceivedIffDelivered(a, k);
      ReceivedIffDelivered(b, k);
      var e :| e in a && e.Submit? && e.item.key == k;
      assert Submit(e.item) in b;
    }
  }

  /** Any two delivery orders of the same items end with the same ready set. */
  method RunInTwoOrders<T(==, !new)>(a: seq<Event<T>>, b: seq<Event<T>>)
    returns (ya: OrdererState<T>, yb: OrdererState<T>)
    requires Consistent(a) && Consistent(b) && SameItems(a, b)
    ensures ya.ready == yb.ready
    ensures IsLeastClosure(ya.ready, Received(a))
  {
    SameItemsReceived(a, b);
    var ta, tb;
    ya, ta := Run(a);
    yb, tb := Run(b);
  }

  /** An item whose whole acyclic past was received is ready. */
  lemma {:induction false} CompletePastIsReady<T(!new)>(
    ready: set<T>, received: map<T, seq<T>>, past: set<T>, rank: T -> nat, key: T)
    requires Closed(ready, received) && key in past
    requires forall k :: k in past ==> k in received && forall d :: d in received[k] ==> d in past && rank(d) < rank(k)
    ensures key in ready
    decreases rank(key)
  {
    forall d | d in received[key] ensures d in ready {
      CompletePastIsReady(ready, received, past, rank, d);
    }
    assert AllReady(ready, received[key]);
  }
}
