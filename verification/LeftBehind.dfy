/**
 * Reduced dependency lists are necessary for the persisted orderer: without them some order of the same deliveries
 * leaves an item behind.
 */
module LeftBehind {
  import opened Sequences
  import O = Orderer
  import opened SqliteOrderer
  import opened SqliteRuns

  lemma {:induction false} AncestorIsReady<T(!new)>(h: seq<T>, p: seq<T>, received: map<T, seq<T>>)
    requires O.Causal(h, received) && Chain(p, received) && p[|p| - 1] in h
    ensures p[0] in h
    decreases |p|
  {
    O.CausalHasDependencies(h, received);
    var n := |p| - 1;
    assert DependsAt(p, received, n);
    if |p| > 2 {
      ChainPrefix(p, received, n);
      AncestorIsReady(h, p[..n], received);
    }
  }

  /** Before `a` is ready, a received item depending on `a` and on a descendant `b` of `a` is indexed under both. */
  lemma IndexedUnderBoth<T(!new)>(y: Tables<T>, x: T, a: T, b: T, received: map<T, seq<T>>)
    requires Inv(y, received) && x in received && a in received[x] && b in received[x]
    requires Ancestor(a, b, received) && a !in y.ready
    ensures x !in y.ready && a in Ids(y.pending, x) && b in Ids(y.pending, x)
  {
    O.CausalHasDependencies(y.ready, received);
    if b in y.ready {
      var p :| Chain(p, received) && p[0] == a && p[|p| - 1] == b;
      AncestorIsReady(y.ready, p, received);
    }
  }

  /** The violation of `Reduced` at `x` which shows when `last` is delivered last. */
  ghost predicate Violates<T(!new)>(received: map<T, seq<T>>, x: T, last: T)
  {
    && x in received && Released(x, received)
    && (|| (last == x && !Distinct(received[x]))
        || (last in received[x] && exists b :: b in received[x] && Ancestor(last, b, received)))
  }

  lemma ViolationExists<T(!new)>(received: map<T, seq<T>>)
    requires !Reduced(received)
    ensures exists x, last :: Violates(received, x, last)
  {
    var x :| x in received && Released(x, received) && !ReducedItem(x, received);
    if !Distinct(received[x]) {
      assert Violates(received, x, x);
    } else {
      var a, b :| a in received[x] && b in received[x] && Ancestor(a, b, received);
      assert Violates(received, x, a);
    }
  }

  /** Everything an item which can be released depends on was received. */
  lemma ReleasedDependencies<T(!new)>(received: map<T, seq<T>>, x: T, d: T)
    requires x in received && Released(x, received) && d in received[x]
    ensures d in received
  {
    var h :| O.Causal(h, received) && x in h;
    O.CausalHasDependencies(h, received);
    assert d in h;
  }

  /** A history can be continued until it holds everything there is to release. */
  lemma WholeHistory<T(!new)>(h: seq<T>, received: map<T, seq<T>>) returns (whole: seq<T>)
    requires O.Causal(h, received) && Distinct(h)
    ensures O.Causal(whole, received) && O.Closed(Elements(whole), received)
    decreases |received| - |h|
  {
    DistinctBound(h, received.Keys);
    if k :| k in received && O.AllReady(Elements(h), received[k]) && k !in h {
      CausalAppend(h, received, k);
      DistinctBound(h + [k], received.Keys);
      whole := WholeHistory(h + [k], received);
    } else {
      whole := h;
    }
  }

  /** The items which can be released are those which every closed set contains. */
  lemma ReleasedIsClosure<T(!new)>(received: map<T, seq<T>>, k: T)
    ensures Released(k, received) <==> forall s: set<T> :: O.Closed(s, received) ==> k in s
  {
    if h :| O.Causal(h, received) && k in h {
      forall s: set<T> | O.Closed(s, received) ensures k in s {
        O.CausalBelowClosed(h, received, s);
      }
    }
    var whole := WholeHistory([], received);
    assert k in Elements(whole) ==> Released(k, received);
  }

  lemma {:induction false} AncestorEarlier<T(!new)>(h: seq<T>, p: seq<T>, i: nat, received: map<T, seq<T>>)
    returns (j: nat)
    requires O.Causal(h, received) && Chain(p, received) && i < |h| && h[i] == p[|p| - 1]
    ensures j < i && h[j] == p[0]
    decreases |p|
  {
    var n := |p| - 1;
    assert DependsAt(p, received, n);
    j :| 0 <= j < i && h[..i][j] == p[n - 1];
    if |p| > 2 {
      ChainPrefix(p, received, n);
      j := AncestorEarlier(h, p[..n], j, received);
    }
  }

  lemma OwnAncestorNotReady<T(!new)>(h: seq<T>, a: T, received: map<T, seq<T>>)
    requires O.Causal(h, received) && Ancestor(a, a, received)
    ensures a !in h
  {
    if a in h {
      var p :| Chain(p, received) && p[0] == a && p[|p| - 1] == a;
      var j := AncestorEarlier(h, p, IndexOf(h, a), received);
    }
  }

  /** Without cycles a chain from `a` does not come back to `a`. */
  lemma AncestorWithout<T(!new)>(a: T, b: T, received: map<T, seq<T>>)
    requires Ancestor(a, b, received) && !Ancestor(a, a, received)
    ensures Ancestor(a, b, received - {a}) && a != b
  {
    var p :| Chain(p, received) && p[0] == a && p[|p| - 1] == b;
    forall i | 0 < i < |p| ensures p[i] != a {
      ChainPrefix(p, received, i + 1);
    }
    forall i | 0 < i < |p| ensures DependsAt(p, received - {a}, i) {
      assert DependsAt(p, received, i);
    }
  }

  lemma ImpliedLeftBehind<T(!new)>(
    before: Tables<T>, y: Tables<T>, received: map<T, seq<T>>, x: T, a: T, b: T)
    requires x in received && a in received && a in received[x] && b in received[x] && Ancestor(a, b, received)
    requires Inv(before, received - {a}) && Inv(y, received) && Submitted(before, O.Item(a, received[a]), y)
    ensures x !in y.ready
  {
    O.CausalHasDependencies(y.ready, received);
    O.CausalHasDependencies(before.ready, received - {a});
    if Ancestor(a, a, received) {
      OwnAncestorNotReady(y.ready, a, received);
    } else {
      if x == a {
        AncestorDirect(a, a, received);
      }
      AncestorWithout(a, b, received);
      IndexedUnderBoth(before, x, a, b, received - {a});
    }
  }

  /** The events deliver exactly `received`, and `last` only at the end. */
  ghost predicate LastOf<T>(events: seq<O.Event<T>>, received: map<T, seq<T>>, last: T)
  {
    && last in received && O.Received(events) == received
    && events != [] && events[|events| - 1] == O.Submit(O.Item(last, received[last]))
    && O.Received(events[..|events| - 1]) == received - {last}
  }

  /** Deliver every received item once, `last` at the end. */
  method Deliveries<T(==, !new)>(received: map<T, seq<T>>, last: T) returns (events: seq<O.Event<T>>)
    requires last in received
    ensures O.Consistent(events) && LastOf(events, received, last)
  {
    events := [];
    var todo := received.Keys - {last};
    while todo != {}
      invariant todo <= received.Keys - {last}
      invariant Delivered(events, received)
      invariant O.Received(events) == received - {last} - todo
      decreases todo
    {
      var k :| k in todo;
      events := events + [O.Submit(O.Item(k, received[k]))];
      assert events[..|events| - 1] + [events[|events| - 1]] == events;
      assert received - {last} - (todo - {k}) == (received - {last} - todo)[k := received[k]];
      todo := todo - {k};
    }
    ghost var others := events;
    events := events + [O.Submit(O.Item(last, received[last]))];
    assert events[..|events| - 1] == others;
    assert received == (received - {last})[last := received[last]];
  }

  ghost predicate Delivered<T>(events: seq<O.Event<T>>, received: map<T, seq<T>>)
  {
    forall i :: 0 <= i < |events| ==>
      events[i].Submit? && events[i].item.key in received && events[i].item.deps == received[events[i].item.key]
  }

  /** `x` is not ready, and what is ready is not the least closure. */
  ghost predicate Misses<T(!new)>(y: Tables<T>, x: T, received: map<T, seq<T>>)
  {
    x !in y.ready && !O.IsLeastClosure(Elements(y.ready), received)
  }

  /** After every run which delivers the violating item last, `x` is left behind. */
  lemma LastLeavesBehind<T(!new)>(events: seq<O.Event<T>>, y: Tables<T>, received: map<T, seq<T>>, x: T, last: T)
    requires Violates(received, x, last) && LastOf(events, received, last)
    requires Ends(events, y)
    ensures Misses(y, x, received)
  {
    var before :| LastStep(events, before, y);
    ReleasedIsClosure(received, x);
    if b :| b in received[x] && last in received[x] && Ancestor(last, b, received) {
      ImpliedLeftBehind(before, y, received, x, last, b);
    } else {
      O.CausalHasDependencies(before.ready, received - {x});
    }
  }

  /**
   * Reduced dependency lists are necessary: whenever they are violated there is an order of the same deliveries
   * such that every run of it leaves an item behind although everything below it was received.
   */
  method LeaveBehind<T(==, !new)>(received: map<T, seq<T>>, x: T, last: T) returns (events: seq<O.Event<T>>)
    requires Violates(received, x, last)
    ensures O.Consistent(events) && LastOf(events, received, last)
    ensures forall y :: Ends(events, y) ==> Misses(y, x, received)
  {
    if last != x {
      ReleasedDependencies(received, x, last);
    }
    events := Deliveries(received, last);
    forall y | Ends(events, y) ensures Misses(y, x, received) {
      LastLeavesBehind(events, y, received, x, last);
    }
  }

  const THREE_ITEMS: map<nat, seq<nat>> := map[3 := [1, 2], 2 := [1], 1 := []]

  const THREE_DELIVERIES: seq<O.Event<nat>> :=
    [O.Submit(O.Item(3, [1, 2])), O.Submit(O.Item(2, [1])), O.Submit(O.Item(1, []))]

  lemma ThreeReceived()
    ensures O.Received(THREE_DELIVERIES) == THREE_ITEMS
    ensures O.Received(THREE_DELIVERIES[..2]) == THREE_ITEMS - {1}
    ensures O.Consistent(THREE_DELIVERIES)
  {
    var one, two := THREE_DELIVERIES[..1], THREE_DELIVERIES[..2];
    assert one == [THREE_DELIVERIES[0]] && one[..0] == [] && two[..1] == one;
    assert O.Received(one) == map[3 := [1, 2]];
    assert O.Received(two) == map[3 := [1, 2], 2 := [1]];
  }

  lemma ThreeClosure()
    ensures O.IsLeastClosure({1, 2, 3}, THREE_ITEMS)
  {
    forall s: set<nat> | O.Closed(s, THREE_ITEMS) ensures {1, 2, 3} <= s {
      assert O.AllReady(s, THREE_ITEMS[1]);
      assert O.AllReady(s, THREE_ITEMS[2]);
      assert O.AllReady(s, THREE_ITEMS[3]);
    }
  }

  /**
   * The smallest case: an item, a dependency of it, and one which both depend on, delivered in this order. Every run
   * leaves the item behind.
   */
  lemma DeliverThree(y: Tables<nat>)
    requires Ends(THREE_DELIVERIES, y)
    ensures O.Received(THREE_DELIVERIES) == THREE_ITEMS && O.IsLeastClosure({1, 2, 3}, THREE_ITEMS)
    ensures Misses(y, 3, THREE_ITEMS)
  {
    ThreeReceived();
    ThreeClosure();
    AncestorDirect(1, 2, THREE_ITEMS);
    ReleasedIsClosure(THREE_ITEMS, 3);
    assert Violates(THREE_ITEMS, 3, 1);
    LastLeavesBehind(THREE_DELIVERIES, y, THREE_ITEMS, 3, 1);
  }
}
