/** Bubbles of concurrent operations: the connected components of the "concurrent with" relation. */
module Bubbles {
  import opened Sequences
  import opened Graph

  // ---------------------------------------------------------------------
  // Specification
  // ---------------------------------------------------------------------

  /** A walk in which neighbouring operations are concurrent. */
  ghost predicate Walk<V(!new)>(g: Digraph<V>, p: seq<V>)
  {
    |p| >= 1 && forall i :: 0 < i < |p| ==> p[i] in g.nodes && Concurrent(g, p[i - 1], p[i])
  }

  ghost predicate Entangled<V(!new)>(g: Digraph<V>, a: V, b: V)
  {
    exists p :: Walk(g, p) && p[0] == a && p[|p| - 1] == b
  }

  ghost function Component<V(!new)>(g: Digraph<V>, v: V): (c: set<V>)
  {
    set w | w in g.nodes && Entangled(g, v, w)
  }

  /** A component with more than one operation. */
  ghost predicate IsBubble<V(!new)>(g: Digraph<V>, b: set<V>)
  {
    |b| > 1 && exists v :: v in g.nodes && b == Component(g, v)
  }

  lemma EntangledSelf<V(!new)>(g: Digraph<V>, a: V)
    ensures Entangled(g, a, a)
  {
    assert Walk(g, [a]);
  }

  lemma EntangledStep<V(!new)>(g: Digraph<V>, a: V, b: V, c: V)
    requires Entangled(g, a, b) && c in g.nodes && Concurrent(g, b, c)
    ensures Entangled(g, a, c)
  {
    var p :| Walk(g, p) && p[0] == a && p[|p| - 1] == b;
    assert Walk(g, p + [c]);
  }

  lemma {:induction false} EntangledTransitive<V(!new)>(g: Digraph<V>, a: V, b: V, q: seq<V>)
    requires Entangled(g, a, b) && Walk(g, q) && q[0] == b
    ensures Entangled(g, a, q[|q| - 1])
    decreases |q|
  {
    if |q| > 1 {
      var n := |q| - 1;
      EntangledTransitive(g, a, b, q[..n]);
      EntangledStep(g, a, q[n - 1], q[n]);
    }
  }

  lemma {:induction false} EntangledBack<V(!new)>(g: Digraph<V>, q: seq<V>)
    requires Walk(g, q) && q[0] in g.nodes
    ensures Entangled(g, q[|q| - 1], q[0])
    decreases |q|
  {
    EntangledSelf(g, q[0]);
    if |q| > 1 {
      var n := |q| - 1;
      EntangledBack(g, q[..n]);
      assert Concurrent(g, q[n], q[n - 1]);
      assert q[n - 1] in g.nodes;
      var p :| Walk(g, p) && p[0] == q[n - 1] && p[|p| - 1] == q[0];
      assert Walk(g, [q[n], q[n - 1]]);
      assert Entangled(g, q[n], q[n - 1]);
      EntangledTransitive(g, q[n], q[n - 1], p);
    }
  }

  /** Entangled operations share their component. */
  lemma ComponentUnique<V(!new)>(g: Digraph<V>, a: V, b: V)
    requires a in g.nodes && b in Component(g, a)
    ensures Component(g, a) == Component(g, b)
  {
    var p :| Walk(g, p) && p[0] == a && p[|p| - 1] == b;
    EntangledBack(g, p);
    forall w | w in g.nodes ensures Entangled(g, a, w) <==> Entangled(g, b, w) {
      if q :| Walk(g, q) && q[0] == a && q[|q| - 1] == w {
        EntangledTransitive(g, b, a, q);
      }
      if q :| Walk(g, q) && q[0] == b && q[|q| - 1] == w {
        EntangledTransitive(g, a, b, q);
      }
    }
  }

  /** Nothing concurrent with a member lies outside its component. */
  lemma ComponentClosed<V(!new)>(g: Digraph<V>, v: V, a: V, b: V)
    requires a in Component(g, v) && b in g.nodes && Concurrent(g, a, b)
    ensures b in Component(g, v)
  {
    EntangledStep(g, v, a, b);
  }

  // ---------------------------------------------------------------------
  // Computing bubbles
  // ---------------------------------------------------------------------

  method ConcurrentOperations<V(==, !new)>(g: Digraph<V>, target: V) returns (r: set<V>)
    requires Valid(g)
    ensures forall v :: v in r <==> v in g.nodes && Concurrent(g, target, v)
  {
    var successors := Dfs(g, target);
    var predecessors := Dfs(Reversed(g), target);
    var relatives := (set v | v in successors) + (set v | v in predecessors);
    r := set v | v in g.nodes && v !in relatives;
    forall v ensures v in predecessors <==> Reaches(g, v, target) {
      ReachesReversed(g, target, v);
    }
  }

  /** Every operation concurrent with a member has been processed. */
  ghost predicate Explored<V(!new)>(g: Digraph<V>, bubble: set<V>, processed: set<V>)
  {
    forall v, w :: v in bubble && w in g.nodes && Concurrent(g, v, w) ==> w in processed
  }

  /** The state of a collection which still has to look at `todo`, all concurrent with its target. */
  ghost predicate Collecting<V(!new)>(
    g: Digraph<V>, target: V, bubble: set<V>, before: set<V>, processed: set<V>, todo: set<V>)
  {
    && before <= processed <= Elements(g.nodes)
    && bubble == {target} + (processed - before)
    && (forall v :: v in bubble ==> Entangled(g, target, v))
    && Explored(g, bubble - {target}, processed)
    && Explored(g, {target}, processed + todo)
  }

  lemma CollectStep<V(!new)>(
    g: Digraph<V>, target: V, bubble: set<V>, before: set<V>, processed: set<V>, todo: set<V>,
    op: V, inner: set<V>, after: set<V>)
    requires Collecting(g, target, bubble, before, processed, todo) && target in before
    requires op in g.nodes && Concurrent(g, target, op) && op !in processed
    requires Collecting(g, op, inner, processed + {op}, after, {})
    ensures Collecting(g, target, bubble + inner, before, after, todo - {op})
  {
    EntangledSelf(g, target);
    EntangledStep(g, target, target, op);
    forall v | v in inner ensures Entangled(g, target, v) {
      var q :| Walk(g, q) && q[0] == op && q[|q| - 1] == v;
      EntangledTransitive(g, target, op, q);
    }
    assert bubble + inner == {target} + (after - before);
  }

  /** Collect everything entangled with `target` which no earlier call has processed. */
  method ConcurrentBubble<V(==, !new)>(g: Digraph<V>, target: V, processed: set<V>)
    returns (bubble: set<V>, processed': set<V>)
    requires Valid(g) && target in g.nodes && target in processed && processed <= Elements(g.nodes)
    ensures Collecting(g, target, bubble, processed, processed', {})
    decreases |Elements(g.nodes) - processed|
  {
    bubble, processed' := {target}, processed;
    EntangledSelf(g, target);
    var ops := ConcurrentOperations(g, target);
    var todo := ops;
    while todo != {}
      invariant todo <= ops
      invariant Collecting(g, target, bubble, processed, processed', todo)
      decreases todo
    {
      var op :| op in todo;
      if op !in processed' {
        SubsetSize(Elements(g.nodes) - (processed' + {op}), Elements(g.nodes) - processed - {op});
        var inner, after := ConcurrentBubble(g, op, processed' + {op});
        CollectStep(g, target, bubble, processed, processed', todo, op, inner, after);
        bubble, processed' := bubble + inner, after;
      }
      todo := todo - {op};
    }
  }

  /** A processed set which no concurrency leaves. */
  ghost predicate ClosedUnder<V(!new)>(g: Digraph<V>, processed: set<V>)
  {
    processed <= Elements(g.nodes) && Explored(g, processed, processed)
  }

  lemma {:induction false} WalkStays<V(!new)>(g: Digraph<V>, s: set<V>, q: seq<V>)
    requires Walk(g, q) && q[0] in s && Explored(g, s, s)
    ensures q[|q| - 1] in s
    decreases |q|
  {
    if |q| > 1 {
      WalkStays(g, s, q[1..]) by {
        assert Concurrent(g, q[0], q[1]);
        assert Walk(g, q[1..]);
      }
    }
  }

  /** Started in a closed set, a collection is the whole component and the processed set stays closed. */
  lemma CollectedIsComponent<V(!new)>(g: Digraph<V>, target: V, bubble: set<V>, before: set<V>, after: set<V>)
    requires target in g.nodes && target !in before && ClosedUnder(g, before)
    requires Collecting(g, target, bubble, before + {target}, after, {})
    ensures bubble == Component(g, target)
    ensures ClosedUnder(g, after) && after == before + bubble
  {
    assert Explored(g, bubble, bubble) by {
      forall v, w | v in bubble && w in g.nodes && Concurrent(g, v, w) ensures w in bubble {
        assert w in before ==> v in before;
      }
    }
    forall w | w in Component(g, target) ensures w in bubble {
      var q :| Walk(g, q) && q[0] == target && q[|q| - 1] == w;
      WalkStays(g, bubble, q);
    }
  }

  /** The bubbles of the nodes which have been processed, each once. */
  ghost predicate BubblesWithin<V(!new)>(g: Digraph<V>, bubbles: seq<set<V>>, processed: set<V>)
  {
    && Distinct(bubbles)
    && forall b :: b in bubbles <==> IsBubble(g, b) && b <= processed
  }

  lemma BubblesStep<V(!new)>(g: Digraph<V>, bubbles: seq<set<V>>, before: set<V>, target: V, bubble: set<V>)
    requires target in g.nodes && target !in before && ClosedUnder(g, before)
    requires BubblesWithin(g, bubbles, before) && bubble == Component(g, target)
    ensures BubblesWithin(g, if |bubble| > 1 then bubbles + [bubble] else bubbles, before + bubble)
  {
    EntangledSelf(g, target);
    forall b | IsBubble(g, b) && b <= before + bubble ensures b <= before || b == bubble {
      var v :| v in g.nodes && b == Component(g, v);
      if w :| w in b && w in bubble {
        ComponentUnique(g, v, w);
        ComponentUnique(g, target, w);
      }
    }
    assert bubble !in bubbles;
  }

  /** The first `i` nodes have been dealt with. */
  ghost predicate Swept<V(!new)>(g: Digraph<V>, bubbles: seq<set<V>>, processed: set<V>, i: nat)
  {
    && ClosedUnder(g, processed)
    && BubblesWithin(g, bubbles, processed)
    && forall j :: 0 <= j < i && j < |g.nodes| ==> g.nodes[j] in processed
  }

  lemma SweepInit<V(!new)>(g: Digraph<V>)
    ensures Swept(g, [], {}, 0)
  {
    forall b: set<V> | b <= {} ensures !IsBubble(g, b) {
      assert b == {};
    }
  }

  lemma SweepStep<V(!new)>(
    g: Digraph<V>, bubbles: seq<set<V>>, processed: set<V>, i: nat, bubble: set<V>, after: set<V>)
    requires i < |g.nodes| && Swept(g, bubbles, processed, i) && g.nodes[i] !in processed
    requires Collecting(g, g.nodes[i], bubble, processed + {g.nodes[i]}, after, {})
    ensures Swept(g, if |bubble| > 1 then bubbles + [bubble] else bubbles, after, i + 1)
  {
    CollectedIsComponent(g, g.nodes[i], bubble, processed, after);
    BubblesStep(g, bubbles, processed, g.nodes[i], bubble);
  }

  lemma SweepDone<V(!new)>(g: Digraph<V>, bubbles: seq<set<V>>, processed: set<V>)
    requires Swept(g, bubbles, processed, |g.nodes|)
    ensures Distinct(bubbles) && forall b :: b in bubbles <==> IsBubble(g, b)
  {
    forall b | IsBubble(g, b) ensures b <= processed {
      var v :| v in g.nodes && b == Component(g, v);
    }
  }

  /** All bubbles of the graph: exactly the components of at least two operations, each once. */
  method ConcurrentBubbles<V(==, !new)>(g: Digraph<V>) returns (bubbles: seq<set<V>>)
    requires Valid(g)
    ensures Distinct(bubbles)
    ensures forall b :: b in bubbles <==> IsBubble(g, b)
  {
    var processed: set<V> := {};
    bubbles := [];
    SweepInit(g);
    for i := 0 to |g.nodes|
      invariant Swept(g, bubbles, processed, i)
    {
      var target := g.nodes[i];
      if target !in processed {
        var bubble, after := ConcurrentBubble(g, target, processed + {target});
        SweepStep(g, bubbles, processed, i, bubble, after);
        processed := after;
        if |bubble| > 1 {
          bubbles := bubbles + [bubble];
        }
      }
    }
    SweepDone(g, bubbles, processed);
  }

  // ---------------------------------------------------------------------
  // What bubbles are good for
  // ---------------------------------------------------------------------

  /** Different bubbles share no operation. */
  lemma BubblesDisjoint<V(!new)>(g: Digraph<V>, a: set<V>, b: set<V>)
    requires IsBubble(g, a) && IsBubble(g, b) && a != b
    ensures a !! b
  {
    var v :| v in g.nodes && a == Component(g, v);
    var w :| w in g.nodes && b == Component(g, w);
    if x :| x in a && x in b {
      ComponentUnique(g, v, x);
      ComponentUnique(g, w, x);
    }
  }

  lemma {:induction false} SameReachability<V(!new)>(g: Digraph<V>, h: Digraph<V>, a: V, b: V)
    requires g.edges == h.edges
    ensures Reaches(g, a, b) <==> Reaches(h, a, b)
  {
    if p :| Path(g, p) && p[0] == a && p[|p| - 1] == b {
      SubgraphPath(g, h, p);
    }
    if p :| Path(h, p) && p[0] == a && p[|p| - 1] == b {
      SubgraphPath(h, g, p);
    }
  }

  lemma SameWalks<V(!new)>(g: Digraph<V>, h: Digraph<V>, p: seq<V>)
    requires g.edges == h.edges && Elements(g.nodes) == Elements(h.nodes) && Walk(g, p)
    ensures Walk(h, p)
  {
    forall i | 0 < i < |p| ensures p[i] in h.nodes && Concurrent(h, p[i - 1], p[i]) {
      assert Concurrent(g, p[i - 1], p[i]);
      assert p[i] in Elements(g.nodes);
      SameReachability(g, h, p[i - 1], p[i]);
      SameReachability(g, h, p[i], p[i - 1]);
    }
  }

  lemma SameComponent<V(!new)>(g: Digraph<V>, h: Digraph<V>, v: V)
    requires g.edges == h.edges && Elements(g.nodes) == Elements(h.nodes)
    ensures Component(g, v) == Component(h, v)
  {
    forall w ensures w in Component(g, v) <==> w in Component(h, v) {
      assert w in Elements(g.nodes) <==> w in Elements(h.nodes);
      if p :| Walk(g, p) && p[0] == v && p[|p| - 1] == w {
        SameWalks(g, h, p);
      }
      if p :| Walk(h, p) && p[0] == v && p[|p| - 1] == w {
        SameWalks(h, g, p);
      }
    }
  }

  /** The bubbles do not depend on the order in which the graph iterates over its nodes. */
  method BubblesInTwoOrders<V(==, !new)>(g: Digraph<V>, h: Digraph<V>) returns (bg: seq<set<V>>, bh: seq<set<V>>)
    requires Valid(g) && Valid(h) && g.edges == h.edges && Elements(g.nodes) == Elements(h.nodes)
    ensures Distinct(bg) && forall b :: b in bg <==> IsBubble(g, b)
    ensures Distinct(bh) && forall b :: b in bh <==> IsBubble(h, b)
    ensures Elements(bg) == Elements(bh) && |bg| == |bh|
  {
    bg := ConcurrentBubbles(g);
    bh := ConcurrentBubbles(h);
    forall b ensures IsBubble(g, b) <==> IsBubble(h, b) {
      SameIsBubble(g, h, b);
      SameIsBubble(h, g, b);
    }
    DistinctSize(bg);
    DistinctSize(bh);
  }

  lemma SameIsBubble<V(!new)>(g: Digraph<V>, h: Digraph<V>, b: set<V>)
    requires g.edges == h.edges && Elements(g.nodes) == Elements(h.nodes)
    ensures IsBubble(g, b) ==> IsBubble(h, b)
  {
    if IsBubble(g, b) {
      var v :| v in g.nodes && b == Component(g, v);
      assert v in Elements(g.nodes);
      SameComponent(g, h, v);
    }
  }

  /** `a` comes strictly before `b`. */
  ghost predicate Precedes<V(!new)>(g: Digraph<V>, a: V, b: V)
  {
    Reaches(g, a, b) && !Reaches(g, b, a)
  }

  /** Every operation of `a` comes strictly before every operation of `b`. */
  ghost predicate Before<V(!new)>(g: Digraph<V>, a: set<V>, b: set<V>)
  {
    forall x, y :: x in a && y in b ==> Precedes(g, x, y)
  }

  /** Concurrent operations lie on the same side of any operation which is concurrent with neither. */
  lemma SameSide<V(!new)>(g: Digraph<V>, a: V, b: V, u: V)
    requires Concurrent(g, a, b) && !Concurrent(g, a, u) && !Concurrent(g, b, u)
    ensures Precedes(g, a, u) <==> Precedes(g, b, u)
    ensures Precedes(g, u, a) <==> Precedes(g, u, b)
    ensures Precedes(g, a, u) || Precedes(g, u, a)
  {
    forall x, y, z | Reaches(g, x, y) && Reaches(g, y, z) ensures Reaches(g, x, z) {
      ReachesTransitive(g, x, y, z);
    }
  }

  lemma {:induction false} WalkOnOneSide<V(!new)>(g: Digraph<V>, v: V, p: seq<V>, u: V)
    requires v in g.nodes && u in g.nodes && u !in Component(g, v) && Walk(g, p) && p[0] in Component(g, v)
    ensures p[|p| - 1] in Component(g, v)
    ensures Precedes(g, p[0], u) ==> Precedes(g, p[|p| - 1], u)
    ensures Precedes(g, u, p[0]) ==> Precedes(g, u, p[|p| - 1])
    decreases |p|
  {
    if |p| > 1 {
      var n := |p| - 1;
      WalkOnOneSide(g, v, p[..n], u);
      assert Concurrent(g, p[n - 1], p[n]);
      ComponentClosed(g, v, p[n - 1], p[n]);
      assert !Concurrent(g, p[n - 1], u) && !Concurrent(g, p[n], u) by {
        if Concurrent(g, p[n - 1], u) {
          ComponentClosed(g, v, p[n - 1], u);
        }
        if Concurrent(g, p[n], u) {
          ComponentClosed(g, v, p[n], u);
        }
      }
      SameSide(g, p[n - 1], p[n], u);
    }
  }

  /** A member of a bubble has a concurrent operation inside the bubble. */
  lemma BubbleNeighbour<V(!new)>(g: Digraph<V>, v: V) returns (w: V)
    requires v in g.nodes && |Component(g, v)| > 1
    ensures w in Component(g, v) && Concurrent(g, v, w)
  {
    var c := Component(g, v);
    assert exists x :: x in c && x != v by {
      if forall x :: x in c ==> x == v {
        SubsetSize(c, {v});
      }
    }
    var x :| x in c && x != v;
    var p :| Walk(g, p) && p[0] == v && p[|p| - 1] == x;
    w := p[1];
    assert Walk(g, p[..2]);
    EntangledSelf(g, v);
    ComponentClosed(g, v, v, w);
  }

  /** History splits around a bubble: an operation outside comes strictly before all of it or strictly after all of it. */
  lemma BubbleSplitsHistory<V(!new)>(g: Digraph<V>, b: set<V>, u: V)
    requires IsBubble(g, b) && u in g.nodes && u !in b
    ensures Before(g, b, {u}) || Before(g, {u}, b)
    ensures !(Before(g, b, {u}) && Before(g, {u}, b))
  {
    var v :| v in g.nodes && b == Component(g, v);
    var w := BubbleNeighbour(g, v);
    EntangledSelf(g, v);
    assert !Concurrent(g, v, u) && !Concurrent(g, w, u) by {
      if Concurrent(g, v, u) {
        ComponentClosed(g, v, v, u);
      }
      if Concurrent(g, w, u) {
        ComponentClosed(g, v, w, u);
      }
    }
    SameSide(g, v, w, u);
    forall x | x in b
      ensures Precedes(g, v, u) ==> Precedes(g, x, u)
      ensures Precedes(g, u, v) ==> Precedes(g, u, x)
    {
      var p :| Walk(g, p) && p[0] == v && p[|p| - 1] == x;
      WalkOnOneSide(g, v, p, u);
    }
    assert v in b;
  }

  /** One comparison with a member decides the side. */
  lemma BubbleSide<V(!new)>(g: Digraph<V>, b: set<V>, w: V, u: V)
    requires IsBubble(g, b) && w in b && u in g.nodes && u !in b
    ensures Reaches(g, u, w) ==> Before(g, {u}, b)
    ensures Reaches(g, w, u) ==> Before(g, b, {u})
  {
    BubbleSplitsHistory(g, b, u);
    if Before(g, {u}, b) {
      assert Precedes(g, u, w);
    } else {
      assert Precedes(g, w, u);
    }
  }

  lemma MemberSide<V(!new)>(g: Digraph<V>, b: set<V>, w: V, u: V, y: V)
    requires IsBubble(g, b) && w in b && y in b && u in g.nodes && u !in b
    ensures Reaches(g, u, w) ==> Precedes(g, u, y)
    ensures Reaches(g, w, u) ==> Precedes(g, y, u)
  {
    BubbleSide(g, b, w, u);
  }

  lemma BubbleAfter<V(!new)>(g: Digraph<V>, a: set<V>, b: set<V>, w: V)
    requires a <= Elements(g.nodes) && IsBubble(g, b) && a !! b && w in b && Before(g, a, {w})
    ensures Before(g, a, b)
  {
    forall x, y | x in a && y in b ensures Precedes(g, x, y) {
      assert x in Elements(g.nodes) && Precedes(g, x, w);
      MemberSide(g, b, w, x, y);
    }
  }

  lemma BubbleBefore<V(!new)>(g: Digraph<V>, a: set<V>, b: set<V>, w: V)
    requires a <= Elements(g.nodes) && IsBubble(g, b) && a !! b && w in b && Before(g, {w}, a)
    ensures Before(g, b, a)
  {
    forall y, x | y in b && x in a ensures Precedes(g, y, x) {
      assert x in Elements(g.nodes) && Precedes(g, w, x);
      MemberSide(g, b, w, x, y);
    }
  }

  /** Bubbles are linearly ordered: of two different ones, exactly one lies strictly before the other. */
  lemma BubblesLinear<V(!new)>(g: Digraph<V>, a: set<V>, b: set<V>)
    requires IsBubble(g, a) && IsBubble(g, b) && a != b
    ensures Before(g, a, b) || Before(g, b, a)
    ensures !(Before(g, a, b) && Before(g, b, a))
  {
    BubblesDisjoint(g, a, b);
    assert a <= Elements(g.nodes) by {
      var v :| v in g.nodes && a == Component(g, v);
    }
    var w :| w in b;
    assert w in g.nodes by {
      var v :| v in g.nodes && b == Component(g, v);
    }
    BubbleSplitsHistory(g, a, w);
    if Before(g, a, {w}) {
      BubbleAfter(g, a, b, w);
    } else {
      BubbleBefore(g, a, b, w);
    }
    var x :| x in a;
    assert Before(g, a, b) ==> Precedes(g, x, w);
    assert Before(g, b, a) ==> Precedes(g, w, x);
  }

  lemma BeforeTransitive<V(!new)>(g: Digraph<V>, a: set<V>, b: set<V>, c: set<V>)
    requires Before(g, a, b) && Before(g, b, c) && b != {}
    ensures Before(g, a, c)
  {
    var y :| y in b;
    forall x, z | x in a && z in c ensures Precedes(g, x, z) {
      assert Precedes(g, x, y) && Precedes(g, y, z);
      ReachesTransitive(g, x, y, z);
      if Reaches(g, z, x) {
        ReachesTransitive(g, z, x, y);
      }
    }
  }

  // ---------------------------------------------------------------------
  // Splitting a bubble around one of its operations
  // ---------------------------------------------------------------------

  method SplitBubble<V(==, !new)>(g: Digraph<V>, bubble: set<V>, target: V)
    returns (concurrent: set<V>, predecessors: set<V>, successors: seq<V>)
    requires Valid(g)
    ensures forall v :: v in concurrent <==> v in bubble && Concurrent(g, target, v)
    ensures forall v :: v in predecessors <==> Reaches(g, v, target)
    ensures forall v :: v in successors <==> Reaches(g, target, v)
    ensures Distinct(successors)
  {
    successors := Dfs(g, target);
    var ancestors := Dfs(Reversed(g), target);
    concurrent := bubble;
    for i := 0 to |successors|
      invariant forall v :: v in concurrent <==> v in bubble && v !in successors[..i]
    {
      assert successors[..i + 1] == successors[..i] + [successors[i]];
      concurrent := concurrent - {successors[i]};
    }
    assert successors[..|successors|] == successors;
    predecessors := {};
    for i := 0 to |ancestors|
      invariant forall v :: v in concurrent <==> v in bubble && v !in successors && v !in ancestors[..i]
      invariant predecessors == Elements(ancestors[..i])
    {
      assert ancestors[..i + 1] == ancestors[..i] + [ancestors[i]];
      concurrent := concurrent - {ancestors[i]};
      predecessors := predecessors + {ancestors[i]};
    }
    assert ancestors[..|ancestors|] == ancestors;
    forall v ensures v in ancestors <==> Reaches(g, v, target) {
      ReachesReversed(g, target, v);
    }
  }

  /**
   * For a bubble and one of its operations nothing is lost by splitting the bubble instead of
   * the graph: the concurrent part holds every operation concurrent with the target, the three
   * parts cover the bubble, and only the target both precedes and follows itself.
   */
  lemma SplitComplete<V(!new)>(
    g: Digraph<V>, bubble: set<V>, target: V, concurrent: set<V>, predecessors: set<V>, successors: seq<V>)
    requires IsBubble(g, bubble) && target in bubble
    requires forall v :: v in concurrent <==> v in bubble && Concurrent(g, target, v)
    requires forall v :: v in predecessors <==> Reaches(g, v, target)
    requires forall v :: v in successors <==> Reaches(g, target, v)
    ensures forall v :: v in concurrent <==> v in g.nodes && Concurrent(g, target, v)
    ensures bubble <= concurrent + predecessors + Elements(successors)
    ensures concurrent !! predecessors && concurrent !! Elements(successors)
    ensures Acyclic(g) ==> predecessors * Elements(successors) == {target}
  {
    var w :| w in g.nodes && bubble == Component(g, w);
    forall v | v in g.nodes && Concurrent(g, target, v) ensures v in bubble {
      ComponentClosed(g, w, target, v);
    }
    ReachesSelf(g, target);
    if Acyclic(g) {
      forall v | v in predecessors && v in successors ensures v == target {
        AcyclicAntisymmetric(g, v, target);
      }
    }
  }
}
