/**
 * The order in which the strong-remove resolver rebuilds group states: operations in
 * topological order, except that a bubble is processed as a whole when its first
 * operation comes up. Applying an operation reads the states of its dependencies, so
 * these must have been rebuilt before.
 */
module Resolver {
  import opened Sequences
  import opened Graph
  import opened Bubbles

  // ---------------------------------------------------------------------
  // Specification
  // ---------------------------------------------------------------------

  /** Every operation comes after the operations it depends on. */
  ghost predicate DependenciesFirst<V(!new)>(g: Digraph<V>, order: seq<V>)
  {
    forall i, d :: 0 <= i < |order| && Edge(d, order[i]) in g.edges ==> d in order[..i]
  }

  /** Every operation once, dependencies first. */
  ghost predicate LinearExtension<V(!new)>(g: Digraph<V>, order: seq<V>)
  {
    Distinct(order) && Elements(order) == Elements(g.nodes) && DependenciesFirst(g, order)
  }

  ghost predicate Unblocked<V>(g: Digraph<V>, order: seq<V>, v: V)
  {
    forall e :: e in g.edges && e.to == v ==> e.from in order
  }

  lemma DependenciesFirstAppend<V(!new)>(g: Digraph<V>, order: seq<V>, v: V)
    requires DependenciesFirst(g, order) && Unblocked(g, order, v)
    ensures DependenciesFirst(g, order + [v])
  {
    var order' := order + [v];
    forall i, d | 0 <= i < |order'| && Edge(d, order'[i]) in g.edges ensures d in order'[..i] {
      assert order'[..i] == order[..i];
      if i == |order| {
        assert order[..i] == order;
      }
    }
  }

  lemma DependencyIndex<V(!new)>(g: Digraph<V>, order: seq<V>, i: nat, d: V) returns (j: nat)
    requires DependenciesFirst(g, order) && i < |order| && Edge(d, order[i]) in g.edges
    ensures j < i && order[j] == d
  {
    j :| 0 <= j < i && order[..i][j] == d;
  }

  lemma {:induction false} PredecessorIndex<V(!new)>(g: Digraph<V>, order: seq<V>, i: nat, p: seq<V>)
    returns (k: nat)
    requires DependenciesFirst(g, order) && i < |order| && Path(g, p) && p[|p| - 1] == order[i] && |p| > 1
    ensures k < i && order[k] == p[0]
    decreases |p|
  {
    var n := |p| - 1;
    assert EdgeAt(g, p, n);
    k := DependencyIndex(g, order, i, p[n - 1]);
    if |p| > 2 {
      PathSlice(g, p, 0, n);
      k := PredecessorIndex(g, order, k, p[..n]);
    }
  }

  /** A topological order lists predecessors, not only direct dependencies, first. */
  lemma PredecessorsFirst<V(!new)>(g: Digraph<V>, order: seq<V>, i: nat, p: seq<V>)
    requires DependenciesFirst(g, order) && i < |order| && Path(g, p) && p[|p| - 1] == order[i] && |p| > 1
    ensures p[0] in order[..i]
  {
    var k := PredecessorIndex(g, order, i, p);
    assert order[..i][k] == p[0];
  }

  // ---------------------------------------------------------------------
  // Topological visit
  // ---------------------------------------------------------------------

  /** Some operation of a non-empty set of nodes of an acyclic graph has no dependency inside the set. */
  lemma {:induction false} FirstOfSet<V(!new)>(g: Digraph<V>, s: set<V>, v: V) returns (m: V)
    requires Acyclic(g) && v in s
    ensures m in s && forall e :: e in g.edges && e.to == m ==> e.from !in s
    decreases |set w | w in s && Reaches(g, w, v)|
  {
    if e :| e in g.edges && e.to == v && e.from in s {
      var d := e.from;
      var below, above := (set w | w in s && Reaches(g, w, d)), (set w | w in s && Reaches(g, w, v));
      ReachesEdge(g, d, v);
      forall w | w in below ensures w in above {
        ReachesTransitive(g, w, d, v);
      }
      ReachesSelf(g, v);
      assert v in above && v !in below;
      SubsetSize(below, above);
      m := FirstOfSet(g, s, d);
    } else {
      m := v;
    }
  }

  ghost predicate Visiting<V(!new)>(g: Digraph<V>, order: seq<V>, toVisit: seq<V>)
  {
    && Distinct(order)
    && (forall v :: v in order || v in toVisit ==> v in g.nodes)
    && DependenciesFirst(g, order)
    && (forall v :: v in toVisit ==> Unblocked(g, order, v))
    && (forall v :: v in g.nodes && v !in order && Unblocked(g, order, v) ==> v in toVisit)
  }

  lemma VisitStep<V(!new)>(g: Digraph<V>, order: seq<V>, toVisit: seq<V>, v: V, toVisit': seq<V>)
    requires Valid(g) && Visiting(g, order, toVisit + [v]) && v !in order
    requires forall w :: w in toVisit' <==> w in toVisit || (Edge(v, w) in g.edges && Unblocked(g, order + [v], w))
    ensures Visiting(g, order + [v], toVisit')
  {
    assert forall w :: w in toVisit + [v] <==> w in toVisit || w == v;
    DependenciesFirstAppend(g, order, v);
    forall w | w in g.nodes && w !in order + [v] && Unblocked(g, order + [v], w) ensures w in toVisit' {
      if Edge(v, w) !in g.edges {
        assert Unblocked(g, order, w);
      }
    }
  }

  lemma VisitSkip<V(!new)>(g: Digraph<V>, order: seq<V>, toVisit: seq<V>, v: V)
    requires Visiting(g, order, toVisit + [v]) && v in order
    ensures Visiting(g, order, toVisit)
  {
    assert forall w :: w in toVisit + [v] <==> w in toVisit || w == v;
  }

  lemma VisitDone<V(!new)>(g: Digraph<V>, order: seq<V>)
    requires Valid(g) && Acyclic(g) && Visiting(g, order, [])
    ensures LinearExtension(g, order)
  {
    var missing := Elements(g.nodes) - Elements(order);
    assert missing == {} by {
      if v :| v in missing {
        var m := FirstOfSet(g, missing, v);
        assert Unblocked(g, order, m);
      }
    }
    assert forall v :: v in Elements(g.nodes) ==> v in missing || v in Elements(order);
    assert Elements(order) <= Elements(g.nodes);
  }

  lemma VisitShrinks<V>(g: Digraph<V>, order: seq<V>, v: V)
    requires v !in order && v in g.nodes
    ensures |Elements(g.nodes) - Elements(order + [v])| < |Elements(g.nodes) - Elements(order)|
  {
    assert Elements(g.nodes) - Elements(order + [v]) == Elements(g.nodes) - Elements(order) - {v};
  }

  method IsUnblocked<V(==)>(g: Digraph<V>, order: seq<V>, v: V) returns (r: bool)
    ensures r <==> Unblocked(g, order, v)
  {
    r := forall e | e in g.edges && e.to == v :: e.from in order;
  }

  method PushUnblocked<V(==)>(g: Digraph<V>, order: seq<V>, toVisit: seq<V>, next: seq<V>) returns (r: seq<V>)
    ensures forall w :: w in r <==> w in toVisit || (w in next && Unblocked(g, order, w))
  {
    r := toVisit;
    for i := 0 to |next|
      invariant forall w :: w in r <==> w in toVisit || (w in next[..i] && Unblocked(g, order, w))
    {
      assert next[..i + 1] == next[..i] + [next[i]];
      var unblocked := IsUnblocked(g, order, next[i]);
      if unblocked {
        r := r + [next[i]];
      }
    }
    assert next[..|next|] == next;
  }

  method Topo<V(==, !new)>(g: Digraph<V>) returns (order: seq<V>)
    requires Valid(g) && Acyclic(g)
    ensures LinearExtension(g, order)
  {
    order := [];
    var toVisit := PushUnblocked(g, [], [], g.nodes);
    while toVisit != []
      invariant Visiting(g, order, toVisit)
      decreases |Elements(g.nodes) - Elements(order)|, |toVisit|
    {
      var v := toVisit[|toVisit| - 1];
      var rest := toVisit[..|toVisit| - 1];
      SplitLast(toVisit);
      if v in order {
        VisitSkip(g, order, rest, v);
        toVisit := rest;
        continue;
      }
      var next := Neighbours(g, v);
      var pushed := PushUnblocked(g, order + [v], rest, next);
      VisitStep(g, order, rest, v, pushed);
      VisitShrinks(g, order, v);
      order, toVisit := order + [v], pushed;
    }
    VisitDone(g, order);
  }

  // ---------------------------------------------------------------------
  // The resolver's pass over the graph
  // ---------------------------------------------------------------------

  function Filter<V(==)>(s: seq<V>, keep: set<V>): (r: seq<V>)
    ensures forall v :: v in r ==> v in s && v in keep
    ensures forall v :: v in s && v in keep ==> v in r
  {
    if s == [] then []
    else if s[0] in keep then [s[0]] + Filter(s[1..], keep)
    else Filter(s[1..], keep)
  }

  lemma {:induction false} FilterDistinct<V>(s: seq<V>, keep: set<V>)
    requires Distinct(s)
    ensures Distinct(Filter(s, keep))
  {
    if s != [] {
      assert Distinct(s[1..]);
      FilterDistinct(s[1..], keep);
      assert s[0] !in s[1..];
    }
  }

  /** The graph without the operations outside a bubble. */
  function BubbleGraph<V(==)>(g: Digraph<V>, bubble: set<V>): (r: Digraph<V>)
  {
    Digraph(Filter(g.nodes, bubble), set e | e in g.edges && e.from in bubble && e.to in bubble)
  }

  lemma BubbleGraphValid<V(!new)>(g: Digraph<V>, bubble: set<V>)
    requires Valid(g) && Acyclic(g)
    ensures Valid(BubbleGraph(g, bubble)) && Acyclic(BubbleGraph(g, bubble))
  {
    var b := BubbleGraph(g, bubble);
    FilterDistinct(g.nodes, bubble);
    forall e | e in b.edges ensures !Reaches(b, e.to, e.from) {
      if p :| Path(b, p) && p[0] == e.to && p[|p| - 1] == e.from {
        SubgraphPath(b, g, p);
      }
    }
  }

  /** The bubble an operation belongs to, if any. */
  method FindBubble<V(==)>(bubbles: seq<set<V>>, op: V) returns (found: bool, bubble: set<V>)
    ensures found ==> bubble in bubbles && op in bubble
    ensures !found ==> forall b :: b in bubbles ==> op !in b
  {
    for i := 0 to |bubbles|
      invariant forall b :: b in bubbles[..i] ==> op !in b
    {
      if op in bubbles[i] {
        return true, bubbles[i];
      }
      assert bubbles[..i + 1] == bubbles[..i] + [bubbles[i]];
    }
    assert bubbles[..|bubbles|] == bubbles;
    return false, {};
  }

  ghost predicate InBubble<V(!new)>(g: Digraph<V>, v: V)
  {
    exists b :: IsBubble(g, b) && v in b
  }

  /** Applied so far: each operation at most once, dependencies first. */
  ghost predicate Ordered<V(!new)>(g: Digraph<V>, applied: seq<V>)
  {
    Distinct(applied) && DependenciesFirst(g, applied) && forall v :: v in applied ==> v in g.nodes
  }

  /** Which operations are applied: those visited, and the bubbles of those visited. */
  ghost predicate Tracked<V(!new)>(g: Digraph<V>, visited: seq<V>, done: seq<set<V>>, applied: seq<V>)
  {
    && (forall v :: v in visited ==> v in applied)
    && (forall v :: v in applied && !InBubble(g, v) ==> v in visited)
    && (forall v, b :: v in applied && v in b && IsBubble(g, b) ==> b in done)
    && (forall b :: b in done ==> b <= Elements(applied))
  }

  /** The pass after the first `i` operations of the topological order. */
  ghost predicate Passing<V(!new)>(g: Digraph<V>, topo: seq<V>, i: nat, done: seq<set<V>>, applied: seq<V>)
  {
    i <= |topo| && Ordered(g, applied) && Tracked(g, topo[..i], done, applied)
  }

  /** Everything an operation outside any processed bubble depends on has been applied. */
  lemma EarlierApplied<V(!new)>(g: Digraph<V>, topo: seq<V>, i: nat, done: seq<set<V>>, applied: seq<V>, d: V)
    requires LinearExtension(g, topo) && i < |topo| && Passing(g, topo, i, done, applied)
    requires Reaches(g, d, topo[i]) && d != topo[i]
    ensures d in applied
  {
    var p :| Path(g, p) && p[0] == d && p[|p| - 1] == topo[i];
    PredecessorsFirst(g, topo, i, p);
  }

  lemma PassSingle<V(!new)>(g: Digraph<V>, topo: seq<V>, i: nat, done: seq<set<V>>, applied: seq<V>)
    requires Acyclic(g) && LinearExtension(g, topo) && i < |topo| && Passing(g, topo, i, done, applied)
    requires !InBubble(g, topo[i])
    ensures Passing(g, topo, i + 1, done, applied + [topo[i]])
  {
    var op := topo[i];
    assert op !in topo[..i];
    forall e | e in g.edges && e.to == op ensures e.from in applied {
      ReachesEdge(g, e.from, op);
      ReachesSelf(g, op);
      EarlierApplied(g, topo, i, done, applied, e.from);
    }
    DependenciesFirstAppend(g, applied, op);
    assert op in Elements(topo);
    TrackSingle(g, topo[..i], done, applied, op);
    TakeNext(topo, i);
  }

  lemma TrackSingle<V(!new)>(g: Digraph<V>, visited: seq<V>, done: seq<set<V>>, applied: seq<V>, op: V)
    requires Tracked(g, visited, done, applied) && !InBubble(g, op)
    ensures Tracked(g, visited + [op], done, applied + [op])
  {
    assert Elements(applied) <= Elements(applied + [op]);
  }

  lemma PassDone<V(!new)>(g: Digraph<V>, topo: seq<V>, i: nat, done: seq<set<V>>, applied: seq<V>, bubble: set<V>)
    requires i < |topo| && Passing(g, topo, i, done, applied) && bubble in done && topo[i] in bubble
    ensures Passing(g, topo, i + 1, done, applied)
  {
    TakeNext(topo, i);
    assert topo[i] in Elements(applied);
  }

  /** A bubble can be processed as a whole as soon as its first operation comes up. */
  lemma BubbleUnblocked<V(!new)>(
    g: Digraph<V>, topo: seq<V>, i: nat, done: seq<set<V>>, applied: seq<V>, bubble: set<V>, e: Edge<V>)
    requires Valid(g) && LinearExtension(g, topo) && i < |topo| && Passing(g, topo, i, done, applied)
    requires IsBubble(g, bubble) && topo[i] in bubble
    requires e in g.edges && e.to in bubble && e.from !in bubble
    ensures e.from in applied
  {
    ReachesEdge(g, e.from, e.to);
    BubbleSide(g, bubble, e.to, e.from);
    assert Precedes(g, e.from, topo[i]);
    EarlierApplied(g, topo, i, done, applied, e.from);
  }

  lemma DependenciesFirstConcat<V(!new)>(g: Digraph<V>, bubble: set<V>, applied: seq<V>, inner: seq<V>)
    requires DependenciesFirst(g, applied) && DependenciesFirst(BubbleGraph(g, bubble), inner)
    requires forall v :: v in inner ==> v in bubble
    requires forall e :: e in g.edges && e.to in bubble && e.from !in bubble ==> e.from in applied
    ensures DependenciesFirst(g, applied + inner)
  {
    var all := applied + inner;
    forall i, d | 0 <= i < |all| && Edge(d, all[i]) in g.edges ensures d in all[..i] {
      if i < |applied| {
        assert all[..i] == applied[..i];
      } else {
        var j := i - |applied|;
        assert all[..i] == applied + inner[..j];
        assert all[i] == inner[j] && inner[j] in bubble;
        if d in bubble {
          assert Edge(d, inner[j]) in BubbleGraph(g, bubble).edges;
        }
      }
    }
  }

  lemma BubblesOfApplied<V(!new)>(
    g: Digraph<V>, done: seq<set<V>>, applied: seq<V>, bubble: set<V>, inner: seq<V>, v: V, b: set<V>)
    requires v in applied && v in b && IsBubble(g, b) ==> b in done
    requires IsBubble(g, bubble) && Elements(inner) == bubble && v in applied + inner && v in b && IsBubble(g, b)
    ensures b in done + [bubble]
  {
    if v !in applied {
      assert v in Elements(inner);
      OnlyBubble(g, bubble, b, v);
    }
  }

  lemma CoveredByApplied<V(!new)>(done: seq<set<V>>, applied: seq<V>, bubble: set<V>, inner: seq<V>)
    requires (forall b :: b in done ==> b <= Elements(applied)) && Elements(inner) == bubble
    ensures forall b :: b in done + [bubble] ==> b <= Elements(applied + inner)
  {
    assert Elements(applied + inner) == Elements(applied) + bubble;
  }

  lemma TrackBubble<V(!new)>(
    g: Digraph<V>, visited: seq<V>, done: seq<set<V>>, applied: seq<V>, op: V, bubble: set<V>, inner: seq<V>)
    requires Tracked(g, visited, done, applied) && op in bubble && IsBubble(g, bubble) && Elements(inner) == bubble
    ensures Tracked(g, visited + [op], done + [bubble], applied + inner)
  {
    CoveredByApplied(done, applied, bubble, inner);
    forall v, b | v in applied + inner && v in b && IsBubble(g, b) ensures b in done + [bubble] {
      BubblesOfApplied(g, done, applied, bubble, inner, v, b);
    }
    forall v | v in applied + inner && !InBubble(g, v) ensures v in visited + [op] {
      assert v in inner ==> v in Elements(inner);
    }
    assert op in Elements(inner);
  }

  lemma OnlyBubble<V(!new)>(g: Digraph<V>, bubble: set<V>, b: set<V>, v: V)
    requires IsBubble(g, bubble) && IsBubble(g, b) && v in bubble && v in b
    ensures b == bubble
  {
    if b != bubble {
      BubblesDisjoint(g, b, bubble);
    }
  }

  lemma BubbleGraphNodes<V(!new)>(g: Digraph<V>, bubble: set<V>)
    requires IsBubble(g, bubble)
    ensures Elements(BubbleGraph(g, bubble).nodes) == bubble && bubble <= Elements(g.nodes)
  {
    var v :| v in g.nodes && bubble == Component(g, v);
    assert forall w :: w in bubble ==> w in BubbleGraph(g, bubble).nodes;
  }

  lemma PassBubble<V(!new)>(
    g: Digraph<V>, topo: seq<V>, i: nat, done: seq<set<V>>, applied: seq<V>, bubble: set<V>, inner: seq<V>)
    requires Valid(g) && LinearExtension(g, topo) && i < |topo| && Passing(g, topo, i, done, applied)
    requires IsBubble(g, bubble) && topo[i] in bubble && bubble !in done
    requires LinearExtension(BubbleGraph(g, bubble), inner)
    ensures Passing(g, topo, i + 1, done + [bubble], applied + inner)
  {
    BubbleGraphNodes(g, bubble);
    forall e | e in g.edges && e.to in bubble && e.from !in bubble ensures e.from in applied {
      BubbleUnblocked(g, topo, i, done, applied, bubble, e);
    }
    forall v | v in bubble ensures v !in applied {
      assert v in applied ==> bubble in done;
    }
    OrderBubble(g, bubble, applied, inner);
    TrackBubble(g, topo[..i], done, applied, topo[i], bubble, inner);
    TakeNext(topo, i);
  }

  lemma OrderBubble<V(!new)>(g: Digraph<V>, bubble: set<V>, applied: seq<V>, inner: seq<V>)
    requires Ordered(g, applied) && LinearExtension(BubbleGraph(g, bubble), inner)
    requires Elements(inner) == bubble <= Elements(g.nodes) && forall v :: v in bubble ==> v !in applied
    requires forall e :: e in g.edges && e.to in bubble && e.from !in bubble ==> e.from in applied
    ensures Ordered(g, applied + inner)
  {
    assert forall v :: v in inner ==> v in Elements(inner) && v in Elements(g.nodes);
    DependenciesFirstConcat(g, bubble, applied, inner);
    DistinctConcat(applied, inner);
  }

  /** The operations of a bubble are applied one after the other, without any other in between. */
  ghost predicate OneBlock<V>(applied: seq<V>, bubble: set<V>)
  {
    exists lo, hi :: 0 <= lo <= hi <= |applied| && Elements(applied[lo..hi]) == bubble
  }

  ghost predicate AllBlocks<V>(applied: seq<V>, done: seq<set<V>>)
  {
    forall b :: b in done ==> OneBlock(applied, b)
  }

  lemma BlocksStay<V>(applied: seq<V>, more: seq<V>, done: seq<set<V>>)
    requires AllBlocks(applied, done)
    ensures AllBlocks(applied + more, done)
  {
    forall b | b in done ensures OneBlock(applied + more, b) {
      var lo, hi :| 0 <= lo <= hi <= |applied| && Elements(applied[lo..hi]) == b;
      assert (applied + more)[lo..hi] == applied[lo..hi];
    }
  }

  lemma NewBlock<V>(applied: seq<V>, inner: seq<V>, done: seq<set<V>>, bubble: set<V>)
    requires AllBlocks(applied, done) && Elements(inner) == bubble
    ensures AllBlocks(applied + inner, done + [bubble])
  {
    BlocksStay(applied, inner, done);
    assert (applied + inner)[|applied|..|applied + inner|] == inner;
  }

  /** Once everything is applied all bubbles are done. */
  lemma AllDone<V(!new)>(g: Digraph<V>, visited: seq<V>, done: seq<set<V>>, applied: seq<V>, b: set<V>)
    requires Tracked(g, visited, done, applied) && Elements(applied) == Elements(g.nodes) && IsBubble(g, b)
    ensures b in done
  {
    var v :| v in b;
    assert v in Elements(g.nodes);
    assert v in applied;
  }

  /** The operations in the order in which the resolver applies them. */
  method Process<V(==, !new)>(g: Digraph<V>) returns (applied: seq<V>)
    requires Valid(g) && Acyclic(g)
    ensures LinearExtension(g, applied)
    ensures forall b :: IsBubble(g, b) ==> OneBlock(applied, b)
  {
    var bubbles := ConcurrentBubbles(g);
    var done: seq<set<V>> := [];
    var topo := Topo(g);
    applied := [];
    for i := 0 to |topo|
      invariant Passing(g, topo, i, done, applied)
      invariant AllBlocks(applied, done)
    {
      var found, bubble := FindBubble(bubbles, topo[i]);
      if !found {
        PassSingle(g, topo, i, done, applied);
        BlocksStay(applied, [topo[i]], done);
        applied := applied + [topo[i]];
        continue;
      }
      if bubble in done {
        PassDone(g, topo, i, done, applied, bubble);
        continue;
      }
      BubbleGraphValid(g, bubble);
      var inner := Topo(BubbleGraph(g, bubble));
      PassBubble(g, topo, i, done, applied, bubble, inner);
      BubbleGraphNodes(g, bubble);
      NewBlock(applied, inner, done, bubble);
      applied := applied + inner;
      done := done + [bubble];
    }
    assert topo[..|topo|] == topo;
    assert Elements(applied) == Elements(topo);
    forall b | IsBubble(g, b) ensures OneBlock(applied, b) {
      AllDone(g, topo, done, applied, b);
    }
  }
}
