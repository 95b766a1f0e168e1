/** The operation graph, reachability in it, and the depth-first search which computes it. */
module Graph {
  import opened Sequences

  datatype Edge<V> = Edge(from: V, to: V)

  /** A directed graph; `nodes` lists each node once, in the order the graph iterates over them. */
  datatype Digraph<V(==)> = Digraph(nodes: seq<V>, edges: set<Edge<V>>)

  ghost predicate Valid<V>(g: Digraph<V>)
  {
    Distinct(g.nodes) && forall e :: e in g.edges ==> e.from in g.nodes && e.to in g.nodes
  }

  function Reversed<V(==)>(g: Digraph<V>): (r: Digraph<V>)
  {
    Digraph(g.nodes, set e | e in g.edges :: Edge(e.to, e.from))
  }

  ghost predicate EdgeAt<V>(g: Digraph<V>, p: seq<V>, i: int)
    requires 0 < i < |p|
  {
    Edge(p[i - 1], p[i]) in g.edges
  }

  ghost predicate Path<V>(g: Digraph<V>, p: seq<V>)
  {
    |p| >= 1 && forall i :: 0 < i < |p| ==> EdgeAt(g, p, i)
  }

  /** `b` is `a` or a successor of `a`. */
  ghost predicate Reaches<V(!new)>(g: Digraph<V>, a: V, b: V)
  {
    exists p :: Path(g, p) && p[0] == a && p[|p| - 1] == b
  }

  /** Neither operation precedes the other. */
  ghost predicate Concurrent<V(!new)>(g: Digraph<V>, a: V, b: V)
  {
    !Reaches(g, a, b) && !Reaches(g, b, a)
  }

  ghost predicate Acyclic<V(!new)>(g: Digraph<V>)
  {
    forall e :: e in g.edges ==> !Reaches(g, e.to, e.from)
  }

  lemma PathSlice<V>(g: Digraph<V>, p: seq<V>, lo: nat, hi: nat)
    requires Path(g, p) && lo < hi <= |p|
    ensures Path(g, p[lo..hi])
  {
    forall i | 0 < i < hi - lo ensures EdgeAt(g, p[lo..hi], i) {
      assert EdgeAt(g, p, lo + i);
    }
  }

  lemma SubgraphPath<V>(g: Digraph<V>, h: Digraph<V>, p: seq<V>)
    requires Path(g, p) && g.edges <= h.edges
    ensures Path(h, p)
  {
    forall i | 0 < i < |p| ensures EdgeAt(h, p, i) {
      assert EdgeAt(g, p, i);
    }
  }

  lemma ReachesSelf<V(!new)>(g: Digraph<V>, a: V)
    ensures Reaches(g, a, a)
  {
    assert Path(g, [a]);
  }

  lemma ReachesEdge<V(!new)>(g: Digraph<V>, a: V, b: V)
    requires Edge(a, b) in g.edges
    ensures Reaches(g, a, b)
  {
    assert Path(g, [a, b]);
  }

  lemma ReachesTransitive<V(!new)>(g: Digraph<V>, a: V, b: V, c: V)
    requires Reaches(g, a, b) && Reaches(g, b, c)
    ensures Reaches(g, a, c)
  {
    var p :| Path(g, p) && p[0] == a && p[|p| - 1] == b;
    var q :| Path(g, q) && q[0] == b && q[|q| - 1] == c;
    var pq := p + q[1..];
    forall i | 0 < i < |pq| ensures EdgeAt(g, pq, i) {
      if i < |p| {
        assert EdgeAt(g, p, i);
      } else {
        assert EdgeAt(g, q, i - (|p| - 1));
      }
    }
    assert Path(g, pq);
  }

  /** Two different operations cannot precede each other. */
  lemma AcyclicAntisymmetric<V(!new)>(g: Digraph<V>, a: V, b: V)
    requires Acyclic(g) && Reaches(g, a, b) && Reaches(g, b, a)
    ensures a == b
  {
    var p :| Path(g, p) && p[0] == a && p[|p| - 1] == b;
    if |p| > 1 {
      assert EdgeAt(g, p, 1);
      PathSlice(g, p, 1, |p|);
      assert Reaches(g, p[1], b);
      ReachesTransitive(g, p[1], b, a);
      assert false;
    }
  }

  lemma PathReversed<V>(g: Digraph<V>, p: seq<V>, q: seq<V>)
    requires Path(g, p) && |q| == |p| && forall i :: 0 <= i < |p| ==> q[i] == p[|p| - 1 - i]
    ensures Path(Reversed(g), q)
  {
    forall i | 0 < i < |q| ensures EdgeAt(Reversed(g), q, i) {
      assert EdgeAt(g, p, |p| - i);
    }
  }

  lemma ReachesReversed<V(!new)>(g: Digraph<V>, a: V, b: V)
    ensures Reaches(Reversed(g), a, b) <==> Reaches(g, b, a)
  {
    if p :| Path(g, p) && p[0] == b && p[|p| - 1] == a {
      var q := seq(|p|, i requires 0 <= i < |p| => p[|p| - 1 - i]);
      PathReversed(g, p, q);
      assert q[0] == a && q[|q| - 1] == b;
    }
    if p :| Path(Reversed(g), p) && p[0] == a && p[|p| - 1] == b {
      var q := seq(|p|, i requires 0 <= i < |p| => p[|p| - 1 - i]);
      PathReversed(Reversed(g), p, q);
      SubgraphPath(Reversed(Reversed(g)), g, q);
      assert q[0] == b && q[|q| - 1] == a;
    }
  }

  // ---------------------------------------------------------------------
  // Depth-first search
  // ---------------------------------------------------------------------

  /** The successors of a node, in any order. */
  method Neighbours<V(==)>(g: Digraph<V>, v: V) returns (r: seq<V>)
    ensures forall w :: w in r <==> Edge(v, w) in g.edges
  {
    r := [];
    var todo := set e | e in g.edges && e.from == v;
    while todo != {}
      invariant todo <= g.edges && forall e :: e in todo ==> e.from == v
      invariant forall w :: Edge(v, w) in g.edges <==> w in r || Edge(v, w) in todo
      decreases todo
    {
      var e :| e in todo;
      r := r + [e.to];
      todo := todo - {e};
    }
  }

  /** A set which contains the start and the successors of its members contains everything reachable. */
  lemma {:induction false} ClosedContainsPath<V>(g: Digraph<V>, s: set<V>, p: seq<V>)
    requires Path(g, p) && p[0] in s && forall e :: e in g.edges && e.from in s ==> e.to in s
    ensures p[|p| - 1] in s
    decreases |p|
  {
    if |p| > 1 {
      var n := |p| - 1;
      PathSlice(g, p, 0, n);
      ClosedContainsPath(g, s, p[..n]);
      assert EdgeAt(g, p, n);
    }
  }

  method PushUndiscovered<V(==)>(stack: seq<V>, next: seq<V>, discovered: seq<V>) returns (r: seq<V>)
    ensures forall w :: w in r <==> w in stack || (w in next && w !in discovered)
  {
    r := stack;
    for i := 0 to |next|
      invariant forall w :: w in r <==> w in stack || (w in next[..i] && w !in discovered)
    {
      assert next[..i + 1] == next[..i] + [next[i]];
      if next[i] !in discovered {
        r := r + [next[i]];
      }
    }
    assert next[..|next|] == next;
  }

  /** What a search knows: everything seen is reachable, and successors of yielded nodes are yielded or stacked. */
  ghost predicate Searching<V(!new)>(g: Digraph<V>, start: V, order: seq<V>, stack: seq<V>)
  {
    && Distinct(order)
    && (start in order || start in stack)
    && (forall v :: v in order || v in stack ==> (v == start || v in g.nodes) && Reaches(g, start, v))
    && (forall e :: e in g.edges && e.from in order ==> e.to in order || e.to in stack)
  }

  lemma SearchStep<V(!new)>(g: Digraph<V>, start: V, order: seq<V>, stack: seq<V>, stack': seq<V>)
    requires Valid(g) && stack != [] && Searching(g, start, order, stack)
    requires var v := stack[|stack| - 1]; v !in order && forall w :: w in stack' <==>
      w in stack[..|stack| - 1] || (Edge(v, w) in g.edges && w !in order + [v])
    ensures Searching(g, start, order + [stack[|stack| - 1]], stack')
  {
    var v := stack[|stack| - 1];
    assert stack == stack[..|stack| - 1] + [v];
    forall w | Edge(v, w) in g.edges ensures Reaches(g, start, w) {
      ReachesEdge(g, v, w);
      ReachesTransitive(g, start, v, w);
    }
  }

  lemma SearchDone<V(!new)>(g: Digraph<V>, start: V, order: seq<V>)
    requires Searching(g, start, order, [])
    ensures forall v :: v in order <==> Reaches(g, start, v)
  {
    forall v | Reaches(g, start, v) ensures v in order {
      var p :| Path(g, p) && p[0] == start && p[|p| - 1] == v;
      ClosedContainsPath(g, Elements(order), p);
    }
  }

  lemma SearchShrinks<V>(g: Digraph<V>, start: V, order: seq<V>, v: V)
    requires v !in order && (v == start || v in g.nodes)
    ensures |Elements(g.nodes) + {start} - Elements(order + [v])| < |Elements(g.nodes) + {start} - Elements(order)|
  {
    var universe := Elements(g.nodes) + {start};
    assert universe - Elements(order + [v]) == (universe - Elements(order)) - {v};
  }

  /** The order in which a depth-first search from `start` yields nodes: each reachable node exactly once. */
  method Dfs<V(==, !new)>(g: Digraph<V>, start: V) returns (order: seq<V>)
    requires Valid(g)
    ensures Distinct(order)
    ensures forall v :: v in order <==> Reaches(g, start, v)
  {
    order := [];
    var stack := [start];
    ReachesSelf(g, start);
    while stack != []
      invariant Searching(g, start, order, stack)
      decreases |Elements(g.nodes) + {start} - Elements(order)|, |stack|
    {
      var v := stack[|stack| - 1];
      if v in order {
        assert stack == stack[..|stack| - 1] + [v];
        stack := stack[..|stack| - 1];
        continue;
      }
      var next := Neighbours(g, v);
      var pushed := PushUndiscovered(stack[..|stack| - 1], next, order + [v]);
      SearchStep(g, start, order, stack, pushed);
      SearchShrinks(g, start, order, v);
      order, stack := order + [v], pushed;
    }
    SearchDone(g, start, order);
  }

  method HasPath<V(==, !new)>(g: Digraph<V>, from: V, to: V) returns (r: bool)
    requires Valid(g)
    ensures r <==> from != to && Reaches(g, from, to)
  {
    if from == to {
      return false;
    }
    var order := Dfs(g, from);
    r := to in order;
  }

  method IsConcurrent<V(==, !new)>(g: Digraph<V>, a: V, b: V) returns (r: bool)
    requires Valid(g)
    ensures r <==> Concurrent(g, a, b)
  {
    ReachesSelf(g, a);
    var ab := HasPath(g, a, b);
    var ba := HasPath(g, b, a);
    r := a != b && !ab && !ba;
  }
}
