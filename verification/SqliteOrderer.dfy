/**
 * The persisted causal orderer: the same recursive algorithm over two SQL tables.
 *
 * A pending item occupies one row per missing dependency and listed dependency.
 * The query which restores its dependency list does not remove duplicates, so the
 * list is repeated once per row group that still exists, while `Ready` compares a
 * count of distinct rows with the length of that list.
 */
module SqliteOrderer {
  import opened Sequences
  import O = Orderer

  /** `digest` stands for the hash of the child and its sorted dependencies. */
  datatype Row<T> = Row(id: T, child: T, parent: T, digest: multiset<T>)

  /** `ready` lists the ids of the ready table in insertion order, `queue` those still in the queue. */
  datatype Tables<T> = Tables(ready: seq<T>, queue: seq<T>, pending: set<Row<T>>)

  /** A pending child with the dependency list the store restores for it. */
  datatype Dependent<T> = Dependent(child: T, deps: multiset<T>)

  // ---------------------------------------------------------------------
  // Specification
  // ---------------------------------------------------------------------

  ghost function RowsOf<T>(rows: set<Row<T>>, child: T, digest: multiset<T>, parent: T): (r: set<Row<T>>)
  {
    set row | row in rows && row.child == child && row.digest == digest && row.parent == parent
  }

  /** `deps` lists the parents of all rows which belong to the same child and digest as `row`. */
  ghost predicate Restored<T(!new)>(rows: set<Row<T>>, row: Row<T>, deps: multiset<T>)
  {
    forall p :: deps[p] == |RowsOf(rows, row.child, row.digest, p)|
  }

  ghost predicate RestoredFrom<T(!new)>(it: Dependent<T>, y: Tables<T>, id: T)
  {
    exists row :: row in y.pending && row.id == id && it.child == row.child && Restored(y.pending, row, it.deps)
  }

  /** The ids under which a child is indexed. */
  ghost function Ids<T>(rows: set<Row<T>>, child: T): (r: set<T>)
  {
    set row | row in rows && row.child == child :: row.id
  }

  /** The children indexed under a key. */
  ghost function Waiting<T>(y: Tables<T>, key: T): (r: set<T>)
  {
    set row | row in y.pending && row.id == key :: row.child
  }

  ghost function Children<T>(items: set<Dependent<T>>): (r: set<T>)
  {
    set it | it in items :: it.child
  }

  /** The table is a product: every id of a child carries the child's whole dependency list. */
  ghost predicate Shape<T>(rows: set<Row<T>>, received: map<T, seq<T>>)
  {
    && (forall row :: row in rows ==>
          && row.child in received
          && row.id in received[row.child]
          && row.parent in received[row.child]
          && row.digest == multiset(received[row.child]))
    && (forall row, p :: row in rows && p in received[row.child] ==>
          Row(row.id, row.child, p, multiset(received[row.child])) in rows)
  }

  /** A waiting item is indexed under each dependency it still waits for. */
  ghost predicate IndexComplete<T>(y: Tables<T>, received: map<T, seq<T>>)
  {
    forall k, d :: k in received && k !in y.ready && d in received[k] && d !in y.ready ==> d in Ids(y.pending, k)
  }

  ghost predicate Inv<T>(y: Tables<T>, received: map<T, seq<T>>)
  {
    && Distinct(y.ready)
    && O.Causal(y.ready, received)
    && Shape(y.pending, received)
    && IndexComplete(y, received)
  }

  ghost predicate Settled<T>(y: Tables<T>, received: map<T, seq<T>>, excused: set<T>)
  {
    forall k :: k in received && O.AllReady(Elements(y.ready), received[k]) ==> k in y.ready || k in excused
  }

  ghost predicate DependsAt<T>(p: seq<T>, received: map<T, seq<T>>, i: int)
    requires 0 < i < |p|
  {
    p[i] in received && p[i - 1] in received[p[i]]
  }

  /** A chain of direct dependencies, oldest first. */
  ghost predicate Chain<T>(p: seq<T>, received: map<T, seq<T>>)
  {
    |p| >= 2 && forall i :: 0 < i < |p| ==> DependsAt(p, received, i)
  }

  lemma ChainPrefix<T>(p: seq<T>, received: map<T, seq<T>>, n: nat)
    requires Chain(p, received) && 2 <= n <= |p|
    ensures Chain(p[..n], received)
  {
    forall i | 0 < i < n ensures DependsAt(p[..n], received, i) {
      assert DependsAt(p, received, i);
    }
  }

  /** `b` depends on `a`, directly or through other received items. */
  ghost predicate Ancestor<T(!new)>(a: T, b: T, received: map<T, seq<T>>)
  {
    exists p :: Chain(p, received) && p[0] == a && p[|p| - 1] == b
  }

  lemma AncestorDirect<T(!new)>(a: T, b: T, received: map<T, seq<T>>)
    requires b in received && a in received[b]
    ensures Ancestor(a, b, received)
  {
    assert Chain([a, b], received);
  }

  lemma AncestorTransitive<T(!new)>(a: T, b: T, c: T, received: map<T, seq<T>>)
    requires Ancestor(a, b, received) && Ancestor(b, c, received)
    ensures Ancestor(a, c, received)
  {
    var p :| Chain(p, received) && p[0] == a && p[|p| - 1] == b;
    var q :| Chain(q, received) && q[0] == b && q[|q| - 1] == c;
    var pq := p + q[1..];
    forall i | 0 < i < |pq| ensures DependsAt(pq, received, i) {
      if i < |p| {
        assert DependsAt(p, received, i);
      } else {
        assert DependsAt(q, received, i - (|p| - 1));
      }
    }
    assert Chain(pq, received);
  }

  /** The item can be released: some order of received items ends up with it, each after its dependencies. */
  ghost predicate Released<T(!new)>(k: T, received: map<T, seq<T>>)
  {
    exists h: seq<T> :: O.Causal(h, received) && k in h
  }

  /** No dependency is listed twice, and none is already implied by another one of the same list. */
  ghost predicate ReducedItem<T(!new)>(k: T, received: map<T, seq<T>>)
    requires k in received
  {
    && Distinct(received[k])
    && forall a, b :: a in received[k] && b in received[k] ==> !Ancestor(a, b, received)
  }

  /** What producers have to guarantee of all items which can be released at all. */
  ghost predicate Reduced<T(!new)>(received: map<T, seq<T>>)
  {
    forall k :: k in received && Released(k, received) ==> ReducedItem(k, received)
  }

  lemma CausalAppend<T>(h: seq<T>, received: map<T, seq<T>>, k: T)
    requires O.Causal(h, received) && k in received && forall d :: d in received[k] ==> d in h
    ensures O.Causal(h + [k], received)
  {
    forall i | 0 <= i < |h + [k]| ensures (h + [k])[..i] == h[..i] {
    }
    assert h[..|h|] == h;
  }

  /** An item whose dependencies are met can be released. */
  lemma MetIsReleased<T(!new)>(h: seq<T>, received: map<T, seq<T>>, k: T)
    requires O.Causal(h, received) && k in received && O.AllReady(Elements(h), received[k])
    ensures Released(k, received)
  {
    CausalAppend(h, received, k);
    assert k in h + [k];
  }

  // ---------------------------------------------------------------------
  // Store operations
  // ---------------------------------------------------------------------

  function MarkReady<T(==)>(y: Tables<T>, id: T): (r: (Tables<T>, bool))
  {
    if id !in y.ready then (y.(ready := y.ready + [id], queue := y.queue + [id]), true)
    else if id in y.queue then (y, false)
    else (y.(queue := y.queue + [id]), true)
  }

  function Ready<T(==)>(y: Tables<T>, deps: multiset<T>): (r: bool)
  {
    |set d | d in y.ready && d in deps| == |deps|
  }

  function RemovePending<T(==)>(y: Tables<T>, id: T): (r: Tables<T>)
  {
    y.(pending := set row | row in y.pending && row.id != id)
  }

  /** The queued id with the lowest index, which stays ready. */
  function TakeNextReady<T>(y: Tables<T>): (r: (Tables<T>, seq<T>))
  {
    if y.queue == [] then (y, []) else (y.(queue := y.queue[1..]), [y.queue[0]])
  }

  method SelectParents<T(==)>(rows: set<Row<T>>, child: T, digest: multiset<T>) returns (parents: multiset<T>)
    ensures forall p :: parents[p] == |RowsOf(rows, child, digest, p)|
  {
    parents := multiset{};
    var todo := rows;
    while todo != {}
      invariant todo <= rows
      invariant forall p :: parents[p] == |RowsOf(rows - todo, child, digest, p)|
      decreases todo
    {
      var row :| row in todo;
      ghost var done := rows - todo;
      ghost var before := parents;
      if row.child == child && row.digest == digest {
        parents := parents + multiset{row.parent};
      }
      todo := todo - {row};
      forall p ensures parents[p] == |RowsOf(rows - todo, child, digest, p)| {
        assert before[p] == |RowsOf(done, child, digest, p)|;
        if row.child == child && row.digest == digest && row.parent == p {
          assert RowsOf(rows - todo, child, digest, p) == RowsOf(done, child, digest, p) + {row};
        } else {
          assert RowsOf(rows - todo, child, digest, p) == RowsOf(done, child, digest, p);
        }
      }
    }
    assert rows - todo == rows;
  }

  method GetNextPending<T(==, !new)>(y: Tables<T>, id: T) returns (r: set<Dependent<T>>)
    ensures Children(r) == Waiting(y, id)
    ensures forall it :: it in r ==> RestoredFrom(it, y, id)
  {
    r := {};
    var rows := set row | row in y.pending && row.id == id;
    var todo := rows;
    while todo != {}
      invariant todo <= rows
      invariant forall it :: it in r ==> RestoredFrom(it, y, id)
      invariant Children(r) == set row | row in rows - todo :: row.child
      decreases todo
    {
      var row :| row in todo;
      var parents := SelectParents(y.pending, row.child, row.digest);
      var it := Dependent(row.child, parents);
      assert RestoredFrom(it, y, id) by { assert Restored(y.pending, row, parents); }
      assert Children(r + {it}) == Children(r) + {row.child};
      assert rows - (todo - {row}) == (rows - todo) + {row};
      r := r + {it};
      todo := todo - {row};
    }
    assert rows - todo == rows;
  }

  method MarkPending<T(==)>(y: Tables<T>, child: T, deps: seq<T>) returns (r: Tables<T>, inserted: bool)
    ensures r.ready == y.ready && r.queue == y.queue
    ensures forall row :: row in r.pending <==>
      row in y.pending || (row.child == child && row.id in deps && row.id !in y.ready
                           && row.parent in deps && row.digest == multiset(deps))
    ensures inserted <==> r.pending != y.pending
  {
    r, inserted := y, false;
    var digest := multiset(deps);
    for i := 0 to |deps|
      invariant r.ready == y.ready && r.queue == y.queue
      invariant forall row :: row in r.pending <==>
        row in y.pending || (row.child == child && row.id in deps[..i] && row.id !in y.ready
                             && row.parent in deps && row.digest == digest)
      invariant inserted <==> r.pending != y.pending
    {
      var id := deps[i];
      assert deps[..i + 1] == deps[..i] + [id];
      if id !in y.ready {
        var rows := set parent | parent in deps :: Row(id, child, parent, digest);
        inserted := inserted || !(rows <= r.pending);
        r := r.(pending := r.pending + rows);
      }
    }
    assert deps[..|deps|] == deps;
  }

  // ---------------------------------------------------------------------
  // Counting: when does the length comparison recognise met dependencies?
  // ---------------------------------------------------------------------

  /** `m` holds each element of `d` exactly `n` times. */
  ghost predicate Uniform<T(!new)>(m: multiset<T>, d: set<T>, n: nat)
  {
    forall x :: m[x] == if x in d then n else 0
  }

  /** Listed once each, the elements are counted exactly; listed more often, at least twice. */
  lemma {:induction false} UniformSize<T(!new)>(m: multiset<T>, d: set<T>, n: nat)
    requires Uniform(m, d, n)
    ensures n == 1 ==> |m| == |d|
    ensures n >= 2 ==> |m| >= |d| + |d|
    decreases d
  {
    if d == {} {
      assert m == multiset{};
    } else {
      var x :| x in d;
      var rest := m[x := 0];
      UniformSize(rest, d - {x}, n);
      assert m == rest[x := n];
      assert |m| == |rest| + n;
      assert |d| == |d - {x}| + 1;
    }
  }

  /** Exactly when the count agrees: one row group is left and every dependency is ready. */
  lemma ReadyUniform<T(!new)>(y: Tables<T>, m: multiset<T>, d: set<T>, n: nat)
    requires Uniform(m, d, n) && n >= 1 && d != {}
    ensures Ready(y, m) <==> n == 1 && forall x :: x in d ==> x in y.ready
  {
    UniformSize(m, d, n);
    var hits := set x | x in y.ready && x in m;
    assert hits <= d;
    SubsetSize(hits, d);
    assert hits == d <==> forall x :: x in d ==> x in y.ready;
  }

  /** The direct check of a submitted item: a list with repetitions is never ready. */
  lemma ReadySubmitted<T(!new)>(y: Tables<T>, deps: seq<T>)
    ensures Ready(y, multiset(deps)) <==> Distinct(deps) && forall x :: x in deps ==> x in y.ready
  {
    var d := Elements(deps);
    var hits := set x | x in y.ready && x in multiset(deps);
    SubsetSize(hits, d);
    ElementsSize(deps);
    assert hits == d <==> forall x :: x in deps ==> x in y.ready;
  }

  lemma {:induction false} ElementsSize<T>(s: seq<T>)
    ensures |Elements(s)| <= |s|
    ensures |Elements(s)| == |s| <==> Distinct(s)
  {
    if s != [] {
      var n := |s| - 1;
      var init := s[..n];
      ElementsSize(init);
      assert s == init + [s[n]];
      if s[n] in init {
        assert Elements(s) == Elements(init);
        var i :| 0 <= i < n && init[i] == s[n];
        assert s[i] == s[n];
      } else {
        assert Elements(s) == Elements(init) + {s[n]};
        assert Distinct(init) ==> Distinct(s);
        assert Distinct(s) ==> Distinct(init) by {
          if Distinct(s) {
            forall i, j | 0 <= i < j < |init| ensures init[i] != init[j] {
              assert init[i] == s[i] && init[j] == s[j];
            }
          }
        }
      }
    }
  }

  /** The restored dependency list repeats each dependency once per id the child is indexed under. */
  lemma RestoredDeps<T(!new)>(rows: set<Row<T>>, row: Row<T>, deps: multiset<T>, received: map<T, seq<T>>)
    requires Shape(rows, received) && row in rows
    requires Restored(rows, row, deps)
    ensures Uniform(deps, Elements(received[row.child]), |Ids(rows, row.child)|)
  {
    var child := row.child;
    forall p ensures deps[p] == if p in Elements(received[child]) then |Ids(rows, child)| else 0 {
      var group := RowsOf(rows, child, row.digest, p);
      if p in received[child] {
        assert group == set id | id in Ids(rows, child) :: Row(id, child, p, row.digest) by {
          forall id | id in Ids(rows, child) ensures Row(id, child, p, row.digest) in rows {
            var other :| other in rows && other.child == child && other.id == id;
            assert Row(other.id, other.child, p, multiset(received[child])) in rows;
          }
        }
        ImageSize(Ids(rows, child), child, p, row.digest);
      } else {
        assert group == {};
      }
    }
  }

  lemma {:induction false} ImageSize<T>(ids: set<T>, child: T, p: T, digest: multiset<T>)
    ensures |set id | id in ids :: Row(id, child, p, digest)| == |ids|
    decreases ids
  {
    var image := set id | id in ids :: Row(id, child, p, digest);
    if ids != {} {
      var x :| x in ids;
      ImageSize(ids - {x}, child, p, digest);
      assert image == (set id | id in ids - {x} :: Row(id, child, p, digest)) + {Row(x, child, p, digest)};
    }
  }
}
