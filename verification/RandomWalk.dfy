/** Peer sampling: a random walk over the nodes of a network which starts over from time to time. */
module RandomWalk {
  import opened Basics
  import opened Sequences

  datatype Result<+T> = Ok(value: T) | StoreError

  /** What a session with `reporter` has told about. */
  datatype Report<ID(==)> = Report(reporter: ID, neighbours: set<ID>)

  /** One answer of the store when asked for a random bootstrap node, and for how many there are. */
  datatype Draw<ID> = Draw(pick: Result<Option<ID>>, count: Result<nat>)

  /** A call for the next node with everything it depends on; `coin` is the outcome of the random reset. */
  datatype Call<ID(==)> = Call(previous: Option<Report<ID>>, coin: bool, allNodes: Result<set<ID>>, draws: seq<Draw<ID>>)

  /** The state of a walker. */
  datatype Position<ID(==)> = Position(visited: set<ID>, unvisited: set<ID>)

  // ---------------------------------------------------------------------
  // Reachability
  // ---------------------------------------------------------------------

  ghost predicate ClosedUnder<ID(!new)>(nodes: set<ID>, edges: set<(ID, ID)>)
  {
    forall x, y :: (x, y) in edges && x in nodes ==> y in nodes
  }

  /** `nodes` are exactly those reachable from the roots: the least set closed under the edges. */
  ghost predicate IsReach<ID(!new)>(nodes: set<ID>, roots: set<ID>, edges: set<(ID, ID)>)
  {
    && roots <= nodes
    && ClosedUnder(nodes, edges)
    && forall other: set<ID> :: roots <= other && ClosedUnder(other, edges) ==> nodes <= other
  }

  ghost predicate EdgeAt<ID>(path: seq<ID>, edges: set<(ID, ID)>, i: int)
    requires 0 < i < |path|
  {
    (path[i - 1], path[i]) in edges
  }

  ghost predicate Path<ID>(path: seq<ID>, edges: set<(ID, ID)>)
  {
    forall i :: 0 < i < |path| ==> EdgeAt(path, edges, i)
  }

  ghost predicate OnPath<ID(!new)>(x: ID, roots: set<ID>, edges: set<(ID, ID)>)
  {
    exists path: seq<ID> :: path != [] && path[0] in roots && path[|path| - 1] == x && Path(path, edges)
  }

  lemma {:induction false} PathStays<ID(!new)>(nodes: set<ID>, path: seq<ID>, edges: set<(ID, ID)>)
    requires ClosedUnder(nodes, edges) && path != [] && path[0] in nodes && Path(path, edges)
    ensures path[|path| - 1] in nodes
  {
    var n := |path| - 1;
    if n > 0 {
      forall i | 0 < i < n ensures EdgeAt(path[..n], edges, i) {
        assert EdgeAt(path, edges, i);
      }
      PathStays(nodes, path[..n], edges);
      assert EdgeAt(path, edges, n);
    }
  }

  lemma ExtendPath<ID(!new)>(path: seq<ID>, z: ID, roots: set<ID>, edges: set<(ID, ID)>)
    requires path != [] && path[0] in roots && Path(path, edges) && (path[|path| - 1], z) in edges
    ensures OnPath(z, roots, edges)
  {
    var longer := path + [z];
    forall i | 0 < i < |longer| ensures EdgeAt(longer, edges, i) {
      assert i < |path| ==> EdgeAt(path, edges, i);
    }
    assert Path(longer, edges) && longer[0] == path[0];
  }

  /** Least closed sets are the nodes on a path from a root. */
  lemma ReachIsPaths<ID(!new)>(nodes: set<ID>, roots: set<ID>, edges: set<(ID, ID)>, x: ID)
    requires IsReach(nodes, roots, edges)
    ensures x in nodes <==> OnPath(x, roots, edges)
  {
    if OnPath(x, roots, edges) {
      var path :| path != [] && path[0] in roots && path[|path| - 1] == x && Path(path, edges);
      PathStays(nodes, path, edges);
    }
    var reached := set y | y in nodes && OnPath(y, roots, edges);
    forall y | y in roots ensures y in reached {
      var path := [y];
      assert path[0] in roots && Path(path, edges);
    }
    forall y, z | (y, z) in edges && y in reached ensures z in reached {
      var path :| path != [] && path[0] in roots && path[|path| - 1] == y && Path(path, edges);
      ExtendPath(path, z, roots, edges);
    }
    assert roots <= reached && ClosedUnder(reached, edges);
  }

  // ---------------------------------------------------------------------
  // One call
  // ---------------------------------------------------------------------

  function Merged<ID(==)>(w: Position<ID>, previous: Option<Report<ID>>): (r: Position<ID>)
  {
    if previous.None? then w else w.(unvisited := w.unvisited + (previous.value.neighbours - w.visited))
  }

  predicate Resets<ID(==)>(w: Position<ID>, call: Call<ID>)
  {
    call.previous.None? || Merged(w, call.previous).unvisited == {} || call.coin
  }

  function Started<ID(==)>(me: ID, w: Position<ID>, allNodes: set<ID>): (r: Position<ID>)
  {
    Position({me}, w.unvisited + (allNodes - {me}))
  }

  function Visited<ID(==)>(w: Position<ID>, node: Option<ID>): (r: Position<ID>)
  {
    if node.None? then w else Position(w.visited + {node.value}, w.unvisited - {node.value})
  }

  /** Any unvisited node, or none if there is none. */
  ghost predicate AnyOf<ID>(unvisited: set<ID>, r: Option<ID>)
  {
    (r.None? <==> unvisited == {}) && (r.Some? ==> r.value in unvisited)
  }

  /** What sampling a bootstrap node can lead to; the draws are the answers of the store, in order. */
  ghost predicate Bootstrapped<ID>(me: ID, unvisited: set<ID>, draws: seq<Draw<ID>>, r: Result<Option<ID>>)
  {
    if draws == [] then r.StoreError?
    else
      match draws[0].pick
      case StoreError => r.StoreError?
      case Ok(None) => r.Ok? && AnyOf(unvisited, r.value)
      case Ok(Some(id)) =>
        if id != me then r == Ok(Some(id))
        else if draws[0].count.StoreError? then r.StoreError?
        else if draws[0].count.value == 1 then r == Ok(None)
        else Bootstrapped(me, unvisited, draws[1..], r)
  }

  /** What a call can return. */
  ghost predicate Outcome<ID>(me: ID, w: Position<ID>, call: Call<ID>, r: Result<Option<ID>>)
  {
    var m := Merged(w, call.previous);
    if !Resets(w, call) then r.Ok? && r.value.Some? && r.value.value in m.unvisited
    else if call.allNodes.StoreError? then r.StoreError?
    else Bootstrapped(me, Started(me, m, call.allNodes.value).unvisited, call.draws, r)
  }

  /** Where the walker is after a call with this result. */
  ghost function After<ID>(me: ID, w: Position<ID>, call: Call<ID>, r: Result<Option<ID>>): (w': Position<ID>)
  {
    var m := Merged(w, call.previous);
    if Resets(w, call) && call.allNodes.StoreError? then m
    else
      var s := if Resets(w, call) then Started(me, m, call.allNodes.value) else m;
      if r.StoreError? then s else Visited(s, r.value)
  }

  class RandomWalker<ID(==, !new)> {
    const me: ID
    var visited: set<ID>
    var unvisited: set<ID>

    ghost function Here(): (w: Position<ID>)
      reads this
    {
      Position(visited, unvisited)
    }

    constructor (me: ID)
      ensures this.me == me && Here() == Position({}, {})
    {
      this.me := me;
      visited, unvisited := {}, {};
    }

    /** All known nodes but ourselves are to be visited (again); what is still unvisited stays so. */
    method Reset(allNodes: Result<set<ID>>) returns (ok: bool)
      modifies this
      ensures ok <==> allNodes.Ok?
      ensures Here() == if ok then Started(me, old(Here()), allNodes.value) else old(Here())
    {
      if allNodes.StoreError? {
        return false;
      }
      unvisited := unvisited + (allNodes.value - {me});
      visited := {me};
      ok := true;
    }

    method RandomUnvisitedNode() returns (r: Option<ID>)
      ensures AnyOf(unvisited, r)
    {
      if unvisited == {} {
        return None;
      }
      var id :| id in unvisited;
      r := Some(id);
    }

    /**
     * A bootstrap node other than ourselves, or any unvisited node if there is no bootstrap node. Running out of
     * draws is treated like a store error.
     */
    method RandomBootstrapNode(draws: seq<Draw<ID>>) returns (r: Result<Option<ID>>)
      ensures Bootstrapped(me, unvisited, draws, r)
    {
      for i := 0 to |draws|
        invariant forall x: Result<Option<ID>> ::
          Bootstrapped(me, unvisited, draws[i..], x) ==> Bootstrapped(me, unvisited, draws, x)
      {
        assert draws[i..][0] == draws[i] && draws[i..][1..] == draws[i + 1..];
        if draws[i].pick.StoreError? {
          return StoreError;
        }
        var pick := draws[i].pick.value;
        if pick.None? {
          var id := RandomUnvisitedNode();
          return Ok(id);
        }
        if pick.value != me {
          return Ok(pick);
        }
        if draws[i].count.StoreError? {
          return StoreError;
        }
        if draws[i].count.value == 1 {
          return Ok(None);
        }
      }
      r := StoreError;
    }

    method MergePrevious(previous: Report<ID>)
      modifies this
      ensures Here() == Merged(old(Here()), Some(previous))
    {
      var todo := previous.neighbours;
      while todo != {}
        invariant todo <= previous.neighbours && visited == old(visited)
        invariant unvisited == old(unvisited) + (previous.neighbours - todo - visited)
        decreases todo
      {
        var id :| id in todo;
        todo := todo - {id};
        if id !in visited {
          unvisited := unvisited + {id};
        }
      }
    }

    method MarkVisited(id: ID)
      modifies this
      ensures Here() == Visited(old(Here()), Some(id))
    {
      visited := visited + {id};
      unvisited := unvisited - {id};
    }

    /** Next node to visit. The walk starts over without a previous report and when no node is left, or by chance. */
    method NextNode(call: Call<ID>) returns (r: Result<Option<ID>>)
      modifies this
      ensures Outcome(me, old(Here()), call, r)
      ensures Here() == After(me, old(Here()), call, r)
    {
      if call.previous.Some? {
        MergePrevious(call.previous.value);
      }
      var node: Option<ID>;
      if call.previous.None? || unvisited == {} || call.coin {
        var ok := Reset(call.allNodes);
        if !ok {
          return StoreError;
        }
        var bootstrap := RandomBootstrapNode(call.draws);
        if bootstrap.StoreError? {
          return StoreError;
        }
        node := bootstrap.value;
      } else {
        node := RandomUnvisitedNode();
      }
      if node.Some? {
        MarkVisited(node.value);
      }
      r := Ok(node);
    }
  }

  /** In other words: the node is a drawn one or any unvisited one; none means that there is nobody else. */
  lemma {:induction false} BootstrapMeaning<ID(!new)>(
    me: ID, unvisited: set<ID>, draws: seq<Draw<ID>>, r: Result<Option<ID>>)
    requires Bootstrapped(me, unvisited, draws, r)
    ensures r.Ok? && r.value.Some? ==>
              (r.value.value != me && exists d :: d in draws && d.pick == r) ||
              (r.value.value in unvisited && exists d :: d in draws && d.pick == Ok(None))
    ensures r.Ok? && r.value.None? ==>
              (exists d :: d in draws && d.pick == Ok(Some(me)) && d.count == Ok(1)) ||
              (unvisited == {} && exists d :: d in draws && d.pick == Ok(None))
    ensures r.StoreError? ==>
              (exists d :: d in draws && (d.pick.StoreError? || d.count.StoreError?)) ||
              (forall d :: d in draws ==> d.pick == Ok(Some(me)) && d.count != Ok(1))
  {
    if draws != [] {
      assert draws[0] in draws;
      if draws[0].pick == Ok(Some(me)) && draws[0].count.Ok? && draws[0].count.value != 1 {
        BootstrapMeaning(me, unvisited, draws[1..], r);
        assert draws == [draws[0]] + draws[1..];
      }
    }
  }

  // ---------------------------------------------------------------------
  // What a call keeps
  // ---------------------------------------------------------------------

  /** No node is both visited and unvisited, and we do not wait to be visited. */
  ghost predicate Clean<ID>(me: ID, w: Position<ID>)
  {
    w.visited !! w.unvisited && me !in w.unvisited
  }

  /** We are not reported as a neighbour before we have marked ourselves as visited. */
  ghost predicate Admissible<ID>(me: ID, w: Position<ID>, previous: Option<Report<ID>>)
  {
    me in w.visited || previous.None? || me !in previous.value.neighbours
  }

  lemma {:induction false} NotBootstrapped<ID(!new)>(
    me: ID, unvisited: set<ID>, draws: seq<Draw<ID>>, r: Result<Option<ID>>)
    requires Bootstrapped(me, unvisited, draws, r)
    ensures r == Ok(Some(me)) ==> me in unvisited
  {
    BootstrapMeaning(me, unvisited, draws, r);
  }

  /** A call keeps the walk clean and does not yield ourselves, exactly if we were not reported too early. */
  lemma CallIsClean<ID(!new)>(me: ID, w: Position<ID>, call: Call<ID>, r: Result<Option<ID>>)
    requires Clean(me, w) && Outcome(me, w, call, r)
    ensures Clean(me, After(me, w, call, r)) && r != Ok(Some(me)) <==> Admissible(me, w, call.previous)
    ensures Resets(w, call) && call.allNodes.Ok? ==> me in After(me, w, call, r).visited
    ensures me in w.visited ==> me in After(me, w, call, r).visited
  {
    var m := Merged(w, call.previous);
    if Resets(w, call) && call.allNodes.Ok? {
      NotBootstrapped(me, Started(me, m, call.allNodes.value).unvisited, call.draws, r);
    }
  }

  /** If the first call carries a report about ourselves we can be our own next node, and are if it names nobody else. */
  lemma ReportedBeforeBegin<ID>(me: ID, call: Call<ID>, r: Result<Option<ID>>)
    requires call.previous.Some? && me in call.previous.value.neighbours && !call.coin
    ensures Outcome(me, Position({}, {}), call, Ok(Some(me)))
    ensures call.previous.value.neighbours == {me} && Outcome(me, Position({}, {}), call, r) ==> r == Ok(Some(me))
  {
    assert me in Merged(Position({}, {}), call.previous).unvisited;
  }

  // ---------------------------------------------------------------------
  // Whole walks
  // ---------------------------------------------------------------------

  /** Call `i` leads from `states[i]` to `states[i + 1]` and has yielded `yielded[i]`. */
  ghost predicate StepAt<ID>(
    me: ID, calls: seq<Call<ID>>, yielded: seq<Option<ID>>, states: seq<Position<ID>>, i: nat)
    requires |states| == |yielded| + 1 && |yielded| <= |calls| && i < |yielded|
  {
    && Outcome(me, states[i], calls[i], Ok(yielded[i]))
    && states[i + 1] == After(me, states[i], calls[i], Ok(yielded[i]))
  }

  /** A walk whose first call has no previous report, replayed from its calls and what they have yielded. */
  ghost predicate Walked<ID>(me: ID, calls: seq<Call<ID>>, yielded: seq<Option<ID>>, states: seq<Position<ID>>)
  {
    && |states| == |yielded| + 1 && |yielded| <= |calls|
    && states[0] == Position({}, {})
    && (calls != [] ==> calls[0].previous.None?)
    && forall i :: 0 <= i < |yielded| ==> StepAt(me, calls, yielded, states, i)
  }

  /** Call `i` starts a new round. */
  ghost predicate ResetsAt<ID>(calls: seq<Call<ID>>, states: seq<Position<ID>>, i: nat)
    requires i < |states| && i < |calls|
  {
    Resets(states[i], calls[i])
  }

  lemma {:induction false} WalkIsClean<ID(!new)>(
    me: ID, calls: seq<Call<ID>>, yielded: seq<Option<ID>>, states: seq<Position<ID>>, i: nat)
    requires Walked(me, calls, yielded, states) && i <= |yielded|
    ensures Clean(me, states[i])
    ensures i > 0 ==> me in states[i].visited && yielded[i - 1] != Some(me)
  {
    if i > 0 {
      WalkIsClean(me, calls, yielded, states, i - 1);
      assert StepAt(me, calls, yielded, states, i - 1);
      CallIsClean(me, states[i - 1], calls[i - 1], Ok(yielded[i - 1]));
    }
  }

  lemma StepWithoutReset<ID>(me: ID, w: Position<ID>, call: Call<ID>, node: Option<ID>)
    requires Outcome(me, w, call, Ok(node)) && !Resets(w, call)
    ensures var w' := After(me, w, call, Ok(node));
      && node.Some? && node.value in Merged(w, call.previous).unvisited
      && w'.visited == w.visited + {node.value}
      && w'.visited + w'.unvisited == w.visited + w.unvisited + call.previous.value.neighbours
  {
  }

  /**
   * The walk starts over without a report, with nothing left or by chance: then we and the node which was yielded are
   * all that is visited. Otherwise one of the unvisited nodes joins the visited ones.
   */
  lemma StartsOver<ID>(me: ID, w: Position<ID>, call: Call<ID>, node: Option<ID>)
    requires Outcome(me, w, call, Ok(node))
    ensures var w' := After(me, w, call, Ok(node));
      var yielded := if node.Some? then {node.value} else {};
      if call.previous.None? || call.coin || w.unvisited + (call.previous.value.neighbours - w.visited) == {}
      then call.allNodes.Ok? && w'.visited == {me} + yielded
      else node.Some? && w'.visited == w.visited + yielded
           && node.value in w.unvisited + (call.previous.value.neighbours - w.visited)
  {
  }

  /** A visited node stays visited until the walk starts over. */
  lemma {:induction false} VisitedStays<ID(!new)>(
    me: ID, calls: seq<Call<ID>>, yielded: seq<Option<ID>>, states: seq<Position<ID>>, i: nat, j: nat, id: ID)
    requires Walked(me, calls, yielded, states) && i <= j <= |yielded| && id in states[i].visited
    requires forall k :: i <= k < j ==> !ResetsAt(calls, states, k)
    ensures id in states[j].visited
    decreases j
  {
    if i < j {
      VisitedStays(me, calls, yielded, states, i, j - 1, id);
      assert StepAt(me, calls, yielded, states, j - 1) && !ResetsAt(calls, states, j - 1);
      StepWithoutReset(me, states[j - 1], calls[j - 1], yielded[j - 1]);
    }
  }

  /** Between two times the same node is yielded the walk has started over. */
  lemma YieldedOncePerRound<ID(!new)>(
    me: ID, calls: seq<Call<ID>>, yielded: seq<Option<ID>>, states: seq<Position<ID>>, i: nat, j: nat)
    requires Walked(me, calls, yielded, states) && i < j < |yielded| && yielded[i].Some? && yielded[i] == yielded[j]
    ensures exists k :: i < k <= j && ResetsAt(calls, states, k)
  {
    if forall k :: i < k < j ==> !ResetsAt(calls, states, k) {
      assert StepAt(me, calls, yielded, states, i);
      VisitedStays(me, calls, yielded, states, i + 1, j, yielded[i].value);
      WalkIsClean(me, calls, yielded, states, j);
      assert StepAt(me, calls, yielded, states, j);
      assert ResetsAt(calls, states, j);
    }
  }

  // ---------------------------------------------------------------------
  // Coverage
  // ---------------------------------------------------------------------

  ghost function Known<ID>(w: Position<ID>): (r: set<ID>)
  {
    w.visited + w.unvisited
  }

  /** The round which began with call `c` is still going on before call `i`. */
  ghost predicate SameRound<ID>(calls: seq<Call<ID>>, states: seq<Position<ID>>, c: nat, i: nat)
    requires c < i < |states| && i <= |calls|
  {
    ResetsAt(calls, states, c) && forall k :: c < k < i ==> !ResetsAt(calls, states, k)
  }

  ghost function ReportEdges<ID>(previous: Option<Report<ID>>): (r: set<(ID, ID)>)
  {
    if previous.None? then {} else set y | y in previous.value.neighbours :: (previous.value.reporter, y)
  }

  /** Who was reported by whom in the calls from `c + 1` up to but not including `i`. */
  ghost function Reports<ID>(calls: seq<Call<ID>>, c: nat, i: nat): (r: set<(ID, ID)>)
    requires c < i <= |calls|
  {
    if i == c + 1 then {} else Reports(calls, c, i - 1) + ReportEdges(calls[i - 1].previous)
  }

  /** Where a round starts: at ourselves, what was left over, all known nodes, and the bootstrap node. */
  ghost function Start<ID>(me: ID, w: Position<ID>, call: Call<ID>, node: Option<ID>): (r: set<ID>)
  {
    {me} + Merged(w, call.previous).unvisited
    + (if call.allNodes.Ok? then call.allNodes.value else {})
    + (if node.Some? then {node.value} else {})
  }

  /** A report of a node the walk does not know of adds further starting points. */
  ghost function Strangers<ID>(w: Position<ID>, previous: Option<Report<ID>>): (r: set<ID>)
  {
    if previous.Some? && previous.value.reporter !in Known(w) then previous.value.neighbours else {}
  }

  /** Where the round of call `c` has started from, as far as the reports before call `i` tell. */
  ghost function Roots<ID>(
    me: ID, calls: seq<Call<ID>>, yielded: seq<Option<ID>>, states: seq<Position<ID>>, c: nat, i: nat): (r: set<ID>)
    requires c < |yielded| && c < |states| && c < i <= |calls| && i <= |states|
  {
    if i == c + 1 then Start(me, states[c], calls[c], yielded[c])
    else Roots(me, calls, yielded, states, c, i - 1) + Strangers(states[i - 1], calls[i - 1].previous)
  }

  /** The nodes are the reachable ones and contain all reported neighbours. */
  ghost predicate Explored<ID(!new)>(nodes: set<ID>, roots: set<ID>, edges: set<(ID, ID)>)
  {
    (forall x, y :: (x, y) in edges ==> y in nodes) && IsReach(nodes, roots, edges)
  }

  lemma MergeExplored<ID(!new)>(w: Position<ID>, report: Report<ID>, roots: set<ID>, edges: set<(ID, ID)>)
    requires Explored(Known(w), roots, edges)
    ensures Explored(Known(w) + report.neighbours, roots + Strangers(w, Some(report)), edges + ReportEdges(Some(report)))
  {
    var roots', edges' := roots + Strangers(w, Some(report)), edges + ReportEdges(Some(report));
    forall other: set<ID> | roots' <= other && ClosedUnder(other, edges')
      ensures Known(w) + report.neighbours <= other
    {
      assert ClosedUnder(other, edges);
      forall y | y in report.neighbours ensures y in other {
        assert (report.reporter, y) in edges';
      }
    }
  }

  /** All a walker knows are the nodes reachable from the start of its round through the reports since then. */
  lemma {:induction false} RoundExplored<ID(!new)>(
    me: ID, calls: seq<Call<ID>>, yielded: seq<Option<ID>>, states: seq<Position<ID>>, c: nat, i: nat)
    requires Walked(me, calls, yielded, states) && c < i <= |yielded| && SameRound(calls, states, c, i)
    ensures Explored(Known(states[i]), Roots(me, calls, yielded, states, c, i), Reports(calls, c, i))
  {
    assert StepAt(me, calls, yielded, states, i - 1);
    if i == c + 1 {
      RoundStart(me, states[c], calls[c], yielded[c]);
    } else {
      RoundExplored(me, calls, yielded, states, c, i - 1);
      assert !ResetsAt(calls, states, i - 1);
      StepWithoutReset(me, states[i - 1], calls[i - 1], yielded[i - 1]);
      MergeExplored(states[i - 1], calls[i - 1].previous.value,
                    Roots(me, calls, yielded, states, c, i - 1), Reports(calls, c, i - 1));
    }
  }

  lemma RoundStart<ID(!new)>(me: ID, w: Position<ID>, call: Call<ID>, node: Option<ID>)
    requires Outcome(me, w, call, Ok(node)) && Resets(w, call)
    ensures Known(After(me, w, call, Ok(node))) == Start(me, w, call, node)
    ensures Explored(Start(me, w, call, node), Start(me, w, call, node), {})
  {
  }

  /** `visited` are exactly the nodes on a path of edges from a root. */
  ghost predicate Covered<ID(!new)>(visited: set<ID>, roots: set<ID>, edges: set<(ID, ID)>)
  {
    forall x :: x in visited <==> OnPath(x, roots, edges)
  }

  /** Call `i` finds nothing left to visit. */
  ghost predicate Exhausted<ID>(calls: seq<Call<ID>>, states: seq<Position<ID>>, i: nat)
    requires i < |calls| && i < |states|
  {
    calls[i].previous.Some? && Merged(states[i], calls[i].previous).unvisited == {}
  }

  /** When a round ends because nothing is left, it has visited what its reports reach from its start. */
  lemma RoundCovered<ID(!new)>(
    me: ID, calls: seq<Call<ID>>, yielded: seq<Option<ID>>, states: seq<Position<ID>>, c: nat, i: nat)
    requires Walked(me, calls, yielded, states) && c < i <= |yielded| && i < |calls|
    requires SameRound(calls, states, c, i) && Exhausted(calls, states, i)
    ensures Covered(states[i].visited, Roots(me, calls, yielded, states, c, i + 1), Reports(calls, c, i + 1))
  {
    RoundExplored(me, calls, yielded, states, c, i);
    var w, report := states[i], calls[i].previous.value;
    MergeExplored(w, report, Roots(me, calls, yielded, states, c, i), Reports(calls, c, i));
    assert Known(w) + report.neighbours == w.visited;
    forall x ensures x in w.visited <==>
      OnPath(x, Roots(me, calls, yielded, states, c, i + 1), Reports(calls, c, i + 1))
    {
      ReachIsPaths(w.visited, Roots(me, calls, yielded, states, c, i + 1), Reports(calls, c, i + 1), x);
    }
  }

  /** If all reports of a round come from nodes it knows of, everything is reached from its start alone. */
  lemma {:induction false} KnownReporters<ID(!new)>(
    me: ID, calls: seq<Call<ID>>, yielded: seq<Option<ID>>, states: seq<Position<ID>>, c: nat, i: nat)
    requires c < |yielded| && c < i <= |calls| && i <= |states|
    requires forall k :: c < k < i && calls[k].previous.Some? ==> calls[k].previous.value.reporter in Known(states[k])
    ensures Roots(me, calls, yielded, states, c, i) == Start(me, states[c], calls[c], yielded[c])
  {
    if i > c + 1 {
      KnownReporters(me, calls, yielded, states, c, i - 1);
    }
  }

  // ---------------------------------------------------------------------
  // Rounds
  // ---------------------------------------------------------------------

  /** A call begins a new round or continues the last one. */
  function AddedTo<ID>(rounds: seq<seq<ID>>, reset: bool, node: Option<ID>): (r: seq<seq<ID>>)
    ensures r != []
  {
    var begins := reset || rounds == [];
    var now := if begins then [] else rounds[|rounds| - 1];
    var before := if begins then rounds else rounds[..|rounds| - 1];
    before + [if node.Some? then now + [node.value] else now]
  }

  ghost function AsSeq<ID>(node: Option<ID>): (r: seq<ID>)
  {
    if node.Some? then [node.value] else []
  }

  /** The yielded nodes split at the calls which start over. */
  ghost function Split<ID>(
    calls: seq<Call<ID>>, yielded: seq<Option<ID>>, states: seq<Position<ID>>, n: nat): (r: seq<seq<ID>>)
    requires n <= |yielded| <= |calls| && n <= |states|
  {
    if n == 0 then []
    else AddedTo(Split(calls, yielded, states, n - 1), Resets(states[n - 1], calls[n - 1]), yielded[n - 1])
  }

  ghost function Nodes<ID>(yielded: seq<Option<ID>>): (r: seq<ID>)
  {
    if yielded == [] then []
    else Nodes(yielded[..|yielded| - 1]) + AsSeq(yielded[|yielded| - 1])
  }

  ghost function Flat<ID>(rounds: seq<seq<ID>>): (r: seq<ID>)
  {
    if rounds == [] then [] else Flat(rounds[..|rounds| - 1]) + rounds[|rounds| - 1]
  }

  ghost function ResetCount<ID>(calls: seq<Call<ID>>, states: seq<Position<ID>>, n: nat): (r: nat)
    requires n <= |calls| && n <= |states|
  {
    if n == 0 then 0 else ResetCount(calls, states, n - 1) + if ResetsAt(calls, states, n - 1) then 1 else 0
  }

  lemma FlatLast<ID>(rounds: seq<seq<ID>>, last: seq<ID>)
    ensures Flat(rounds + [last]) == Flat(rounds) + last
  {
    assert (rounds + [last])[..|rounds|] == rounds;
  }

  lemma FlatGrown<ID>(before: seq<seq<ID>>, last: seq<ID>, more: seq<ID>)
    ensures Flat(before + [last + more]) == Flat(before + [last]) + more
  {
    FlatLast(before, last);
    FlatLast(before, last + more);
    ConcatAssociative(Flat(before), last, more);
  }

  lemma AddedLast<ID>(rounds: seq<seq<ID>>, reset: bool, node: Option<ID>, before: seq<seq<ID>>, now: seq<ID>)
    requires if reset || rounds == [] then before == rounds && now == [] else before + [now] == rounds
    ensures AddedTo(rounds, reset, node) == before + [now + AsSeq(node)]
  {
    if !(reset || rounds == []) {
      assert rounds[..|rounds| - 1] == before && rounds[|rounds| - 1] == now;
    }
    assert now + AsSeq(node) == if node.Some? then now + [node.value] else now;
  }

  lemma AddedFlat<ID>(rounds: seq<seq<ID>>, reset: bool, node: Option<ID>)
    ensures Flat(AddedTo(rounds, reset, node)) == Flat(rounds) + AsSeq(node)
    ensures |AddedTo(rounds, reset, node)| == |rounds| + if reset || rounds == [] then 1 else 0
  {
    if reset || rounds == [] {
      AddedLast(rounds, reset, node, rounds, []);
      FlatGrown(rounds, [], AsSeq(node));
      FlatLast(rounds, []);
    } else {
      SplitLast(rounds);
      AddedLast(rounds, reset, node, rounds[..|rounds| - 1], rounds[|rounds| - 1]);
      FlatGrown(rounds[..|rounds| - 1], rounds[|rounds| - 1], AsSeq(node));
    }
  }

  lemma NodesNext<ID>(yielded: seq<Option<ID>>, n: nat)
    requires 0 < n <= |yielded|
    ensures Nodes(yielded[..n]) == Nodes(yielded[..n - 1]) + AsSeq(yielded[n - 1])
  {
    assert yielded[..n][..n - 1] == yielded[..n - 1];
  }

  /** The rounds joined together are what was yielded. */
  lemma {:induction false} SplitFlat<ID>(
    calls: seq<Call<ID>>, yielded: seq<Option<ID>>, states: seq<Position<ID>>, n: nat)
    requires n <= |yielded| <= |calls| && n <= |states|
    ensures Flat(Split(calls, yielded, states, n)) == Nodes(yielded[..n])
  {
    if n > 0 {
      SplitFlat(calls, yielded, states, n - 1);
      var before, reset, node := Split(calls, yielded, states, n - 1), Resets(states[n - 1], calls[n - 1]), yielded[n - 1];
      assert Split(calls, yielded, states, n) == AddedTo(before, reset, node);
      AddedFlat(before, reset, node);
      NodesNext(yielded, n);
    }
  }

  /** There are as many rounds as the walk has started over. */
  lemma {:induction false} SplitCount<ID>(
    calls: seq<Call<ID>>, yielded: seq<Option<ID>>, states: seq<Position<ID>>, n: nat)
    requires n <= |yielded| <= |calls| && n <= |states| && (calls != [] ==> calls[0].previous.None?)
    ensures |Split(calls, yielded, states, n)| == ResetCount(calls, states, n)
    ensures n > 0 ==> Split(calls, yielded, states, n) != []
  {
    if n > 0 {
      SplitCount(calls, yielded, states, n - 1);
      var before, reset, node := Split(calls, yielded, states, n - 1), Resets(states[n - 1], calls[n - 1]), yielded[n - 1];
      assert Split(calls, yielded, states, n) == AddedTo(before, reset, node);
      AddedFlat(before, reset, node);
    }
  }

  ghost predicate AllFresh<ID>(me: ID, rounds: seq<seq<ID>>)
  {
    forall k :: 0 <= k < |rounds| ==> Distinct(rounds[k]) && me !in rounds[k]
  }

  /** The last round holds what was visited since it began. */
  ghost predicate Tracks<ID>(me: ID, rounds: seq<seq<ID>>, w: Position<ID>)
  {
    && AllFresh(me, rounds)
    && (if rounds == [] then w.visited == {} else w.visited == Elements(rounds[|rounds| - 1]) + {me})
  }

  lemma AddedTracks<ID(!new)>(me: ID, rounds: seq<seq<ID>>, w: Position<ID>, call: Call<ID>, node: Option<ID>)
    requires Tracks(me, rounds, w) && Clean(me, w) && (rounds == [] ==> call.previous.None?)
    requires Outcome(me, w, call, Ok(node)) && node != Some(me)
    ensures Tracks(me, AddedTo(rounds, Resets(w, call), node), After(me, w, call, Ok(node)))
  {
    var r := AddedTo(rounds, Resets(w, call), node);
    var last := r[|r| - 1];
    if Resets(w, call) {
      assert node.Some? ==> Elements(last) == {node.value};
    } else {
      StepWithoutReset(me, w, call, node);
      var now := rounds[|rounds| - 1];
      assert node.value !in now;
      assert last == now + [node.value];
      assert Elements(last) == Elements(now) + {node.value};
    }
  }

  /** Every round yields distinct nodes and never ourselves. */
  lemma {:induction false} RoundsAreFresh<ID(!new)>(
    me: ID, calls: seq<Call<ID>>, yielded: seq<Option<ID>>, states: seq<Position<ID>>, n: nat)
    requires Walked(me, calls, yielded, states) && n <= |yielded|
    ensures Tracks(me, Split(calls, yielded, states, n), states[n])
  {
    if n > 0 {
      RoundsAreFresh(me, calls, yielded, states, n - 1);
      WalkIsClean(me, calls, yielded, states, n - 1);
      WalkIsClean(me, calls, yielded, states, n);
      assert StepAt(me, calls, yielded, states, n - 1);
      AddedTracks(me, Split(calls, yielded, states, n - 1), states[n - 1], calls[n - 1], yielded[n - 1]);
    }
  }

  /** Whatever round a call finds exhausted has visited what its reports reach from its start. */
  ghost predicate AllCovered<ID(!new)>(
    me: ID, calls: seq<Call<ID>>, yielded: seq<Option<ID>>, states: seq<Position<ID>>)
    requires |states| == |yielded| + 1 && |yielded| <= |calls|
  {
    forall c: nat, i: nat :: c < i <= |yielded| && i < |calls| && SameRound(calls, states, c, i) && Exhausted(calls, states, i) ==>
      Covered(states[i].visited, Roots(me, calls, yielded, states, c, i + 1), Reports(calls, c, i + 1))
  }

  lemma WalkCovered<ID(!new)>(me: ID, calls: seq<Call<ID>>, yielded: seq<Option<ID>>, states: seq<Position<ID>>)
    requires Walked(me, calls, yielded, states)
    ensures AllCovered(me, calls, yielded, states)
  {
    forall c: nat, i: nat | c < i <= |yielded| && i < |calls| && SameRound(calls, states, c, i) && Exhausted(calls, states, i)
      ensures Covered(states[i].visited, Roots(me, calls, yielded, states, c, i + 1), Reports(calls, c, i + 1))
    {
      RoundCovered(me, calls, yielded, states, c, i);
    }
  }

  lemma WalkedMore<ID(!new)>(
    me: ID, calls: seq<Call<ID>>, yielded: seq<Option<ID>>, states: seq<Position<ID>>, node: Option<ID>, w: Position<ID>)
    requires Walked(me, calls, yielded, states) && |yielded| < |calls|
    requires Outcome(me, states[|yielded|], calls[|yielded|], Ok(node))
    requires w == After(me, states[|yielded|], calls[|yielded|], Ok(node))
    ensures Walked(me, calls, yielded + [node], states + [w])
  {
    forall i | 0 <= i < |yielded + [node]| ensures StepAt(me, calls, yielded + [node], states + [w], i) {
      assert i < |yielded| ==> StepAt(me, calls, yielded, states, i);
    }
  }

  lemma {:induction false} SplitMore<ID>(
    calls: seq<Call<ID>>, yielded: seq<Option<ID>>, states: seq<Position<ID>>, node: Option<ID>, w: Position<ID>, n: nat)
    requires n <= |yielded| < |calls| && |states| == |yielded| + 1
    ensures Split(calls, yielded + [node], states + [w], n) == Split(calls, yielded, states, n)
  {
    if n > 0 {
      SplitMore(calls, yielded, states, node, w, n - 1);
    }
  }

  lemma WalkEnds<ID(!new)>(me: ID, calls: seq<Call<ID>>, yielded: seq<Option<ID>>, states: seq<Position<ID>>)
    requires Walked(me, calls, yielded, states)
    ensures var rounds := Split(calls, yielded, states, |yielded|);
      AllFresh(me, rounds) && Flat(rounds) == Nodes(yielded) && |rounds| == ResetCount(calls, states, |yielded|)
    ensures AllCovered(me, calls, yielded, states)
  {
    RoundsAreFresh(me, calls, yielded, states, |yielded|);
    SplitFlat(calls, yielded, states, |yielded|);
    SplitCount(calls, yielded, states, |yielded|);
    assert yielded[..|yielded|] == yielded;
    WalkCovered(me, calls, yielded, states);
  }

  /** A whole walk up to the first store error, split into its rounds. */
  method Walk<ID(==, !new)>(me: ID, calls: seq<Call<ID>>)
    returns (yielded: seq<Option<ID>>, rounds: seq<seq<ID>>, ghost states: seq<Position<ID>>)
    requires calls != [] ==> calls[0].previous.None?
    ensures Walked(me, calls, yielded, states)
    ensures |yielded| < |calls| ==> Outcome(me, states[|yielded|], calls[|yielded|], StoreError)
    ensures rounds == Split(calls, yielded, states, |yielded|) && AllFresh(me, rounds)
    ensures Flat(rounds) == Nodes(yielded) && |rounds| == ResetCount(calls, states, |yielded|)
    ensures AllCovered(me, calls, yielded, states)
  {
    var w := new RandomWalker(me);
    yielded, rounds, states := [], [], [w.Here()];
    for i := 0 to |calls|
      invariant fresh(w) && w.me == me
      invariant |yielded| == i && Walked(me, calls, yielded, states) && states[i] == w.Here()
      invariant rounds == Split(calls, yielded, states, i)
    {
      var reset := Resets(Position(w.visited, w.unvisited), calls[i]);
      var r := w.NextNode(calls[i]);
      if r.StoreError? {
        break;
      }
      WalkedMore(me, calls, yielded, states, r.value, w.Here());
      SplitMore(calls, yielded, states, r.value, w.Here(), i);
      rounds := AddedTo(rounds, reset, r.value);
      yielded, states := yielded + [r.value], states + [w.Here()];
    }
    WalkEnds(me, calls, yielded, states);
  }
}
