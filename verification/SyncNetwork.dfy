/**
 * Any number of nodes which announce, answer and ingest in any interleaving. Announcements are kept
 * and may be answered late; streams may be cut off or abandoned.
 */
module SyncNetwork {
  import opened Logs
  import opened Sequences
  import opened Sync

  /** A stream on its way; `goal` is what has to be at the receiver once it is empty. */
  datatype Flight<A(==), L(==)> = Flight(to: nat, rest: seq<Entry<A, L>>, goal: Store<A, L>)

  datatype Announcement<A, L> = Announcement(peer: nat, heights: Heights<A, L>)

  datatype Net<A(==), L(==)> = Net(
    nodes: seq<Node<A, L>>, announced: set<Announcement<A, L>>, flights: map<nat, Flight<A, L>>, rejected: bool)

  datatype Step<A, L> =
    | Publish(peer: nat, entry: Entry<A, L>)
    | Link(peer: nat, author: A, log: L)
    | Announce(announcement: Announcement<A, L>)
    | Answer(id: nat, peer: nat, announcement: Announcement<A, L>, heights: Heights<A, L>,
             flat: seq<FlatRange<A, L>>, length: nat)
    | Deliver(id: nat)
    | Abandon(id: nat)

  /** Ingest, and associate the log if an entry was inserted. */
  function AfterIngest<A(==, !new), L(==, !new)>(node: Node<A, L>, e: Entry<A, L>): (r: Node<A, L>)
  {
    match Ingest(node.store, e)
    case Accepted(store) => Node(store, if e in node.store then node.logs else Associate(node.logs, e.author, e.log))
    case Rejected => node
  }

  ghost predicate Enabled<A(!new), L(!new)>(s: Net<A, L>, step: Step<A, L>)
  {
    match step
    case Publish(peer, e) => peer < |s.nodes| && Extends(s.nodes[peer].store, e)
    case Link(peer, _, _) => peer < |s.nodes|
    case Announce(x) => x.peer < |s.nodes| && IsHeights(x.heights, Topic(s.nodes[x.peer]))
    case Answer(id, peer, x, h, flat, length) =>
      && id !in s.flights && peer < |s.nodes| && x in s.announced
      && IsHeights(h, Topic(s.nodes[peer])) && Enumerates(flat, Diff(h, x.heights))
      && length <= |Concat(s.nodes[peer].store, flat)|
    case Deliver(id) => id in s.flights && s.flights[id].to < |s.nodes| && s.flights[id].rest != []
    case Abandon(id) => id in s.flights
  }

  ghost function Next<A(!new), L(!new)>(s: Net<A, L>, step: Step<A, L>): (r: Net<A, L>)
    requires Enabled(s, step)
  {
    match step
    case Publish(peer, e) => s.(nodes := s.nodes[peer := AfterIngest(s.nodes[peer], e)])
    case Link(peer, a, l) =>
      s.(nodes := s.nodes[peer := Node(s.nodes[peer].store, Associate(s.nodes[peer].logs, a, l))])
    case Announce(x) => s.(announced := s.announced + {x})
    case Answer(id, peer, x, h, flat, length) =>
      var all := Concat(s.nodes[peer].store, flat);
      var goal := if length == |all| then Topic(s.nodes[peer]) else {};
      s.(flights := s.flights[id := Flight(x.peer, all[..length], goal)])
    case Deliver(id) =>
      var f := s.flights[id];
      var r := s.(nodes := s.nodes[f.to := AfterIngest(s.nodes[f.to], f.rest[0])],
                  flights := s.flights[id := f.(rest := f.rest[1..])]);
      if Ingest(s.nodes[f.to].store, f.rest[0]).Rejected? then r.(rejected := true) else r
    case Abandon(id) => s.(flights := s.flights - {id})
  }

  ghost predicate FlightOk<A(!new), L(!new)>(nodes: seq<Node<A, L>>, f: Flight<A, L>)
  {
    && f.to < |nodes|
    && Deliverable(nodes[f.to].store, f.rest)
    && f.goal <= nodes[f.to].store + Elements(f.rest)
  }

  ghost predicate AnnouncementOk<A(!new), L(!new)>(nodes: seq<Node<A, L>>, x: Announcement<A, L>)
  {
    x.peer < |nodes| && Announced(x.heights, nodes[x.peer].store)
  }

  ghost predicate Inv<A(!new), L(!new)>(s: Net<A, L>)
  {
    && (forall n :: 0 <= n < |s.nodes| ==> GapFree(s.nodes[n].store))
    && (forall x :: x in s.announced ==> AnnouncementOk(s.nodes, x))
    && (forall id :: id in s.flights ==> FlightOk(s.nodes, s.flights[id]))
    && !s.rejected
  }

  /** One node's store grows, all others stay. */
  ghost predicate Grown<A, L>(nodes: seq<Node<A, L>>, nodes': seq<Node<A, L>>)
  {
    |nodes'| == |nodes| && forall n :: 0 <= n < |nodes| ==> nodes[n].store <= nodes'[n].store
  }

  lemma GrownKeeps<A(!new), L(!new)>(s: Net<A, L>, nodes': seq<Node<A, L>>)
    requires Inv(s) && Grown(s.nodes, nodes')
    ensures forall x :: x in s.announced ==> AnnouncementOk(nodes', x)
    ensures forall id :: id in s.flights ==> FlightOk(nodes', s.flights[id])
  {
    forall id | id in s.flights ensures FlightOk(nodes', s.flights[id]) {
      var f := s.flights[id];
      DeliverableMore(s.nodes[f.to].store, nodes'[f.to].store, f.rest);
    }
  }

  lemma PublishKeeps<A(!new), L(!new)>(s: Net<A, L>, peer: nat, e: Entry<A, L>)
    requires Inv(s) && Enabled(s, Publish(peer, e))
    ensures Inv(Next(s, Publish(peer, e)))
  {
    IngestGapFree(s.nodes[peer].store, e);
    GrownKeeps(s, s.nodes[peer := AfterIngest(s.nodes[peer], e)]);
  }

  lemma AnswerKeeps<A(!new), L(!new)>(s: Net<A, L>, step: Step<A, L>)
    requires Inv(s) && step.Answer? && Enabled(s, step)
    ensures Inv(Next(s, step))
  {
    var Answer(id, peer, x, h, flat, length) := step;
    var sender, receiver := s.nodes[peer], s.nodes[x.peer].store;
    var all := Concat(sender.store, flat);
    assert AnnouncementOk(s.nodes, x);
    AnswerDeliverable(sender.store, receiver, h, x.heights, flat, length);
    if length == |all| {
      AnswerExact(sender.store, sender.logs, h, x.heights, flat);
      assert all[..length] == all;
      forall e | e in Topic(sender) ensures e in receiver + Elements(all) {
        assert e == Entry(e.author, e.log, e.seqNum);
      }
    }
    assert FlightOk(s.nodes, Next(s, step).flights[id]);
  }

  lemma DeliverKeeps<A(!new), L(!new)>(s: Net<A, L>, id: nat)
    requires Inv(s) && Enabled(s, Deliver(id))
    ensures Inv(Next(s, Deliver(id)))
  {
    var f := s.flights[id];
    assert FlightOk(s.nodes, f);
    var store, e := s.nodes[f.to].store, f.rest[0];
    FirstAccepted(store, f.rest);
    DeliverableStep(store, f.rest);
    var nodes' := s.nodes[f.to := AfterIngest(s.nodes[f.to], e)];
    GrownKeeps(s, nodes');
    assert f.rest == [e] + f.rest[1..];
    assert FlightOk(nodes', f.(rest := f.rest[1..]));
  }

  /** Every step keeps stores gap-free, announcements true and streams deliverable, and rejects nothing. */
  lemma InvPreserved<A(!new), L(!new)>(s: Net<A, L>, step: Step<A, L>)
    requires Inv(s) && Enabled(s, step)
    ensures Inv(Next(s, step)) && Grown(s.nodes, Next(s, step).nodes)
  {
    match step
    case Publish(peer, e) =>
      PublishKeeps(s, peer, e);
    case Link(peer, a, l) =>
      GrownKeeps(s, Next(s, step).nodes);
    case Announce(x) =>
      HeightsAnnounced(x.heights, s.nodes[x.peer].store, s.nodes[x.peer].logs);
    case Answer(_, _, _, _, _, _) =>
      AnswerKeeps(s, step);
    case Deliver(id) =>
      DeliverKeeps(s, id);
    case Abandon(id) =>
  }

  ghost predicate IsRun<A(!new), L(!new)>(states: seq<Net<A, L>>, steps: seq<Step<A, L>>)
  {
    && |states| == |steps| + 1
    && (forall n :: 0 <= n < |states[0].nodes| ==> GapFree(states[0].nodes[n].store))
    && states[0].announced == {} && states[0].flights == map[] && !states[0].rejected
    && forall i :: 0 <= i < |steps| ==> Enabled(states[i], steps[i]) && states[i + 1] == Next(states[i], steps[i])
  }

  lemma {:induction false} RunSafe<A(!new), L(!new)>(states: seq<Net<A, L>>, steps: seq<Step<A, L>>, i: nat)
    requires IsRun(states, steps) && i <= |steps|
    ensures Inv(states[i])
  {
    if i > 0 {
      RunSafe(states, steps, i - 1);
      InvPreserved(states[i - 1], steps[i - 1]);
    }
  }

  /** The flight is neither abandoned nor answered anew between two states. */
  ghost predicate Kept<A(!new), L(!new)>(states: seq<Net<A, L>>, id: nat, i: nat, j: nat)
  {
    forall m :: i <= m <= j && m < |states| ==> id in states[m].flights
  }

  lemma FlightStays<A(!new), L(!new)>(s: Net<A, L>, step: Step<A, L>, id: nat)
    requires Enabled(s, step) && id in s.flights && id in Next(s, step).flights
    ensures Next(s, step).flights[id].to == s.flights[id].to
    ensures Next(s, step).flights[id].goal == s.flights[id].goal
  {
  }

  lemma {:induction false} FlightContinues<A(!new), L(!new)>(
    states: seq<Net<A, L>>, steps: seq<Step<A, L>>, id: nat, i: nat, j: nat)
    requires IsRun(states, steps) && i <= j <= |steps| && Kept(states, id, i, j)
    ensures states[j].flights[id].to == states[i].flights[id].to
    ensures states[j].flights[id].goal == states[i].flights[id].goal
  {
    if i < j {
      FlightContinues(states, steps, id, i, j - 1);
      assert Enabled(states[j - 1], steps[j - 1]) && states[j] == Next(states[j - 1], steps[j - 1]);
      FlightStays(states[j - 1], steps[j - 1], id);
    }
  }

  /**
   * In every run all stores are gap-free in every state, nothing a node ingests is rejected, and once a
   * complete answer has been delivered, however late and between whatever other steps, its receiver
   * holds everything the sender offered when it answered.
   */
  lemma DeliveredAnswer<A(!new), L(!new)>(states: seq<Net<A, L>>, steps: seq<Step<A, L>>, i: nat, j: nat)
    requires IsRun(states, steps) && i < j <= |steps| && steps[i].Answer?
    requires steps[i].length == |Concat(states[i].nodes[steps[i].peer].store, steps[i].flat)|
    requires Kept(states, steps[i].id, i + 1, j) && states[j].flights[steps[i].id].rest == []
    ensures steps[i].announcement.peer < |states[j].nodes|
    ensures Topic(states[i].nodes[steps[i].peer]) <= states[j].nodes[steps[i].announcement.peer].store
    ensures !states[j].rejected && forall n :: 0 <= n < |states[j].nodes| ==> GapFree(states[j].nodes[n].store)
  {
    var id := steps[i].id;
    FlightContinues(states, steps, id, i + 1, j);
    RunSafe(states, steps, j);
    assert FlightOk(states[j].nodes, states[j].flights[id]);
    assert states[i + 1] == Next(states[i], steps[i]);
  }

  // ---------------------------------------------------------------------
  // Association
  // ---------------------------------------------------------------------

  /** An accepted entry is inserted, and its log associated exactly if the entry is new. */
  lemma IngestUpdates<A(!new), L(!new)>(node: Node<A, L>, e: Entry<A, L>)
    ensures if Ingest(node.store, e).Accepted? then Updated(node, {e}, AfterIngest(node, e)) else AfterIngest(node, e) == node
  {
    assert Updated(node, {}, node);
    UpdatedMore(node, {}, node, e);
    assert {} + {e} == {e};
    assert e in node.store ==> node.store + {e} == node.store;
  }

  lemma ListsAllStep<A(!new), L(!new)>(s: Net<A, L>, step: Step<A, L>, s': Net<A, L>, n: nat)
    requires Enabled(s, step) && s' == Next(s, step) && n < |s.nodes| && ListsAll(s.nodes[n])
    ensures |s'.nodes| == |s.nodes| && ListsAll(s'.nodes[n])
  {
    var node := s.nodes[n];
    if step.Publish? {
      IngestUpdates(node, step.entry);
      ListsAllVisible({step.entry}, node, AfterIngest(node, step.entry));
    } else if step.Deliver? {
      var e := s.flights[step.id].rest[0];
      IngestUpdates(node, e);
      ListsAllVisible({e}, node, AfterIngest(node, e));
    }
  }

  ghost predicate StepAt<A(!new), L(!new)>(states: seq<Net<A, L>>, steps: seq<Step<A, L>>, i: nat)
    requires |states| == |steps| + 1 && i < |steps|
  {
    Enabled(states[i], steps[i]) && states[i + 1] == Next(states[i], steps[i])
  }

  lemma {:induction false} ListsAllBetween<A(!new), L(!new)>(
    states: seq<Net<A, L>>, steps: seq<Step<A, L>>, n: nat, i: nat, j: nat)
    requires |states| == |steps| + 1 && i <= j <= |steps| && n < |states[i].nodes| && ListsAll(states[i].nodes[n])
    requires forall m :: i <= m < j ==> StepAt(states, steps, m)
    ensures n < |states[j].nodes| && ListsAll(states[j].nodes[n])
    decreases j
  {
    if i < j {
      var s, step, s' := states[j - 1], steps[j - 1], states[j];
      assert StepAt(states, steps, j - 1);
      ListsAllBetween(states, steps, n, i, j - 1);
      ListsAllStep(s, step, s', n);
    }
  }

  /** A node which lists every log it holds does so ever after. */
  lemma ListsAllStays<A(!new), L(!new)>(states: seq<Net<A, L>>, steps: seq<Step<A, L>>, n: nat, i: nat, j: nat)
    requires IsRun(states, steps) && i <= j <= |steps| && n < |states[i].nodes| && ListsAll(states[i].nodes[n])
    ensures n < |states[j].nodes| && ListsAll(states[j].nodes[n])
  {
    assert forall m :: i <= m < j ==> StepAt(states, steps, m);
    ListsAllBetween(states, steps, n, i, j);
  }

  // ---------------------------------------------------------------------
  // Progress
  // ---------------------------------------------------------------------

  /** The steps can be taken one after the other and lead from `s` to `s'`. */
  ghost predicate Leads<A(!new), L(!new)>(s: Net<A, L>, steps: seq<Step<A, L>>, s': Net<A, L>)
    decreases |steps|
  {
    if steps == [] then s' == s else Enabled(s, steps[0]) && Leads(Next(s, steps[0]), steps[1..], s')
  }

  /** A node can always publish the next entry of a log, and associate a log, and then offers it. */
  lemma CanPublish<A(!new), L(!new)>(s: Net<A, L>, peer: nat, e: Entry<A, L>)
    requires Inv(s) && peer < |s.nodes| && GapFree(s.nodes[peer].store + {e}) && e !in s.nodes[peer].store
    ensures Enabled(s, Publish(peer, e))
    ensures Next(s, Publish(peer, e)).nodes == s.nodes[peer := AfterIngest(s.nodes[peer], e)]
    ensures Topic(Next(s, Publish(peer, e)).nodes[peer]) >= Topic(s.nodes[peer]) + {e}
    ensures Enabled(s, Link(peer, e.author, e.log))
    ensures Lists(Next(s, Link(peer, e.author, e.log)).nodes[peer].logs, e.author, e.log)
  {
    IngestGapFree(s.nodes[peer].store, e);
    IngestUpdates(s.nodes[peer], e);
    assert e in {e};
  }

  /** An entry which cannot be ingested is noticed; a stream can be given up at any time, and only it. */
  lemma StreamEnds<A(!new), L(!new)>(s: Net<A, L>, id: nat)
    requires id in s.flights
    ensures Enabled(s, Abandon(id)) && Next(s, Abandon(id)) == s.(flights := map k | k in s.flights && k != id :: s.flights[k])
    ensures Enabled(s, Deliver(id)) ==> var f := s.flights[id];
      Next(s, Deliver(id)).rejected <==> s.rejected || Ingest(s.nodes[f.to].store, f.rest[0]).Rejected?
  {
  }

  /** A stream which nobody cuts off arrives as a whole, and nothing else changes at the receiver's store. */
  lemma {:induction false} StreamArrives<A(!new), L(!new)>(s: Net<A, L>, id: nat)
    returns (steps: seq<Step<A, L>>, s': Net<A, L>)
    requires Inv(s) && id in s.flights
    ensures Leads(s, steps, s') && Inv(s') && |s'.nodes| == |s.nodes| && |steps| == |s.flights[id].rest|
    ensures id in s'.flights && s'.flights[id].rest == []
    ensures var f := s.flights[id]; s'.nodes[f.to].store == s.nodes[f.to].store + Elements(f.rest)
    ensures forall n :: 0 <= n < |s.nodes| && n != s.flights[id].to ==> s'.nodes[n] == s.nodes[n]
    decreases |s.flights[id].rest|
  {
    var f := s.flights[id];
    assert FlightOk(s.nodes, f);
    if f.rest == [] {
      steps, s' := [], s;
    } else {
      var step: Step<A, L> := Deliver(id);
      InvPreserved(s, step);
      FirstAccepted(s.nodes[f.to].store, f.rest);
      assert Elements(f.rest) == {f.rest[0]} + Elements(f.rest[1..]);
      var rest;
      rest, s' := StreamArrives(Next(s, step), id);
      steps := [step] + rest;
      assert steps[1..] == rest;
    }
  }

  /** A whole answer completes the receiver to what the sender offers. */
  lemma WholeAnswer<A(!new), L(!new)>(
    sender: Node<A, L>, receiver: Node<A, L>, ours: Heights<A, L>, theirs: Heights<A, L>, flat: seq<FlatRange<A, L>>)
    requires GapFree(sender.store) && GapFree(receiver.store) && Enumerates(flat, Diff(ours, theirs))
    requires IsHeights(ours, Topic(sender)) && IsHeights(theirs, Topic(receiver))
    ensures receiver.store + Elements(Concat(sender.store, flat)) == receiver.store + Topic(sender)
  {
    var all := Concat(sender.store, flat);
    AnswerExact(sender.store, sender.logs, ours, theirs, flat);
    HeightsAnnounced(theirs, receiver.store, receiver.logs);
    forall e ensures e in receiver.store + Elements(all) <==> e in receiver.store + Topic(sender) {
      assert e == Entry(e.author, e.log, e.seqNum);
    }
  }

  /** An announcement can be made and answered as a whole. */
  lemma AnswerSteps<A(!new), L(!new)>(s: Net<A, L>, announce: Step<A, L>, answer: Step<A, L>)
    returns (announced: Net<A, L>, answered: Net<A, L>)
    requires Inv(s) && announce.Announce? && answer.Answer? && Enabled(s, announce)
    requires answer.announcement == announce.announcement && answer.id !in s.flights && answer.peer < |s.nodes|
    requires IsHeights(answer.heights, Topic(s.nodes[answer.peer]))
    requires Enumerates(answer.flat, Diff(answer.heights, answer.announcement.heights))
    requires answer.length == |Concat(s.nodes[answer.peer].store, answer.flat)|
    ensures announced == Next(s, announce) && Enabled(announced, answer) && answered == Next(announced, answer)
    ensures Inv(answered) && answered.nodes == s.nodes && answer.id in answered.flights
    ensures answered.flights[answer.id].to == answer.announcement.peer
    ensures answered.flights[answer.id].rest == Concat(s.nodes[answer.peer].store, answer.flat)
  {
    InvPreserved(s, announce);
    announced := Next(s, announce);
    InvPreserved(announced, answer);
    answered := Next(announced, answer);
    var all := Concat(s.nodes[answer.peer].store, answer.flat);
    assert all[..|all|] == all;
  }

  lemma LeadsFrom<A(!new), L(!new)>(
    s: Net<A, L>, step: Step<A, L>, first: Net<A, L>, rest: seq<Step<A, L>>, s': Net<A, L>)
    requires Enabled(s, step) && first == Next(s, step) && Leads(first, rest, s')
    ensures Leads(s, [step] + rest, s')
  {
    assert ([step] + rest)[1..] == rest;
  }

  /** Any node can catch up with any other: announce, answer, and deliver the answer. */
  lemma CanCatchUp<A(!new), L(!new)>(
    s: Net<A, L>, id: nat, peer: nat, x: Announcement<A, L>, heights: Heights<A, L>, flat: seq<FlatRange<A, L>>)
    returns (steps: seq<Step<A, L>>, s': Net<A, L>)
    requires Inv(s) && id !in s.flights && peer < |s.nodes| && x.peer < |s.nodes|
    requires IsHeights(x.heights, Topic(s.nodes[x.peer])) && IsHeights(heights, Topic(s.nodes[peer]))
    requires Enumerates(flat, Diff(heights, x.heights))
    ensures Leads(s, steps, s') && |s'.nodes| == |s.nodes|
    ensures s'.nodes[x.peer].store == s.nodes[x.peer].store + Topic(s.nodes[peer])
    ensures forall n :: 0 <= n < |s.nodes| && n != x.peer ==> s'.nodes[n] == s.nodes[n]
  {
    var announce: Step<A, L> := Announce(x);
    var answer := Answer(id, peer, x, heights, flat, |Concat(s.nodes[peer].store, flat)|);
    var announced, answered := AnswerSteps(s, announce, answer);
    var rest;
    rest, s' := StreamArrives(answered, id);
    LeadsFrom(announced, answer, answered, rest, s');
    LeadsFrom(s, announce, announced, [answer] + rest, s');
    steps := [announce] + ([answer] + rest);
    WholeAnswer(s.nodes[peer], s.nodes[x.peer], heights, x.heights, flat);
  }
}
