/** A named state vector which only moves forward. */
module Cursor {
  import opened Basics
  import opened Logs

  /** One call of `Advance`. */
  datatype Move<A, L> = Move(author: A, log: L, height: nat)

  function HeightOf<A, L>(h: Heights<A, L>, a: A, l: L): (r: Option<nat>)
  {
    if a in h && l in h[a] then Some(h[a][l]) else None
  }

  function Advanced<A, L>(h: Heights<A, L>, m: Move<A, L>): (r: Heights<A, L>)
  {
    var current := HeightOf(h, m.author, m.log);
    if current.Some? && current.value >= m.height then h
    else h[m.author := (if m.author in h then h[m.author] else map[])[m.log := m.height]]
  }

  class StateVector<A(==), L(==)> {
    const name: string
    var state: Heights<A, L>

    constructor (name: string, state: Heights<A, L>)
      ensures this.name == name && this.state == state
    {
      this.name := name;
      this.state := state;
    }

    function LogHeight(a: A, l: L): (r: Option<nat>)
      reads this
      ensures forall s: nat :: Has(state, a, l, s) <==> r.Some? && s <= r.value
    {
      HeightOf(state, a, l)
    }

    /** The ranges this cursor misses to reach `other`. */
    method Compare(other: Heights<A, L>) returns (r: Ranges<A, L>)
      ensures r == Diff(other, state)
    {
      r := Logs.Compare(other, state);
    }

    method Advance(a: A, l: L, height: nat)
      modifies this
      ensures state == Advanced(old(state), Move(a, l, height))
      ensures forall b, k, s: nat :: Has(state, b, k, s) <==> Has(old(state), b, k, s) || (b == a && k == l && s <= height)
    {
      var current := LogHeight(a, l);
      if current.Some? && current.value >= height {
        return;
      }
      state := state[a := (if a in state then state[a] else map[])[l := height]];
    }
  }

  // ---------------------------------------------------------------------
  // Cursors are joins
  // ---------------------------------------------------------------------

  ghost function AdvancedBy<A, L>(h: Heights<A, L>, moves: seq<Move<A, L>>): (r: Heights<A, L>)
  {
    if moves == [] then h else Advanced(AdvancedBy(h, moves[..|moves| - 1]), moves[|moves| - 1])
  }

  /** Some move reaches the entry. */
  ghost predicate Moved<A, L>(moves: seq<Move<A, L>>, a: A, l: L, s: nat)
  {
    exists m :: m in moves && m.author == a && m.log == l && s <= m.height
  }

  lemma {:induction false} AdvancedByDenotes<A, L>(h: Heights<A, L>, moves: seq<Move<A, L>>)
    ensures forall a, l, s: nat :: Has(AdvancedBy(h, moves), a, l, s) <==> Has(h, a, l, s) || Moved(moves, a, l, s)
    ensures forall a :: a in AdvancedBy(h, moves) <==> a in h || exists m :: m in moves && m.author == a
  {
    if moves != [] {
      var n := |moves| - 1;
      var last := moves[n];
      AdvancedByDenotes(h, moves[..n]);
      assert forall m :: m in moves <==> m in moves[..n] || m == last;
      forall a, l, s: nat ensures Has(AdvancedBy(h, moves), a, l, s) <==> Has(h, a, l, s) || Moved(moves, a, l, s) {
        assert Moved(moves, a, l, s) <==> Moved(moves[..n], a, l, s) || (last.author == a && last.log == l && s <= last.height);
      }
    }
  }

  /** Any order and repetition of the same moves gives the same state. */
  lemma AdvanceOrderIrrelevant<A, L>(h: Heights<A, L>, m: seq<Move<A, L>>, n: seq<Move<A, L>>)
    requires forall x :: x in m <==> x in n
    ensures AdvancedBy(h, m) == AdvancedBy(h, n)
  {
    AdvancedByDenotes(h, m);
    AdvancedByDenotes(h, n);
    forall a, l, s: nat ensures Moved(m, a, l, s) <==> Moved(n, a, l, s) {
    }
    forall a ensures a in AdvancedBy(h, m) <==> a in AdvancedBy(h, n) {
      if x :| x in m && x.author == a {
        assert x in n;
      }
      if x :| x in n && x.author == a {
        assert x in m;
      }
    }
    HeightsEqual(AdvancedBy(h, m), AdvancedBy(h, n));
  }

  /** The moves go to the end of every range, and nowhere else. */
  ghost predicate EndsOf<A, L>(moves: seq<Move<A, L>>, r: Ranges<A, L>)
  {
    && (forall a, l :: a in r && l in r[a] ==> r[a][l].until.Some? && Move(a, l, r[a][l].until.value) in moves)
    && (forall m :: m in moves ==> m.author in r && m.log in r[m.author] && r[m.author][m.log].until == Some(m.height))
  }

  /** Advancing to the end of every range of a comparison reaches the join, and nothing is left to compare. */
  lemma CatchUp<A, L>(h: Heights<A, L>, other: Heights<A, L>, moves: seq<Move<A, L>>)
    requires EndsOf(moves, Diff(other, h))
    ensures forall a, l, s: nat :: Has(AdvancedBy(h, moves), a, l, s) <==> Has(h, a, l, s) || Has(other, a, l, s)
    ensures forall a :: a in Diff(other, AdvancedBy(h, moves)) ==> Diff(other, AdvancedBy(h, moves))[a] == map[]
  {
    var joined := AdvancedBy(h, moves);
    AdvancedByDenotes(h, moves);
    DiffExact(other, h);
    forall a, l, s: nat ensures Has(joined, a, l, s) <==> Has(h, a, l, s) || Has(other, a, l, s) {
      if Has(other, a, l, s) && !Has(h, a, l, s) {
        assert Covers(Diff(other, h), a, l, s);
        var until := Diff(other, h)[a][l].until.value;
        assert Move(a, l, until) in moves && s <= until;
      }
    }
    DiffExact(other, joined);
    forall a | a in Diff(other, joined) ensures Diff(other, joined)[a] == map[] {
      forall l | l in Diff(other, joined)[a] ensures false {
        var r := Diff(other, joined)[a][l];
        assert Covers(Diff(other, joined), a, l, r.until.value);
      }
    }
  }
}
