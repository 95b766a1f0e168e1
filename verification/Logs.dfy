/** Log heights as state vectors, the ranges one side misses, and cursors which track heights. */
module Logs {
  import opened Basics

  /** For each author and log the sequence number of the last entry. */
  type Heights<A, L> = map<A, map<L, nat>>

  /** Entries after `after` (exclusive) up to `until` (inclusive); `None` means unbounded. */
  datatype Range = Range(after: Option<nat>, until: Option<nat>)

  type Ranges<A, L> = map<A, map<L, Range>>

  // ---------------------------------------------------------------------
  // What heights and ranges denote
  // ---------------------------------------------------------------------

  ghost predicate Has<A, L>(h: Heights<A, L>, a: A, l: L, s: nat)
  {
    a in h && l in h[a] && s <= h[a][l]
  }

  ghost predicate InRange(r: Range, s: nat)
  {
    (r.after.Some? ==> r.after.value < s) && (r.until.Some? ==> s <= r.until.value)
  }

  ghost predicate Covers<A, L>(r: Ranges<A, L>, a: A, l: L, s: nat)
  {
    a in r && l in r[a] && InRange(r[a][l], s)
  }

  ghost predicate NonEmpty(r: Range)
  {
    r.until.Some? && (r.after.Some? ==> r.after.value < r.until.value)
  }

  /** Heights are the same map when they denote the same entries of the same authors. */
  lemma HeightsEqual<A, L>(g: Heights<A, L>, h: Heights<A, L>)
    requires (forall a :: a in g <==> a in h) && forall a, l, s: nat :: Has(g, a, l, s) <==> Has(h, a, l, s)
    ensures g == h
  {
    forall a | a in g ensures g[a] == h[a] {
      forall l ensures l in g[a] <==> l in h[a] {
        assert Has(g, a, l, 0) <==> Has(h, a, l, 0);
      }
      forall l | l in g[a] ensures g[a][l] == h[a][l] {
        assert Has(g, a, l, g[a][l]) && Has(h, a, l, h[a][l]);
      }
    }
  }

  // ---------------------------------------------------------------------
  // Comparing
  // ---------------------------------------------------------------------

  /** The ranges of one author's logs which the remote misses. */
  ghost function LogDiff<L>(local: map<L, nat>, remote: map<L, nat>): (r: map<L, Range>)
  {
    map l | l in local && (l in remote ==> remote[l] < local[l]) ::
      Range(if l in remote then Some(remote[l]) else None, Some(local[l]))
  }

  ghost function Logs<A, L>(h: Heights<A, L>, a: A): (r: map<L, nat>)
  {
    if a in h then h[a] else map[]
  }

  /** What `Compare` returns; an author the remote does not know is listed even without logs. */
  ghost function Diff<A, L>(local: Heights<A, L>, remote: Heights<A, L>): (r: Ranges<A, L>)
  {
    map a | a in local && (a in remote ==> LogDiff(local[a], remote[a]) != map[]) :: LogDiff(local[a], Logs(remote, a))
  }

  /** The diff covers exactly the local entries the remote misses, and none of its ranges is empty. */
  lemma DiffExact<A, L>(local: Heights<A, L>, remote: Heights<A, L>)
    ensures forall a, l, s: nat :: Covers(Diff(local, remote), a, l, s) <==> Has(local, a, l, s) && !Has(remote, a, l, s)
    ensures forall a, l :: a in Diff(local, remote) && l in Diff(local, remote)[a] ==> NonEmpty(Diff(local, remote)[a][l])
  {
    forall a, l, s: nat ensures Covers(Diff(local, remote), a, l, s) <==> Has(local, a, l, s) && !Has(remote, a, l, s) {
      if a in local && l in local[a] && (a in remote && l in remote[a] ==> remote[a][l] < local[a][l]) {
        assert l in LogDiff(local[a], Logs(remote, a));
      }
    }
  }

  /** The ranges of the logs in `done` have been found. */
  ghost function LogDiffOn<L>(local: map<L, nat>, remote: map<L, nat>, done: set<L>): (r: map<L, Range>)
  {
    map l | l in local && l in done && (l in remote ==> remote[l] < local[l]) ::
      Range(if l in remote then Some(remote[l]) else None, Some(local[l]))
  }

  lemma LogDiffNext<L>(local: map<L, nat>, remote: map<L, nat>, done: set<L>, l: L)
    requires l in local && l !in done
    ensures LogDiffOn(local, remote, done + {l}) ==
            if l in remote && local[l] <= remote[l] then LogDiffOn(local, remote, done)
            else LogDiffOn(local, remote, done)[l := Range(if l in remote then Some(remote[l]) else None, Some(local[l]))]
  {
  }

  /** An author is entered with its first range. */
  ghost function Entered<A, L>(needs: Ranges<A, L>, author: A, found: map<L, Range>): (r: Ranges<A, L>)
  {
    if found == map[] then needs else needs[author := found]
  }

  lemma EnteredNext<A, L>(needs: Ranges<A, L>, author: A, found: map<L, Range>, l: L, range: Range)
    requires author !in needs
    ensures var r := Entered(needs, author, found);
      Entered(needs, author, found[l := range]) == r[author := (if author in r then r[author] else map[])[l := range]]
  {
    assert l in found[l := range];
  }

  method CompareLogs<A(==), L(==)>(needs: Ranges<A, L>, author: A, local: map<L, nat>, remote: map<L, nat>)
    returns (r: Ranges<A, L>)
    requires author !in needs
    ensures r == Entered(needs, author, LogDiff(local, remote))
  {
    r := needs;
    var todo := local.Keys;
    ghost var done: set<L> := {};
    while todo != {}
      invariant todo + done == local.Keys && todo !! done
      invariant r == Entered(needs, author, LogDiffOn(local, remote, done))
      decreases todo
    {
      var l :| l in todo;
      todo := todo - {l};
      LogDiffNext(local, remote, done, l);
      ghost var found := LogDiffOn(local, remote, done);
      done := done + {l};
      if l !in remote {
        EnteredNext(needs, author, found, l, Range(None, Some(local[l])));
        r := r[author := (if author in r then r[author] else map[])[l := Range(None, Some(local[l]))]];
      } else if remote[l] < local[l] {
        EnteredNext(needs, author, found, l, Range(Some(remote[l]), Some(local[l])));
        r := r[author := (if author in r then r[author] else map[])[l := Range(Some(remote[l]), Some(local[l]))]];
      }
    }
    assert LogDiffOn(local, remote, done) == LogDiff(local, remote);
  }

  ghost function DiffOn<A, L>(local: Heights<A, L>, remote: Heights<A, L>, done: set<A>): (r: Ranges<A, L>)
  {
    map a | a in local && a in done && (a in remote ==> LogDiff(local[a], remote[a]) != map[]) ::
      LogDiff(local[a], Logs(remote, a))
  }

  lemma DiffNext<A, L>(local: Heights<A, L>, remote: Heights<A, L>, done: set<A>, a: A)
    requires a in local && a !in done
    ensures DiffOn(local, remote, done + {a}) ==
            if a in remote then Entered(DiffOn(local, remote, done), a, LogDiff(local[a], remote[a]))
            else DiffOn(local, remote, done)[a := LogDiff(local[a], map[])]
  {
  }

  lemma UnknownAuthor<L>(local: map<L, nat>)
    ensures LogDiff(local, map[]) == map l | l in local :: Range(None, Some(local[l]))
  {
  }

  lemma SameLogs<L>(local: map<L, nat>)
    ensures LogDiff(local, local) == map[]
  {
  }

  method Compare<A(==), L(==)>(local: Heights<A, L>, remote: Heights<A, L>) returns (needs: Ranges<A, L>)
    ensures needs == Diff(local, remote)
  {
    needs := map[];
    var todo := local.Keys;
    ghost var done: set<A> := {};
    while todo != {}
      invariant todo + done == local.Keys && todo !! done
      invariant needs == DiffOn(local, remote, done)
      decreases todo
    {
      var a :| a in todo;
      todo := todo - {a};
      DiffNext(local, remote, done, a);
      done := done + {a};
      if a !in remote {
        UnknownAuthor(local[a]);
        needs := needs[a := map l | l in local[a] :: Range(None, Some(local[a][l]))];
        continue;
      }
      if local[a] == remote[a] {
        SameLogs(local[a]);
        continue;
      }
      needs := CompareLogs(needs, a, local[a], remote[a]);
    }
    assert DiffOn(local, remote, done) == Diff(local, remote);
  }
}
