/**
 * Sync sessions: nodes announce their log heights, answer announcements with a stream
 * of the entries the other side misses, and ingest what they receive.
 */
module Sync {
  import opened Basics
  import opened Logs
  import opened Sequences

  /** An entry is identified by author, log and sequence number: a log has one writer. */
  datatype Entry<A, L> = Entry(author: A, log: L, seqNum: nat)

  type Store<A(==), L(==)> = set<Entry<A, L>>

  /** The logs of interest per author. */
  type Listed<A, L> = map<A, seq<L>>

  datatype FlatRange<A, L> = FlatRange(author: A, log: L, range: Range)

  // ---------------------------------------------------------------------
  // Stores and their heights
  // ---------------------------------------------------------------------

  ghost predicate GapFree<A(!new), L(!new)>(store: Store<A, L>)
  {
    forall a, l, s: nat, t: nat :: Entry(a, l, s) in store && t <= s ==> Entry(a, l, t) in store
  }

  /** `h` lists the highest entry of every log in the store. */
  ghost predicate IsHeights<A(!new), L(!new)>(h: Heights<A, L>, store: Store<A, L>)
  {
    && (forall a, l :: a in h && l in h[a] ==> Entry(a, l, h[a][l]) in store)
    && (forall e :: e in store ==> e.author in h && e.log in h[e.author] && e.seqNum <= h[e.author][e.log])
    && (forall a :: a in h ==> h[a] != map[])
  }

  /** In a gap-free store the heights denote exactly its entries. */
  lemma HeightsDenote<A(!new), L(!new)>(h: Heights<A, L>, store: Store<A, L>)
    requires IsHeights(h, store) && GapFree(store)
    ensures forall a, l, s: nat :: Has(h, a, l, s) <==> Entry(a, l, s) in store
  {
    forall a, l, s: nat ensures Has(h, a, l, s) <==> Entry(a, l, s) in store {
      if Has(h, a, l, s) {
        assert Entry(a, l, h[a][l]) in store;
      }
    }
  }

  predicate Lists<A(==), L(==)>(logs: Listed<A, L>, a: A, l: L)
  {
    a in logs && l in logs[a]
  }

  /** The part of a store which belongs to the listed logs. */
  function Scoped<A(==), L(==)>(store: Store<A, L>, logs: Listed<A, L>): (r: Store<A, L>)
  {
    set e | e in store && Lists(logs, e.author, e.log)
  }

  /** Highest sequence number of each listed log of an author. */
  ghost predicate IsAuthorHeights<A, L(!new)>(m: map<L, nat>, store: Store<A, L>, a: A, logs: seq<L>)
  {
    && (forall l :: l in m ==> l in logs && Entry(a, l, m[l]) in store)
    && (forall e :: e in store && e.author == a && e.log in logs ==> e.log in m && e.seqNum <= m[e.log])
  }

  /** The grouped maximum query over an author's listed logs; no row at all gives `None`. */
  method GetLogHeights<A(==, !new), L(==, !new)>(store: Store<A, L>, a: A, logs: seq<L>)
    returns (r: Option<map<L, nat>>)
    ensures r.Some? ==> r.value != map[] && IsAuthorHeights(r.value, store, a, logs)
    ensures r.None? <==> forall e :: e in store ==> !(e.author == a && e.log in logs)
  {
    var m: map<L, nat> := map[];
    var todo := store;
    while todo != {}
      invariant todo <= store
      invariant IsAuthorHeights(m, store - todo, a, logs)
      decreases todo
    {
      var e :| e in todo;
      if e.author == a && e.log in logs && (e.log !in m || m[e.log] < e.seqNum) {
        m := m[e.log := e.seqNum];
      }
      todo := todo - {e};
      assert e.author == a && e.log in logs ==> e.log in m;
    }
    assert store - todo == store;
    if m == map[] {
      r := None;
    } else {
      r := Some(m);
      var l :| l in m;
      assert Entry(a, l, m[l]) in store;
    }
  }

  /** The heights of some listed author cannot be queried. */
  ghost predicate Fails<A, L>(logs: Listed<A, L>, failing: set<A>)
  {
    exists a :: a in logs && a in failing
  }

  /** Heights of the listed logs; the first failing query ends the whole computation. */
  method LogHeights<A(==, !new), L(==, !new)>(store: Store<A, L>, logs: Listed<A, L>, failing: set<A>)
    returns (r: Option<Heights<A, L>>)
    ensures r.None? <==> Fails(logs, failing)
    ensures r.Some? ==> IsHeights(r.value, Scoped(store, logs))
  {
    var h: Heights<A, L> := map[];
    var todo := logs.Keys;
    while todo != {}
      invariant todo <= logs.Keys
      invariant forall a :: a in logs && a !in todo ==> a !in failing
      invariant IsHeights(h, set e | e in store && e.author in logs && e.author !in todo && e.log in logs[e.author])
      invariant forall a :: a in h ==> a !in todo
      decreases todo
    {
      var a :| a in todo;
      if a in failing {
        return None;
      }
      var m := GetLogHeights(store, a, logs[a]);
      todo := todo - {a};
      if m.Some? {
        h := h[a := m.value];
      }
    }
    r := Some(h);
    assert Scoped(store, logs)
        == set e | e in store && e.author in logs && e.author !in todo && e.log in logs[e.author];
  }

  // ---------------------------------------------------------------------
  // Streams of entries
  // ---------------------------------------------------------------------

  /** The entries of a log from `lo` to `hi` in ascending order. */
  function Slice<A(==), L(==)>(store: Store<A, L>, a: A, l: L, lo: nat, hi: int): (r: seq<Entry<A, L>>)
    requires hi >= -1
    ensures forall e :: e in r ==> e in store && e.author == a && e.log == l && lo <= e.seqNum <= hi
    ensures forall s: nat :: lo <= s <= hi && Entry(a, l, s) in store ==> Entry(a, l, s) in r
    decreases hi + 1
  {
    if hi < lo then []
    else if Entry(a, l, hi) in store then Slice(store, a, l, lo, hi - 1) + [Entry(a, l, hi)]
    else Slice(store, a, l, lo, hi - 1)
  }

  /** A slice is what the query asks for: exactly the stored entries within the bounds, in ascending order. */
  lemma {:induction false} SliceExact<A(!new), L(!new)>(store: Store<A, L>, a: A, l: L, lo: nat, hi: int)
    requires hi >= -1
    ensures var r := Slice(store, a, l, lo, hi);
      && (forall e :: e in r <==> e in store && e.author == a && e.log == l && lo <= e.seqNum <= hi)
      && (forall i, j :: 0 <= i < j < |r| ==> r[i].seqNum < r[j].seqNum)
    decreases hi + 1
  {
    var r := Slice(store, a, l, lo, hi);
    forall e | e in store && e.author == a && e.log == l && lo <= e.seqNum <= hi ensures e in r {
      assert e == Entry(a, l, e.seqNum);
    }
    if hi >= lo {
      SliceExact(store, a, l, lo, hi - 1);
      var before := Slice(store, a, l, lo, hi - 1);
      if Entry(a, l, hi) in store {
        forall i, j | 0 <= i < j < |r| ensures r[i].seqNum < r[j].seqNum {
          assert before[i] in before;
        }
      }
    }
  }

  /** `log_entries`: a missing start includes the first entry, a missing end the last possible one. */
  function LogEntries<A(==), L(==)>(store: Store<A, L>, f: FlatRange<A, L>): (r: seq<Entry<A, L>>)
  {
    Slice(store, f.author, f.log,
          if f.range.after.Some? then f.range.after.value + 1 else 0,
          if f.range.until.Some? then f.range.until.value else 0xFFFF_FFFF)
  }

  /** The entries of a range are all those within its bounds, oldest first; an open end reaches to the last number. */
  lemma LogEntriesExact<A(!new), L(!new)>(store: Store<A, L>, f: FlatRange<A, L>)
    ensures forall e :: e in LogEntries(store, f) <==>
              e in store && Within(f, e) && (f.range.until.Some? || e.seqNum <= 0xFFFF_FFFF)
    ensures forall i, j :: 0 <= i < j < |LogEntries(store, f)| ==>
              LogEntries(store, f)[i].seqNum < LogEntries(store, f)[j].seqNum
  {
    SliceExact(store, f.author, f.log,
               if f.range.after.Some? then f.range.after.value + 1 else 0,
               if f.range.until.Some? then f.range.until.value else 0xFFFF_FFFF);
  }

  function Concat<A(==), L(==)>(store: Store<A, L>, flat: seq<FlatRange<A, L>>): (r: seq<Entry<A, L>>)
  {
    if flat == [] then [] else Concat(store, flat[..|flat| - 1]) + LogEntries(store, flat[|flat| - 1])
  }

  /** `flat` lists every range once, in any order. */
  ghost predicate Enumerates<A(!new), L(!new)>(flat: seq<FlatRange<A, L>>, ranges: Ranges<A, L>)
  {
    && Distinct(flat)
    && forall a, l, r :: FlatRange(a, l, r) in flat <==> a in ranges && l in ranges[a] && ranges[a][l] == r
  }

  /** The predecessor of an entry is in the store or earlier in the stream. */
  ghost predicate Preceded<A, L>(store: Store<A, L>, before: seq<Entry<A, L>>, e: Entry<A, L>)
  {
    e.seqNum > 0 ==>
      var previous := Entry(e.author, e.log, e.seqNum - 1);
      previous in store || previous in before
  }

  /** Every entry comes after its predecessor, which the receiver has or which is earlier in the stream. */
  ghost predicate Deliverable<A, L>(store: Store<A, L>, items: seq<Entry<A, L>>)
  {
    forall i :: 0 <= i < |items| ==> Preceded(store, items[..i], items[i])
  }

  lemma DeliverableConcat<A, L>(store: Store<A, L>, a: seq<Entry<A, L>>, b: seq<Entry<A, L>>)
    requires Deliverable(store, a) && Deliverable(store, b)
    ensures Deliverable(store, a + b)
  {
    forall i | 0 <= i < |a + b| ensures Preceded(store, (a + b)[..i], (a + b)[i]) {
      if i < |a| {
        assert (a + b)[..i] == a[..i];
        assert Preceded(store, a[..i], a[i]);
      } else {
        assert (a + b)[..i] == a + b[..i - |a|];
        assert Preceded(store, b[..i - |a|], b[i - |a|]);
      }
    }
  }

  lemma DeliverablePrefix<A, L>(store: Store<A, L>, items: seq<Entry<A, L>>, k: nat)
    requires Deliverable(store, items) && k <= |items|
    ensures Deliverable(store, items[..k])
  {
    forall i | 0 <= i < k ensures Preceded(store, items[..k][..i], items[..k][i]) {
      assert items[..k][..i] == items[..i];
      assert Preceded(store, items[..i], items[i]);
    }
  }

  lemma DeliverableAppend<A, L>(store: Store<A, L>, items: seq<Entry<A, L>>, e: Entry<A, L>)
    requires Deliverable(store, items) && Preceded(store, items, e)
    ensures Deliverable(store, items + [e])
  {
    var all := items + [e];
    forall i | 0 <= i < |all| ensures Preceded(store, all[..i], all[i]) {
      assert all[..i] == items[..i];
      if i < |items| {
        assert Preceded(store, items[..i], items[i]);
      } else {
        assert items[..i] == items;
      }
    }
  }

  /** A slice of a gap-free log can be delivered to whoever has the entry before it. */
  lemma {:induction false} SliceDeliverable<A(!new), L(!new)>(
    sender: Store<A, L>, receiver: Store<A, L>, a: A, l: L, lo: nat, hi: int)
    requires GapFree(sender) && hi >= -1 && (lo > 0 ==> Entry(a, l, lo - 1) in receiver)
    ensures Deliverable(receiver, Slice(sender, a, l, lo, hi))
    decreases hi + 1
  {
    if hi >= lo {
      SliceDeliverable(sender, receiver, a, l, lo, hi - 1);
      if Entry(a, l, hi) in sender {
        assert hi > 0 ==> Entry(a, l, hi - 1) in sender;
        DeliverableAppend(receiver, Slice(sender, a, l, lo, hi - 1), Entry(a, l, hi));
      }
    }
  }

  ghost predicate Within<A, L>(f: FlatRange<A, L>, e: Entry<A, L>)
  {
    f.author == e.author && f.log == e.log && InRange(f.range, e.seqNum)
  }

  lemma {:induction false} ConcatMembers<A, L>(store: Store<A, L>, flat: seq<FlatRange<A, L>>, e: Entry<A, L>)
    requires forall f :: f in flat ==> f.range.until.Some?
    ensures e in Concat(store, flat) <==> e in store && exists f :: f in flat && Within(f, e)
  {
    if flat != [] {
      SplitLast(flat);
      var init, last := flat[..|flat| - 1], flat[|flat| - 1];
      ConcatMembers(store, init, e);
      assert e in LogEntries(store, last) <==> e in store && Within(last, e);
      assert forall f :: f in flat <==> f in init || f == last;
    }
  }

  /** The answer to an announcement: all listed entries of the sender which were not announced. */
  lemma AnswerExact<A(!new), L(!new)>(
    sender: Store<A, L>, logs: Listed<A, L>, h: Heights<A, L>, theirs: Heights<A, L>, flat: seq<FlatRange<A, L>>)
    requires GapFree(sender) && IsHeights(h, Scoped(sender, logs)) && Enumerates(flat, Diff(h, theirs))
    ensures forall e :: e in Concat(sender, flat)
                   <==> e in Scoped(sender, logs) && !Has(theirs, e.author, e.log, e.seqNum)
  {
    DiffExact(h, theirs);
    HeightsDenote(h, Scoped(sender, logs));
    forall e
      ensures e in Concat(sender, flat) <==> e in Scoped(sender, logs) && !Has(theirs, e.author, e.log, e.seqNum)
    {
      UntilGiven(h, theirs, flat);
      ConcatMembers(sender, flat, e);
      EnumeratedWithin(flat, Diff(h, theirs), e);
      assert e == Entry(e.author, e.log, e.seqNum);
    }
  }

  lemma UntilGiven<A(!new), L(!new)>(h: Heights<A, L>, theirs: Heights<A, L>, flat: seq<FlatRange<A, L>>)
    requires Enumerates(flat, Diff(h, theirs))
    ensures forall f :: f in flat ==> f.range.until.Some?
    ensures forall f :: f in flat && f.range.after.Some? ==> Has(theirs, f.author, f.log, f.range.after.value)
  {
    forall f | f in flat
      ensures f.range.until.Some?
      ensures f.range.after.Some? ==> Has(theirs, f.author, f.log, f.range.after.value)
    {
      assert FlatRange(f.author, f.log, f.range) in flat;
    }
  }

  lemma EnumeratedWithin<A(!new), L(!new)>(flat: seq<FlatRange<A, L>>, ranges: Ranges<A, L>, e: Entry<A, L>)
    requires Enumerates(flat, ranges)
    ensures (exists f :: f in flat && Within(f, e)) <==> Covers(ranges, e.author, e.log, e.seqNum)
  {
    if Covers(ranges, e.author, e.log, e.seqNum) {
      assert Within(FlatRange(e.author, e.log, ranges[e.author][e.log]), e);
    }
    if f :| f in flat && Within(f, e) {
      assert FlatRange(f.author, f.log, f.range) in flat;
    }
  }

  lemma {:induction false} ConcatDeliverable<A(!new), L(!new)>(
    sender: Store<A, L>, receiver: Store<A, L>, flat: seq<FlatRange<A, L>>)
    requires GapFree(sender)
    requires forall f :: f in flat && f.range.after.Some? ==> Entry(f.author, f.log, f.range.after.value) in receiver
    ensures Deliverable(receiver, Concat(sender, flat))
  {
    if flat != [] {
      var init, last := flat[..|flat| - 1], flat[|flat| - 1];
      ConcatDeliverable(sender, receiver, init);
      SliceDeliverable(sender, receiver, last.author, last.log,
                       if last.range.after.Some? then last.range.after.value + 1 else 0,
                       if last.range.until.Some? then last.range.until.value else 0xFFFF_FFFF);
      DeliverableConcat(receiver, Concat(sender, init), LogEntries(sender, last));
    }
  }

  /** Whoever still has what was announced can ingest every entry of the answer, or of a prefix of it. */
  lemma AnswerDeliverable<A(!new), L(!new)>(
    sender: Store<A, L>, receiver: Store<A, L>, h: Heights<A, L>, theirs: Heights<A, L>,
    flat: seq<FlatRange<A, L>>, k: nat)
    requires GapFree(sender) && Enumerates(flat, Diff(h, theirs)) && k <= |Concat(sender, flat)|
    requires forall a, l, s: nat :: Has(theirs, a, l, s) ==> Entry(a, l, s) in receiver
    ensures Deliverable(receiver, Concat(sender, flat)[..k])
  {
    UntilGiven(h, theirs, flat);
    ConcatDeliverable(sender, receiver, flat);
    DeliverablePrefix(receiver, Concat(sender, flat), k);
  }

  // ---------------------------------------------------------------------
  // The stream of a set of ranges
  // ---------------------------------------------------------------------

  datatype Item<A, L> = Good(entry: Entry<A, L>) | Failed

  function Goods<A, L>(es: seq<Entry<A, L>>): (r: seq<Item<A, L>>)
    ensures |r| == |es| && forall i :: 0 <= i < |es| ==> r[i] == Good(es[i])
  {
    seq(|es|, i requires 0 <= i < |es| => Good(es[i]))
  }

  lemma GoodsConcat<A, L>(a: seq<Entry<A, L>>, b: seq<Entry<A, L>>)
    ensures Goods(a + b) == Goods(a) + Goods(b)
  {
  }

  /** The pushed ranges are the ones of the authors in `authors`. */
  ghost predicate Pushed<A(!new), L(!new)>(flat: seq<FlatRange<A, L>>, ranges: Ranges<A, L>, authors: set<A>)
  {
    && Distinct(flat)
    && forall a, l, r :: FlatRange(a, l, r) in flat
                    <==> a in authors && a in ranges && l in ranges[a] && ranges[a][l] == r
  }

  method Flatten<A(==, !new), L(==, !new)>(ranges: Ranges<A, L>) returns (flat: seq<FlatRange<A, L>>)
    ensures Enumerates(flat, ranges)
  {
    flat := [];
    var authors := ranges.Keys;
    while authors != {}
      invariant authors <= ranges.Keys
      invariant Pushed(flat, ranges, ranges.Keys - authors)
      decreases authors
    {
      var a :| a in authors;
      flat := FlattenAuthor(ranges, a, ranges.Keys - authors, flat);
      assert ranges.Keys - authors + {a} == ranges.Keys - (authors - {a});
      authors := authors - {a};
    }
  }

  method FlattenAuthor<A(==, !new), L(==, !new)>(
    ranges: Ranges<A, L>, a: A, ghost done: set<A>, pushed: seq<FlatRange<A, L>>) returns (flat: seq<FlatRange<A, L>>)
    requires a in ranges && a !in done && Pushed(pushed, ranges, done)
    ensures Pushed(flat, ranges, done + {a})
  {
    flat := pushed;
    var logs := ranges[a].Keys;
    while logs != {}
      invariant logs <= ranges[a].Keys
      invariant Distinct(flat)
      invariant forall b, l, r ::
        FlatRange(b, l, r) in flat <==> b in ranges && l in ranges[b] && ranges[b][l] == r &&
                                        (b in done || (b == a && l !in logs))
      decreases logs
    {
      var l :| l in logs;
      logs := logs - {l};
      flat := flat + [FlatRange(a, l, ranges[a][l])];
    }
  }

  /**
   * The stream of one range. A query which cannot be started is a stream of one error,
   * one which breaks later ends with an error.
   */
  function Answered<A(==), L(==)>(store: Store<A, L>, f: FlatRange<A, L>, failsAt: map<FlatRange<A, L>, nat>)
    : (r: seq<Item<A, L>>)
  {
    var es := LogEntries(store, f);
    if f in failsAt && failsAt[f] <= |es| then Goods(es[..failsAt[f]]) + [Failed] else Goods(es)
  }

  /** All inner streams in one. */
  function FlatMap<A(==), L(==)>(store: Store<A, L>, flat: seq<FlatRange<A, L>>, failsAt: map<FlatRange<A, L>, nat>)
    : (r: seq<Item<A, L>>)
  {
    if flat == [] then []
    else FlatMap(store, flat[..|flat| - 1], failsAt) + Answered(store, flat[|flat| - 1], failsAt)
  }

  /** Items up to and including the first error. */
  function Scan<A, L>(items: seq<Item<A, L>>, errorOccurred: bool): (r: seq<Item<A, L>>)
  {
    if items == [] || errorOccurred then []
    else [items[0]] + Scan(items[1..], items[0].Failed?)
  }

  lemma ScanFirst<A, L>(items: seq<Item<A, L>>)
    requires items != []
    ensures Scan(items, false) == [items[0]] + (if items[0].Failed? then [] else Scan(items[1..], false))
  {
  }

  /** Nothing is cut off before the first error. */
  lemma {:induction false} ScanGood<A, L>(a: seq<Item<A, L>>, b: seq<Item<A, L>>)
    requires forall i :: 0 <= i < |a| ==> a[i].Good?
    ensures Scan(a + b, false) == a + Scan(b, false)
  {
    if a == [] {
      assert a + b == b;
    } else {
      assert (a + b)[1..] == a[1..] + b;
      ScanFirst(a + b);
      ScanGood(a[1..], b);
      assert [a[0]] + (a[1..] + Scan(b, false)) == a + Scan(b, false);
    }
  }

  /** Everything after an error is cut off. */
  lemma {:induction false} ScanFailed<A, L>(a: seq<Item<A, L>>, b: seq<Item<A, L>>, k: nat)
    requires k < |a| && a[k].Failed?
    ensures Scan(a + b, false) == Scan(a, false)
  {
    assert (a + b)[1..] == a[1..] + b;
    ScanFirst(a + b);
    ScanFirst(a);
    if a[0].Good? {
      ScanFailed(a[1..], b, k - 1);
    }
  }

  lemma ScanConcat<A, L>(a: seq<Item<A, L>>, b: seq<Item<A, L>>)
    ensures Scan(a + b, false) == if Failed in a then Scan(a, false) else a + Scan(b, false)
  {
    if k: nat :| k < |a| && a[k].Failed? {
      assert a[k] == Failed;
      ScanFailed(a, b, k);
    } else {
      ScanGood(a, b);
    }
  }

  /** The items are a prefix of `all`, complete exactly if there is no error, which otherwise comes last. */
  ghost predicate CutOff<A(!new), L(!new)>(items: seq<Item<A, L>>, all: seq<Entry<A, L>>)
  {
    if Failed in items then exists k: nat :: k <= |all| && items == Goods(all[..k]) + [Failed]
    else items == Goods(all)
  }

  lemma AnsweredCutOff<A(!new), L(!new)>(
    store: Store<A, L>, f: FlatRange<A, L>, failsAt: map<FlatRange<A, L>, nat>)
    ensures CutOff(Answered(store, f, failsAt), LogEntries(store, f))
    ensures Scan(Answered(store, f, failsAt), false) == Answered(store, f, failsAt)
  {
    var es := LogEntries(store, f);
    if f in failsAt && failsAt[f] <= |es| {
      var good, error: seq<Item<A, L>> := Goods(es[..failsAt[f]]), [Failed];
      assert Answered(store, f, failsAt) == good + error;
      ScanConcat(good, error);
      assert (good + error)[|good|] == Failed;
    } else {
      ScanConcat(Goods(es), []);
      assert Goods(es) + [] == Goods(es);
    }
  }

  lemma CutOffExtend<A(!new), L(!new)>(items: seq<Item<A, L>>, all: seq<Entry<A, L>>, more: seq<Entry<A, L>>)
    requires CutOff(items, all) && Failed in items
    ensures CutOff(items, all + more)
  {
    var k: nat :| k <= |all| && items == Goods(all[..k]) + [Failed];
    assert (all + more)[..k] == all[..k];
  }

  lemma CutOffAppend<A(!new), L(!new)>(all: seq<Entry<A, L>>, items: seq<Item<A, L>>, more: seq<Entry<A, L>>)
    requires CutOff(items, more)
    ensures CutOff(Goods(all) + items, all + more)
  {
    if Failed in items {
      var k: nat :| k <= |more| && items == Goods(more[..k]) + [Failed];
      assert (all + more)[..|all| + k] == all + more[..k];
      GoodsConcat(all, more[..k]);
      assert Goods(all) + items == Goods((all + more)[..|all| + k]) + [Failed];
    } else {
      GoodsConcat(all, more);
    }
  }

  /** The stream of ranges is all their entries, or a prefix followed by the error of the first range which broke. */
  lemma {:induction false} StreamCutOff<A(!new), L(!new)>(
    store: Store<A, L>, flat: seq<FlatRange<A, L>>, failsAt: map<FlatRange<A, L>, nat>)
    ensures CutOff(Scan(FlatMap(store, flat, failsAt), false), Concat(store, flat))
    ensures Failed !in FlatMap(store, flat, failsAt) ==> FlatMap(store, flat, failsAt) == Goods(Concat(store, flat))
    ensures Failed in Scan(FlatMap(store, flat, failsAt), false) <==> Failed in FlatMap(store, flat, failsAt)
  {
    if flat != [] {
      var init, last := flat[..|flat| - 1], flat[|flat| - 1];
      StreamCutOff(store, init, failsAt);
      AnsweredCutOff(store, last, failsAt);
      ScanConcat(FlatMap(store, init, failsAt), Answered(store, last, failsAt));
      if Failed in FlatMap(store, init, failsAt) {
        CutOffExtend(Scan(FlatMap(store, init, failsAt), false), Concat(store, init), LogEntries(store, last));
      } else {
        CutOffAppend(Concat(store, init), Answered(store, last, failsAt), LogEntries(store, last));
      }
    }
  }

  ghost predicate Breaks<A, L>(store: Store<A, L>, f: FlatRange<A, L>, failsAt: map<FlatRange<A, L>, nat>)
  {
    f in failsAt && failsAt[f] <= |LogEntries(store, f)|
  }

  lemma {:induction false} FailedIffBroken<A(!new), L(!new)>(
    store: Store<A, L>, flat: seq<FlatRange<A, L>>, failsAt: map<FlatRange<A, L>, nat>)
    ensures Failed in FlatMap(store, flat, failsAt) <==> exists f :: f in flat && Breaks(store, f, failsAt)
  {
    if flat != [] {
      SplitLast(flat);
      var init, last := flat[..|flat| - 1], flat[|flat| - 1];
      FailedIffBroken(store, init, failsAt);
      assert Failed in Answered(store, last, failsAt) <==> Breaks(store, last, failsAt) by {
        if Breaks(store, last, failsAt) {
          assert Answered(store, last, failsAt)[failsAt[last]] == Failed;
        }
      }
      assert forall f :: f in flat <==> f in init || f == last;
    }
  }

  /** What arrives of the ranges up to `i`, whose query breaks. */
  ghost function UpTo<A, L>(
    store: Store<A, L>, flat: seq<FlatRange<A, L>>, failsAt: map<FlatRange<A, L>, nat>, i: nat): (r: seq<Entry<A, L>>)
    requires i < |flat| && Breaks(store, flat[i], failsAt)
  {
    Concat(store, flat[..i]) + LogEntries(store, flat[i])[..failsAt[flat[i]]]
  }

  lemma BreaksLast<A(!new), L(!new)>(
    store: Store<A, L>, flat: seq<FlatRange<A, L>>, failsAt: map<FlatRange<A, L>, nat>)
    requires flat != [] && Breaks(store, flat[|flat| - 1], failsAt)
    requires Failed !in FlatMap(store, flat[..|flat| - 1], failsAt)
    ensures Scan(FlatMap(store, flat, failsAt), false) == Goods(UpTo(store, flat, failsAt, |flat| - 1)) + [Failed]
  {
    var init, last := flat[..|flat| - 1], flat[|flat| - 1];
    var before, good := Concat(store, init), LogEntries(store, last)[..failsAt[last]];
    StreamCutOff(store, init, failsAt);
    AnsweredCutOff(store, last, failsAt);
    ScanConcat(FlatMap(store, init, failsAt), Answered(store, last, failsAt));
    GoodsConcat(before, good);
    assert Goods(before) + (Goods(good) + [Failed]) == Goods(before + good) + [Failed];
  }

  /** Before the error come all entries of the ranges before the first broken one, and those it got to itself. */
  lemma {:induction false} BreaksFirst<A(!new), L(!new)>(
    store: Store<A, L>, flat: seq<FlatRange<A, L>>, failsAt: map<FlatRange<A, L>, nat>, i: nat)
    requires i < |flat| && Breaks(store, flat[i], failsAt)
    requires forall f :: f in flat[..i] ==> !Breaks(store, f, failsAt)
    ensures Scan(FlatMap(store, flat, failsAt), false) == Goods(UpTo(store, flat, failsAt, i)) + [Failed]
    decreases |flat|
  {
    var n := |flat| - 1;
    var init := flat[..n];
    FailedIffBroken(store, init, failsAt);
    if i == n {
      BreaksLast(store, flat, failsAt);
    } else {
      assert init[i] == flat[i] && init[..i] == flat[..i];
      BreaksFirst(store, init, failsAt, i);
      ScanConcat(FlatMap(store, init, failsAt), Answered(store, flat[n], failsAt));
    }
  }

  /** `log_ranges`: nothing after the first error, everything if no query breaks. */
  method LogRanges<A(==, !new), L(==, !new)>(
    store: Store<A, L>, ranges: Ranges<A, L>, failsAt: map<FlatRange<A, L>, nat>)
    returns (items: seq<Item<A, L>>, flat: seq<FlatRange<A, L>>)
    ensures Enumerates(flat, ranges) && CutOff(items, Concat(store, flat))
    ensures Failed in items <==> exists f :: f in flat && Breaks(store, f, failsAt)
  {
    flat := Flatten(ranges);
    items := Scan(FlatMap(store, flat, failsAt), false);
    StreamCutOff(store, flat, failsAt);
    FailedIffBroken(store, flat, failsAt);
  }

  // ---------------------------------------------------------------------
  // Ingesting and two-way sessions
  // ---------------------------------------------------------------------

  /** The entry extends its log: it is the first one or follows the latest. */
  predicate Extends<A(==), L(==)>(store: Store<A, L>, e: Entry<A, L>)
  {
    if e.seqNum == 0 then forall x :: x in store ==> !(x.author == e.author && x.log == e.log)
    else Entry(e.author, e.log, e.seqNum - 1) in store &&
         forall x :: x in store && x.author == e.author && x.log == e.log ==> x.seqNum < e.seqNum
  }

  datatype Ingested<A(==), L(==)> = Accepted(store: Store<A, L>) | Rejected

  /** Duplicates are ignored, entries which extend their log are inserted, all others rejected. */
  function Ingest<A(==), L(==)>(store: Store<A, L>, e: Entry<A, L>): (r: Ingested<A, L>)
  {
    if e in store then Accepted(store)
    else if Extends(store, e) then Accepted(store + {e})
    else Rejected
  }

  /** Whatever is ingested, a gap-free store stays gap-free; it rejects exactly what would leave a gap. */
  lemma IngestGapFree<A(!new), L(!new)>(store: Store<A, L>, e: Entry<A, L>)
    requires GapFree(store)
    ensures Ingest(store, e).Accepted? <==> GapFree(store + {e})
    ensures Ingest(store, e).Accepted? ==> Ingest(store, e).store == store + {e}
  {
    if e in store {
      assert store + {e} == store;
    } else if Ingest(store, e).Accepted? {
      forall a, l, s: nat, t: nat | Entry(a, l, s) in store + {e} && t <= s ensures Entry(a, l, t) in store + {e} {
        if Entry(a, l, s) == e && t < s {
          assert Entry(a, l, s - 1) in store;
        }
      }
    } else if GapFree(store + {e}) {
      if e.seqNum > 0 {
        assert Entry(e.author, e.log, e.seqNum) in store + {e};
        assert Entry(e.author, e.log, e.seqNum - 1) in store + {e};
      }
      forall x | x in store && x.author == e.author && x.log == e.log ensures x.seqNum < e.seqNum {
        assert x == Entry(e.author, e.log, x.seqNum);
        assert x.seqNum >= e.seqNum ==> Entry(e.author, e.log, e.seqNum) in store;
      }
    }
  }

  lemma DeliverableStep<A(!new), L(!new)>(store: Store<A, L>, items: seq<Entry<A, L>>)
    requires items != [] && Deliverable(store, items)
    ensures Deliverable(store + {items[0]}, items[1..])
  {
    var rest := items[1..];
    forall i | 0 <= i < |rest| ensures Preceded(store + {items[0]}, rest[..i], rest[i]) {
      assert items[..i + 1] == [items[0]] + rest[..i];
      assert Preceded(store, items[..i + 1], items[i + 1]);
    }
  }

  lemma DeliverableMore<A, L>(store: Store<A, L>, bigger: Store<A, L>, items: seq<Entry<A, L>>)
    requires Deliverable(store, items) && store <= bigger
    ensures Deliverable(bigger, items)
  {
    forall i | 0 <= i < |items| ensures Preceded(bigger, items[..i], items[i]) {
      assert Preceded(store, items[..i], items[i]);
    }
  }

  /** The first entry of a deliverable stream is accepted. */
  lemma FirstAccepted<A(!new), L(!new)>(store: Store<A, L>, items: seq<Entry<A, L>>)
    requires GapFree(store) && items != [] && Deliverable(store, items)
    ensures Ingest(store, items[0]) == Accepted(store + {items[0]})
    ensures GapFree(store + {items[0]})
  {
    var e := items[0];
    assert items[..0] == [];
    assert Preceded(store, items[..0], e);
    forall a, l, s: nat, t: nat | Entry(a, l, s) in store + {e} && t <= s ensures Entry(a, l, t) in store + {e} {
      if Entry(a, l, s) == e && t < s {
        assert Entry(a, l, s - 1) in store;
      }
    }
    IngestGapFree(store, e);
  }

  /** The heights tell only of entries in the store. */
  ghost predicate Announced<A(!new), L(!new)>(h: Heights<A, L>, store: Store<A, L>)
  {
    forall a, l, s: nat :: Has(h, a, l, s) ==> Entry(a, l, s) in store
  }

  lemma ScopedGapFree<A(!new), L(!new)>(store: Store<A, L>, logs: Listed<A, L>)
    requires GapFree(store)
    ensures GapFree(Scoped(store, logs))
  {
  }

  lemma HeightsAnnounced<A(!new), L(!new)>(h: Heights<A, L>, store: Store<A, L>, logs: Listed<A, L>)
    requires GapFree(store) && IsHeights(h, Scoped(store, logs))
    ensures Announced(h, store)
  {
    ScopedGapFree(store, logs);
    HeightsDenote(h, Scoped(store, logs));
  }

  /** Items which carry the entries `sent` and possibly an error after them. */
  ghost predicate Carries<A, L>(items: seq<Item<A, L>>, sent: seq<Entry<A, L>>)
  {
    items == Goods(sent) || items == Goods(sent) + [Failed]
  }

  ghost predicate IsTop<A, L>(store: Store<A, L>, a: A, l: L, s: nat)
  {
    Entry(a, l, s) in store && forall e :: e in store && e.author == a && e.log == l ==> e.seqNum <= s
  }

  /** The range from what was announced of a log, if anything, to the top of what is offered. */
  ghost predicate Asked<A, L>(offered: Store<A, L>, theirs: Heights<A, L>, f: FlatRange<A, L>)
  {
    && f.range.until.Some? && IsTop(offered, f.author, f.log, f.range.until.value)
    && f.range.after == (if f.author in theirs && f.log in theirs[f.author] then Some(theirs[f.author][f.log]) else None)
    && (f.range.after.Some? ==> f.range.after.value < f.range.until.value)
  }

  lemma TopIsHeight<A(!new), L(!new)>(h: Heights<A, L>, store: Store<A, L>, a: A, l: L, s: nat)
    requires IsHeights(h, store)
    ensures IsTop(store, a, l, s) <==> a in h && l in h[a] && s == h[a][l]
  {
    if a in h && l in h[a] {
      assert Entry(a, l, h[a][l]) in store;
    }
  }

  lemma DiffAt<A, L>(ours: Heights<A, L>, theirs: Heights<A, L>, a: A, l: L, r: Range)
    ensures a in Diff(ours, theirs) && l in Diff(ours, theirs)[a] && Diff(ours, theirs)[a][l] == r
       <==> && a in ours && l in ours[a] && r.until == Some(ours[a][l])
            && r.after == (if a in theirs && l in theirs[a] then Some(theirs[a][l]) else None)
            && (r.after.Some? ==> r.after.value < r.until.value)
  {
    if a in ours && l in ours[a] && (a in theirs && l in theirs[a] ==> theirs[a][l] < ours[a][l]) {
      assert l in LogDiff(ours[a], Logs.Logs(theirs, a));
    }
  }

  lemma EnumeratesAsked<A(!new), L(!new)>(
    offered: Store<A, L>, ours: Heights<A, L>, theirs: Heights<A, L>, flat: seq<FlatRange<A, L>>)
    requires IsHeights(ours, offered) && Enumerates(flat, Diff(ours, theirs))
    ensures forall f :: f in flat <==> Asked(offered, theirs, f)
  {
    forall f ensures f in flat <==> Asked(offered, theirs, f) {
      assert f == FlatRange(f.author, f.log, f.range);
      DiffAt(ours, theirs, f.author, f.log, f.range);
      if f.range.until.Some? {
        TopIsHeight(ours, offered, f.author, f.log, f.range.until.value);
      }
    }
  }

  /** Answer an announcement with a stream of what its author misses. */
  method ProcessAnnouncement<A(==, !new), L(==, !new)>(
    sender: Store<A, L>, logs: Listed<A, L>, theirs: Heights<A, L>,
    failing: set<A>, failsAt: map<FlatRange<A, L>, nat>, ghost receiver: Store<A, L>)
    returns (r: Option<seq<Item<A, L>>>, ghost sent: seq<Entry<A, L>>)
    requires GapFree(sender) && Announced(theirs, receiver)
    ensures r.None? <==> Fails(logs, failing)
    ensures r.Some? ==> Carries(r.value, sent) && Deliverable(receiver, sent) && Elements(sent) <= Scoped(sender, logs)
    ensures r.Some? && Failed !in r.value ==> receiver + Elements(sent) == receiver + Scoped(sender, logs)
    ensures r.Some? ==> (Failed in r.value <==>
              exists f :: Asked(Scoped(sender, logs), theirs, f) && Breaks(sender, f, failsAt))
  {
    var ours := LogHeights(sender, logs, failing);
    if ours.None? {
      sent := [];
      return None, sent;
    }
    var ranges := Compare(ours.value, theirs);
    var items, flat := LogRanges(sender, ranges, failsAt);
    ghost var all := Concat(sender, flat);
    ghost var k := if Failed in items then var k: nat :| k <= |all| && items == Goods(all[..k]) + [Failed]; k else |all|;
    sent := all[..k];
    AnswerDeliverable(sender, receiver, ours.value, theirs, flat, k);
    AnswerExact(sender, logs, ours.value, theirs, flat);
    EnumeratesAsked(Scoped(sender, logs), ours.value, theirs, flat);
    assert k == |all| ==> sent == all;
    assert forall e: Entry<A, L> :: e == Entry(e.author, e.log, e.seqNum);
    r := Some(items);
  }

  /** A node's entries and the logs it associates with the topic. */
  datatype Node<A(==), L(==)> = Node(store: Store<A, L>, logs: Listed<A, L>)

  function Associate<A(==, !new), L(==, !new)>(logs: Listed<A, L>, a: A, l: L): (r: Listed<A, L>)
    ensures forall b, m :: Lists(r, b, m) <==> Lists(logs, b, m) || (b == a && m == l)
    ensures Lists(logs, a, l) ==> r == logs
  {
    if Lists(logs, a, l) then logs else logs[a := (if a in logs then logs[a] else []) + [l]]
  }

  /** What the node offers under the topic. */
  function Topic<A(==), L(==)>(node: Node<A, L>): (r: Store<A, L>)
  {
    Scoped(node.store, node.logs)
  }

  ghost predicate Inserts<A(!new), L(!new)>(store: Store<A, L>, sent: set<Entry<A, L>>, a: A, l: L)
  {
    exists e :: e in sent && e !in store && e.author == a && e.log == l
  }

  /** `sent` is ingested; only logs with a new entry are associated. */
  ghost predicate Updated<A(!new), L(!new)>(node: Node<A, L>, sent: set<Entry<A, L>>, r: Node<A, L>)
  {
    && r.store == node.store + sent
    && forall a, l :: Lists(r.logs, a, l) <==> Lists(node.logs, a, l) || Inserts(node.store, sent, a, l)
  }

  /** Ingest a stream until it ends or an error is met. */
  method Receive<A(==, !new), L(==, !new)>(node: Node<A, L>, items: seq<Item<A, L>>, ghost sent: seq<Entry<A, L>>)
    returns (r: Node<A, L>, ok: bool)
    requires GapFree(node.store) && Carries(items, sent) && Deliverable(node.store, sent)
    ensures Updated(node, Elements(sent), r) && GapFree(r.store)
    ensures ok <==> Failed !in items
  {
    r := node;
    ok := true;
    for i := 0 to |items|
      invariant i <= |sent| && Updated(node, Elements(sent[..i]), r) && GapFree(r.store)
      invariant Deliverable(r.store, sent[i..])
    {
      if items[i].Failed? {
        assert i == |sent|;
        assert sent[..i] == sent;
        return r, false;
      }
      FirstAccepted(r.store, sent[i..]);
      DeliverableStep(r.store, sent[i..]);
      TakeNext(sent, i);
      assert sent[i..][1..] == sent[i + 1..];
      var e := items[i].entry;
      var ingested := Ingest(r.store, e);
      if ingested.Rejected? {
        return r, false;
      }
      UpdatedMore(node, Elements(sent[..i]), r, e);
      assert Elements(sent[..i + 1]) == Elements(sent[..i]) + {e};
      r := Node(ingested.store, if e in r.store then r.logs else Associate(r.logs, e.author, e.log));
    }
    assert |items| == |sent|;
    assert sent[..|sent|] == sent;
  }

  lemma UpdatedMore<A(!new), L(!new)>(node: Node<A, L>, sent: set<Entry<A, L>>, r: Node<A, L>, e: Entry<A, L>)
    requires Updated(node, sent, r)
    ensures Updated(node, sent + {e},
                    Node(r.store + {e}, if e in r.store then r.logs else Associate(r.logs, e.author, e.log)))
  {
    forall a, l
      ensures Inserts(node.store, sent + {e}, a, l)
         <==> Inserts(node.store, sent, a, l) || (e !in r.store && e.author == a && e.log == l)
    {
      if e !in r.store && e.author == a && e.log == l {
        assert e in sent + {e} && e !in node.store;
      }
      if x :| x in sent && x !in node.store && x.author == a && x.log == l {
        assert x in sent + {e};
      }
    }
  }

  /** Entries which were left out of the stream because they were announced make no difference. */
  lemma UpdatedWhole<A(!new), L(!new)>(
    node: Node<A, L>, sent: set<Entry<A, L>>, offered: set<Entry<A, L>>, r: Node<A, L>)
    requires Updated(node, sent, r) && node.store + sent == node.store + offered
    ensures Updated(node, offered, r)
  {
    forall a, l ensures Inserts(node.store, sent, a, l) <==> Inserts(node.store, offered, a, l) {
      if e :| e in sent && e !in node.store && e.author == a && e.log == l {
        assert e in node.store + offered;
      }
      if e :| e in offered && e !in node.store && e.author == a && e.log == l {
        assert e in node.store + sent;
      }
    }
  }

  /** What goes wrong in a session: the authors whose heights cannot be queried, and where streams break off. */
  datatype Faults<A(==), L(==)> = Faults(
    announceA: set<A>, answerB: set<A>, streamB: map<FlatRange<A, L>, nat>,
    announceB: set<A>, answerA: set<A>, streamA: map<FlatRange<A, L>, nat>)

  function NoFaults<A(==), L(==)>(): (f: Faults<A, L>)
  {
    Faults({}, {}, map[], {}, {}, map[])
  }

  /** Some range of the sender's answer to the receiver's announcement breaks. */
  ghost predicate BreaksOff<A(!new), L(!new)>(
    sender: Node<A, L>, receiver: Node<A, L>, failsAt: map<FlatRange<A, L>, nat>)
  {
    exists h, f :: IsHeights(h, Topic(receiver)) && Asked(Topic(sender), h, f) && Breaks(sender.store, f, failsAt)
  }

  lemma BreaksOffAt<A(!new), L(!new)>(
    sender: Node<A, L>, receiver: Node<A, L>, h: Heights<A, L>, failsAt: map<FlatRange<A, L>, nat>)
    requires IsHeights(h, Topic(receiver))
    ensures BreaksOff(sender, receiver, failsAt) <==>
            exists f :: Asked(Topic(sender), h, f) && Breaks(sender.store, f, failsAt)
  {
    if g, f :| IsHeights(g, Topic(receiver)) && Asked(Topic(sender), g, f) && Breaks(sender.store, f, failsAt) {
      HeightsUnique(g, h, Topic(receiver));
    }
  }

  /** No query or stream up to the end of B's answer fails. */
  ghost predicate FirstHalf<A(!new), L(!new)>(a: Node<A, L>, b: Node<A, L>, faults: Faults<A, L>)
  {
    && !Fails(a.logs, faults.announceA) && !Fails(b.logs, faults.answerB) && !Fails(b.logs, faults.announceB)
    && !BreaksOff(b, a, faults.streamB)
  }

  /** Nor does the answer of A, which has ingested B's. */
  ghost predicate SecondHalf<A(!new), L(!new)>(a': Node<A, L>, b: Node<A, L>, faults: Faults<A, L>)
  {
    !Fails(a'.logs, faults.answerA) && !BreaksOff(a', b, faults.streamA)
  }

  /**
   * A two-way session: A announces, B answers and announces, A ingests, answers, and B ingests.
   * Each query and each stream may fail on its own, which ends the session.
   */
  method Session<A(==, !new), L(==, !new)>(a: Node<A, L>, b: Node<A, L>, faults: Faults<A, L>)
    returns (a': Node<A, L>, b': Node<A, L>, ok: bool)
    requires GapFree(a.store) && GapFree(b.store)
    ensures GapFree(a'.store) && a.store <= a'.store <= a.store + b.store
    ensures GapFree(b'.store) && b.store <= b'.store <= a.store + b.store
    ensures FirstHalf(a, b, faults) ==> Updated(a, Topic(b), a')
    ensures ok <==> FirstHalf(a, b, faults) && SecondHalf(a', b, faults)
    ensures ok ==> Updated(b, Topic(a'), b')
    ensures faults == NoFaults() ==> ok
  {
    a', b', ok := a, b, false;
    var announcementA := LogHeights(a.store, a.logs, faults.announceA);
    if announcementA.None? { return; }
    HeightsAnnounced(announcementA.value, a.store, a.logs);
    BreaksOffAt(b, a, announcementA.value, faults.streamB);
    var streamB;
    ghost var sentB;
    streamB, sentB := ProcessAnnouncement(b.store, b.logs, announcementA.value, faults.answerB, faults.streamB, a.store);
    if streamB.None? { return; }
    var announcementB := LogHeights(b.store, b.logs, faults.announceB);
    if announcementB.None? { return; }
    HeightsAnnounced(announcementB.value, b.store, b.logs);
    a', ok := Receive(a, streamB.value, sentB);
    if !ok { return; }
    UpdatedWhole(a, Elements(sentB), Topic(b), a');
    var streamA;
    ghost var sentA;
    streamA, sentA := ProcessAnnouncement(a'.store, a'.logs, announcementB.value, faults.answerA, faults.streamA, b.store);
    BreaksOffAt(a', b, announcementB.value, faults.streamA);
    if streamA.None? { ok := false; return; }
    b', ok := Receive(b, streamA.value, sentA);
    if ok {
      UpdatedWhole(b, Elements(sentA), Topic(a'), b');
    }
  }

  /** Each offered log is already listed by the node or brings it a new entry. */
  ghost predicate Visible<A(!new), L(!new)>(offered: Store<A, L>, node: Node<A, L>)
  {
    forall e :: e in offered ==> Lists(node.logs, e.author, e.log) || Inserts(node.store, offered, e.author, e.log)
  }

  /** A new entry of a log lies above all entries which the node already has. */
  lemma InsertsAbove<A(!new), L(!new)>(store: Store<A, L>, offered: Store<A, L>, e: Entry<A, L>)
    requires GapFree(store) && GapFree(offered) && e in store && Inserts(store, offered, e.author, e.log)
    ensures e in offered
  {
    var x :| x in offered && x !in store && x.author == e.author && x.log == e.log;
    assert e == Entry(x.author, x.log, e.seqNum) && x == Entry(e.author, e.log, x.seqNum);
    assert x.seqNum <= e.seqNum ==> x in store;
  }

  /** What a node offers after ingesting: the union, exactly if every offered log became visible. */
  lemma TopicAfter<A(!new), L(!new)>(node: Node<A, L>, offered: Store<A, L>, r: Node<A, L>)
    requires GapFree(node.store) && GapFree(offered) && Updated(node, offered, r)
    ensures Topic(r) == Topic(node) + offered <==> Visible(offered, node)
  {
    assert Topic(node) <= Topic(r);
    forall e | e in Topic(r) ensures e in Topic(node) + offered {
      if e in node.store && Inserts(node.store, offered, e.author, e.log) {
        InsertsAbove(node.store, offered, e);
      }
    }
    if Visible(offered, node) {
      assert offered <= Topic(r);
    } else {
      var e :| e in offered && !Lists(node.logs, e.author, e.log) && !Inserts(node.store, offered, e.author, e.log);
      assert e !in Topic(r);
    }
  }

  lemma VisibleUnion<A(!new), L(!new)>(offered: Store<A, L>, node: Node<A, L>)
    ensures Visible(offered + Topic(node), node) <==> Visible(offered, node)
  {
    var both := offered + Topic(node);
    forall a, l ensures Inserts(node.store, both, a, l) <==> Inserts(node.store, offered, a, l) {
      if e :| e in offered && e !in node.store && e.author == a && e.log == l {
        assert e in both;
      }
    }
    if Visible(both, node) {
      forall e | e in offered
        ensures Lists(node.logs, e.author, e.log) || Inserts(node.store, offered, e.author, e.log)
      {
        assert e in both;
      }
    }
  }

  /**
   * A completed session leaves both nodes with the union of what they offered under the topic, exactly if
   * neither of them held a log of the other without listing it and learned no new entry of it: ingest
   * associates a log with the topic only when it inserts.
   */
  lemma SessionConverges<A(!new), L(!new)>(a: Node<A, L>, b: Node<A, L>, a': Node<A, L>, b': Node<A, L>)
    requires GapFree(a.store) && GapFree(b.store)
    requires Updated(a, Topic(b), a') && Updated(b, Topic(a'), b')
    ensures Topic(a') == Topic(b') == Topic(a) + Topic(b) <==> Visible(Topic(b), a) && Visible(Topic(a), b)
  {
    ScopedGapFree(a.store, a.logs);
    ScopedGapFree(b.store, b.logs);
    TopicAfter(a, Topic(b), a');
    if Visible(Topic(b), a) {
      assert GapFree(Topic(a) + Topic(b));
      TopicAfter(b, Topic(a'), b');
      VisibleUnion(Topic(a), b);
      assert Topic(b) + (Topic(a) + Topic(b)) == Topic(a) + Topic(b);
    }
  }

  /** A node which holds the first entry of a log, associated with the topic or not. */
  function FirstEntry<A(==), L(==)>(author: A, log: L, listed: bool): (r: Node<A, L>)
  {
    Node({Entry(author, log, 0)}, if listed then map[author := [log]] else map[])
  }

  /** No completed session between these two nodes converges: A holds the log B offers, but does not list it. */
  lemma UnlistedLog<A(!new), L(!new)>(author: A, log: L, a': Node<A, L>, b': Node<A, L>)
    requires Updated(FirstEntry(author, log, false), Topic(FirstEntry(author, log, true)), a')
    requires Updated(FirstEntry(author, log, true), Topic(a'), b')
    ensures Topic(a') == {} && Topic(b') == {Entry(author, log, 0)}
  {
    var a, b, e := FirstEntry(author, log, false), FirstEntry(author, log, true), Entry(author, log, 0);
    assert Topic(b) == {e};
    assert Topic(a') == {};
    assert Lists(b.logs, author, log) && Lists(b'.logs, author, log);
    assert Topic(b') == {e};
  }

  /** The node lists every log it holds, as one does which only gains entries by ingesting them. */
  ghost predicate ListsAll<A(!new), L(!new)>(node: Node<A, L>)
  {
    forall e :: e in node.store ==> Lists(node.logs, e.author, e.log)
  }

  lemma ListsAllVisible<A(!new), L(!new)>(offered: Store<A, L>, node: Node<A, L>, r: Node<A, L>)
    requires ListsAll(node)
    ensures Visible(offered, node)
    ensures Updated(node, offered, r) ==> ListsAll(r)
  {
    forall e | e in offered
      ensures Lists(node.logs, e.author, e.log) || Inserts(node.store, offered, e.author, e.log)
    {
    }
    if Updated(node, offered, r) {
      forall e | e in r.store ensures Lists(r.logs, e.author, e.log) {
        assert e in node.store || e in offered;
      }
    }
  }

  /** Nodes which list every log they hold keep doing so, and always end a completed session with the same entries. */
  lemma ListingNodesConverge<A(!new), L(!new)>(a: Node<A, L>, b: Node<A, L>, a': Node<A, L>, b': Node<A, L>)
    requires GapFree(a.store) && GapFree(b.store) && ListsAll(a) && ListsAll(b)
    requires Updated(a, Topic(b), a') && Updated(b, Topic(a'), b')
    ensures Visible(Topic(b), a) && Visible(Topic(a), b)
    ensures Topic(a') == Topic(b') == a'.store == b'.store == a.store + b.store
    ensures ListsAll(a') && ListsAll(b')
  {
    ListsAllVisible(Topic(b), a, a');
    ListsAllVisible(Topic(a), b, b');
    ListsAllVisible(Topic(a'), b, b');
    SessionConverges(a, b, a', b');
    assert Topic(a) == a.store && Topic(b) == b.store;
    assert Topic(a') == a'.store && Topic(b') == b'.store;
  }

  ghost function Height<A, L>(h: Heights<A, L>, a: A, l: L): (r: int)
  {
    if a in h && l in h[a] then h[a][l] else -1
  }

  /** In terms of heights: both sides then announce the pointwise maximum of their former announcements. */
  lemma SessionReachesMaximum<A(!new), L(!new)>(
    a: Node<A, L>, b: Node<A, L>, a': Node<A, L>, b': Node<A, L>,
    before: (Heights<A, L>, Heights<A, L>), after: (Heights<A, L>, Heights<A, L>))
    requires GapFree(a.store) && GapFree(b.store) && Visible(Topic(b), a) && Visible(Topic(a), b)
    requires Updated(a, Topic(b), a') && Updated(b, Topic(a'), b')
    requires IsHeights(before.0, Topic(a)) && IsHeights(before.1, Topic(b))
    requires IsHeights(after.0, Topic(a')) && IsHeights(after.1, Topic(b'))
    ensures after.0 == after.1
    ensures forall x, l :: var p, q := Height(before.0, x, l), Height(before.1, x, l);
      Height(after.0, x, l) == if p < q then q else p
  {
    SessionConverges(a, b, a', b');
    HeightsUnique(after.0, after.1, Topic(a'));
    forall x, l
      ensures var p, q := Height(before.0, x, l), Height(before.1, x, l);
        Height(after.0, x, l) == if p < q then q else p
    {
      HeightOfUnion(Topic(a), Topic(b), before.0, before.1, after.0, x, l);
    }
  }

  lemma HeightsUnique<A(!new), L(!new)>(g: Heights<A, L>, h: Heights<A, L>, store: Store<A, L>)
    requires IsHeights(g, store) && IsHeights(h, store)
    ensures g == h
  {
    forall a ensures a in g <==> a in h {
      if a in g { var l :| l in g[a]; assert Entry(a, l, g[a][l]) in store; }
      if a in h { var l :| l in h[a]; assert Entry(a, l, h[a][l]) in store; }
    }
    forall a | a in g ensures g[a] == h[a] {
      forall l ensures l in g[a] <==> l in h[a] {
        if l in g[a] { assert Entry(a, l, g[a][l]) in store; }
        if l in h[a] { assert Entry(a, l, h[a][l]) in store; }
      }
      forall l | l in g[a] ensures g[a][l] == h[a][l] {
        assert Entry(a, l, g[a][l]) in store && Entry(a, l, h[a][l]) in store;
      }
    }
  }

  lemma HeightOfUnion<A(!new), L(!new)>(
    p: Store<A, L>, q: Store<A, L>, hp: Heights<A, L>, hq: Heights<A, L>, h: Heights<A, L>, a: A, l: L)
    requires IsHeights(hp, p) && IsHeights(hq, q) && IsHeights(h, p + q)
    ensures Height(h, a, l) == if Height(hp, a, l) < Height(hq, a, l) then Height(hq, a, l) else Height(hp, a, l)
  {
    if a in h && l in h[a] { assert Entry(a, l, h[a][l]) in p + q; }
    if a in hp && l in hp[a] { assert Entry(a, l, hp[a][l]) in p + q; }
    if a in hq && l in hq[a] { assert Entry(a, l, hq[a][l]) in p + q; }
  }
}
