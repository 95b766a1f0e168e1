/** Recognising items which were seen recently: a queue of bounded length with an index. */
module Dedup {
  import opened Sequences

  /** The last items, at most as many as fit. */
  function Window<T>(accepted: seq<T>, capacity: nat): (r: seq<T>)
  {
    if |accepted| <= capacity then accepted else accepted[|accepted| - capacity..]
  }

  /** The items which are accepted out of everything that is inserted. */
  function Accepted<T(==)>(inserted: seq<T>, capacity: nat): (r: seq<T>)
  {
    if inserted == [] then []
    else
      var before := Accepted(inserted[..|inserted| - 1], capacity);
      var x := inserted[|inserted| - 1];
      if x in Window(before, capacity) then before else before + [x]
  }

  type Positive = x: int | x > 0 witness 1

  /** How many items are remembered; a queue without room grows when the first item is pushed. */
  function Effective(capacity: nat, grown: Positive): (r: Positive)
  {
    if capacity == 0 then grown else capacity
  }

  class DeduplicationBuffer<T(==)> {
    const size: Positive
    var capacity: nat
    var buffer: seq<T>
    var index: set<T>
    ghost var accepted: seq<T>

    /** Index and queue agree, and the queue is the window over what was accepted so far. */
    ghost predicate Valid()
      reads this
    {
      && (capacity == size || (capacity == 0 && buffer == []))
      && buffer == Window(accepted, size)
      && index == Elements(buffer)
      && Distinct(buffer)
    }

    constructor (capacity: nat, grown: Positive)
      ensures Valid() && size == Effective(capacity, grown) && accepted == []
    {
      this.capacity := capacity;
      size := Effective(capacity, grown);
      buffer, index, accepted := [], {}, [];
    }

    method Insert(item: T) returns (added: bool)
      requires Valid()
      modifies this
      ensures Valid()
      ensures added <==> item !in Window(old(accepted), size)
      ensures accepted == if added then old(accepted) + [item] else old(accepted)
    {
      if item in index {
        return false;
      }
      Pushed(buffer, item, size);
      WindowNext(accepted, item, size);
      accepted := accepted + [item];
      if |buffer| + 1 > capacity && buffer != [] {
        index := index - {buffer[0]};
        buffer := buffer[1..];
      }
      if |buffer| == capacity {
        capacity := size;
      }
      buffer := buffer + [item];
      index := index + {item};
      added := true;
    }

    method Contains(item: T) returns (r: bool)
      requires Valid()
      ensures r <==> item in Window(accepted, size)
    {
      r := item in index;
    }
  }

  /** The queue after pushing an item, without its oldest item if it was full. */
  function Push<T>(buffer: seq<T>, item: T, size: Positive): (r: seq<T>)
  {
    (if |buffer| >= size then buffer[1..] else buffer) + [item]
  }

  lemma Pushed<T>(buffer: seq<T>, item: T, size: Positive)
    requires Distinct(buffer) && item !in buffer
    ensures var r := Push(buffer, item, size);
      && Distinct(r)
      && Elements(r) == Elements(buffer) - (if |buffer| >= size then {buffer[0]} else {}) + {item}
  {
    assert |buffer| >= size ==> buffer == [buffer[0]] + buffer[1..];
  }

  /** The window moves as the queue does. */
  lemma WindowNext<T>(accepted: seq<T>, item: T, size: Positive)
    ensures Window(accepted + [item], size) == Push(Window(accepted, size), item, size)
  {
  }

  /** For each item of a run whether it is outside the window when its turn comes. */
  ghost function Novel<T>(inserted: seq<T>, capacity: nat): (r: seq<bool>)
    ensures |r| == |inserted|
  {
    if inserted == [] then []
    else
      var n := |inserted| - 1;
      Novel(inserted[..n], capacity) + [inserted[n] !in Window(Accepted(inserted[..n], capacity), capacity)]
  }

  /** Insert a run of items one after the other. */
  method InsertAll<T(==)>(capacity: nat, grown: Positive, items: seq<T>) returns (added: seq<bool>)
    ensures added == Novel(items, Effective(capacity, grown))
  {
    var d := new DeduplicationBuffer(capacity, grown);
    ghost var size := Effective(capacity, grown);
    added := [];
    for i := 0 to |items|
      invariant fresh(d) && d.Valid() && d.size == size && d.accepted == Accepted(items[..i], size)
      invariant added == Novel(items[..i], size)
    {
      var a := d.Insert(items[i]);
      added := added + [a];
      TakeNext(items, i);
      assert items[..i + 1][..i] == items[..i];
    }
    assert items[..|items|] == items;
  }

  /** An item is refused exactly while fewer than `capacity` items were accepted since its last acceptance. */
  lemma RefusedWhileRecent<T>(accepted: seq<T>, capacity: nat, x: T)
    ensures x in Window(accepted, capacity) <==>
            exists i :: 0 <= i < |accepted| && accepted[i] == x && |accepted| - 1 - i < capacity
  {
    var w := Window(accepted, capacity);
    var start := |accepted| - |w|;
    if x in w {
      var k :| 0 <= k < |w| && w[k] == x;
      assert accepted[start + k] == x;
    }
    if i :| 0 <= i < |accepted| && accepted[i] == x && |accepted| - 1 - i < capacity {
      assert w[i - start] == x;
    }
  }

  /** Two equal accepted items have at least as many others between them as the window holds. */
  lemma {:induction false} RepeatsAreFar<T>(inserted: seq<T>, capacity: nat, i: nat, j: nat)
    requires i < j < |Accepted(inserted, capacity)|
    requires Accepted(inserted, capacity)[i] == Accepted(inserted, capacity)[j]
    ensures j - i > capacity
  {
    var before := Accepted(inserted[..|inserted| - 1], capacity);
    if j < |before| {
      RepeatsAreFar(inserted[..|inserted| - 1], capacity, i, j);
    } else {
      RefusedWhileRecent(before, capacity, before[i]);
    }
  }
}
