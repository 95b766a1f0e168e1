/** Long-term pre-keys with a lifetime, and one-time secrets which refer to them and are handed out once. */
module KeyManager {
  import opened Basics
  import opened Sequences

  /** One-time identifiers are 64-bit numbers. */
  const ID_LIMIT: nat := 0x1_0000_0000_0000_0000

  datatype Lifetime = Lifetime(notBefore: nat, notAfter: nat)

  datatype PreKey<K> = PreKey(key: K, lifetime: Lifetime)

  datatype PreKeyBundle<K, S> = PreKeyBundle(prekey: PreKey<K>, secret: S)

  datatype OneTimeKeyBundle<K> = OneTimeKeyBundle(prekey: PreKey<K>, onetimeId: nat)

  datatype State<K(==), S> = State(
    prekeys: map<K, PreKeyBundle<K, S>>,
    onetimeSecrets: map<nat, (K, S)>,
    onetimeNextId: nat)

  /** Bundles are stored under their own key. */
  ghost predicate WellKeyed<K, S>(prekeys: map<K, PreKeyBundle<K, S>>)
  {
    forall k :: k in prekeys ==> prekeys[k].prekey.key == k
  }

  // ---------------------------------------------------------------------
  // Pre-keys
  // ---------------------------------------------------------------------

  /** The clock is between both ends; without a clock no lifetime is valid. */
  predicate Verify(l: Lifetime, now: Option<nat>)
  {
    now.Some? && l.notBefore < now.value < l.notAfter
  }

  /** A lifetime is not valid at either of its ends, and never without a clock. */
  lemma ValidInside(l: Lifetime, now: nat)
    ensures Verify(l, Some(now)) <==> l.notBefore + 1 <= now <= l.notAfter - 1
    ensures !Verify(l, None)
  {
  }

  /** `r` is valid and of all valid pre-keys none expires later. */
  ghost predicate IsLatest<K>(r: Option<PreKey<K>>, prekeys: set<PreKey<K>>, now: Option<nat>)
  {
    match r
    case None => forall p :: p in prekeys ==> !Verify(p.lifetime, now)
    case Some(latest) =>
      && latest in prekeys && Verify(latest.lifetime, now)
      && forall p :: p in prekeys && Verify(p.lifetime, now) ==> p.lifetime.notAfter <= latest.lifetime.notAfter
  }

  /** Of pre-keys which expire at the same time the first one is taken. */
  ghost predicate IsFirst<K>(prekeys: seq<PreKey<K>>, latest: PreKey<K>, now: Option<nat>)
  {
    exists i :: 0 <= i < |prekeys| && prekeys[i] == latest && forall j :: 0 <= j < i && Verify(prekeys[j].lifetime, now) ==>
      prekeys[j].lifetime.notAfter < latest.lifetime.notAfter
  }

  lemma FirstNext<K>(prekeys: seq<PreKey<K>>, next: PreKey<K>, latest: Option<PreKey<K>>, now: Option<nat>)
    requires IsLatest(latest, Elements(prekeys), now) && (latest.Some? ==> IsFirst(prekeys, latest.value, now))
    ensures latest.Some? ==> IsFirst(prekeys + [next], latest.value, now)
    ensures latest.None? || latest.value.lifetime.notAfter < next.lifetime.notAfter ==> IsFirst(prekeys + [next], next, now)
  {
    var more := prekeys + [next];
    if latest.Some? {
      var i :| 0 <= i < |prekeys| && prekeys[i] == latest.value && forall j :: 0 <= j < i && Verify(prekeys[j].lifetime, now) ==>
        prekeys[j].lifetime.notAfter < latest.value.lifetime.notAfter;
      assert more[i] == latest.value;
    }
    assert more[|prekeys|] == next;
    forall j | 0 <= j < |prekeys| ensures more[j] in Elements(prekeys) {
    }
  }

  method LatestPreKey<K>(prekeys: seq<PreKey<K>>, now: Option<nat>) returns (latest: Option<PreKey<K>>)
    ensures IsLatest(latest, Elements(prekeys), now)
    ensures latest.Some? ==> IsFirst(prekeys, latest.value, now)
  {
    latest := None;
    for i := 0 to |prekeys|
      invariant IsLatest(latest, Elements(prekeys[..i]), now)
      invariant latest.Some? ==> IsFirst(prekeys[..i], latest.value, now)
    {
      TakeNext(prekeys, i);
      var prekey := prekeys[i];
      FirstNext(prekeys[..i], prekey, latest, now);
      if Verify(prekey.lifetime, now) {
        if latest.None? || prekey.lifetime.notAfter > latest.value.lifetime.notAfter {
          latest := Some(prekey);
        }
      }
    }
    assert prekeys[..|prekeys|] == prekeys;
  }

  ghost function PreKeys<K, S>(prekeys: map<K, PreKeyBundle<K, S>>): (r: set<PreKey<K>>)
  {
    set k | k in prekeys :: prekeys[k].prekey
  }

  /** The latest stored bundle; the lookup of the key which was found cannot fail. */
  method Latest<K(==, !new), S(!new)>(prekeys: map<K, PreKeyBundle<K, S>>, now: Option<nat>)
    returns (r: Option<PreKeyBundle<K, S>>)
    requires WellKeyed(prekeys)
    ensures r.Some? ==> r.value.prekey.key in prekeys && prekeys[r.value.prekey.key] == r.value
    ensures IsLatest(if r.Some? then Some(r.value.prekey) else None, PreKeys(prekeys), now)
  {
    var all: seq<PreKey<K>> := [];
    var todo := prekeys.Keys;
    while todo != {}
      invariant todo <= prekeys.Keys
      invariant Elements(all) == set k | k in prekeys && k !in todo :: prekeys[k].prekey
      decreases todo
    {
      var k :| k in todo;
      all := all + [prekeys[k].prekey];
      assert Elements(all) == Elements(all[..|all| - 1]) + {prekeys[k].prekey};
      todo := todo - {k};
    }
    assert Elements(all) == PreKeys(prekeys);
    var latest := LatestPreKey(all, now);
    if latest.None? {
      return None;
    }
    r := Some(prekeys[latest.value.key]);
  }

  // ---------------------------------------------------------------------
  // Operations
  // ---------------------------------------------------------------------

  function Init<K(==), S>(prekeys: map<K, PreKeyBundle<K, S>>): (y: State<K, S>)
  {
    State(prekeys, map[], 0)
  }

  /** Drop pre-keys which are not valid now, and one-time secrets which refer to a dropped one. */
  function RemoveExpired<K(==), S>(y: State<K, S>, now: Option<nat>): (r: State<K, S>)
  {
    var prekeys := map k | k in y.prekeys && Verify(y.prekeys[k].prekey.lifetime, now) :: y.prekeys[k];
    var onetimeSecrets := map id | id in y.onetimeSecrets && y.onetimeSecrets[id].0 in prekeys :: y.onetimeSecrets[id];
    y.(prekeys := prekeys, onetimeSecrets := onetimeSecrets)
  }

  /** Removing expired keys does not change which pre-key is the latest. */
  lemma ExpiryKeepsLatest<K, S>(y: State<K, S>, now: Option<nat>, latest: Option<PreKey<K>>)
    ensures IsLatest(latest, PreKeys(y.prekeys), now) <==> IsLatest(latest, PreKeys(RemoveExpired(y, now).prekeys), now)
  {
    var r := RemoveExpired(y, now);
    assert PreKeys(r.prekeys) == set p | p in PreKeys(y.prekeys) && Verify(p.lifetime, now) by {
      forall p | p in PreKeys(y.prekeys) && Verify(p.lifetime, now) ensures p in PreKeys(r.prekeys) {
        var k :| k in y.prekeys && y.prekeys[k].prekey == p;
        assert k in r.prekeys;
      }
    }
  }

  function RotatePreKey<K(==), S>(y: State<K, S>, bundle: PreKeyBundle<K, S>): (r: State<K, S>)
  {
    y.(prekeys := y.prekeys[bundle.prekey.key := bundle])
  }

  /** A rotated pre-key which is valid and expires last is the one to be used from now on. */
  lemma RotatedIsLatest<K, S>(y: State<K, S>, bundle: PreKeyBundle<K, S>, now: Option<nat>)
    requires Verify(bundle.prekey.lifetime, now)
    requires forall k :: k in y.prekeys && Verify(y.prekeys[k].prekey.lifetime, now) ==>
               y.prekeys[k].prekey.lifetime.notAfter <= bundle.prekey.lifetime.notAfter
    ensures IsLatest(Some(bundle.prekey), PreKeys(RotatePreKey(y, bundle).prekeys), now)
    ensures forall k :: k in y.prekeys && k != bundle.prekey.key ==>
              k in RotatePreKey(y, bundle).prekeys && RotatePreKey(y, bundle).prekeys[k] == y.prekeys[k]
  {
    var r := RotatePreKey(y, bundle);
    assert r.prekeys[bundle.prekey.key] == bundle;
    forall p | p in PreKeys(r.prekeys) && Verify(p.lifetime, now)
      ensures p.lifetime.notAfter <= bundle.prekey.lifetime.notAfter
    {
      var k :| k in r.prekeys && r.prekeys[k].prekey == p;
      assert k != bundle.prekey.key ==> k in y.prekeys;
    }
  }

  datatype Generated<K(==), S> =
    | Bundle(y: State<K, S>, bundle: OneTimeKeyBundle<K>)
    | NoPreKeysAvailable
    | RngFailed
    | SameIdAssertion

  function WithOneTime<K(==), S>(y: State<K, S>, prekey: K, secret: S): (r: State<K, S>)
  {
    y.(onetimeSecrets := y.onetimeSecrets[y.onetimeNextId := (prekey, secret)],
       onetimeNextId := (y.onetimeNextId + 1) % ID_LIMIT)
  }

  /** Issue a one-time bundle for the latest pre-key; a secret may not be available. */
  method GenerateOneTimeBundle<K(==, !new), S(!new)>(y: State<K, S>, now: Option<nat>, secret: Option<S>)
    returns (r: Generated<K, S>)
    requires WellKeyed(y.prekeys)
    ensures r.NoPreKeysAvailable? <==> forall k :: k in y.prekeys ==> !Verify(y.prekeys[k].prekey.lifetime, now)
    ensures r.RngFailed? <==> !r.NoPreKeysAvailable? && secret.None?
    ensures r.SameIdAssertion? <==> !r.NoPreKeysAvailable? && secret.Some? && y.onetimeNextId in y.onetimeSecrets
    ensures r.Bundle? ==>
              && y.onetimeNextId !in y.onetimeSecrets && secret.Some? && r.bundle.onetimeId == y.onetimeNextId
              && IsLatest(Some(r.bundle.prekey), PreKeys(y.prekeys), now)
              && r.y == WithOneTime(y, r.bundle.prekey.key, secret.value)
  {
    var latest := Latest(y.prekeys, now);
    assert forall k :: k in y.prekeys ==> y.prekeys[k].prekey in PreKeys(y.prekeys);
    if latest.None? {
      return NoPreKeysAvailable;
    }
    if secret.None? {
      return RngFailed;
    }
    var id := latest.value.prekey.key;
    if y.onetimeNextId in y.onetimeSecrets {
      return SameIdAssertion;
    }
    r := Bundle(WithOneTime(y, id, secret.value), OneTimeKeyBundle(latest.value.prekey, y.onetimeNextId));
  }

  /** Hand out a one-time secret and forget it. */
  function UseOneTimeSecret<K(==), S>(y: State<K, S>, id: nat): (r: Option<(State<K, S>, S)>)
  {
    if id in y.onetimeSecrets then Some((y.(onetimeSecrets := y.onetimeSecrets - {id}), y.onetimeSecrets[id].1)) else None
  }

  /** The secret of a stored pre-key. */
  function PreKeySecret<K(==), S>(y: State<K, S>, id: K): (r: Option<S>)
  {
    if id in y.prekeys then Some(y.prekeys[id].secret) else None
  }

  // ---------------------------------------------------------------------
  // The ledger of one-time secrets
  // ---------------------------------------------------------------------

  /** A state together with everything that was issued, handed out and removed since the start. */
  datatype Ledger<K(==), S> = Ledger(y: State<K, S>, issued: seq<(K, S)>, used: seq<(nat, S)>, expired: set<nat>)

  datatype Event<K, S> =
    | Rotate(bundle: PreKeyBundle<K, S>)
    | Expire(now: Option<nat>)
    | Generate(time: Option<nat>, latest: PreKey<K>, secret: S)
    | Use(id: nat)

  ghost predicate Enabled<K(!new), S>(l: Ledger<K, S>, e: Event<K, S>)
  {
    match e
    case Generate(now, latest, _) =>
      IsLatest(Some(latest), PreKeys(l.y.prekeys), now) && l.y.onetimeNextId !in l.y.onetimeSecrets
    case _ => true
  }

  ghost function Next<K, S>(l: Ledger<K, S>, e: Event<K, S>): (r: Ledger<K, S>)
  {
    match e
    case Rotate(bundle) => l.(y := RotatePreKey(l.y, bundle))
    case Expire(now) =>
      var y := RemoveExpired(l.y, now);
      l.(y := y, expired := l.expired + (l.y.onetimeSecrets.Keys - y.onetimeSecrets.Keys))
    case Generate(_, latest, secret) =>
      l.(y := WithOneTime(l.y, latest.key, secret), issued := l.issued + [(latest.key, secret)])
    case Use(id) =>
      match UseOneTimeSecret(l.y, id)
      case None => l
      case Some((y, secret)) => l.(y := y, used := l.used + [(id, secret)])
  }

  ghost function UsedIds<S>(used: seq<(nat, S)>): (r: seq<nat>)
  {
    seq(|used|, i requires 0 <= i < |used| => used[i].0)
  }

  /** Each issued id is live, used or expired, and only one of these; secrets are the ones issued. */
  ghost predicate Accounted<K, S>(l: Ledger<K, S>)
  {
    && l.y.onetimeSecrets.Keys !! Elements(UsedIds(l.used))
    && l.y.onetimeSecrets.Keys !! l.expired
    && Elements(UsedIds(l.used)) !! l.expired
    && (forall id: nat :: id < |l.issued| <==>
          id in l.y.onetimeSecrets || id in UsedIds(l.used) || id in l.expired)
    && (forall id :: id in l.y.onetimeSecrets && id < |l.issued| ==> l.y.onetimeSecrets[id] == l.issued[id])
    && (forall i :: 0 <= i < |l.used| && l.used[i].0 < |l.issued| ==> l.used[i].1 == l.issued[l.used[i].0].1)
    && Distinct(UsedIds(l.used))
  }

  ghost predicate Inv<K, S>(l: Ledger<K, S>)
  {
    && WellKeyed(l.y.prekeys)
    && |l.issued| <= ID_LIMIT
    && l.y.onetimeNextId == |l.issued| % ID_LIMIT
    && (forall id :: id in l.y.onetimeSecrets ==> l.y.onetimeSecrets[id].0 in l.y.prekeys)
    && Accounted(l)
  }

  lemma ExpireKeeps<K(!new), S>(l: Ledger<K, S>, now: Option<nat>)
    requires Inv(l)
    ensures Inv(Next(l, Expire(now)))
  {
  }

  lemma GenerateKeeps<K(!new), S>(l: Ledger<K, S>, e: Event<K, S>)
    requires Inv(l) && e.Generate? && Enabled(l, e) && |l.issued| < ID_LIMIT
    ensures Inv(Next(l, e))
  {
    assert e.latest in PreKeys(l.y.prekeys);
    assert l.y.onetimeNextId == |l.issued|;
    forall i | 0 <= i < |l.used| ensures l.used[i].0 < |l.issued| {
      assert UsedIds(l.used)[i] in UsedIds(l.used);
    }
  }

  lemma UseKeeps<K(!new), S>(l: Ledger<K, S>, id: nat)
    requires Inv(l) && id in l.y.onetimeSecrets
    ensures Inv(Next(l, Use(id)))
  {
    var r := Next(l, Use(id));
    assert r.used == l.used + [(id, l.y.onetimeSecrets[id].1)];
    assert UsedIds(r.used) == UsedIds(l.used) + [id];
    assert Elements(UsedIds(r.used)) == Elements(UsedIds(l.used)) + {id};
  }

  /** Every operation keeps the books as long as fewer than 2^64 ids were issued before it. */
  lemma InvPreserved<K(!new), S>(l: Ledger<K, S>, e: Event<K, S>)
    requires Inv(l) && Enabled(l, e) && (e.Generate? ==> |l.issued| < ID_LIMIT)
    ensures Inv(Next(l, e))
  {
    match e
    case Rotate(bundle) =>
    case Expire(now) =>
      ExpireKeeps(l, now);
    case Generate(_, _, _) =>
      GenerateKeeps(l, e);
    case Use(id) =>
      if id in l.y.onetimeSecrets {
        UseKeeps(l, id);
      }
  }

  ghost predicate IsRun<K(!new), S>(ledgers: seq<Ledger<K, S>>, events: seq<Event<K, S>>)
  {
    && |ledgers| == |events| + 1
    && WellKeyed(ledgers[0].y.prekeys)
    && ledgers[0] == Ledger(Init(ledgers[0].y.prekeys), [], [], {})
    && forall i :: 0 <= i < |events| ==> Enabled(ledgers[i], events[i]) && ledgers[i + 1] == Next(ledgers[i], events[i])
  }

  /** A new manager holds exactly the given pre-keys and starts with its books in order. */
  lemma Starts<K(!new), S>(prekeys: map<K, PreKeyBundle<K, S>>, k: K)
    requires WellKeyed(prekeys)
    ensures Inv(Ledger(Init(prekeys), [], [], {})) && IsRun([Ledger(Init(prekeys), [], [], {})], [])
    ensures PreKeySecret(Init(prekeys), k) == if k in prekeys then Some(prekeys[k].secret) else None
  {
  }

  lemma {:induction false} RunAccounted<K(!new), S>(ledgers: seq<Ledger<K, S>>, events: seq<Event<K, S>>, i: nat)
    requires IsRun(ledgers, events) && i <= |events| && |ledgers[i].issued| <= ID_LIMIT
    ensures Inv(ledgers[i])
  {
    if i > 0 {
      assert Enabled(ledgers[i - 1], events[i - 1]) && ledgers[i] == Next(ledgers[i - 1], events[i - 1]);
      RunAccounted(ledgers, events, i - 1);
      InvPreserved(ledgers[i - 1], events[i - 1]);
    }
  }

  /**
   * The next id is a fresh one until all 2^64 ids have been issued; then the counter starts over, and the assertion
   * against inserting an id twice fails exactly if the very first id is still live.
   */
  lemma NextIdFresh<K(!new), S>(l: Ledger<K, S>)
    requires Inv(l)
    ensures |l.issued| < ID_LIMIT <==> l.y.onetimeNextId >= |l.issued|
    ensures l.y.onetimeNextId in l.y.onetimeSecrets <==> |l.issued| == ID_LIMIT && 0 in l.y.onetimeSecrets
    ensures 0 <= l.y.onetimeNextId <= 0xFFFF_FFFF_FFFF_FFFF < ID_LIMIT
  {
  }

  /** A rotated pre-key which expires last is the one a bundle is issued for, whose secret is then handed out. */
  lemma IssuedAndUsed<K(!new), S>(l: Ledger<K, S>, bundle: PreKeyBundle<K, S>, now: Option<nat>, secret: S)
    requires Inv(l) && |l.issued| < ID_LIMIT && Verify(bundle.prekey.lifetime, now)
    requires forall k :: k in l.y.prekeys && Verify(l.y.prekeys[k].prekey.lifetime, now) ==>
               l.y.prekeys[k].prekey.lifetime.notAfter <= bundle.prekey.lifetime.notAfter
    ensures Enabled(l, Rotate(bundle))
    ensures var rotated, generate := Next(l, Rotate(bundle)), Generate(now, bundle.prekey, secret);
      && Enabled(rotated, generate)
      && var issued, id := Next(rotated, generate), |l.issued|;
        && Enabled(issued, Use(id)) && UseOneTimeSecret(issued.y, id).Some?
        && Next(issued, Use(id)).used == l.used + [(id, secret)]
        && UseOneTimeSecret(Next(issued, Use(id)).y, id).None?
        && PreKeySecret(issued.y, bundle.prekey.key) == Some(bundle.secret)
        && Enabled(issued, Expire(now)) && UseOneTimeSecret(Next(issued, Expire(now)).y, id).Some?
  {
    RotatedIsLatest(l.y, bundle, now);
    NextIdFresh(l);
  }

  /** What can be used after expired keys were removed: pre-keys which are valid, and live ids of such a pre-key. */
  lemma UsableAfterExpiry<K(!new), S>(l: Ledger<K, S>, now: Option<nat>, k: K, id: nat)
    requires Inv(l)
    ensures var y := Next(l, Expire(now)).y;
      && (PreKeySecret(y, k).Some? <==> k in l.y.prekeys && Verify(l.y.prekeys[k].prekey.lifetime, now))
      && (UseOneTimeSecret(y, id).Some? <==>
            id in l.y.onetimeSecrets && Verify(l.y.prekeys[l.y.onetimeSecrets[id].0].prekey.lifetime, now))
      && (UseOneTimeSecret(y, id).Some? ==> id < |l.issued| && UseOneTimeSecret(y, id).value.1 == l.issued[id].1)
  {
    var y := Next(l, Expire(now)).y;
    if id in l.y.onetimeSecrets {
      assert l.y.onetimeSecrets[id].0 in l.y.prekeys;
      assert l.y.onetimeSecrets[id] == l.issued[id];
    }
  }

  /** The bundle stored under a pre-key, read off the events: the last one rotated in, until it is found expired. */
  ghost function Held<K, S>(k: K, start: map<K, PreKeyBundle<K, S>>, events: seq<Event<K, S>>)
    : (r: Option<PreKeyBundle<K, S>>)
  {
    if events == [] then if k in start then Some(start[k]) else None
    else
      var before := Held(k, start, events[..|events| - 1]);
      match events[|events| - 1]
      case Rotate(bundle) => if bundle.prekey.key == k then Some(bundle) else before
      case Expire(now) => if before.Some? && !Verify(before.value.prekey.lifetime, now) then None else before
      case _ => before
  }

  /** In every run exactly these bundles are stored, and the secret of a pre-key is the one of its bundle. */
  lemma {:induction false} PreKeysHeld<K(!new), S>(
    ledgers: seq<Ledger<K, S>>, events: seq<Event<K, S>>, i: nat, k: K)
    requires IsRun(ledgers, events) && i <= |events|
    ensures var y, held := ledgers[i].y, Held(k, ledgers[0].y.prekeys, events[..i]);
      && (k in y.prekeys <==> held.Some?) && (held.Some? ==> y.prekeys[k] == held.value)
      && PreKeySecret(y, k) == (if held.Some? then Some(held.value.secret) else None)
  {
    if i > 0 {
      PreKeysHeld(ledgers, events, i - 1, k);
      assert events[..i][..i - 1] == events[..i - 1];
      assert ledgers[i] == Next(ledgers[i - 1], events[i - 1]);
    }
  }

  /** A rotated pre-key can be used until the next one under the same key, or until it is found expired. */
  lemma {:induction false} RotatedStays<K(!new), S>(
    ledgers: seq<Ledger<K, S>>, events: seq<Event<K, S>>, i: nat, j: nat)
    requires IsRun(ledgers, events) && i < j <= |events| && events[i].Rotate?
    requires forall n :: i < n < j && events[n].Rotate? ==> events[n].bundle.prekey.key != events[i].bundle.prekey.key
    requires forall n :: i < n < j && events[n].Expire? ==> Verify(events[i].bundle.prekey.lifetime, events[n].now)
    ensures PreKeySecret(ledgers[j].y, events[i].bundle.prekey.key) == Some(events[i].bundle.secret)
  {
    RotatedHeld(ledgers[0].y.prekeys, events, i, j);
    PreKeysHeld(ledgers, events, j, events[i].bundle.prekey.key);
  }

  lemma {:induction false} RotatedHeld<K(!new), S>(
    start: map<K, PreKeyBundle<K, S>>, events: seq<Event<K, S>>, i: nat, j: nat)
    requires i < j <= |events| && events[i].Rotate?
    requires forall n :: i < n < j && events[n].Rotate? ==> events[n].bundle.prekey.key != events[i].bundle.prekey.key
    requires forall n :: i < n < j && events[n].Expire? ==> Verify(events[i].bundle.prekey.lifetime, events[n].now)
    ensures Held(events[i].bundle.prekey.key, start, events[..j]) == Some(events[i].bundle)
    decreases j
  {
    assert events[..j][..j - 1] == events[..j - 1];
    if i < j - 1 {
      RotatedHeld(start, events, i, j - 1);
    }
  }

  /** A secret is handed out exactly for ids which are live; afterwards never again. */
  lemma HandedOutOnce<K(!new), S>(ledgers: seq<Ledger<K, S>>, events: seq<Event<K, S>>, i: nat, j: nat, id: nat)
    requires IsRun(ledgers, events) && i <= j <= |events| && |ledgers[j].issued| <= ID_LIMIT
    requires id in UsedIds(ledgers[i].used) || id in ledgers[i].expired
    ensures UseOneTimeSecret(ledgers[j].y, id).None?
  {
    GoneStaysGone(ledgers, events, i, j, id);
    RunAccounted(ledgers, events, j);
  }

  lemma {:induction false} GoneStaysGone<K(!new), S>(
    ledgers: seq<Ledger<K, S>>, events: seq<Event<K, S>>, i: nat, j: nat, id: nat)
    requires IsRun(ledgers, events) && i <= j <= |events|
    requires id in UsedIds(ledgers[i].used) || id in ledgers[i].expired
    ensures id in UsedIds(ledgers[j].used) || id in ledgers[j].expired
    decreases j
  {
    if i < j {
      GoneStaysGone(ledgers, events, i, j - 1, id);
      var before, after := ledgers[j - 1], ledgers[j];
      assert after == Next(before, events[j - 1]);
      assert before.used <= after.used;
      if id in UsedIds(before.used) {
        var k :| 0 <= k < |before.used| && UsedIds(before.used)[k] == id;
        assert UsedIds(after.used)[k] == id;
      }
    }
  }

  lemma {:induction false} IssuedGrows<K(!new), S>(ledgers: seq<Ledger<K, S>>, events: seq<Event<K, S>>, i: nat, j: nat)
    requires IsRun(ledgers, events) && i <= j <= |events|
    ensures ledgers[i].issued <= ledgers[j].issued
    decreases j
  {
    if i < j {
      IssuedGrows(ledgers, events, i, j - 1);
      assert ledgers[j] == Next(ledgers[j - 1], events[j - 1]);
    }
  }

  /** No id is issued twice. */
  lemma IssuedOnce<K(!new), S>(ledgers: seq<Ledger<K, S>>, events: seq<Event<K, S>>, i: nat, j: nat)
    requires IsRun(ledgers, events) && i < j < |events| && events[i].Generate? && events[j].Generate?
    requires |ledgers[j].issued| < ID_LIMIT
    ensures ledgers[i].y.onetimeNextId != ledgers[j].y.onetimeNextId
  {
    IssuedGrows(ledgers, events, i, i + 1);
    IssuedGrows(ledgers, events, i + 1, j);
    assert ledgers[i + 1] == Next(ledgers[i], events[i]);
    RunAccounted(ledgers, events, i);
    RunAccounted(ledgers, events, j);
  }
}
