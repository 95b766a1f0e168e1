/**
 * Topic discovery: two parties exchange salted hashes of their topics and each computes the
 * intersection on its own, then they exchange what they know about other nodes.
 */
module PsiHash {
  import opened Basics

  const ALICE_SALT_BYTE: byte := 0
  const BOB_SALT_BYTE: byte := 1

  // ---------------------------------------------------------------------
  // Hashing and intersecting
  // ---------------------------------------------------------------------

  type Hash<!T> = (T, seq<byte>) -> T

  function HashVector<T>(hash: Hash<T>, topics: seq<T>, salt: seq<byte>): (r: seq<T>)
    ensures |r| == |topics| && forall i :: 0 <= i < |topics| ==> r[i] == hash(topics[i], salt)
  {
    seq(|topics|, i requires 0 <= i < |topics| => hash(topics[i], salt))
  }

  /** The hashes which are sent to the other party. */
  function Hashed<T(==)>(hash: Hash<T>, topics: seq<T>, salt: seq<byte>): (r: set<T>)
    ensures forall t :: t in topics ==> hash(t, salt) in r
    ensures forall h :: h in r ==> exists t :: t in topics && hash(t, salt) == h
  {
    var hashed := HashVector(hash, topics, salt);
    assert forall i :: 0 <= i < |topics| ==> hashed[i] == hash(topics[i], salt);
    set h | h in hashed
  }

  /** The local topics whose hash is among the remote ones. */
  function Matching<T(==)>(hash: Hash<T>, local: seq<T>, remote: set<T>, salt: seq<byte>): (r: set<T>)
  {
    set t | t in local && hash(t, salt) in remote
  }

  method ComputeIntersection<T(==)>(hash: Hash<T>, local: seq<T>, remote: set<T>, salt: seq<byte>)
    returns (intersection: set<T>)
    ensures intersection == Matching(hash, local, remote, salt)
  {
    var hashed := HashVector(hash, local, salt);
    intersection := {};
    for i := 0 to |hashed|
      invariant intersection == Matching(hash, local[..i], remote, salt)
    {
      assert local[..i + 1] == local[..i] + [local[i]];
      if hashed[i] in remote {
        intersection := intersection + {local[i]};
      }
    }
    assert local[..|local|] == local;
  }

  /** Both halves and the byte of the direction, written into one array. */
  method CombineSalt(aliceHalf: array<byte>, bobHalf: array<byte>, pairByte: byte) returns (output: array<byte>)
    requires aliceHalf.Length == 32 && bobHalf.Length == 32
    ensures fresh(output) && output[..] == Salt(aliceHalf[..], bobHalf[..], pairByte)
  {
    output := new byte[65](_ => 0);
    for i := 0 to 32
      invariant output[..i] == aliceHalf[..i]
    {
      output[i] := aliceHalf[i];
    }
    for i := 0 to 32
      invariant output[..32] == aliceHalf[..] && output[32..32 + i] == bobHalf[..i]
    {
      output[32 + i] := bobHalf[i];
    }
    output[64] := pairByte;
    assert output[..] == output[..32] + output[32..64] + [output[64]];
  }

  function Salt(aliceHalf: seq<byte>, bobHalf: seq<byte>, pairByte: byte): (r: seq<byte>)
  {
    aliceHalf + bobHalf + [pairByte]
  }

  /** Different halves or directions never share a salt. */
  lemma SaltInjective(a: seq<byte>, b: seq<byte>, p: byte, a': seq<byte>, b': seq<byte>, p': byte)
    requires |a| == |a'| && |b| == |b'| && Salt(a, b, p) == Salt(a', b', p')
    ensures a == a' && b == b' && p == p'
  {
    var s, s' := Salt(a, b, p), Salt(a', b', p');
    assert a == s[..|a|] && a' == s'[..|a|];
    assert b == s[|a|..|a| + |b|] && b' == s'[|a|..|a| + |b|];
    assert p == s[|a| + |b|] && p' == s'[|a| + |b|];
  }

  /** Where the parts of a salt are, and how the two directions differ. */
  lemma SaltLayout(a: seq<byte>, b: seq<byte>, p: byte)
    requires |a| == 32 && |b| == 32
    ensures |Salt(a, b, p)| == 65 && Salt(a, b, p)[..32] == a && Salt(a, b, p)[32..64] == b && Salt(a, b, p)[64] == p
    ensures Salt(a, b, ALICE_SALT_BYTE)[64] == 0 && Salt(a, b, BOB_SALT_BYTE)[64] == 1
  {
  }

  /** A topic of `a` which is not one of `b` but has the same hash as one of them. */
  ghost predicate Collides<T(!new)>(hash: Hash<T>, a: seq<T>, b: seq<T>, salt: seq<byte>)
  {
    exists t, u :: t in a && t !in b && u in b && hash(t, salt) == hash(u, salt)
  }

  ghost function Common<T>(a: seq<T>, b: seq<T>): (r: set<T>)
  {
    set t | t in a && t in b
  }

  /** Matching against hashes finds the true intersection, exactly if no foreign topic collides. */
  lemma MatchingIsCommon<T(!new)>(hash: Hash<T>, a: seq<T>, b: seq<T>, salt: seq<byte>)
    ensures Common(a, b) <= Matching(hash, a, Hashed(hash, b, salt), salt)
    ensures Matching(hash, a, Hashed(hash, b, salt), salt) == Common(a, b) <==> !Collides(hash, a, b, salt)
  {
    var m := Matching(hash, a, Hashed(hash, b, salt), salt);
    forall t | t in Common(a, b) ensures t in m {
      assert hash(t, salt) in Hashed(hash, b, salt);
    }
    forall t | t in m ensures exists u :: u in b && hash(u, salt) == hash(t, salt) {
    }
    if Collides(hash, a, b, salt) {
      var t, u :| t in a && t !in b && u in b && hash(t, salt) == hash(u, salt);
      assert hash(u, salt) in Hashed(hash, b, salt);
      assert t in m && t !in Common(a, b);
    }
  }

  // ---------------------------------------------------------------------
  // The parties
  // ---------------------------------------------------------------------

  datatype Message<T(==), I> =
    | AliceSaltHalf(half: seq<byte>)
    | BobSaltHalfAndHashedData(half: seq<byte>, hashes: set<T>)
    | AliceHashedData(hashes: set<T>)
    | Nodes(infos: I)

  datatype Error = Stream | UnexpectedMessage | LocalFailure

  /** The next item of a stream: a message, a transport error, or its end. */
  datatype Incoming<T(==), I> = Arrived(message: Message<T, I>) | Broken | Closed

  /** What both parties bring along; infos about nodes depend on the common topics. */
  datatype Setup<!T(==), I> = Setup(
    hash: Hash<T>,
    aliceHalf: seq<byte>, aliceTopics: seq<T>, aliceInfos: set<T> -> I,
    bobHalf: seq<byte>, bobTopics: seq<T>, bobInfos: set<T> -> I)

  datatype Alice<T(==), I> =
    | AliceStarts
    | AliceAwaitsHashes
    | AliceAwaitsNodes(topics: set<T>)
    | AliceDone(topics: set<T>, infos: I)
    | AliceFailed(error: Error)

  datatype Bob<T(==), I> =
    | BobAwaitsSalt
    | BobAwaitsHashes(aliceHalf: seq<byte>)
    | BobAwaitsNodes(topics: set<T>)
    | BobDone(topics: set<T>, infos: I)
    | BobFailed(error: Error)

  /** Alice up to her next wait: her new state and what she sends. */
  function AliceStep<T(==), I>(s: Setup<T, I>, a: Alice<T, I>, item: Incoming<T, I>)
    : (r: (Alice<T, I>, seq<Message<T, I>>))
  {
    match a
    case AliceStarts => (AliceAwaitsHashes, [AliceSaltHalf(s.aliceHalf)])
    case AliceAwaitsHashes =>
      if !item.Arrived? then (AliceFailed(Stream), [])
      else if !item.message.BobSaltHalfAndHashedData? then (AliceFailed(UnexpectedMessage), [])
      else
        var bobHalf := item.message.half;
        (AliceAwaitsNodes(Matching(s.hash, s.aliceTopics, item.message.hashes, Salt(s.aliceHalf, bobHalf, BOB_SALT_BYTE))),
         [AliceHashedData(Hashed(s.hash, s.aliceTopics, Salt(s.aliceHalf, bobHalf, ALICE_SALT_BYTE)))])
    case AliceAwaitsNodes(topics) =>
      if !item.Arrived? then (AliceFailed(Stream), [])
      else if !item.message.Nodes? then (AliceFailed(UnexpectedMessage), [])
      else (AliceDone(topics, item.message.infos), [Nodes(s.aliceInfos(topics))])
    case _ => (a, [])
  }

  function BobStep<T(==), I>(s: Setup<T, I>, b: Bob<T, I>, item: Incoming<T, I>): (r: (Bob<T, I>, seq<Message<T, I>>))
  {
    match b
    case BobAwaitsSalt =>
      if !item.Arrived? then (BobFailed(Stream), [])
      else if !item.message.AliceSaltHalf? then (BobFailed(UnexpectedMessage), [])
      else
        var aliceHalf := item.message.half;
        (BobAwaitsHashes(aliceHalf),
         [BobSaltHalfAndHashedData(s.bobHalf, Hashed(s.hash, s.bobTopics, Salt(aliceHalf, s.bobHalf, BOB_SALT_BYTE)))])
    case BobAwaitsHashes(aliceHalf) =>
      if !item.Arrived? then (BobFailed(Stream), [])
      else if !item.message.AliceHashedData? then (BobFailed(UnexpectedMessage), [])
      else
        var topics := Matching(s.hash, s.bobTopics, item.message.hashes, Salt(aliceHalf, s.bobHalf, ALICE_SALT_BYTE));
        (BobAwaitsNodes(topics), [Nodes(s.bobInfos(topics))])
    case BobAwaitsNodes(topics) =>
      if !item.Arrived? then (BobFailed(Stream), [])
      else if !item.message.Nodes? then (BobFailed(UnexpectedMessage), [])
      else (BobDone(topics, item.message.infos), [])
    case _ => (b, [])
  }

  predicate AliceEnded<T(==), I>(a: Alice<T, I>) { a.AliceDone? || a.AliceFailed? }

  predicate BobEnded<T(==), I>(b: Bob<T, I>) { b.BobDone? || b.BobFailed? }

  // ---------------------------------------------------------------------
  // Both parties over two channels
  // ---------------------------------------------------------------------

  datatype Net<T(==), I> = Net(
    alice: Alice<T, I>, bob: Bob<T, I>, toBob: seq<Message<T, I>>, toAlice: seq<Message<T, I>>)

  datatype Move = AliceMoves | BobMoves | AliceFaults | BobFaults

  ghost function Start<T, I>(): (r: Net<T, I>)
  {
    Net(AliceStarts, BobAwaitsSalt, [], [])
  }

  /** A party can move unless it waits on an empty channel whose other end is still there. */
  ghost predicate Enabled<T, I>(n: Net<T, I>, m: Move)
  {
    match m
    case AliceMoves => !AliceEnded(n.alice) && (n.alice.AliceStarts? || n.toAlice != [] || BobEnded(n.bob))
    case BobMoves => !BobEnded(n.bob) && (n.toBob != [] || AliceEnded(n.alice))
    case AliceFaults => !AliceEnded(n.alice)
    case BobFaults => !BobEnded(n.bob)
  }

  ghost function Next<T, I>(s: Setup<T, I>, n: Net<T, I>, m: Move): (r: Net<T, I>)
    requires Enabled(n, m)
  {
    match m
    case AliceMoves =>
      if n.alice.AliceStarts? then
        var (alice, sent) := AliceStep(s, n.alice, Closed);
        n.(alice := alice, toBob := n.toBob + sent)
      else if n.toAlice == [] then n.(alice := AliceStep(s, n.alice, Closed).0)
      else
        var (alice, sent) := AliceStep(s, n.alice, Arrived(n.toAlice[0]));
        n.(alice := alice, toBob := n.toBob + sent, toAlice := n.toAlice[1..])
    case BobMoves =>
      if n.toBob == [] then n.(bob := BobStep(s, n.bob, Closed).0)
      else
        var (bob, sent) := BobStep(s, n.bob, Arrived(n.toBob[0]));
        n.(bob := bob, toAlice := n.toAlice + sent, toBob := n.toBob[1..])
    case AliceFaults => n.(alice := AliceFailed(LocalFailure))
    case BobFaults => n.(bob := BobFailed(LocalFailure))
  }

  ghost function AliceSalt<T, I>(s: Setup<T, I>): (r: seq<byte>) { Salt(s.aliceHalf, s.bobHalf, ALICE_SALT_BYTE) }

  ghost function BobSalt<T, I>(s: Setup<T, I>): (r: seq<byte>) { Salt(s.aliceHalf, s.bobHalf, BOB_SALT_BYTE) }

  ghost function AliceTopics<T, I>(s: Setup<T, I>): (r: set<T>)
  {
    Matching(s.hash, s.aliceTopics, Hashed(s.hash, s.bobTopics, BobSalt(s)), BobSalt(s))
  }

  ghost function BobTopics<T, I>(s: Setup<T, I>): (r: set<T>)
  {
    Matching(s.hash, s.bobTopics, Hashed(s.hash, s.aliceTopics, AliceSalt(s)), AliceSalt(s))
  }

  const LAST: nat := 6

  /** The state after `k` moves without faults. */
  ghost function At<T, I>(s: Setup<T, I>, k: nat): (r: Net<T, I>)
    requires k <= LAST
  {
    match k
    case 0 => Start()
    case 1 => Net(AliceAwaitsHashes, BobAwaitsSalt, [AliceSaltHalf(s.aliceHalf)], [])
    case 2 => Net(AliceAwaitsHashes, BobAwaitsHashes(s.aliceHalf), [],
                  [BobSaltHalfAndHashedData(s.bobHalf, Hashed(s.hash, s.bobTopics, BobSalt(s)))])
    case 3 => Net(AliceAwaitsNodes(AliceTopics(s)), BobAwaitsHashes(s.aliceHalf),
                  [AliceHashedData(Hashed(s.hash, s.aliceTopics, AliceSalt(s)))], [])
    case 4 => Net(AliceAwaitsNodes(AliceTopics(s)), BobAwaitsNodes(BobTopics(s)), [], [Nodes(s.bobInfos(BobTopics(s)))])
    case 5 => Net(AliceDone(AliceTopics(s), s.bobInfos(BobTopics(s))), BobAwaitsNodes(BobTopics(s)),
                  [Nodes(s.aliceInfos(AliceTopics(s)))], [])
    case _ => Net(AliceDone(AliceTopics(s), s.bobInfos(BobTopics(s))),
                  BobDone(BobTopics(s), s.aliceInfos(AliceTopics(s))), [], [])
  }

  /** Whoever has not failed is where a run without faults would be. */
  ghost predicate Follows<T, I>(s: Setup<T, I>, n: Net<T, I>, k: nat)
  {
    && k <= LAST
    && (n.alice.AliceFailed? || (n.alice == At(s, k).alice && n.toAlice == At(s, k).toAlice))
    && (n.bob.BobFailed? || (n.bob == At(s, k).bob && n.toBob == At(s, k).toBob))
  }

  ghost predicate Inv<T(!new), I(!new)>(s: Setup<T, I>, n: Net<T, I>)
  {
    exists k: nat :: Follows(s, n, k)
  }

  lemma AlicePreserves<T(!new), I(!new)>(s: Setup<T, I>, n: Net<T, I>, k: nat)
    requires Enabled(n, AliceMoves) && Follows(s, n, k)
    ensures Follows(s, Next(s, n, AliceMoves), k) || Follows(s, Next(s, n, AliceMoves), k + 1)
    ensures n == At(s, k) ==> k < LAST && Next(s, n, AliceMoves) == At(s, k + 1)
  {
  }

  lemma BobPreserves<T(!new), I(!new)>(s: Setup<T, I>, n: Net<T, I>, k: nat)
    requires Enabled(n, BobMoves) && Follows(s, n, k)
    ensures Follows(s, Next(s, n, BobMoves), k) || Follows(s, Next(s, n, BobMoves), k + 1)
    ensures n == At(s, k) ==> k < LAST && Next(s, n, BobMoves) == At(s, k + 1)
  {
  }

  lemma MovePreserves<T(!new), I(!new)>(s: Setup<T, I>, n: Net<T, I>, m: Move, k: nat)
    requires Enabled(n, m) && Follows(s, n, k)
    ensures Follows(s, Next(s, n, m), k) || Follows(s, Next(s, n, m), k + 1)
    ensures n == At(s, k) && (m.AliceMoves? || m.BobMoves?) ==> k < LAST && Next(s, n, m) == At(s, k + 1)
  {
    match m
    case AliceMoves => AlicePreserves(s, n, k);
    case BobMoves => BobPreserves(s, n, k);
    case AliceFaults => assert Follows(s, Next(s, n, m), k);
    case BobFaults => assert Follows(s, Next(s, n, m), k);
  }

  ghost predicate IsRun<T(!new), I(!new)>(s: Setup<T, I>, states: seq<Net<T, I>>, moves: seq<Move>)
  {
    && |states| == |moves| + 1
    && states[0] == Start()
    && forall i :: 0 <= i < |moves| ==> Enabled(states[i], moves[i]) && states[i + 1] == Next(s, states[i], moves[i])
  }

  lemma {:induction false} RunFollows<T(!new), I(!new)>(
    s: Setup<T, I>, states: seq<Net<T, I>>, moves: seq<Move>, i: nat) returns (k: nat)
    requires IsRun(s, states, moves) && i <= |moves|
    ensures Follows(s, states[i], k)
  {
    if i == 0 {
      k := 0;
    } else {
      k := RunFollows(s, states, moves, i - 1);
      MovePreserves(s, states[i - 1], moves[i - 1], k);
      if !Follows(s, states[i], k) {
        k := k + 1;
      }
    }
  }

  /** Steps a party can still take. */
  ghost function StepsLeft<T, I>(n: Net<T, I>): (r: nat)
  {
    (match n.alice
     case AliceStarts => 3
     case AliceAwaitsHashes => 2
     case AliceAwaitsNodes(_) => 1
     case _ => 0) +
    (match n.bob
     case BobAwaitsSalt => 3
     case BobAwaitsHashes(_) => 2
     case BobAwaitsNodes(_) => 1
     case _ => 0)
  }

  lemma StepTaken<T, I>(s: Setup<T, I>, n: Net<T, I>, m: Move)
    requires Enabled(n, m)
    ensures StepsLeft(Next(s, n, m)) < StepsLeft(n)
  {
  }

  lemma {:induction false} RunsEnd<T(!new), I(!new)>(
    s: Setup<T, I>, states: seq<Net<T, I>>, moves: seq<Move>, i: nat)
    requires IsRun(s, states, moves) && i <= |moves|
    ensures i + StepsLeft(states[i]) <= LAST
  {
    if i > 0 {
      RunsEnd(s, states, moves, i - 1);
      assert Enabled(states[i - 1], moves[i - 1]) && states[i] == Next(s, states[i - 1], moves[i - 1]);
      StepTaken(s, states[i - 1], moves[i - 1]);
    }
  }

  /**
   * Every run, with any party failing at any point, has at most six moves; it only stops once both
   * parties have ended; and whoever ends without an error has the topics matching the other's hashes.
   */
  lemma RunSafe<T(!new), I(!new)>(s: Setup<T, I>, states: seq<Net<T, I>>, moves: seq<Move>)
    requires IsRun(s, states, moves)
    ensures |moves| <= LAST
    ensures var n := states[|moves|];
      && ((AliceEnded(n.alice) && BobEnded(n.bob)) || Enabled(n, AliceMoves) || Enabled(n, BobMoves))
      && (AliceEnded(n.alice) || Enabled(n, AliceFaults)) && (BobEnded(n.bob) || Enabled(n, BobFaults))
      && (n.alice.AliceDone? ==> n.alice.topics == AliceTopics(s) && n.alice.infos == s.bobInfos(BobTopics(s)))
      && (n.bob.BobDone? ==> n.bob.topics == BobTopics(s) && n.bob.infos == s.aliceInfos(AliceTopics(s)))
      && (n.bob.BobDone? ==> n.alice.AliceDone?)
  {
    RunsEnd(s, states, moves, |moves|);
    var k := RunFollows(s, states, moves, |moves|);
    BobEndsLast(s, states, moves, |moves|);
  }

  /** Bob has Alice's last message, so she has ended before him. */
  lemma {:induction false} BobEndsLast<T(!new), I(!new)>(
    s: Setup<T, I>, states: seq<Net<T, I>>, moves: seq<Move>, i: nat)
    requires IsRun(s, states, moves) && i <= |moves|
    ensures states[i].bob.BobDone? ==> states[i].alice.AliceDone?
    ensures !states[i].bob.BobFailed? && states[i].toBob != [] && states[i].toBob[0].Nodes? ==> states[i].alice.AliceDone?
  {
    if i > 0 {
      BobEndsLast(s, states, moves, i - 1);
      var k := RunFollows(s, states, moves, i - 1);
      assert Enabled(states[i - 1], moves[i - 1]) && states[i] == Next(s, states[i - 1], moves[i - 1]);
    }
  }

  /** Without faults a run cannot get stuck before both parties are done. */
  lemma {:induction false} RunWithoutFaults<T(!new), I(!new)>(
    s: Setup<T, I>, states: seq<Net<T, I>>, moves: seq<Move>, i: nat)
    requires IsRun(s, states, moves) && i <= |moves|
    requires forall m :: m in moves ==> m.AliceMoves? || m.BobMoves?
    ensures i <= LAST && states[i] == At(s, i)
    ensures i < LAST ==> Enabled(states[i], AliceMoves) || Enabled(states[i], BobMoves)
    ensures i == LAST ==> states[i].alice.AliceDone? && states[i].bob.BobDone?
  {
    if i > 0 {
      RunWithoutFaults(s, states, moves, i - 1);
      assert moves[i - 1] in moves;
      MovePreserves(s, states[i - 1], moves[i - 1], i - 1);
    }
  }

  /**
   * Both parties find the same topics exactly if neither has a foreign topic whose hash collides with one
   * of the other's topics, and then they have found the true intersection.
   */
  lemma Agreement<T(!new), I(!new)>(s: Setup<T, I>)
    ensures AliceTopics(s) == BobTopics(s) <==>
            !Collides(s.hash, s.aliceTopics, s.bobTopics, BobSalt(s)) &&
            !Collides(s.hash, s.bobTopics, s.aliceTopics, AliceSalt(s))
    ensures AliceTopics(s) == BobTopics(s) <==>
            AliceTopics(s) == Common(s.aliceTopics, s.bobTopics) && BobTopics(s) == Common(s.aliceTopics, s.bobTopics)
  {
    MatchingIsCommon(s.hash, s.aliceTopics, s.bobTopics, BobSalt(s));
    MatchingIsCommon(s.hash, s.bobTopics, s.aliceTopics, AliceSalt(s));
    assert Common(s.aliceTopics, s.bobTopics) == Common(s.bobTopics, s.aliceTopics);
    if AliceTopics(s) == BobTopics(s) {
      forall t | t in AliceTopics(s) ensures t in Common(s.aliceTopics, s.bobTopics) {
        assert t in s.aliceTopics && t in BobTopics(s);
      }
      assert AliceTopics(s) == Common(s.aliceTopics, s.bobTopics);
    }
  }

  /** Hashes under different salts never meet. */
  ghost predicate Separates<T(!new)>(hash: Hash<T>)
  {
    forall t, u, p, q :: hash(t, p) == hash(u, q) ==> p == q
  }

  lemma ReplayMatchesNothing<T(!new)>(hash: Hash<T>, topics: seq<T>, others: seq<T>, a: seq<byte>, b: seq<byte>)
    requires Separates(hash)
    ensures Matching(hash, topics, Hashed(hash, others, Salt(a, b, ALICE_SALT_BYTE)), Salt(a, b, BOB_SALT_BYTE)) == {}
    ensures Matching(hash, topics, Hashed(hash, others, Salt(a, b, BOB_SALT_BYTE)), Salt(a, b, ALICE_SALT_BYTE)) == {}
  {
    if Salt(a, b, ALICE_SALT_BYTE) == Salt(a, b, BOB_SALT_BYTE) {
      SaltInjective(a, b, ALICE_SALT_BYTE, a, b, BOB_SALT_BYTE);
    }
  }

  /** Whatever half the other party names, a party which gets its own hashes back finds nothing in common. */
  lemma ReplayFindsNothing<T(!new), I(!new)>(s: Setup<T, I>, half: seq<byte>)
    requires Separates(s.hash)
    ensures var own := Hashed(s.hash, s.aliceTopics, Salt(s.aliceHalf, half, ALICE_SALT_BYTE));
      AliceStep(s, AliceAwaitsHashes, Arrived(BobSaltHalfAndHashedData(half, own))).0 == AliceAwaitsNodes({})
    ensures var own := Hashed(s.hash, s.bobTopics, Salt(half, s.bobHalf, BOB_SALT_BYTE));
      BobStep(s, BobAwaitsHashes(half), Arrived(AliceHashedData(own))).0 == BobAwaitsNodes({})
  {
    ReplayMatchesNothing(s.hash, s.aliceTopics, s.aliceTopics, s.aliceHalf, half);
    ReplayMatchesNothing(s.hash, s.bobTopics, s.bobTopics, half, s.bobHalf);
  }

  // ---------------------------------------------------------------------
  // One party against an arbitrary stream
  // ---------------------------------------------------------------------

  function Item<T(==), I>(rx: seq<Incoming<T, I>>, i: nat): (r: Incoming<T, I>)
  {
    if i < |rx| then rx[i] else Closed
  }

  /** The initiator as a sequence of sends and receives. */
  method RunAlice<T(==), I>(s: Setup<T, I>, rx: seq<Incoming<T, I>>)
    returns (r: Alice<T, I>, tx: seq<Message<T, I>>)
    ensures AliceEnded(r)
    ensures r.AliceDone? <==> |rx| >= 2 && rx[0].Arrived? && rx[0].message.BobSaltHalfAndHashedData? &&
                              rx[1].Arrived? && rx[1].message.Nodes?
    ensures var a1 := AliceStep(s, AliceStarts, Closed);
      var a2 := AliceStep(s, a1.0, Item(rx, 0));
      var a3 := AliceStep(s, a2.0, Item(rx, 1));
      r == a3.0 && tx == a1.1 + a2.1 + a3.1
  {
    tx := [AliceSaltHalf(s.aliceHalf)];
    var message2 := Item(rx, 0);
    if !message2.Arrived? {
      return AliceFailed(Stream), tx;
    }
    if !message2.message.BobSaltHalfAndHashedData? {
      return AliceFailed(UnexpectedMessage), tx;
    }
    var BobSaltHalfAndHashedData(bobHalf, topicsForAlice) := message2.message;
    var aliceFinalSalt := Salt(s.aliceHalf, bobHalf, ALICE_SALT_BYTE);
    var bobFinalSalt := Salt(s.aliceHalf, bobHalf, BOB_SALT_BYTE);
    var topics := ComputeIntersection(s.hash, s.aliceTopics, topicsForAlice, bobFinalSalt);
    tx := tx + [AliceHashedData(Hashed(s.hash, s.aliceTopics, aliceFinalSalt))];
    var message4 := Item(rx, 1);
    if !message4.Arrived? {
      return AliceFailed(Stream), tx;
    }
    if !message4.message.Nodes? {
      return AliceFailed(UnexpectedMessage), tx;
    }
    tx := tx + [Nodes(s.aliceInfos(topics))];
    r := AliceDone(topics, message4.message.infos);
  }

  /** The accepter as a sequence of receives and sends. */
  method RunBob<T(==), I>(s: Setup<T, I>, rx: seq<Incoming<T, I>>) returns (r: Bob<T, I>, tx: seq<Message<T, I>>)
    ensures BobEnded(r)
    ensures r.BobDone? <==> |rx| >= 3 && rx[0].Arrived? && rx[0].message.AliceSaltHalf? &&
                            rx[1].Arrived? && rx[1].message.AliceHashedData? &&
                            rx[2].Arrived? && rx[2].message.Nodes?
    ensures var b1 := BobStep(s, BobAwaitsSalt, Item(rx, 0));
      var b2 := BobStep(s, b1.0, Item(rx, 1));
      var b3 := BobStep(s, b2.0, Item(rx, 2));
      r == b3.0 && tx == b1.1 + b2.1 + b3.1
  {
    tx := [];
    var message1 := Item(rx, 0);
    if !message1.Arrived? {
      return BobFailed(Stream), tx;
    }
    if !message1.message.AliceSaltHalf? {
      return BobFailed(UnexpectedMessage), tx;
    }
    var aliceHalf := message1.message.half;
    var aliceFinalSalt := Salt(aliceHalf, s.bobHalf, ALICE_SALT_BYTE);
    var bobFinalSalt := Salt(aliceHalf, s.bobHalf, BOB_SALT_BYTE);
    tx := tx + [BobSaltHalfAndHashedData(s.bobHalf, Hashed(s.hash, s.bobTopics, bobFinalSalt))];
    var message3 := Item(rx, 1);
    if !message3.Arrived? {
      return BobFailed(Stream), tx;
    }
    if !message3.message.AliceHashedData? {
      return BobFailed(UnexpectedMessage), tx;
    }
    var topics := ComputeIntersection(s.hash, s.bobTopics, message3.message.hashes, aliceFinalSalt);
    tx := tx + [Nodes(s.bobInfos(topics))];
    var message5 := Item(rx, 2);
    if !message5.Arrived? {
      return BobFailed(Stream), tx;
    }
    if !message5.message.Nodes? {
      return BobFailed(UnexpectedMessage), tx;
    }
    r := BobDone(topics, message5.message.infos);
  }
}
