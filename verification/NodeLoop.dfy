/** What the loops that compute the node table produce, and that they produce the table of a
    log without gaps. */
module NodeLoop {
  import opened Wrappers
  import opened Hashing
  import opened Powers
  import opened Merkle
  import opened Sequences
  import opened NodeTable

  type Cache = map<(nat, nat), Hash>

  /** What the loops have produced so far. */
  datatype Emitted = Emitted(nodes: seq<TreeNode>, cache: Cache)

  function Add(e: Emitted, level: nat, index: nat, hash: Hash): Emitted {
    Emitted(e.nodes + [TreeNode(level, index, hash)], e.cache[(level, index) := hash])
  }

  /** The parents that leaf `j` completes, from level `h` on; nothing if a child is not in the
      cache, where the code panics. */
  function Climb(H: Hasher, j: nat, h: nat, e: Emitted): Option<Emitted>
    requires h > 0
    decreases if h < 63 then 63 - h else 0
  {
    if h >= 63 || (j + 1) % Pow2(h) != 0 then Some(e)
    else
      var idx := Shr(j, h);
      if (h - 1, 2 * idx) !in e.cache || (h - 1, 2 * idx + 1) !in e.cache then None
      else Climb(H, j, h + 1, Add(e, h, idx, H.Node(e.cache[(h - 1, 2 * idx)], e.cache[(h - 1, 2 * idx + 1)])))
  }

  function Emit(H: Hasher, leaves: seq<(nat, Hash)>): Option<Emitted> {
    if leaves == [] then Some(Emitted([], map[]))
    else
      var (j, hash) := leaves[|leaves| - 1];
      var before := Emit(H, leaves[..|leaves| - 1]);
      if before.None? then None else Climb(H, j, 1, Add(before.value, 0, j, hash))
  }

  // ----- Leaves without gaps

  /** Shifting tells divisibility by a power of two, as the loop tests it. */
  lemma {:induction false} DividesUp(n: nat, h: nat)
    requires h > 0
    ensures n % Pow2(h) == 0 <==> n % Pow2(h - 1) == 0 && Shr(n, h - 1) % 2 == 0
  {
    var p, q := Pow2(h - 1), Shr(n, h - 1);
    Remainder(n, h - 1);
    Remainder(n, h);
    Distribute(q, p);
    DoubleFactor(q / 2, p);
  }

  lemma Distribute(q: nat, p: nat)
    ensures q * p == 2 * (q / 2 * p) + (if q % 2 == 1 then p else 0)
  {
    var j := q / 2;
    assert q == if q % 2 == 1 then 2 * j + 1 else 2 * j;
  }

  lemma {:induction false} Remainder(n: nat, h: nat)
    ensures n % Pow2(h) == n - Shr(n, h) * Pow2(h)
  {
    var p, q := Pow2(h), Shr(n, h);
    ShlIsMul(q, h);
    ShlIsMul(q + 1, h);
    ShrShl(n, h, q);
    if q > 0 {
      ShrShl(n, h, q - 1);
    }
    UniqueRemainder(n, p, q);
  }

  lemma UniqueRemainder(n: nat, p: nat, q: nat)
    requires p > 0 && q * p <= n < (q + 1) * p
    ensures n % p == n - q * p
  {
    var q', r' := n / p, n % p;
    assert n == q' * p + r';
    assert q' < q ==> (q' + 1) * p <= q * p;
    assert q < q' ==> (q + 1) * p <= q' * p;
  }

  lemma ShrPredecessor(j: nat, h: nat)
    requires (j + 1) % Pow2(h) == 0
    ensures Shr(j + 1, h) == Shr(j, h) + 1
  {
    var s := Shr(j + 1, h);
    Remainder(j + 1, h);
    ShlIsMul(s, h);
    assert s > 0;
    ShlIsMul(s - 1, h);
    ShrShl(j, h, s - 1);
    if s > 1 {
      ShrShl(j, h, s - 2);
      assert (s - 1) * Pow2(h) < s * Pow2(h);
    }
  }

  /** A level that the new leaf completes gains one element. */
  lemma LevelGains(H: Hasher, P: seq<Hash>, x: Hash, h: nat)
    requires (|P| + 1) % Pow2(h) == 0
    ensures
      var now, before := Level(H, P + [x], h), Level(H, P, h);
      && |before| == Shr(|P|, h) && |now| == |before| + 1
      && now == before + [now[|before|]]
  {
    var Q := P + [x];
    ShrPredecessor(|P|, h);
    LevelLength(H, P, h);
    LevelLength(H, Q, h);
    assert Q[..|Q| - 1] == P;
    LevelGrows(H, Q, h);
  }

  /** Above the first level of odd length the new leaf changes nothing. */
  lemma {:induction false} LevelKeeps(H: Hasher, P: seq<Hash>, x: Hash, h: nat, g: nat)
    requires (|P| + 1) % Pow2(h) == 0 && |Level(H, P + [x], h)| % 2 == 1 && h < g
    ensures Level(H, P + [x], g) == Level(H, P, g)
    decreases g
  {
    if g == h + 1 {
      LevelGains(H, P, x, h);
      PairsDropLast(H, Level(H, P + [x], h));
    } else {
      LevelKeeps(H, P, x, h, g - 1);
    }
  }

  /** The cache holds level `h` of `P`. */
  ghost predicate Cached(H: Hasher, P: seq<Hash>, h: nat, cache: map<(nat, nat), Hash>) {
    forall i :: 0 <= i < |Level(H, P, h)| ==> (h, i) in cache && cache[(h, i)] == Level(H, P, h)[i]
  }

  /** The cache in the middle of a leaf: level `g` of `Q` below level `h`, of `P` from there on. */
  ghost predicate CachedUpTo(H: Hasher, P: seq<Hash>, Q: seq<Hash>, h: nat, cache: map<(nat, nat), Hash>) {
    && (forall g: nat :: g < h ==> Cached(H, Q, g, cache))
    && (forall g: nat :: g >= h ==> Cached(H, P, g, cache))
  }

  /** The nodes still to be emitted once those below level `h` are. */
  ghost function Pending(H: Hasher, Q: seq<Hash>, h: nat): seq<TreeNode>
    requires h > 0 && Level(H, Q, h - 1) != []
  {
    if |Level(H, Q, h - 1)| % 2 == 0 then Completed(H, Level(H, Q, h), h) else []
  }

  /** What holds whenever the inner loop for the last leaf of `Q` tests its guard. */
  ghost predicate Climbing(H: Hasher, Q: seq<Hash>, h: nat, nodes: seq<TreeNode>) {
    && h > 0
    && |Q| % Pow2(h - 1) == 0
    && Level(H, Q, h - 1) != []
    && nodes + Pending(H, Q, h) == NodesOf(H, Q)
  }

  lemma ClimbStart(H: Hasher, P: seq<Hash>, x: Hash, Q: seq<Hash>, nodes: seq<TreeNode>)
    requires nodes == NodesOf(H, P) && Q == P + [x]
    ensures Climbing(H, Q, 1, nodes + [TreeNode(0, |P|, x)])
  {
    assert Q[..|P|] == P;
    Reassociate(nodes, [TreeNode(0, |P|, x)], Pending(H, Q, 1));
  }

  lemma StartCache(H: Hasher, P: seq<Hash>, x: Hash, Q: seq<Hash>, cache: map<(nat, nat), Hash>)
    requires Q == P + [x] && forall g: nat :: Cached(H, P, g, cache)
    ensures CachedUpTo(H, P, Q, 1, cache[(0, |P|) := x])
  {
    var cache' := cache[(0, |P|) := x];
    assert Cached(H, P, 0, cache);
    forall g: nat | g >= 1 ensures Cached(H, P, g, cache') {
      assert Cached(H, P, g, cache);
    }
  }

  lemma ClimbGuard(H: Hasher, Q: seq<Hash>, h: nat)
    requires h > 0 && |Q| < TWO_64 / 2
    requires |Q| % Pow2(h - 1) == 0 && Level(H, Q, h - 1) != []
    ensures h < 63 && |Q| % Pow2(h) == 0 <==> |Level(H, Q, h - 1)| % 2 == 0
  {
    DividesUp(|Q|, h);
    LevelLength(H, Q, h - 1);
    if |Level(H, Q, h - 1)| % 2 == 0 {
      ShrPositive(|Q|, h);
      Pow64();
      BitLengthBound(|Q|, 63);
    }
  }

  lemma ClimbStep(H: Hasher, Q: seq<Hash>, h: nat, nodes: seq<TreeNode>, M: seq<Hash>, parent: Hash)
    requires Climbing(H, Q, h, nodes) && |Q| % Pow2(h) == 0
    requires M == Level(H, Q, h - 1) && |M| % 2 == 0 && parent == H.Node(M[|M| - 2], M[|M| - 1])
    ensures Climbing(H, Q, h + 1, nodes + [TreeNode(h, |M| / 2 - 1, parent)])
  {
    var up, node := Pairs(H, M), [TreeNode(h, |M| / 2 - 1, parent)];
    assert up[|up| - 1] == parent by {
      PairsAt(H, M, |M| / 2 - 1);
    }
    assert Level(H, Q, h) == up;
    Reassociate(nodes, node, Pending(H, Q, h + 1));
  }

  lemma StepCache(H: Hasher, P: seq<Hash>, Q: seq<Hash>, h: nat, cache: map<(nat, nat), Hash>, idx: nat, parent: Hash)
    requires CachedUpTo(H, P, Q, h, cache)
    requires Level(H, Q, h) == Level(H, P, h) + [parent] && idx == |Level(H, P, h)|
    ensures CachedUpTo(H, P, Q, h + 1, cache[(h, idx) := parent])
  {
    var cache' := cache[(h, idx) := parent];
    forall g: nat | g < h + 1 ensures Cached(H, Q, g, cache') {
      assert if g < h then Cached(H, Q, g, cache) else Cached(H, P, g, cache);
    }
    forall g: nat | g >= h + 1 ensures Cached(H, P, g, cache') {
      assert Cached(H, P, g, cache);
    }
  }

  lemma ClimbEnd(H: Hasher, Q: seq<Hash>, h: nat, nodes: seq<TreeNode>)
    requires Climbing(H, Q, h, nodes) && |Level(H, Q, h - 1)| % 2 == 1
    ensures nodes == NodesOf(H, Q)
  {
    assert nodes + [] == nodes;
  }

  lemma EndCache(H: Hasher, P: seq<Hash>, x: Hash, Q: seq<Hash>, h: nat, cache: map<(nat, nat), Hash>)
    requires Q == P + [x] && h > 0 && |Q| % Pow2(h - 1) == 0 && |Level(H, Q, h - 1)| % 2 == 1
    requires CachedUpTo(H, P, Q, h, cache)
    ensures forall g: nat :: Cached(H, Q, g, cache)
  {
    forall g: nat ensures Cached(H, Q, g, cache) {
      if g >= h {
        LevelKeeps(H, P, x, h - 1, g);
        assert Cached(H, P, g, cache);
      }
    }
  }

  function Hashes(leaves: seq<(nat, Hash)>): (r: seq<Hash>)
    ensures |r| == |leaves|
  {
    if leaves == [] then [] else Hashes(leaves[..|leaves| - 1]) + [leaves[|leaves| - 1].1]
  }

  lemma NothingCached(H: Hasher, g: nat)
    ensures Cached(H, [], g, map[])
  {
    LevelLength(H, [], g);
    ShrPositive(0, g);
  }

  /** What holds when the climb of the last leaf of `Q` has reached level `h`. */
  ghost predicate AtLevel(H: Hasher, P: seq<Hash>, Q: seq<Hash>, h: nat, e: Emitted) {
    Climbing(H, Q, h, e.nodes) && CachedUpTo(H, P, Q, h, e.cache)
  }

  lemma DenseStep(H: Hasher, P: seq<Hash>, hash: Hash, Q: seq<Hash>, h: nat, e: Emitted)
    requires Q == P + [hash] && AtLevel(H, P, Q, h, e)
    requires (|P| + 1) % Pow2(h) == 0 && |Level(H, Q, h - 1)| % 2 == 0
    ensures
      var idx, c := Shr(|P|, h), e.cache;
      && (h - 1, 2 * idx) in c && (h - 1, 2 * idx + 1) in c
      && AtLevel(H, P, Q, h + 1, Add(e, h, idx, H.Node(c[(h - 1, 2 * idx)], c[(h - 1, 2 * idx + 1)])))
  {
    var M, idx := Level(H, Q, h - 1), Shr(|P|, h);
    LevelGains(H, P, hash, h);
    assert Cached(H, Q, h - 1, e.cache);
    var parent := H.Node(e.cache[(h - 1, 2 * idx)], e.cache[(h - 1, 2 * idx + 1)]);
    ClimbStep(H, Q, h, e.nodes, M, parent);
    PairsAt(H, M, idx);
    StepCache(H, P, Q, h, e.cache, idx, parent);
  }

  /** Climbing from a leaf never misses the cache, and emits what the leaf completes. */
  lemma {:induction false} DenseClimb(H: Hasher, P: seq<Hash>, hash: Hash, Q: seq<Hash>, h: nat, e: Emitted)
    requires Q == P + [hash] && |Q| < TWO_64 / 2 && AtLevel(H, P, Q, h, e)
    ensures
      var r := Climb(H, |P|, h, e);
      r.Some? && r.value.nodes == NodesOf(H, Q) && forall g: nat :: Cached(H, Q, g, r.value.cache)
    decreases if h < 63 then 63 - h else 0
  {
    ClimbGuard(H, Q, h);
    if |Level(H, Q, h - 1)| % 2 == 0 {
      var idx, c := Shr(|P|, h), e.cache;
      DenseStep(H, P, hash, Q, h, e);
      DenseClimb(H, P, hash, Q, h + 1, Add(e, h, idx, H.Node(c[(h - 1, 2 * idx)], c[(h - 1, 2 * idx + 1)])));
    } else {
      ClimbEnd(H, Q, h, e.nodes);
      EndCache(H, P, hash, Q, h, e.cache);
    }
  }

  ghost predicate Dense(leaves: seq<(nat, Hash)>) {
    |leaves| < TWO_64 / 2 && forall i :: 0 <= i < |leaves| ==> leaves[i].0 == i
  }

  /** On leaves numbered from 0 without gaps the loops emit exactly the nodes of the tree. */
  lemma {:induction false} DenseEmit(H: Hasher, leaves: seq<(nat, Hash)>)
    requires Dense(leaves)
    ensures
      var r := Emit(H, leaves);
      && r.Some? && r.value.nodes == NodesOf(H, Hashes(leaves))
      && forall g: nat :: Cached(H, Hashes(leaves), g, r.value.cache)
    decreases |leaves|
  {
    if leaves == [] {
      forall g: nat {
        NothingCached(H, g);
      }
    } else {
      var front, hash := leaves[..|leaves| - 1], leaves[|leaves| - 1].1;
      DenseEmit(H, front);
      var e, P := Emit(H, front).value, Hashes(front);
      ClimbStart(H, P, hash, P + [hash], e.nodes);
      StartCache(H, P, hash, P + [hash], e.cache);
      DenseClimb(H, P, hash, P + [hash], 1, Add(e, 0, |P|, hash));
    }
  }
}
