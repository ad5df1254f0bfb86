/** The same loops on leaves with gaps in their numbers, as a failed write leaves them: when they
    find all that they look up, and what they emit then. */
module NodeGaps {
  import opened Wrappers
  import opened Hashing
  import opened Powers
  import opened Merkle
  import opened NodeTable
  import opened NodeLoop

  /** The last leaf of block `i` of height `h`. */
  function LastLeaf(h: nat, i: nat): nat {
    var end := Shl(i + 1, h);
    if end == 0 then 0 else end - 1
  }

  /** The cache has the blocks whose last leaf is among `numbers`, and those that `j` ends and
      that are lower than `h`. */
  ghost predicate HasKeys(cache: Cache, numbers: seq<nat>, j: nat, h: nat) {
    forall g: nat, i: nat :: (g, i) in cache <==>
      g < 63 && (LastLeaf(g, i) in numbers || (LastLeaf(g, i) == j && g < h))
  }

  /** Leaf `j` finds the left half of every block that it ends. */
  ghost predicate FindsHalves(numbers: seq<nat>, j: nat, h: nat) {
    forall g: nat :: h <= g < 63 && (j + 1) % Pow2(g) == 0 ==> LeftHalf(j, g) in numbers
  }

  /** The last leaf of the left half of the block of height `g` that ends with `j`. */
  function LeftHalf(j: nat, g: nat): int {
    if g == 0 then j else j - Pow2(g - 1)
  }

  lemma {:induction false} ShlPositive(i: nat, h: nat)
    requires i > 0
    ensures Shl(i, h) > 0
  {
    if h > 0 {
      ShlPositive(i, h - 1);
    }
  }

  /** A block ends with `j` exactly when its height divides and its index is `j` shifted. */
  lemma BlockEnds(j: nat, h: nat, i: nat)
    ensures LastLeaf(h, i) == j <==> (j + 1) % Pow2(h) == 0 && i == Shr(j, h)
  {
    ShlPositive(i + 1, h);
    ShlIsMul(i + 1, h);
    var p := Pow2(h);
    if LastLeaf(h, i) == j {
      UniqueRemainder(j + 1, p, i + 1);
      ShrOfBlock(j, h, i);
    }
    if (j + 1) % p == 0 && i == Shr(j, h) {
      ShrPredecessor(j, h);
      Remainder(j + 1, h);
    }
  }

  lemma ShrOfBlock(j: nat, h: nat, i: nat)
    requires Shl(i + 1, h) == j + 1
    ensures Shr(j, h) == i
  {
    ShrShl(j, h, i);
    ShlIsMul(i, h);
    ShlIsMul(i + 1, h);
    if i > 0 {
      ShrShl(j, h, i - 1);
    }
  }

  /** The children of the block of height `h` that `j` ends. */
  lemma Children(j: nat, h: nat)
    requires h > 0 && (j + 1) % Pow2(h) == 0
    ensures LastLeaf(h - 1, 2 * Shr(j, h) + 1) == j && LastLeaf(h - 1, 2 * Shr(j, h)) == LeftHalf(j, h)
  {
    var i, p := Shr(j, h), Pow2(h - 1);
    BlockEnds(j, h, i);
    ShlPositive(i + 1, h);
    ShlDouble(i + 1, h - 1);
    ShlIsMul(2 * i + 1, h - 1);
    ShlIsMul(2 * i + 2, h - 1);
    assert (2 * i + 2) * p == (2 * i + 1) * p + p;
  }

  lemma KeysStep(cache: Cache, numbers: seq<nat>, j: nat, h: nat, parent: Hash)
    requires h < 63 && HasKeys(cache, numbers, j, h) && (j + 1) % Pow2(h) == 0
    ensures HasKeys(cache[(h, Shr(j, h)) := parent], numbers, j, h + 1)
  {
    var cache' := cache[(h, Shr(j, h)) := parent];
    forall g: nat, i: nat
      ensures (g, i) in cache' <==> g < 63 && (LastLeaf(g, i) in numbers || (LastLeaf(g, i) == j && g < h + 1))
    {
      BlockEnds(j, g, i);
    }
  }

  lemma {:induction false} DividesDown(n: nat, h: nat, g: nat)
    requires h <= g && n % Pow2(g) == 0
    ensures n % Pow2(h) == 0
    decreases g
  {
    if h < g {
      DividesUp(n, g);
      DividesDown(n, h, g - 1);
    }
  }

  lemma KeysEnd(cache: Cache, numbers: seq<nat>, j: nat, h: nat, k: nat)
    requires HasKeys(cache, numbers, j, h) && (h >= 63 || (j + 1) % Pow2(h) != 0)
    ensures HasKeys(cache, numbers + [j], k, 0) && FindsHalves(numbers, j, h)
  {
    forall g: nat, i: nat
      ensures (g, i) in cache <==> g < 63 && LastLeaf(g, i) in numbers + [j]
    {
      BlockEnds(j, g, i);
      if h <= g < 63 && LastLeaf(g, i) == j {
        DividesDown(j + 1, h, g);
      }
    }
    forall g: nat | h <= g < 63 ensures (j + 1) % Pow2(g) != 0 {
      if (j + 1) % Pow2(g) == 0 {
        DividesDown(j + 1, h, g);
      }
    }
  }

  /** A climb succeeds exactly when the leaf finds all those halves. */
  lemma {:induction false} ClimbSucceeds(H: Hasher, numbers: seq<nat>, j: nat, h: nat, e: Emitted, k: nat)
    requires h > 0 && HasKeys(e.cache, numbers, j, h)
    ensures Climb(H, j, h, e).Some? <==> FindsHalves(numbers, j, h)
    ensures Climb(H, j, h, e).Some? ==> HasKeys(Climb(H, j, h, e).value.cache, numbers + [j], k, 0)
    decreases if h < 63 then 63 - h else 0
  {
    if h >= 63 || (j + 1) % Pow2(h) != 0 {
      KeysEnd(e.cache, numbers, j, h, k);
    } else {
      var idx, c := Shr(j, h), e.cache;
      Children(j, h);
      if (h - 1, 2 * idx) in c && (h - 1, 2 * idx + 1) in c {
        var parent := H.Node(c[(h - 1, 2 * idx)], c[(h - 1, 2 * idx + 1)]);
        KeysStep(c, numbers, j, h, parent);
        ClimbSucceeds(H, numbers, j, h + 1, Add(e, h, idx, parent), k);
      }
    }
  }

  function Numbers(leaves: seq<(nat, Hash)>): (r: seq<nat>)
    ensures |r| == |leaves|
  {
    if leaves == [] then [] else Numbers(leaves[..|leaves| - 1]) + [leaves[|leaves| - 1].0]
  }

  /** Every number comes after the left halves of all blocks that it ends. */
  ghost predicate Closed(numbers: seq<nat>) {
    forall k :: 0 <= k < |numbers| ==> FindsHalves(numbers[..k], numbers[k], 1)
  }

  lemma ClosedSnoc(numbers: seq<nat>, j: nat)
    ensures Closed(numbers + [j]) <==> Closed(numbers) && FindsHalves(numbers, j, 1)
  {
    var all := numbers + [j];
    forall k | 0 <= k < |numbers| ensures all[..k] == numbers[..k] && all[k] == numbers[k] {
    }
    assert all[..|numbers|] == numbers && all[|numbers|] == j;
    if Closed(all) {
      forall k | 0 <= k < |numbers| ensures FindsHalves(numbers[..k], numbers[k], 1) {
        assert FindsHalves(all[..k], all[k], 1);
      }
    }
  }

  lemma KeysStart(cache: Cache, numbers: seq<nat>, j: nat, hash: Hash)
    requires HasKeys(cache, numbers, j, 0)
    ensures HasKeys(cache[(0, j) := hash], numbers, j, 1)
  {
    forall i: nat ensures LastLeaf(0, i) == i {
    }
  }

  /** The loops succeed exactly on closed lists of numbers, in whatever order they come. */
  lemma {:induction false} EmitSucceeds(H: Hasher, leaves: seq<(nat, Hash)>, k: nat)
    ensures Emit(H, leaves).Some? <==> Closed(Numbers(leaves))
    ensures Emit(H, leaves).Some? ==> HasKeys(Emit(H, leaves).value.cache, Numbers(leaves), k, 0)
    decreases |leaves|
  {
    if leaves != [] {
      var front := leaves[..|leaves| - 1];
      var (j, hash) := leaves[|leaves| - 1];
      EmitSucceeds(H, front, j);
      ClosedSnoc(Numbers(front), j);
      var before := Emit(H, front);
      if before.Some? {
        KeysStart(before.value.cache, Numbers(front), j, hash);
        ClimbSucceeds(H, Numbers(front), j, 1, Add(before.value, 0, j, hash), k);
      }
    }
  }

  /** Block by block: a number of a closed list ends no block of which anything is missing. */
  lemma {:induction false} ClosedBlocks(numbers: seq<nat>, k: nat, h: nat, x: nat)
    requires Closed(numbers) && k < |numbers| && h < 63 && EndsBlock(numbers[k], h, x)
    ensures x in numbers[..k + 1]
    decreases h
  {
    var j := numbers[k];
    assert numbers[..k + 1][k] == j;
    if h > 0 {
      DividesDown(j + 1, h - 1, h);
      if !EndsBlock(j, h - 1, x) {
        assert FindsHalves(numbers[..k], j, 1);
        assert LeftHalf(j, h) in numbers[..k];
        var k' :| 0 <= k' < k && numbers[k'] == LeftHalf(j, h);
        LeftBlock(j, h, x);
        ClosedBlocks(numbers, k', h - 1, x);
        assert numbers[..k' + 1] <= numbers[..k + 1];
      } else {
        ClosedBlocks(numbers, k, h - 1, x);
      }
    }
  }

  /** `x` is in the block of height `h` that ends with `j`. */
  ghost predicate EndsBlock(j: nat, h: nat, x: nat) {
    (j + 1) % Pow2(h) == 0 && x <= j < x + Pow2(h)
  }

  lemma LeftBlock(j: nat, h: nat, x: nat)
    requires h > 0 && EndsBlock(j, h, x) && x <= LeftHalf(j, h)
    ensures EndsBlock(LeftHalf(j, h), h - 1, x)
  {
    var p, i := Pow2(h - 1), Shr(j, h);
    Children(j, h);
    ShlIsMul(2 * i + 1, h - 1);
    ShlPositive(2 * i + 1, h - 1);
    UniqueRemainder(LeftHalf(j, h) + 1, p, 2 * i + 1);
  }

  /** Nothing is missing from any block that a number of the list ends. */
  ghost predicate BlocksComplete(numbers: seq<nat>) {
    forall k, h: nat, x: nat :: 0 <= k < |numbers| && h < 63 && EndsBlock(numbers[k], h, x) ==> x in numbers
  }

  ghost predicate Increasing(numbers: seq<nat>) {
    forall i, j :: 0 <= i < j < |numbers| ==> numbers[i] < numbers[j]
  }

  lemma HalfIsBefore(numbers: seq<nat>, k: nat, h: nat)
    requires Increasing(numbers) && BlocksComplete(numbers) && k < |numbers|
    requires 1 <= h < 63 && (numbers[k] + 1) % Pow2(h) == 0
    ensures LeftHalf(numbers[k], h) in numbers[..k]
  {
    var j, i := numbers[k], Shr(numbers[k], h);
    Children(j, h);
    ShlPositive(2 * i + 1, h - 1);
    assert EndsBlock(j, h, LeftHalf(j, h));
    var k' :| 0 <= k' < |numbers| && numbers[k'] == LeftHalf(j, h);
    assert k' < k;
    assert numbers[..k][k'] == numbers[k'];
  }

  /** For entries in order, the condition said in terms of what is missing. */
  lemma ClosedIsComplete(numbers: seq<nat>)
    requires Increasing(numbers)
    ensures Closed(numbers) <==> BlocksComplete(numbers)
  {
    if Closed(numbers) {
      forall k, h: nat, x: nat | 0 <= k < |numbers| && h < 63 && EndsBlock(numbers[k], h, x) ensures x in numbers {
        ClosedBlocks(numbers, k, h, x);
        assert numbers[..k + 1] <= numbers;
      }
    }
    if BlocksComplete(numbers) {
      forall k, h: nat | 0 <= k < |numbers| && 1 <= h < 63 && (numbers[k] + 1) % Pow2(h) == 0
        ensures LeftHalf(numbers[k], h) in numbers[..k]
      {
        HalfIsBefore(numbers, k, h);
      }
    }
  }

  /** Once the log has reached a number 2^h - 1, a single missing number below it makes the
      loops panic. */
  lemma GapPanics(H: Hasher, leaves: seq<(nat, Hash)>, h: nat, x: nat)
    requires h < 63 && x < Pow2(h) && Pow2(h) - 1 in Numbers(leaves) && x !in Numbers(leaves)
    ensures Emit(H, leaves).None?
  {
    EmitSucceeds(H, leaves, 0);
    ReachesAll(Numbers(leaves), h, x);
  }

  lemma ReachesAll(numbers: seq<nat>, h: nat, x: nat)
    requires h < 63 && x < Pow2(h) && Pow2(h) - 1 in numbers
    ensures Closed(numbers) ==> x in numbers
  {
    if Closed(numbers) {
      var k :| 0 <= k < |numbers| && numbers[k] == Pow2(h) - 1;
      assert EndsBlock(numbers[k], h, x) by {
        UniqueRemainder(Pow2(h), Pow2(h), 1);
      }
      ClosedBlocks(numbers, k, h, x);
      assert numbers[..k + 1] <= numbers;
    }
  }

  // ----- What is emitted

  /** The hash of leaf `n`, where there is one. */
  function Known(f: map<nat, Hash>, n: nat): Hash {
    if n in f then f[n] else ZERO
  }

  /** The leaves of block `i` of height `h`. */
  function Block(f: map<nat, Hash>, h: nat, i: nat): (r: seq<Hash>)
    ensures |r| == Pow2(h)
  {
    if h == 0 then [Known(f, i)] else Block(f, h - 1, 2 * i) + Block(f, h - 1, 2 * i + 1)
  }

  lemma {:induction false} BlockAt(f: map<nat, Hash>, h: nat, i: nat, k: nat)
    requires k < Pow2(h)
    ensures Block(f, h, i)[k] == Known(f, Shl(i, h) + k)
    decreases h
  {
    if h > 0 {
      var p := Pow2(h - 1);
      if k < p {
        ShlDouble(i, h - 1);
        BlockAt(f, h - 1, 2 * i, k);
      } else {
        NextBlock(i, h);
        BlockAt(f, h - 1, 2 * i + 1, k - p);
      }
    }
  }

  lemma NextBlock(i: nat, h: nat)
    requires h > 0
    ensures Shl(2 * i + 1, h - 1) == Shl(i, h) + Pow2(h - 1)
  {
    var p := Pow2(h - 1);
    ShlIsMul(2 * i + 1, h - 1);
    ShlIsMul(2 * i, h - 1);
    ShlDouble(i, h - 1);
    assert (2 * i + 1) * p == 2 * i * p + p;
  }

  lemma BlockRoot(H: Hasher, f: map<nat, Hash>, h: nat, i: nat)
    requires h > 0
    ensures Mth(H, Block(f, h, i)) == H.Node(Mth(H, Block(f, h - 1, 2 * i)), Mth(H, Block(f, h - 1, 2 * i + 1)))
  {
    var left, right := Block(f, h - 1, 2 * i), Block(f, h - 1, 2 * i + 1);
    SplitUnique(Pow2(h), h - 1);
    assert (left + right)[..|left|] == left && (left + right)[|left|..] == right;
  }

  /** All that was produced are roots of blocks, and the nodes are those in the cache. */
  ghost predicate AllRoots(H: Hasher, f: map<nat, Hash>, e: Emitted) {
    && (forall g: nat, i: nat :: (g, i) in e.cache ==> e.cache[(g, i)] == Mth(H, Block(f, g, i)))
    && (forall n :: n in e.nodes ==> (n.level, n.index) in e.cache && n.hash == e.cache[(n.level, n.index)])
    && (forall g: nat, i: nat :: (g, i) in e.cache ==> TreeNode(g, i, e.cache[(g, i)]) in e.nodes)
  }

  lemma AddKeepsRoots(H: Hasher, f: map<nat, Hash>, e: Emitted, level: nat, index: nat, hash: Hash)
    requires AllRoots(H, f, e) && hash == Mth(H, Block(f, level, index))
    ensures AllRoots(H, f, Add(e, level, index, hash))
  {
    var t, node := Add(e, level, index, hash), TreeNode(level, index, hash);
    forall n | n in t.nodes ensures (n.level, n.index) in t.cache && n.hash == t.cache[(n.level, n.index)] {
      assert n in e.nodes || n == node;
    }
    forall g: nat, i: nat | (g, i) in t.cache ensures TreeNode(g, i, t.cache[(g, i)]) in t.nodes {
      if (g, i) == (level, index) {
        assert t.nodes[|e.nodes|] == node;
      } else {
        assert TreeNode(g, i, e.cache[(g, i)]) in e.nodes;
      }
    }
  }

  lemma ParentIsRoot(H: Hasher, f: map<nat, Hash>, e: Emitted, h: nat, i: nat)
    requires h > 0 && AllRoots(H, f, e) && (h - 1, 2 * i) in e.cache && (h - 1, 2 * i + 1) in e.cache
    ensures H.Node(e.cache[(h - 1, 2 * i)], e.cache[(h - 1, 2 * i + 1)]) == Mth(H, Block(f, h, i))
  {
    BlockRoot(H, f, h, i);
  }

  lemma {:induction false} ClimbKeepsRoots(H: Hasher, f: map<nat, Hash>, j: nat, h: nat, e: Emitted)
    requires h > 0 && AllRoots(H, f, e) && Climb(H, j, h, e).Some?
    ensures AllRoots(H, f, Climb(H, j, h, e).value)
    decreases if h < 63 then 63 - h else 0
  {
    if h < 63 && (j + 1) % Pow2(h) == 0 {
      var idx, c := Shr(j, h), e.cache;
      var parent := H.Node(c[(h - 1, 2 * idx)], c[(h - 1, 2 * idx + 1)]);
      ParentIsRoot(H, f, e, h, idx);
      AddKeepsRoots(H, f, e, h, idx, parent);
      ClimbKeepsRoots(H, f, j, h + 1, Add(e, h, idx, parent));
    }
  }

  /** The leaves by their numbers. */
  function ByNumber(leaves: seq<(nat, Hash)>): map<nat, Hash> {
    if leaves == [] then map[]
    else ByNumber(leaves[..|leaves| - 1])[leaves[|leaves| - 1].0 := leaves[|leaves| - 1].1]
  }

  ghost predicate Agrees(leaves: seq<(nat, Hash)>, f: map<nat, Hash>) {
    forall k :: 0 <= k < |leaves| ==> leaves[k].0 in f && f[leaves[k].0] == leaves[k].1
  }

  lemma {:induction false} NumbersAt(leaves: seq<(nat, Hash)>, k: nat)
    requires k < |leaves|
    ensures Numbers(leaves)[k] == leaves[k].0
    decreases |leaves|
  {
    if k < |leaves| - 1 {
      NumbersAt(leaves[..|leaves| - 1], k);
    }
  }

  lemma {:induction false} ByNumberAgrees(leaves: seq<(nat, Hash)>)
    requires Increasing(Numbers(leaves))
    ensures Agrees(leaves, ByNumber(leaves))
    decreases |leaves|
  {
    if leaves != [] {
      var last := |leaves| - 1;
      var front := leaves[..last];
      NumbersFront(leaves);
      ByNumberAgrees(front);
      forall k | 0 <= k < last ensures leaves[k].0 in ByNumber(front) && leaves[k].0 != leaves[last].0 {
        assert front[k] == leaves[k];
        NumbersAt(leaves, k);
        NumbersAt(leaves, last);
      }
    }
  }

  lemma NumbersFront(leaves: seq<(nat, Hash)>)
    requires leaves != [] && Increasing(Numbers(leaves))
    ensures Increasing(Numbers(leaves[..|leaves| - 1]))
  {
    var front, all := Numbers(leaves[..|leaves| - 1]), Numbers(leaves);
    forall i, j | 0 <= i < j < |front| ensures front[i] < front[j] {
      assert all[i] == front[i] && all[j] == front[j];
    }
  }

  lemma {:induction false} EmitsRoots(H: Hasher, leaves: seq<(nat, Hash)>, f: map<nat, Hash>)
    requires Agrees(leaves, f) && Emit(H, leaves).Some?
    ensures AllRoots(H, f, Emit(H, leaves).value)
    decreases |leaves|
  {
    if leaves != [] {
      var front := leaves[..|leaves| - 1];
      var (j, hash) := leaves[|leaves| - 1];
      EmitsRoots(H, front, f);
      var e := Emit(H, front).value;
      assert leaves[|leaves| - 1].0 in f;
      assert Block(f, 0, j) == [hash];
      AddKeepsRoots(H, f, e, 0, j, hash);
      ClimbKeepsRoots(H, f, j, 1, Add(e, 0, j, hash));
    }
  }

  /** With or without gaps: whenever the loops succeed they emit the blocks that a number ends,
      and no others, each with the root of its leaves. */
  lemma EmitExactly(H: Hasher, leaves: seq<(nat, Hash)>, h: nat, i: nat, x: Hash)
    requires Increasing(Numbers(leaves)) && Emit(H, leaves).Some?
    ensures TreeNode(h, i, x) in Emit(H, leaves).value.nodes <==>
            h < 63 && LastLeaf(h, i) in Numbers(leaves) && x == Mth(H, Block(ByNumber(leaves), h, i))
  {
    var e, f := Emit(H, leaves).value, ByNumber(leaves);
    ByNumberAgrees(leaves);
    EmitsRoots(H, leaves, f);
    EmitSucceeds(H, leaves, 0);
    var node := TreeNode(h, i, x);
    if (h, i) in e.cache {
      assert TreeNode(h, i, e.cache[(h, i)]) in e.nodes;
    }
    assert node in e.nodes ==> (node.level, node.index) in e.cache;
  }

  /** And nothing is missing from those blocks: leaf `k` of a block is the leaf of that number. */
  lemma EmittedBlocksAreStored(H: Hasher, leaves: seq<(nat, Hash)>, h: nat, i: nat, k: nat)
    requires Increasing(Numbers(leaves)) && Emit(H, leaves).Some?
    requires h < 63 && LastLeaf(h, i) in Numbers(leaves) && k < Pow2(h)
    ensures HoldsLeaf(leaves, Block(ByNumber(leaves), h, i), k, Shl(i, h) + k)
  {
    SuccessIsComplete(H, leaves);
    CompleteBlockStored(leaves, h, i, k);
  }

  /** Element `k` of `block` is the hash stored under number `n`. */
  ghost predicate HoldsLeaf(leaves: seq<(nat, Hash)>, block: seq<Hash>, k: nat, n: nat) {
    k < |block| && (n, block[k]) in leaves
  }

  lemma SuccessIsComplete(H: Hasher, leaves: seq<(nat, Hash)>)
    requires Increasing(Numbers(leaves)) && Emit(H, leaves).Some?
    ensures BlocksComplete(Numbers(leaves))
  {
    EmitSucceeds(H, leaves, 0);
    ClosedIsComplete(Numbers(leaves));
  }

  lemma CompleteBlockStored(leaves: seq<(nat, Hash)>, h: nat, i: nat, k: nat)
    requires Increasing(Numbers(leaves)) && BlocksComplete(Numbers(leaves))
    requires h < 63 && LastLeaf(h, i) in Numbers(leaves) && k < Pow2(h)
    ensures HoldsLeaf(leaves, Block(ByNumber(leaves), h, i), k, Shl(i, h) + k)
  {
    var n := Shl(i, h) + k;
    var at := BlockMember(Numbers(leaves), h, i, k);
    StoredAt(leaves, at, n);
    StoredInBlock(leaves, ByNumber(leaves), h, i, k);
  }

  lemma StoredInBlock(leaves: seq<(nat, Hash)>, f: map<nat, Hash>, h: nat, i: nat, k: nat)
    requires k < Pow2(h) && Shl(i, h) + k in f && (Shl(i, h) + k, f[Shl(i, h) + k]) in leaves
    ensures HoldsLeaf(leaves, Block(f, h, i), k, Shl(i, h) + k)
  {
    BlockAt(f, h, i, k);
  }

  lemma BlockMember(numbers: seq<nat>, h: nat, i: nat, k: nat) returns (at: nat)
    requires BlocksComplete(numbers) && h < 63 && LastLeaf(h, i) in numbers && k < Pow2(h)
    ensures at < |numbers| && numbers[at] == Shl(i, h) + k
  {
    var end :| 0 <= end < |numbers| && numbers[end] == LastLeaf(h, i);
    InBlock(h, i, k);
    assert EndsBlock(numbers[end], h, Shl(i, h) + k);
    at :| 0 <= at < |numbers| && numbers[at] == Shl(i, h) + k;
  }

  lemma StoredAt(leaves: seq<(nat, Hash)>, at: nat, n: nat)
    requires Increasing(Numbers(leaves)) && at < |leaves| && Numbers(leaves)[at] == n
    ensures n in ByNumber(leaves) && (n, ByNumber(leaves)[n]) in leaves
  {
    NumbersAt(leaves, at);
    AgreesAt(leaves, at);
  }

  lemma AgreesAt(leaves: seq<(nat, Hash)>, at: nat)
    requires Increasing(Numbers(leaves)) && at < |leaves|
    ensures leaves[at].0 in ByNumber(leaves) && ByNumber(leaves)[leaves[at].0] == leaves[at].1
  {
    ByNumberAgrees(leaves);
  }

  lemma InBlock(h: nat, i: nat, k: nat)
    requires k < Pow2(h)
    ensures EndsBlock(LastLeaf(h, i), h, Shl(i, h) + k)
  {
    BlockEnds(LastLeaf(h, i), h, i);
    BlockLength(i, h);
  }

  lemma {:induction false} BlockLength(i: nat, h: nat)
    ensures Shl(i + 1, h) == Shl(i, h) + Pow2(h)
  {
    if h > 0 {
      BlockLength(i, h - 1);
    }
  }
}
