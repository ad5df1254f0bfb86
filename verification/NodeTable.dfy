/** The table of complete subtree roots that is stored beside the log. */
module NodeTable {
  import opened Hashing
  import opened Powers
  import opened Merkle

  datatype TreeNode = TreeNode(level: nat, index: nat, hash: Hash)

  /** The nodes completed by the last element of `P`, where `P` is level `h`: that element,
      and while the level has even length, what the level above gains. */
  function Completed(H: Hasher, P: seq<Hash>, h: nat): seq<TreeNode>
    requires P != []
    decreases |P|
  {
    [TreeNode(h, |P| - 1, P[|P| - 1])] +
    if |P| % 2 == 0 then Completed(H, Pairs(H, P), h + 1) else []
  }

  /** All nodes, leaf by leaf in the order of completion. */
  function NodesOf(H: Hasher, L: seq<Hash>): seq<TreeNode> {
    if L == [] then [] else NodesOf(H, L[..|L| - 1]) + Completed(H, L, 0)
  }

  // ----- What the nodes are

  lemma PairsDropLast(H: Hasher, P: seq<Hash>)
    requires P != []
    ensures Pairs(H, P[..|P| - 1]) == if |P| % 2 == 0 then Pairs(H, P)[..|P| / 2 - 1] else Pairs(H, P)
  {
    var j: nat := (|P| - 1) / 2;
    if |P| == 2 * j + 2 {
      PairsDropEven(H, P, j);
    } else {
      PairsDropOdd(H, P, j);
    }
  }

  lemma PairsDropOdd(H: Hasher, P: seq<Hash>, j: nat)
    requires |P| == 2 * j + 1
    ensures Pairs(H, P[..2 * j]) == Pairs(H, P)
  {
    var A, x := P[..2 * j], P[2 * j];
    assert P == A + [x];
    PairsOfTwoMore(H, A, x, x);
  }

  lemma PairsDropEven(H: Hasher, P: seq<Hash>, j: nat)
    requires |P| == 2 * j + 2
    ensures Pairs(H, P[..2 * j + 1]) == Pairs(H, P)[..j]
  {
    var A, x, y := P[..2 * j], P[2 * j], P[2 * j + 1];
    assert P == A + [x, y] && P[..2 * j + 1] == A + [x];
    PairsOfTwoMore(H, A, x, y);
  }

  lemma PairsOfTwoMore(H: Hasher, A: seq<Hash>, x: Hash, y: Hash)
    requires |A| % 2 == 0
    ensures Pairs(H, A + [x]) == Pairs(H, A) && Pairs(H, A + [x, y]) == Pairs(H, A) + [H.Node(x, y)]
  {
    PairsConcat(H, A, [x]);
    PairsConcat(H, A, [x, y]);
    assert Pairs(H, A) + [] == Pairs(H, A);
    assert Pairs(H, [x, y]) == [H.Node(x, y)] + Pairs(H, [x, y][2..]);
  }

  /** `node` is completed by the last element of `P`, by recursion on the levels. */
  predicate IsCompleted(H: Hasher, P: seq<Hash>, h: nat, node: TreeNode)
    requires P != []
    decreases |P|
  {
    || node == TreeNode(h, |P| - 1, P[|P| - 1])
    || (|P| % 2 == 0 && IsCompleted(H, Pairs(H, P), h + 1, node))
  }

  lemma InConcat<T>(a: seq<T>, b: seq<T>, x: T)
    ensures x in a + b <==> x in a || x in b
  {
  }

  lemma {:induction false} CompletedMembers(H: Hasher, P: seq<Hash>, h: nat, node: TreeNode)
    requires P != []
    ensures node in Completed(H, P, h) <==> IsCompleted(H, P, h, node)
    decreases |P|
  {
    var first := [TreeNode(h, |P| - 1, P[|P| - 1])];
    if |P| % 2 == 0 {
      var up := Pairs(H, P);
      CompletedMembers(H, up, h + 1, node);
      InConcat(first, Completed(H, up, h + 1), node);
    }
  }

  lemma {:induction false} CompletedAbove(H: Hasher, P: seq<Hash>, h: nat, node: TreeNode)
    requires P != [] && IsCompleted(H, P, h, node)
    ensures node.level >= h
    ensures node.level == h ==> node == TreeNode(h, |P| - 1, P[|P| - 1])
    decreases |P|
  {
    if node != TreeNode(h, |P| - 1, P[|P| - 1]) {
      CompletedAbove(H, Pairs(H, P), h + 1, node);
    }
  }

  /** Leaf by leaf, a level only grows at its end. */
  lemma {:induction false} LevelGrows(H: Hasher, P: seq<Hash>, h: nat)
    requires P != []
    ensures Level(H, P[..|P| - 1], h) <= Level(H, P, h)
    decreases h
  {
    if h > 0 {
      var Q := P[..|P| - 1];
      PairsDropLast(H, P);
      LevelOfPairs(H, P, h - 1);
      LevelOfPairs(H, Q, h - 1);
      if |P| % 2 == 0 {
        LevelGrows(H, Pairs(H, P), h - 1);
      }
    }
  }

  /** `now` has `x` at place `i`, which is past the end of `before`. */
  predicate Gained(before: seq<Hash>, now: seq<Hash>, i: nat, x: Hash) {
    |before| <= i < |now| && x == now[i]
  }

  lemma LevelsOneUp(H: Hasher, P: seq<Hash>, h: nat)
    requires P != [] && h > 0
    ensures Level(H, P, h) == Level(H, Pairs(H, P), h - 1)
    ensures |P| % 2 == 0 ==>
              && Pairs(H, P) != []
              && Level(H, P[..|P| - 1], h) == Level(H, Pairs(H, P)[..|Pairs(H, P)| - 1], h - 1)
    ensures |P| % 2 == 1 ==> Level(H, P[..|P| - 1], h) == Level(H, P, h)
  {
    PairsDropLast(H, P);
    LevelOfPairs(H, P, h - 1);
    LevelOfPairs(H, P[..|P| - 1], h - 1);
  }

  lemma CompletedHere(H: Hasher, P: seq<Hash>, b: nat, i: nat, x: Hash)
    requires P != []
    ensures IsCompleted(H, P, b, TreeNode(b, i, x)) <==> i == |P| - 1 && x == P[i]
  {
    if IsCompleted(H, P, b, TreeNode(b, i, x)) {
      CompletedAbove(H, P, b, TreeNode(b, i, x));
    }
  }

  /** The last leaf completes the nodes by which each level grew. */
  lemma {:induction false} CompletedExactly(H: Hasher, P: seq<Hash>, b: nat, h: nat, i: nat, x: Hash)
    requires P != []
    ensures IsCompleted(H, P, b, TreeNode(b + h, i, x)) <==>
            Gained(Level(H, P[..|P| - 1], h), Level(H, P, h), i, x)
    decreases h
  {
    if h == 0 {
      CompletedHere(H, P, b, i, x);
    } else {
      LevelsOneUp(H, P, h);
      if |P| % 2 == 0 {
        CompletedExactly(H, Pairs(H, P), b + 1, h - 1, i, x);
      }
    }
  }

  lemma GainedOrHad(before: seq<Hash>, now: seq<Hash>, i: nat, x: Hash)
    requires before <= now
    ensures (i < |before| && x == before[i]) || Gained(before, now, i, x) <==> i < |now| && x == now[i]
  {
  }

  lemma NodesGain(H: Hasher, L: seq<Hash>, node: TreeNode)
    requires L != []
    ensures node in NodesOf(H, L) <==> node in NodesOf(H, L[..|L| - 1]) || IsCompleted(H, L, 0, node)
  {
    CompletedMembers(H, L, 0, node);
    InConcat(NodesOf(H, L[..|L| - 1]), Completed(H, L, 0), node);
  }

  /** Exactness: the nodes are those of the complete aligned subtrees, and no others. */
  lemma {:induction false} NodesExactly(H: Hasher, L: seq<Hash>, h: nat, i: nat, x: Hash)
    ensures TreeNode(h, i, x) in NodesOf(H, L) <==> i < |Level(H, L, h)| && x == Level(H, L, h)[i]
    decreases |L|
  {
    if L == [] {
      LevelLength(H, L, h);
      ShrPositive(0, h);
    } else {
      var Q, node := L[..|L| - 1], TreeNode(h, i, x);
      NodesExactly(H, Q, h, i, x);
      NodesGain(H, L, node);
      CompletedExactly(H, L, 0, h, i, x);
      LevelGrows(H, L, h);
      GainedOrHad(Level(H, Q, h), Level(H, L, h), i, x);
    }
  }

  /** The same in terms of leaves: node `(h, i)` is there exactly when its `2^h` leaves are,
      and it holds their root. */
  lemma NodesAreSubtrees(H: Hasher, L: seq<Hash>, h: nat, i: nat, x: Hash)
    ensures TreeNode(h, i, x) in NodesOf(H, L) <==>
            && (i + 1) * Pow2(h) <= |L|
            && 0 <= i * Pow2(h) < (i + 1) * Pow2(h)
            && x == Mth(H, L[i * Pow2(h)..(i + 1) * Pow2(h)])
  {
    NodesExactly(H, L, h, i, x);
    LevelLength(H, L, h);
    ShrShl(|L|, h, i);
    ShlIsMul(i, h);
    ShlIsMul(i + 1, h);
    if i < |Level(H, L, h)| {
      LevelIsMth(H, L, h, i);
    }
  }

  // ----- Each node once

  ghost predicate DistinctKeys(nodes: seq<TreeNode>) {
    forall a, b :: 0 <= a < b < |nodes| ==> !SameKey(nodes[a], nodes[b])
  }

  predicate SameKey(a: TreeNode, b: TreeNode) {
    a.level == b.level && a.index == b.index
  }

  lemma DistinctConcat(p: seq<TreeNode>, q: seq<TreeNode>)
    requires DistinctKeys(p) && DistinctKeys(q)
    requires forall x, y :: x in p && y in q ==> !SameKey(x, y)
    ensures DistinctKeys(p + q)
  {
    forall a, b | 0 <= a < b < |p + q|
      ensures !SameKey((p + q)[a], (p + q)[b])
    {
      if a < |p| <= b {
        assert p[a] in p && q[b - |p|] in q;
      }
    }
  }

  lemma {:induction false} CompletedDistinct(H: Hasher, P: seq<Hash>, h: nat)
    requires P != []
    ensures DistinctKeys(Completed(H, P, h))
    decreases |P|
  {
    if |P| % 2 == 0 {
      var up := Pairs(H, P);
      CompletedDistinct(H, up, h + 1);
      forall y | y in Completed(H, up, h + 1)
        ensures y.level > h
      {
        CompletedMembers(H, up, h + 1, y);
        CompletedAbove(H, up, h + 1, y);
      }
      DistinctConcat([TreeNode(h, |P| - 1, P[|P| - 1])], Completed(H, up, h + 1));
    }
  }

  /** No node is emitted twice. */
  lemma {:induction false} NodesDistinct(H: Hasher, L: seq<Hash>)
    ensures DistinctKeys(NodesOf(H, L))
    decreases |L|
  {
    if L != [] {
      var Q := L[..|L| - 1];
      NodesDistinct(H, Q);
      CompletedDistinct(H, L, 0);
      forall x, y | x in NodesOf(H, Q) && y in Completed(H, L, 0)
        ensures !SameKey(x, y)
      {
        OldAndNewDiffer(H, L, Q, x, y);
      }
      DistinctConcat(NodesOf(H, Q), Completed(H, L, 0));
    }
  }

  lemma OldAndNewDiffer(H: Hasher, L: seq<Hash>, Q: seq<Hash>, x: TreeNode, y: TreeNode)
    requires L != [] && Q == L[..|L| - 1] && x in NodesOf(H, Q) && y in Completed(H, L, 0)
    ensures !SameKey(x, y)
  {
    NodesExactly(H, Q, x.level, x.index, x.hash);
    CompletedMembers(H, L, 0, y);
    CompletedExactly(H, L, 0, y.level, y.index, y.hash);
  }

  function OneBits(n: nat): nat {
    if n == 0 then 0 else n % 2 + OneBits(n / 2)
  }

  lemma {:induction false} CompletedCount(H: Hasher, P: seq<Hash>, h: nat)
    requires P != []
    ensures |Completed(H, P, h)| + OneBits(|P|) == 2 + OneBits(|P| - 1)
    decreases |P|
  {
    if |P| % 2 == 0 {
      CompletedCount(H, Pairs(H, P), h + 1);
    }
  }

  /** Twice the number of leaves less the number of one bits in it. */
  lemma {:induction false} NodesCount(H: Hasher, L: seq<Hash>)
    ensures |NodesOf(H, L)| + OneBits(|L|) == 2 * |L|
    decreases |L|
  {
    if L != [] {
      NodesCount(H, L[..|L| - 1]);
      CompletedCount(H, L, 0);
    }
  }

  /** The nodes of a log prefix come first among the nodes of the log. */
  lemma {:induction false} NodesPrefix(H: Hasher, L: seq<Hash>, p: nat)
    requires p <= |L|
    ensures NodesOf(H, L[..p]) <= NodesOf(H, L)
    decreases |L|
  {
    if p == |L| {
      assert L[..p] == L;
    } else {
      var Q := L[..|L| - 1];
      assert Q[..p] == L[..p];
      NodesPrefix(H, Q, p);
    }
  }

  // ----- The stored table

  type Table = map<(nat, nat), Hash>

  /** A batch of puts, in order. */
  function PutAll(table: Table, nodes: seq<TreeNode>): Table {
    if nodes == [] then table
    else
      var n := nodes[|nodes| - 1];
      PutAll(table, nodes[..|nodes| - 1])[(n.level, n.index) := n.hash]
  }

  lemma {:induction false} PutConcat(table: Table, p: seq<TreeNode>, q: seq<TreeNode>)
    ensures PutAll(table, p + q) == PutAll(PutAll(table, p), q)
    decreases |q|
  {
    if q == [] {
      assert p + q == p;
    } else {
      var q' := q[..|q| - 1];
      assert (p + q)[..|p + q| - 1] == p + q';
      PutConcat(table, p, q');
    }
  }

  lemma {:induction false} PutHas(nodes: seq<TreeNode>, key: (nat, nat), x: Hash)
    requires DistinctKeys(nodes)
    ensures key in PutAll(map[], nodes) && PutAll(map[], nodes)[key] == x <==> TreeNode(key.0, key.1, x) in nodes
    decreases |nodes|
  {
    if nodes != [] {
      var front, n := nodes[..|nodes| - 1], nodes[|nodes| - 1];
      PutHas(front, key, x);
      assert nodes == front + [n];
      if (n.level, n.index) == key {
        forall i | 0 <= i < |front| ensures front[i] != TreeNode(key.0, key.1, x) {
          assert !SameKey(nodes[i], nodes[|nodes| - 1]);
        }
      }
    }
  }

  /** The table that a log with leaf hashes `L` calls for. */
  function TableOf(H: Hasher, L: seq<Hash>): Table {
    PutAll(map[], NodesOf(H, L))
  }

  /** The table holds the root of every complete aligned subtree, and nothing else. */
  lemma TableExactly(H: Hasher, L: seq<Hash>, h: nat, i: nat)
    ensures (h, i) in TableOf(H, L) <==> (i + 1) * Pow2(h) <= |L|
    ensures (h, i) in TableOf(H, L) ==>
              && 0 <= i * Pow2(h) < (i + 1) * Pow2(h) <= |L|
              && TableOf(H, L)[(h, i)] == Mth(H, L[i * Pow2(h)..(i + 1) * Pow2(h)])
  {
    NodesDistinct(H, L);
    LevelLength(H, L, h);
    ShrShl(|L|, h, i);
    ShlIsMul(i + 1, h);
    if (h, i) in TableOf(H, L) {
      var x := TableOf(H, L)[(h, i)];
      PutHas(NodesOf(H, L), (h, i), x);
      NodesAreSubtrees(H, L, h, i, x);
    }
    if i < |Level(H, L, h)| {
      var x := Level(H, L, h)[i];
      NodesExactly(H, L, h, i, x);
      PutHas(NodesOf(H, L), (h, i), x);
    }
  }

  /** A table left behind by a crash is never wrong, only short. */
  lemma TableOfPrefix(H: Hasher, L: seq<Hash>, p: nat, key: (nat, nat))
    requires p <= |L| && key in TableOf(H, L[..p])
    ensures key in TableOf(H, L) && TableOf(H, L)[key] == TableOf(H, L[..p])[key]
  {
    var x := TableOf(H, L[..p])[key];
    NodesDistinct(H, L);
    NodesDistinct(H, L[..p]);
    PutHas(NodesOf(H, L[..p]), key, x);
    NodesPrefix(H, L, p);
    PutHas(NodesOf(H, L), key, x);
  }

  /** Writing the nodes of later leaves over the table of earlier ones gives the full table:
      it makes no difference whether the table is built all at once or bit by bit. */
  lemma TableExtends(H: Hasher, L: seq<Hash>, p: nat)
    requires p <= |L|
    ensures |NodesOf(H, L[..p])| <= |NodesOf(H, L)|
    ensures PutAll(TableOf(H, L[..p]), NodesOf(H, L)[|NodesOf(H, L[..p])|..]) == TableOf(H, L)
  {
    var early, all := NodesOf(H, L[..p]), NodesOf(H, L);
    NodesPrefix(H, L, p);
    assert all == early + all[|early|..];
    PutConcat(map[], early, all[|early|..]);
  }
}
