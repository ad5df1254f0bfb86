/** Inclusion proofs: generation top down, verification bottom up. */
module Inclusion {
  import opened Wrappers
  import opened Hashing
  import opened Powers
  import opened Merkle
  import opened Sequences

  datatype ProofError =
    | LeafIndexOutOfRange(index: nat, size: nat)
    | InvalidSizes(oldSize: nat, newSize: nat)

  /** PATH(m, D[n]) of section 2.1.1 of RFC 6962: sibling roots from leaf to root. */
  function Path(H: Hasher, L: seq<Hash>, m: nat): seq<Hash>
    requires m < |L|
    decreases |L|
  {
    if |L| == 1 then []
    else
      var k := Split(|L|);
      if m < k then Path(H, L[..k], m) + [Mth(H, L[k..])]
      else Path(H, L[k..], m - k) + [Mth(H, L[..k])]
  }

  function InclusionProof(H: Hasher, L: seq<Hash>, index: nat): Result<seq<Hash>, ProofError> {
    if index >= |L| then Err(LeafIndexOutOfRange(index, |L|)) else Ok(Path(H, L, index))
  }

  /** Leaf `m` of `n` is the last one of an odd level, so it moves up unchanged. */
  predicate IsLone(m: nat, n: nat) {
    m + 1 == n && m % 2 == 0
  }

  /** The proof element at the level of `L` itself: the sibling of leaf `m`, if any. */
  function Sibling(L: seq<Hash>, m: nat): seq<Hash>
    requires m < |L|
  {
    if IsLone(m, |L|) then [] else [L[if m % 2 == 0 then m + 1 else m - 1]]
  }

  /** The path read bottom up: the sibling at the leaf level, then the path of the
      parent one level up. */
  lemma {:induction false} PathFromLeaf(H: Hasher, L: seq<Hash>, m: nat)
    requires m < |L|
    ensures Path(H, L, m) == Sibling(L, m) + Path(H, Lift(H, L), m / 2)
    decreases |L|
  {
    if |L| <= 2 {
      PathOfTwo(H, L, m);
    } else if m < Split(|L|) {
      PathFromLeaf(H, L[..Split(|L|)], m);
      PathFromLeftLeaf(H, L, m);
    } else {
      var right, i: nat := L[Split(|L|)..], m - Split(|L|);
      PathFromLeaf(H, right, i);
      PathFromRightLeaf(H, L, right, m, i);
    }
  }

  lemma PathOfTwo(H: Hasher, L: seq<Hash>, m: nat)
    requires m < |L| <= 2
    ensures Path(H, L, m) == Sibling(L, m) + Path(H, Lift(H, L), m / 2)
  {
    if |L| == 1 {
      return;
    }
    assert L[..1] == [L[0]] && L[1..] == [L[1]];
    assert Path(H, L[..1], 0) == [] && Path(H, L[1..], 0) == [];
  }

  lemma PathFromLeftLeaf(H: Hasher, L: seq<Hash>, m: nat)
    requires |L| > 2 && m < Split(|L|)
    requires
      var left := L[..Split(|L|)];
      Path(H, left, m) == Sibling(left, m) + Path(H, Lift(H, left), m / 2)
    ensures Path(H, L, m) == Sibling(L, m) + Path(H, Lift(H, L), m / 2)
  {
    var left := L[..Split(|L|)];
    LiftHalves(H, L);
    MthLift(H, L[Split(|L|)..]);
    SiblingLeft(L, Split(|Lift(H, L)|), m);
    PathGlueLeft(H, L, Lift(H, L), m, m / 2, Sibling(L, m), left, Lift(H, left));
  }

  lemma PathFromRightLeaf(H: Hasher, L: seq<Hash>, right: seq<Hash>, m: nat, i: nat)
    requires |L| > 2 && Split(|L|) <= m < |L|
    requires right == L[Split(|L|)..] && i == m - Split(|L|)
    requires Path(H, right, i) == Sibling(right, i) + Path(H, Lift(H, right), i / 2)
    ensures Path(H, L, m) == Sibling(L, m) + Path(H, Lift(H, L), m / 2)
  {
    var left, up, q := L[..Split(|L|)], Lift(H, L), m / 2;
    LiftHalves(H, L);
    MthLift(H, left);
    SiblingRight(L, Split(|up|), m);
    PathGlueRight(H, L, up, m, q, Sibling(right, i), right, Lift(H, right), i, i / 2);
  }

  lemma SiblingLeft(L: seq<Hash>, j: nat, m: nat)
    requires m < 2 * j < |L|
    ensures Sibling(L[..2 * j], m) == Sibling(L, m)
    ensures m / 2 < j
  {
  }

  lemma SiblingRight(L: seq<Hash>, j: nat, m: nat)
    requires 2 * j <= m < |L|
    ensures Sibling(L[2 * j..], m - 2 * j) == Sibling(L, m)
    ensures (m - 2 * j) / 2 == m / 2 - j
  {
  }

  /** Lifting commutes with splitting at the split point. */
  lemma LiftHalves(H: Hasher, L: seq<Hash>)
    requires |L| > 2
    ensures
      var up := Lift(H, L);
      var k, j := Split(|L|), Split(|up|);
      k == 2 * j && up[..j] == Lift(H, L[..k]) && up[j..] == Lift(H, L[k..])
  {
    SplitHalf(|L|);
    LiftSplits(H, L, Split(|Lift(H, L)|));
  }

  lemma PathGlueLeft(H: Hasher, L: seq<Hash>, up: seq<Hash>, m: nat, q: nat, step: seq<Hash>,
                     left: seq<Hash>, upLeft: seq<Hash>)
    requires |L| > 1 && |up| > 1 && m < Split(|L|) && q < Split(|up|)
    requires left == L[..Split(|L|)] && upLeft == up[..Split(|up|)]
    requires Mth(H, L[Split(|L|)..]) == Mth(H, up[Split(|up|)..])
    requires Path(H, left, m) == step + Path(H, upLeft, q)
    ensures Path(H, L, m) == step + Path(H, up, q)
  {
    Reassociate(step, Path(H, upLeft, q), [Mth(H, up[Split(|up|)..])]);
  }

  lemma PathRight(H: Hasher, L: seq<Hash>, m: nat, left: seq<Hash>, right: seq<Hash>, i: nat)
    requires |L| > 1 && Split(|L|) <= m < |L|
    requires left == L[..Split(|L|)] && right == L[Split(|L|)..] && i == m - Split(|L|)
    ensures Path(H, L, m) == Path(H, right, i) + [Mth(H, left)]
  {
  }

  lemma PathGlueRight(H: Hasher, L: seq<Hash>, up: seq<Hash>, m: nat, q: nat, step: seq<Hash>,
                      right: seq<Hash>, upRight: seq<Hash>, i: nat, j: nat)
    requires |L| > 1 && |up| > 1 && Split(|L|) <= m < |L| && Split(|up|) <= q < |up|
    requires right == L[Split(|L|)..] && i == m - Split(|L|)
    requires upRight == up[Split(|up|)..] && j == q - Split(|up|)
    requires Mth(H, L[..Split(|L|)]) == Mth(H, up[..Split(|up|)])
    requires Path(H, right, i) == step + Path(H, upRight, j)
    ensures Path(H, L, m) == step + Path(H, up, q)
  {
    var left, upLeft := L[..Split(|L|)], up[..Split(|up|)];
    PathRight(H, L, m, left, right, i);
    PathRight(H, up, q, upLeft, upRight, j);
    Reassociate(step, Path(H, upRight, j), [Mth(H, upLeft)]);
  }

  /** The number of elements of a path: one per level at which leaf `m` has a sibling. */
  function PathLen(m: nat, n: nat): nat
    requires m < n
    decreases n
  {
    if n == 1 then 0
    else (if IsLone(m, n) then 0 else 1) + PathLen(m / 2, (n + 1) / 2)
  }

  lemma {:induction false} PathHasPathLen(H: Hasher, L: seq<Hash>, m: nat)
    requires m < |L|
    ensures |Path(H, L, m)| == PathLen(m, |L|)
    decreases |L|
  {
    if |L| > 1 {
      PathFromLeaf(H, L, m);
      PathHasPathLen(H, Lift(H, L), m / 2);
    }
  }

  /** A path is never longer than the tree is high. */
  lemma {:induction false} PathLenBound(m: nat, n: nat)
    requires m < n
    ensures PathLen(m, n) <= Height(n)
    decreases n
  {
    if n > 1 {
      PathLenBound(m / 2, (n + 1) / 2);
    }
  }

  lemma {:induction false} PathLenPositive(m: nat, n: nat)
    requires m < n && n > 1
    ensures PathLen(m, n) > 0
    decreases n
  {
    if IsLone(m, n) {
      PathLenPositive(m / 2, (n + 1) / 2);
    }
  }

  /** The root that a proof leads to from hash `r` at index `m` of a level of `n`, one
      level at a time; nothing if the proof is too short or too long. */
  function Replay(H: Hasher, r: Hash, m: nat, n: nat, proof: seq<Hash>): Option<Hash>
    requires m < n
    decreases n
  {
    if n == 1 then if proof == [] then Some(r) else None
    else if IsLone(m, n) then Replay(H, r, m / 2, (n + 1) / 2, proof)
    else if proof == [] then None
    else Replay(H, Parent(H, r, m, proof[0]), m / 2, (n + 1) / 2, proof[1..])
  }

  /** The node above `r`, which is a right child when its index is odd. */
  function Parent(H: Hasher, r: Hash, m: nat, sibling: Hash): Hash {
    if m % 2 == 1 then H.Node(sibling, r) else H.Node(r, sibling)
  }

  /** Only a proof of exactly the right length leads anywhere. */
  lemma {:induction false} ReplayNeedsPathLen(H: Hasher, r: Hash, m: nat, n: nat, proof: seq<Hash>)
    requires m < n
    ensures Replay(H, r, m, n, proof).Some? <==> |proof| == PathLen(m, n)
    decreases n
  {
    if n > 1 {
      if IsLone(m, n) {
        ReplayNeedsPathLen(H, r, m / 2, (n + 1) / 2, proof);
      } else if proof != [] {
        ReplayNeedsPathLen(H, Parent(H, r, m, proof[0]), m / 2, (n + 1) / 2, proof[1..]);
      }
    }
  }

  /** What leaf `m` turns into one level up. */
  lemma LiftAt(H: Hasher, L: seq<Hash>, m: nat)
    requires m < |L|
    ensures Lift(H, L)[m / 2] == if IsLone(m, |L|) then L[m] else Parent(H, L[m], m, Sibling(L, m)[0])
  {
    if !IsLone(m, |L|) {
      PairsAt(H, L, m / 2);
    }
  }

  /** Completeness: the recursive path replays from its leaf to the root. */
  lemma {:induction false} PathReplays(H: Hasher, L: seq<Hash>, m: nat)
    requires m < |L|
    ensures Replay(H, L[m], m, |L|, Path(H, L, m)) == Some(Mth(H, L))
    decreases |L|
  {
    if |L| > 1 {
      var p := Path(H, Lift(H, L), m / 2);
      PathFromLeaf(H, L, m);
      LiftAt(H, L, m);
      MthLift(H, L);
      PathReplays(H, Lift(H, L), m / 2);
      if IsLone(m, |L|) {
        assert Path(H, L, m) == p;
      } else {
        assert Path(H, L, m)[1..] == p;
      }
    }
  }

  /** Looks for a node collision by comparing what the proof hashes with what the tree
      hashes, starting at the top. */
  function InclusionBreak(H: Hasher, L: seq<Hash>, m: nat, r: Hash, proof: seq<Hash>): Option<Break>
    requires m < |L|
    decreases |L|
  {
    if |L| == 1 then None
    else if IsLone(m, |L|) then InclusionBreak(H, Lift(H, L), m / 2, r, proof)
    else if proof == [] then None
    else
      var above := InclusionBreak(H, Lift(H, L), m / 2, Parent(H, r, m, proof[0]), proof[1..]);
      var sibling := Sibling(L, m)[0];
      if above.Some? then above
      else if r == L[m] && proof[0] == sibling then None
      else if m % 2 == 1 then Some(NodeCollision(proof[0], r, sibling, L[m]))
      else Some(NodeCollision(r, proof[0], L[m], sibling))
  }

  lemma HeadAndTail(proof: seq<Hash>, head: Hash, tail: seq<Hash>)
    requires proof != []
    ensures proof == [head] + tail <==> proof[0] == head && proof[1..] == tail
  {
    assert proof == [proof[0]] + proof[1..];
  }

  /** Soundness: a proof that leads to the root of `L` at index `m` starts at leaf `m` and
      is the path, and the search for a collision comes back empty exactly then. */
  lemma {:induction false} ReplaySound(H: Hasher, L: seq<Hash>, m: nat, r: Hash, proof: seq<Hash>)
    requires m < |L| && Replay(H, r, m, |L|, proof) == Some(Mth(H, L))
    ensures
      var found := InclusionBreak(H, L, m, r, proof);
      if found.None? then r == L[m] && proof == Path(H, L, m)
      else IsNodeCollision(H, found.value) && !(r == L[m] && proof == Path(H, L, m))
    decreases |L|
  {
    if |L| > 1 {
      PathFromLeaf(H, L, m);
      LiftAt(H, L, m);
      MthLift(H, L);
      if IsLone(m, |L|) {
        ReplaySound(H, Lift(H, L), m / 2, r, proof);
      } else {
        ReplaySound(H, Lift(H, L), m / 2, Parent(H, r, m, proof[0]), proof[1..]);
        HeadAndTail(proof, Sibling(L, m)[0], Path(H, Lift(H, L), m / 2));
      }
    }
  }

  lemma {:induction false} ReplayOfNothing(H: Hasher, r: Hash, m: nat, n: nat)
    requires m < n
    ensures Replay(H, r, m, n, []) == if n == 1 then Some(r) else None
  {
    ReplayNeedsPathLen(H, r, m, n, []);
    if n > 1 {
      PathLenPositive(m, n);
    }
  }

  /** The verifier loop of section 2.1.3.2 of RFC 9162, as the core and the SDK run it. */
  method VerifyInclusion(H: Hasher, leaf: Hash, leafIndex: nat, treeSize: nat, proof: seq<Hash>, root: Hash)
    returns (ok: bool)
    ensures ok <==> leafIndex < treeSize && Replay(H, leaf, leafIndex, treeSize, proof) == Some(root)
  {
    if treeSize == 0 || leafIndex >= treeSize {
      return false;
    }
    var fn: nat, sn: nat, r := leafIndex, treeSize - 1, leaf;
    assert proof[0..] == proof;
    for i := 0 to |proof|
      invariant fn <= sn
      invariant Replay(H, r, fn, sn + 1, proof[i..]) == Replay(H, leaf, leafIndex, treeSize, proof)
    {
      if sn == 0 {
        return false;
      }
      var step := proof[i];
      assert proof[i..][1..] == proof[i + 1..];
      if fn % 2 != 0 || fn == sn {
        ghost var below := r;
        r := H.Node(step, r);
        while fn != 0 && fn % 2 == 0
          invariant 0 < fn <= sn
          invariant fn % 2 == 1 || fn == sn
          invariant Replay(H, below, fn, sn + 1, proof[i..]) == Replay(H, leaf, leafIndex, treeSize, proof)
        {
          fn, sn := fn / 2, sn / 2;
        }
      } else {
        r := H.Node(r, step);
      }
      fn, sn := fn / 2, sn / 2;
    }
    ReplayOfNothing(H, r, fn, sn + 1);
    ok := sn == 0 && r == root;
  }

  /** The fold the UI runs: one level per proof element, whether or not the level has a
      sibling, and no check of the index or of the number of elements. */
  function UiFold(H: Hasher, current: Hash, idx: nat, size: nat, proof: seq<Hash>): Hash
    decreases |proof|
  {
    if proof == [] then current
    else
      var up := if idx % 2 == 1 || idx + 1 == size then H.Node(proof[0], current) else H.Node(current, proof[0]);
      UiFold(H, up, idx / 2, (size + 1) / 2, proof[1..])
  }

  lemma {:induction false} EdgeFold(H: Hasher, r: Hash, m: nat, n: nat, m': nat, proof: seq<Hash>)
    requires m + 1 == n && Replay(H, r, m, n, proof).Some?
    ensures Replay(H, r, m, n, proof) == Some(UiFold(H, r, m', m' + 1, proof))
    decreases n
  {
    if n > 1 {
      if IsLone(m, n) {
        EdgeFold(H, r, m / 2, (n + 1) / 2, m', proof);
      } else {
        EdgeFold(H, H.Node(proof[0], r), m / 2, (n + 1) / 2, m' / 2, proof[1..]);
      }
    }
  }

  /** On proofs of the right length the UI fold ends where the core loop ends. */
  lemma {:induction false} UiFoldIsReplay(H: Hasher, r: Hash, m: nat, n: nat, proof: seq<Hash>)
    requires m < n && |proof| == PathLen(m, n)
    ensures Replay(H, r, m, n, proof) == Some(UiFold(H, r, m, n, proof))
    decreases n
  {
    ReplayNeedsPathLen(H, r, m, n, proof);
    if m + 1 == n {
      EdgeFold(H, r, m, n, m, proof);
    } else {
      UiFoldIsReplay(H, Parent(H, r, m, proof[0]), m / 2, (n + 1) / 2, proof[1..]);
    }
  }

  /** The core accepts exactly the proofs that the UI accepts and that also have an index
      in range and the right number of elements. */
  lemma CoreIsUiPlusLength(H: Hasher, leaf: Hash, m: nat, n: nat, proof: seq<Hash>, root: Hash)
    ensures m < n && Replay(H, leaf, m, n, proof) == Some(root)
       <==> m < n && |proof| == PathLen(m, n) && UiFold(H, leaf, m, n, proof) == root
  {
    if m < n {
      ReplayNeedsPathLen(H, leaf, m, n, proof);
      if |proof| == PathLen(m, n) {
        UiFoldIsReplay(H, leaf, m, n, proof);
      }
    }
  }

  /** Without the check of the length the UI accepts more: any extra sibling of a one-leaf
      tree, against the root that it makes up. */
  lemma UiAcceptsExtraElement(H: Hasher, leaf: Hash, extra: Hash)
    ensures UiFold(H, leaf, 0, 1, [extra]) == H.Node(extra, leaf)
    ensures Replay(H, leaf, 0, 1, [extra]) != Some(H.Node(extra, leaf))
  {
    assert UiFold(H, H.Node(extra, leaf), 0, 1, []) == H.Node(extra, leaf);
  }

  /** And without the check of the index it accepts an index that the tree does not have: the
      one-leaf tree's own leaf at any index, and the right leaf of a pair at every odd one. */
  lemma UiAcceptsIndexOutOfRange(H: Hasher, left: Hash, right: Hash, m: nat, n: nat)
    requires n <= m
    ensures Mth(H, [left]) == UiFold(H, left, m, n, [])
    ensures m % 2 == 1 ==> Mth(H, [left, right]) == UiFold(H, right, m, n, [left])
  {
    assert [left, right][..1] == [left] && [left, right][1..] == [right];
    assert m % 2 == 1 ==> UiFold(H, right, m, n, [left]) == UiFold(H, H.Node(left, right), m / 2, (n + 1) / 2, []);
  }

  // ----- What an acceptance by the UI is worth

  /** Whether the UI hashes element `k` of a proof on the left. */
  predicate UiLeft(m: nat, n: nat, k: nat) {
    if k == 0 then m % 2 == 1 || m + 1 == n else UiLeft(m / 2, (n + 1) / 2, k - 1)
  }

  /** The fold read from its end: the last element is hashed with what the others give. */
  lemma {:induction false} UiFoldSnoc(H: Hasher, leaf: Hash, m: nat, n: nat, proof: seq<Hash>, x: Hash)
    ensures
      var below := UiFold(H, leaf, m, n, proof);
      UiFold(H, leaf, m, n, proof + [x]) == if UiLeft(m, n, |proof|) then H.Node(x, below) else H.Node(below, x)
    decreases |proof|
  {
    if proof == [] {
      assert [] + [x] == [x] && [x][1..] == [];
    } else {
      var up := if m % 2 == 1 || m + 1 == n then H.Node(proof[0], leaf) else H.Node(leaf, proof[0]);
      assert (proof + [x])[1..] == proof[1..] + [x];
      UiFoldSnoc(H, up, m / 2, (n + 1) / 2, proof[1..], x);
    }
  }

  /** Follows the fold down from the root, beside the tree: a collision where they part, a leaf
      of the tree that is a node where the proof goes on below it, and the claimed leaf itself
      where the proof ends above the leaves. */
  function UiBreak(H: Hasher, L: seq<Hash>, leaf: Hash, m: nat, n: nat, proof: seq<Hash>): Option<Break>
    requires |L| > 0
    decreases |L|
  {
    var k := |proof| - 1;
    if |L| == 1 then
      if proof == [] then None
      else
        var below := UiFold(H, leaf, m, n, proof[..k]);
        Some(if UiLeft(m, n, k) then LeafIsNode(L[0], proof[k], below) else LeafIsNode(L[0], below, proof[k]))
    else
      var left, right := L[..Split(|L|)], L[Split(|L|)..];
      if proof == [] then Some(LeafIsNode(leaf, Mth(H, left), Mth(H, right)))
      else
        var below := UiFold(H, leaf, m, n, proof[..k]);
        var (a, b) := if UiLeft(m, n, k) then (proof[k], below) else (below, proof[k]);
        if (a, b) != (Mth(H, left), Mth(H, right)) then Some(NodeCollision(a, b, Mth(H, left), Mth(H, right)))
        else UiBreak(H, if UiLeft(m, n, k) then right else left, leaf, m, n, proof[..k])
  }

  /** The UI shows membership, if not position: whatever index, size and length it is given,
      a leaf that it accepts against the root of `L` is one of the leaves of `L`, or a break is
      found. */
  lemma {:induction false} UiShowsMembership(H: Hasher, L: seq<Hash>, leaf: Hash, m: nat, n: nat, proof: seq<Hash>,
                                             leaves: seq<Hash>)
    requires |L| > 0 && UiFold(H, leaf, m, n, proof) == Mth(H, L)
    requires leaf in leaves && forall i :: 0 <= i < |L| ==> L[i] in leaves
    ensures
      var found := UiBreak(H, L, leaf, m, n, proof);
      if found.None? then leaf in L else IsBreak(H, leaves, found.value)
    decreases |L|
  {
    if proof != [] {
      var k := |proof| - 1;
      assert proof == proof[..k] + [proof[k]];
      UiFoldSnoc(H, leaf, m, n, proof[..k], proof[k]);
      if |L| > 1 {
        var left, right := L[..Split(|L|)], L[Split(|L|)..];
        var side := if UiLeft(m, n, k) then right else left;
        if UiFold(H, leaf, m, n, proof[..k]) == Mth(H, side) {
          UiShowsMembership(H, side, leaf, m, n, proof[..k], leaves);
        }
      }
    }
  }

  datatype Direction = Left | Right

  datatype ProofStep = ProofStep(sibling: Hash, direction: Direction, running: Hash)

  /** The running hash after `steps`. */
  function Running(leaf: Hash, steps: seq<ProofStep>): Hash {
    if steps == [] then leaf else steps[|steps| - 1].running
  }

  /** Every recorded step hashes the next element of the proof, on the side that it names, with
      the running hash of the step before. */
  ghost predicate Traces(H: Hasher, leaf: Hash, proof: seq<Hash>, steps: seq<ProofStep>) {
    && |steps| == |proof|
    && forall i :: 0 <= i < |steps| ==>
         var before, step := Running(leaf, steps[..i]), steps[i];
         && step.sibling == proof[i]
         && step.running == if step.direction.Left? then H.Node(step.sibling, before) else H.Node(before, step.sibling)
  }

  lemma TracesMore(H: Hasher, leaf: Hash, proof: seq<Hash>, steps: seq<ProofStep>, step: ProofStep)
    requires Traces(H, leaf, proof, steps)
    requires
      var before := Running(leaf, steps);
      step.running == if step.direction.Left? then H.Node(step.sibling, before) else H.Node(before, step.sibling)
    ensures Traces(H, leaf, proof + [step.sibling], steps + [step])
  {
    var all := steps + [step];
    forall i | 0 <= i < |steps| ensures all[..i] == steps[..i] && all[i] == steps[i] {
    }
    assert all[..|steps|] == steps;
  }

  /** The UI verifier: the verdict on an entry's data, and the steps that it shows. */
  method UiVerifyInclusion(H: Hasher, data: Bytes, leafIndex: nat, treeSize: nat, proof: seq<Hash>, root: Hash)
    returns (ok: bool, steps: seq<ProofStep>)
    ensures leafIndex < treeSize && |proof| == PathLen(leafIndex, treeSize) ==>
              (ok <==> Replay(H, H.Leaf(data), leafIndex, treeSize, proof) == Some(root))
    ensures ok <==> UiFold(H, H.Leaf(data), leafIndex, treeSize, proof) == root
    ensures Traces(H, H.Leaf(data), proof, steps) && (ok <==> Running(H.Leaf(data), steps) == root)
  {
    var leaf := H.Leaf(data);
    var current, idx, size := leaf, leafIndex, treeSize;
    steps := [];
    assert proof[0..] == proof;
    for i := 0 to |proof|
      invariant UiFold(H, current, idx, size, proof[i..]) == UiFold(H, leaf, leafIndex, treeSize, proof)
      invariant Traces(H, leaf, proof[..i], steps) && current == Running(leaf, steps)
    {
      var sibling := proof[i];
      assert proof[i..][1..] == proof[i + 1..] && proof[..i + 1] == proof[..i] + [sibling];
      var direction := if idx % 2 == 1 || idx + 1 == size then Left else Right;
      current := if direction.Left? then H.Node(sibling, current) else H.Node(current, sibling);
      TracesMore(H, leaf, proof[..i], steps, ProofStep(sibling, direction, current));
      idx := idx / 2;
      size := (size + 1) / 2;
      steps := steps + [ProofStep(sibling, direction, current)];
    }
    assert proof[..|proof|] == proof;
    ok := current == root;
    if leafIndex < treeSize && |proof| == PathLen(leafIndex, treeSize) {
      UiFoldIsReplay(H, leaf, leafIndex, treeSize, proof);
    }
  }
}
