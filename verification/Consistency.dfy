/** Consistency proofs: the tree of `m` leaves is a prefix of the tree of `n` leaves. */
module Consistency {
  import opened Wrappers
  import opened Hashing
  import opened Powers
  import opened Merkle
  import opened Sequences
  import opened Inclusion

  /** SUBPROOF(m, D[n], b) of section 2.1.2 of RFC 6962. */
  function Subproof(H: Hasher, L: seq<Hash>, m: nat, b: bool): seq<Hash>
    requires 0 < m <= |L|
    decreases |L|
  {
    if m == |L| then if b then [] else [Mth(H, L)]
    else
      var k := Split(|L|);
      if m <= k then Subproof(H, L[..k], m, b) + [Mth(H, L[k..])]
      else Subproof(H, L[k..], m - k, false) + [Mth(H, L[..k])]
  }

  function ConsistencyProof(H: Hasher, L: seq<Hash>, oldSize: nat): Result<seq<Hash>, ProofError> {
    if oldSize == 0 || oldSize > |L| then Err(InvalidSizes(oldSize, |L|))
    else if oldSize == |L| then Ok([])
    else Ok(Subproof(H, L, oldSize, true))
  }

  /** Both roots recomputed from a proof, and what is left of the proof. */
  datatype Rebuilt = Rebuilt(oldRoot: Hash, newRoot: Hash, rest: seq<Hash>)

  /** Recomputes the roots of the first `m` and of all `n` leaves from the front of `proof`;
      while `b` holds, the first `m` leaves are a subtree whose root is `prior` itself. */
  function Rebuild(H: Hasher, m: nat, n: nat, prior: Hash, proof: seq<Hash>, b: bool): Option<Rebuilt>
    requires 0 < m <= n
    decreases n
  {
    if m == n then
      if b then Some(Rebuilt(prior, prior, proof))
      else if proof == [] then None
      else Some(Rebuilt(proof[0], proof[0], proof[1..]))
    else
      var k := Split(n);
      if m <= k then AddRight(H, Rebuild(H, m, k, prior, proof, b))
      else AddLeft(H, Rebuild(H, m - k, n - k, prior, proof, false))
  }

  /** The next element is the right sibling, which only the new tree has. */
  function AddRight(H: Hasher, r: Option<Rebuilt>): Option<Rebuilt> {
    if r.None? || r.value.rest == [] then None
    else Some(Rebuilt(r.value.oldRoot, H.Node(r.value.newRoot, r.value.rest[0]), r.value.rest[1..]))
  }

  /** The next element is the left sibling, which both trees have. */
  function AddLeft(H: Hasher, r: Option<Rebuilt>): Option<Rebuilt> {
    if r.None? || r.value.rest == [] then None
    else
      var left := r.value.rest[0];
      Some(Rebuilt(H.Node(left, r.value.oldRoot), H.Node(left, r.value.newRoot), r.value.rest[1..]))
  }

  predicate Accepts(H: Hasher, oldSize: nat, newSize: nat, proof: seq<Hash>, oldRoot: Hash, newRoot: Hash) {
    if oldSize == newSize then proof == [] && oldRoot == newRoot
    else
      && 0 < oldSize < newSize
      && Rebuild(H, oldSize, newSize, oldRoot, proof, true) == Some(Rebuilt(oldRoot, newRoot, []))
  }

  // ----- Completeness

  /** Rebuilding from a generated proof, whatever follows it, gives both roots and leaves
      exactly what followed. */
  lemma {:induction false} SubproofRebuilds(H: Hasher, L: seq<Hash>, m: nat, b: bool, prior: Hash, tail: seq<Hash>)
    requires 0 < m <= |L| && (b ==> prior == Mth(H, L[..m]))
    ensures Rebuild(H, m, |L|, prior, Subproof(H, L, m, b) + tail, b)
         == Some(Rebuilt(Mth(H, L[..m]), Mth(H, L), tail))
    decreases |L|
  {
    if m == |L| {
      assert L[..m] == L;
      if b {
        assert [] + tail == tail;
      }
    } else {
      var left, right := L[..Split(|L|)], L[Split(|L|)..];
      if m <= |left| {
        assert left[..m] == L[..m];
        SubproofRebuilds(H, left, m, b, prior, [Mth(H, right)] + tail);
        SubproofRebuildsLeft(H, L, left, right, m, b, prior, tail);
      } else {
        var i: nat := m - |left|;
        SubproofRebuilds(H, right, i, false, prior, [Mth(H, left)] + tail);
        SubproofRebuildsRight(H, L, left, right, m, i, b, prior, tail);
      }
    }
  }

  lemma SubproofRebuildsLeft(H: Hasher, L: seq<Hash>, left: seq<Hash>, right: seq<Hash>,
                             m: nat, b: bool, prior: Hash, tail: seq<Hash>)
    requires AreHalves(L, left, right) && 0 < m <= |left|
    requires Rebuild(H, m, |left|, prior, Subproof(H, left, m, b) + ([Mth(H, right)] + tail), b)
          == Some(Rebuilt(Mth(H, L[..m]), Mth(H, left), [Mth(H, right)] + tail))
    ensures Rebuild(H, m, |L|, prior, Subproof(H, L, m, b) + tail, b)
         == Some(Rebuilt(Mth(H, L[..m]), Mth(H, L), tail))
  {
    Reassociate(Subproof(H, left, m, b), [Mth(H, right)], tail);
  }

  lemma SubproofRebuildsRight(H: Hasher, L: seq<Hash>, left: seq<Hash>, right: seq<Hash>,
                              m: nat, i: nat, b: bool, prior: Hash, tail: seq<Hash>)
    requires AreHalves(L, left, right) && |left| < m < |L| && i == m - |left|
    requires Rebuild(H, i, |right|, prior, Subproof(H, right, i, false) + ([Mth(H, left)] + tail), false)
          == Some(Rebuilt(Mth(H, right[..i]), Mth(H, right), [Mth(H, left)] + tail))
    ensures Rebuild(H, m, |L|, prior, Subproof(H, L, m, b) + tail, b)
         == Some(Rebuilt(Mth(H, L[..m]), Mth(H, L), tail))
  {
    Reassociate(Subproof(H, right, i, false), [Mth(H, left)], tail);
    PrefixRoot(H, L, left, right, m, i);
  }

  predicate AreHalves(L: seq<Hash>, left: seq<Hash>, right: seq<Hash>) {
    |L| > 1 && left == L[..Split(|L|)] && right == L[Split(|L|)..]
  }

  /** A prefix that reaches past the split point splits at the same place. */
  lemma PrefixRoot(H: Hasher, L: seq<Hash>, left: seq<Hash>, right: seq<Hash>, m: nat, i: nat)
    requires AreHalves(L, left, right) && |left| < m <= |L| && i == m - |left|
    ensures Mth(H, L[..m]) == H.Node(Mth(H, left), Mth(H, right[..i]))
  {
    var P := L[..m];
    SplitStable(m, |L|);
    assert P[..|left|] == left;
    assert P[|left|..] == right[..i];
  }

  /** Every generated consistency proof is accepted. */
  lemma ProofAccepted(H: Hasher, L: seq<Hash>, m: nat)
    requires 0 < m <= |L|
    ensures ConsistencyProof(H, L, m).Ok?
    ensures Accepts(H, m, |L|, ConsistencyProof(H, L, m).value, Mth(H, L[..m]), Mth(H, L))
  {
    if m == |L| {
      assert L[..m] == L;
    } else {
      var p := Subproof(H, L, m, true);
      SubproofRebuilds(H, L, m, true, Mth(H, L[..m]), []);
      assert p + [] == p;
    }
  }

  // ----- Length

  function SubLen(m: nat, n: nat, b: bool): nat
    requires 0 < m <= n
    decreases n
  {
    if m == n then if b then 0 else 1
    else
      var k := Split(n);
      1 + if m <= k then SubLen(m, k, b) else SubLen(m - k, n - k, false)
  }

  lemma {:induction false} SubproofHasSubLen(H: Hasher, L: seq<Hash>, m: nat, b: bool)
    requires 0 < m <= |L|
    ensures |Subproof(H, L, m, b)| == SubLen(m, |L|, b)
    decreases |L|
  {
    if m < |L| {
      var left, right := L[..Split(|L|)], L[Split(|L|)..];
      if m <= |left| {
        SubproofHasSubLen(H, left, m, b);
        assert |Subproof(H, L, m, b)| == |Subproof(H, left, m, b)| + 1;
      } else {
        var i: nat := m - |left|;
        SubproofHasSubLen(H, right, i, false);
        assert |Subproof(H, L, m, b)| == |Subproof(H, right, i, false)| + 1;
      }
    }
  }

  /** A consistency proof is at most one longer than the tree is high. */
  lemma {:induction false} SubLenBound(m: nat, n: nat, b: bool, d: nat)
    requires 0 < m <= n <= Pow2(d)
    ensures SubLen(m, n, b) <= d + 1
    decreases n
  {
    if m < n {
      var k := Split(n);
      SplitIsLargestPower(n);
      assert k <= Pow2(d - 1) by {
        SplitBelow(n, d);
      }
      if m <= k {
        SubLenBound(m, k, b, d - 1);
      } else {
        SubLenBound(m - k, n - k, false, d - 1);
      }
    }
  }

  lemma SplitBelow(n: nat, d: nat)
    requires 1 < n <= Pow2(d)
    ensures d > 0 && Split(n) <= Pow2(d - 1)
  {
    var e := SplitIsPower(n);
    if e >= d {
      Pow2Monotone(d, e);
    } else {
      Pow2Monotone(e, d - 1);
    }
  }

  // ----- Soundness

  /** Two pairs of children that ought to be equal. */
  function Compare(l1: Hash, r1: Hash, l2: Hash, r2: Hash): Option<Break> {
    if (l1, r1) == (l2, r2) then None else Some(NodeCollision(l1, r1, l2, r2))
  }

  /** Looks for a node collision by comparing what the proof hashes with what the tree
      hashes, from the top. */
  function ConsistencyBreak(H: Hasher, L: seq<Hash>, m: nat, prior: Hash, proof: seq<Hash>, b: bool): Option<Break>
    requires 0 < m <= |L|
    decreases |L|
  {
    if m == |L| then None
    else
      var left, right := L[..Split(|L|)], L[Split(|L|)..];
      if m <= |left| then
        var r := Rebuild(H, m, |left|, prior, proof, b);
        if r.None? || r.value.rest == [] then None
        else
          var here := Compare(r.value.newRoot, r.value.rest[0], Mth(H, left), Mth(H, right));
          if here.Some? then here else ConsistencyBreak(H, left, m, prior, proof, b)
      else
        var r := Rebuild(H, m - |left|, |right|, prior, proof, false);
        if r.None? || r.value.rest == [] then None
        else
          var here := Compare(r.value.rest[0], r.value.newRoot, Mth(H, left), Mth(H, right));
          if here.Some? then here else ConsistencyBreak(H, right, m - |left|, prior, proof, false)
  }

  ghost predicate RebuildsRoot(H: Hasher, L: seq<Hash>, m: nat, prior: Hash, proof: seq<Hash>, b: bool)
    requires 0 < m <= |L|
  {
    var r := Rebuild(H, m, |L|, prior, proof, b);
    r.Some? && r.value.newRoot == Mth(H, L)
  }

  /** A collision is found, or the old root and the proof are the right ones. */
  ghost predicate SoundOrBroken(H: Hasher, L: seq<Hash>, m: nat, prior: Hash, proof: seq<Hash>, b: bool)
    requires 0 < m <= |L| && RebuildsRoot(H, L, m, prior, proof, b)
  {
    var found, r := ConsistencyBreak(H, L, m, prior, proof, b), Rebuild(H, m, |L|, prior, proof, b).value;
    if found.Some? then IsNodeCollision(H, found.value)
    else r.oldRoot == Mth(H, L[..m]) && proof == Subproof(H, L, m, b) + r.rest
  }

  /** Soundness: if the rebuilt new root is the root of `L`, the rebuilt old root is the root
      of its first `m` leaves and the proof is the generated one, or a collision is found. */
  lemma {:induction false} RebuildSound(H: Hasher, L: seq<Hash>, m: nat, prior: Hash, proof: seq<Hash>, b: bool)
    requires 0 < m <= |L|
    requires RebuildsRoot(H, L, m, prior, proof, b)
    ensures SoundOrBroken(H, L, m, prior, proof, b)
    decreases |L|
  {
    if m == |L| {
      assert L[..m] == L;
      if b {
        assert [] + proof == proof;
      } else {
        assert proof == [proof[0]] + proof[1..];
      }
    } else {
      var left, right := L[..Split(|L|)], L[Split(|L|)..];
      if m <= |left| {
        if RebuildsRoot(H, left, m, prior, proof, b) {
          RebuildSound(H, left, m, prior, proof, b);
        }
        RebuildSoundLeft(H, L, left, right, m, prior, proof, b);
      } else {
        var i: nat := m - |left|;
        if RebuildsRoot(H, right, i, prior, proof, false) {
          RebuildSound(H, right, i, prior, proof, false);
        }
        RebuildSoundRight(H, L, left, right, m, i, prior, proof, b);
      }
    }
  }

  lemma RebuildSoundLeft(H: Hasher, L: seq<Hash>, left: seq<Hash>, right: seq<Hash>,
                         m: nat, prior: Hash, proof: seq<Hash>, b: bool)
    requires AreHalves(L, left, right) && 0 < m <= |left|
    requires RebuildsRoot(H, L, m, prior, proof, b)
    requires RebuildsRoot(H, left, m, prior, proof, b) ==> SoundOrBroken(H, left, m, prior, proof, b)
    ensures SoundOrBroken(H, L, m, prior, proof, b)
  {
    var r := Rebuild(H, m, |left|, prior, proof, b).value;
    if ConsistencyBreak(H, L, m, prior, proof, b).None? {
      assert left[..m] == L[..m];
      Unconsume(proof, Subproof(H, left, m, b), r.rest);
    }
  }

  lemma RebuildSoundRight(H: Hasher, L: seq<Hash>, left: seq<Hash>, right: seq<Hash>,
                          m: nat, i: nat, prior: Hash, proof: seq<Hash>, b: bool)
    requires AreHalves(L, left, right) && |left| < m < |L| && i == m - |left|
    requires RebuildsRoot(H, L, m, prior, proof, b)
    requires RebuildsRoot(H, right, i, prior, proof, false) ==> SoundOrBroken(H, right, i, prior, proof, false)
    ensures SoundOrBroken(H, L, m, prior, proof, b)
  {
    var r := Rebuild(H, i, |right|, prior, proof, false).value;
    if ConsistencyBreak(H, L, m, prior, proof, b).None? {
      PrefixRoot(H, L, left, right, m, i);
      Unconsume(proof, Subproof(H, right, i, false), r.rest);
    }
  }

  lemma Unconsume(proof: seq<Hash>, front: seq<Hash>, rest: seq<Hash>)
    requires proof == front + rest && rest != []
    ensures proof == (front + [rest[0]]) + rest[1..]
  {
  }

  /** An accepted proof against the root of `L` is the generated one and its old root is the
      root of the first `m` leaves, or a collision is found. */
  lemma ConsistencySound(H: Hasher, L: seq<Hash>, m: nat, proof: seq<Hash>, oldRoot: Hash)
    requires 0 < m <= |L| && Accepts(H, m, |L|, proof, oldRoot, Mth(H, L))
    ensures
      var found := ConsistencyBreak(H, L, m, oldRoot, proof, true);
      if found.Some? then IsNodeCollision(H, found.value)
      else oldRoot == Mth(H, L[..m]) && ConsistencyProof(H, L, m) == Ok(proof)
  {
    if m == |L| {
      assert L[..m] == L;
    } else {
      RebuildSound(H, L, m, oldRoot, proof, true);
      var p := Subproof(H, L, m, true);
      assert p + [] == p;
    }
  }

  /** Looks for a node collision between two trees of the same size. */
  function LeavesBreak(H: Hasher, A: seq<Hash>, B: seq<Hash>): Option<Break>
    requires |A| == |B| > 0
    decreases |A|
  {
    if |A| == 1 then None
    else
      var k := Split(|A|);
      var here := Compare(Mth(H, A[..k]), Mth(H, A[k..]), Mth(H, B[..k]), Mth(H, B[k..]));
      if here.Some? then here
      else
        var below := LeavesBreak(H, A[..k], B[..k]);
        if below.Some? then below else LeavesBreak(H, A[k..], B[k..])
  }

  /** A root binds the leaves: two different trees of one size with one root collide. */
  lemma {:induction false} RootBindsLeaves(H: Hasher, A: seq<Hash>, B: seq<Hash>)
    requires |A| == |B| > 0 && Mth(H, A) == Mth(H, B)
    ensures
      var found := LeavesBreak(H, A, B);
      if found.Some? then IsNodeCollision(H, found.value) else A == B
    decreases |A|
  {
    if |A| > 1 {
      var k := Split(|A|);
      var a1, a2, b1, b2 := A[..k], A[k..], B[..k], B[k..];
      if Compare(Mth(H, a1), Mth(H, a2), Mth(H, b1), Mth(H, b2)).None? {
        RootBindsLeaves(H, a1, b1);
        RootBindsLeaves(H, a2, b2);
        Rejoin(A, B, k);
      }
    }
  }

  lemma Rejoin(A: seq<Hash>, B: seq<Hash>, k: nat)
    requires k <= |A| == |B|
    ensures A[..k] == B[..k] && A[k..] == B[k..] ==> A == B
  {
    assert A == A[..k] + A[k..] && B == B[..k] + B[k..];
  }

  /** The collision behind a proof that takes the root of `P` for an earlier root of `L`. */
  function ForkBreak(H: Hasher, P: seq<Hash>, L: seq<Hash>, proof: seq<Hash>): Option<Break>
    requires 0 < |P| <= |L|
  {
    var found := ConsistencyBreak(H, L, |P|, Mth(H, P), proof, true);
    if found.Some? then found else LeavesBreak(H, P, L[..|P|])
  }

  /** No history can be rewritten: when `P` is not a prefix of `L`, no proof of any length
      is accepted between their roots without exhibiting a collision. */
  lemma NoFork(H: Hasher, P: seq<Hash>, L: seq<Hash>, proof: seq<Hash>)
    requires 0 < |P| <= |L| && Accepts(H, |P|, |L|, proof, Mth(H, P), Mth(H, L))
    requires P != L[..|P|]
    ensures ForkBreak(H, P, L, proof).Some? && IsNodeCollision(H, ForkBreak(H, P, L, proof).value)
  {
    ConsistencySound(H, L, |P|, proof, Mth(H, P));
    if ConsistencyBreak(H, L, |P|, Mth(H, P), proof, true).None? {
      RootBindsLeaves(H, P, L[..|P|]);
    }
  }

  // ----- The verifier as the core runs it

  /** The iterator over a proof that the recursion shares. */
  class Cursor {
    const proof: seq<Hash>
    var pos: nat

    ghost predicate Valid()
      reads this
    {
      pos <= |proof|
    }

    ghost function Rest(): seq<Hash>
      requires Valid()
      reads this
    {
      proof[pos..]
    }

    constructor (proof: seq<Hash>)
      ensures Valid() && Rest() == proof
    {
      this.proof := proof;
      pos := 0;
    }

    method Next() returns (h: Option<Hash>)
      requires Valid()
      modifies this
      ensures Valid()
      ensures if old(Rest()) == [] then h.None? && Rest() == []
              else h == Some(old(Rest())[0]) && Rest() == old(Rest())[1..]
    {
      if pos == |proof| {
        return None;
      }
      h := Some(proof[pos]);
      pos := pos + 1;
    }
  }

  /** `r`, with `rest` left of the proof, is what rebuilding from `proof` gives. */
  ghost predicate Matches(expected: Option<Rebuilt>, r: Option<(Hash, Hash)>, rest: seq<Hash>) {
    if expected.None? then r.None? else r.Some? && expected.value == Rebuilt(r.value.0, r.value.1, rest)
  }

  method VerifySubproof(H: Hasher, m: nat, n: nat, oldRoot: Hash, iter: Cursor, b: bool)
    returns (r: Option<(Hash, Hash)>)
    requires 0 < m <= n < TWO_64 && iter.Valid()
    modifies iter
    ensures iter.Valid()
    ensures Matches(Rebuild(H, m, n, oldRoot, old(iter.Rest()), b), r, iter.Rest())
    decreases n
  {
    if m == n {
      if b {
        return Some((oldRoot, oldRoot));
      }
      var h := iter.Next();
      return if h.None? then None else Some((h.value, h.value));
    }
    Pow64();
    var split := K(n, 64);
    KIsSplit(n, 64);
    if m <= split {
      r := VerifySubproof(H, m, split, oldRoot, iter, b);
      if r.None? {
        return;
      }
      var rh := iter.Next();
      r := if rh.None? then None else Some((r.value.0, H.Node(r.value.1, rh.value)));
    } else {
      r := VerifySubproof(H, m - split, n - split, oldRoot, iter, false);
      if r.None? {
        return;
      }
      var lh := iter.Next();
      r := if lh.None? then None else Some((H.Node(lh.value, r.value.0), H.Node(lh.value, r.value.1)));
    }
  }

  method VerifyConsistency(H: Hasher, oldSize: nat, newSize: nat, proof: seq<Hash>, oldRoot: Hash, newRoot: Hash)
    returns (ok: bool)
    requires oldSize < TWO_64 && newSize < TWO_64
    ensures ok <==> Accepts(H, oldSize, newSize, proof, oldRoot, newRoot)
    ensures oldSize == newSize ==> (ok <==> proof == [] && oldRoot == newRoot)
    ensures oldSize > newSize || oldSize == 0 < newSize ==> !ok
  {
    if oldSize == newSize {
      return proof == [] && oldRoot == newRoot;
    }
    if oldSize == 0 || oldSize > newSize {
      return false;
    }
    var iter := new Cursor(proof);
    var r := VerifySubproof(H, oldSize, newSize, oldRoot, iter, true);
    if r.None? {
      return false;
    }
    var extra := iter.Next();
    ok := extra.None? && r.value.0 == oldRoot && r.value.1 == newRoot;
  }
}
