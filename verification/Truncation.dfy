/** What happens when a proof is generated from fewer leaves than the head it is sent with
    covers: it does not verify, unless the hash functions are broken. */
module Truncation {
  import opened Wrappers
  import opened Hashing
  import opened Powers
  import opened Merkle
  import opened Inclusion
  import opened Consistency

  // ----- Trees of different sizes

  /** The break behind two trees of different sizes with one root. */
  function SizeBreak(H: Hasher, A: seq<Hash>, B: seq<Hash>): Break
    requires |A| > 0 && |B| > 0 && |A| != |B|
    decreases |A|
  {
    if |A| == 1 then LeafIsNode(A[0], Mth(H, B[..Split(|B|)]), Mth(H, B[Split(|B|)..]))
    else if |B| == 1 then LeafIsNode(B[0], Mth(H, A[..Split(|A|)]), Mth(H, A[Split(|A|)..]))
    else
      var (a1, a2) := (A[..Split(|A|)], A[Split(|A|)..]);
      var (b1, b2) := (B[..Split(|B|)], B[Split(|B|)..]);
      var here := Compare(Mth(H, a1), Mth(H, a2), Mth(H, b1), Mth(H, b2));
      if here.Some? then here.value
      else if |a1| != |b1| then SizeBreak(H, a1, b1)
      else SizeBreak(H, a2, b2)
  }

  lemma {:induction false} SizesCollide(H: Hasher, A: seq<Hash>, B: seq<Hash>, leaves: seq<Hash>)
    requires |A| > 0 && |B| > 0 && |A| != |B| && Mth(H, A) == Mth(H, B)
    requires Within(A, leaves) && Within(B, leaves)
    ensures IsBreak(H, leaves, SizeBreak(H, A, B))
    decreases |A|
  {
    if |A| > 1 && |B| > 1 {
      var a1, a2 := A[..Split(|A|)], A[Split(|A|)..];
      var b1, b2 := B[..Split(|B|)], B[Split(|B|)..];
      if Compare(Mth(H, a1), Mth(H, a2), Mth(H, b1), Mth(H, b2)).None? {
        if |a1| != |b1| {
          SizesCollide(H, a1, b1, leaves);
        } else {
          SizesCollide(H, a2, b2, leaves);
        }
      }
    }
  }

  predicate Within(A: seq<Hash>, leaves: seq<Hash>) {
    forall i :: 0 <= i < |A| ==> A[i] in leaves
  }

  // ----- Inclusion

  lemma {:induction false} PathLenPow2(m: nat, e: nat)
    requires m < Pow2(e)
    ensures PathLen(m, Pow2(e)) == e
  {
    if e > 0 {
      PathLenPow2(m / 2, e - 1);
    }
  }

  /** `A` is a proper prefix of `B` that splits before `B` does. */
  lemma PathGrows(H: Hasher, A: seq<Hash>, B: seq<Hash>, m: nat)
    requires m < |A| < |B| && |A| <= Split(|B|)
    ensures |Path(H, A, m)| < |Path(H, B, m)|
  {
    var e := SplitIsPower(|B|);
    var left := B[..Split(|B|)];
    PathHasPathLen(H, A, m);
    PathHasPathLen(H, left, m);
    PathLenBound(m, |A|);
    PathLenPow2(m, e);
  }

  /** The break behind equal paths in a tree and in a proper prefix of it. */
  function PathBreak(H: Hasher, A: seq<Hash>, B: seq<Hash>, m: nat): Option<Break>
    requires m < |A| < |B|
    decreases |A|
  {
    if |A| == 1 || Split(|A|) != Split(|B|) then None
    else
      var k := Split(|A|);
      if m < k then Some(SizeBreak(H, A[k..], B[k..])) else PathBreak(H, A[k..], B[k..], m - k)
  }

  lemma {:induction false} PathsDiffer(H: Hasher, A: seq<Hash>, B: seq<Hash>, m: nat, leaves: seq<Hash>)
    requires m < |A| < |B| && A == B[..|A|] && Path(H, A, m) == Path(H, B, m)
    requires Within(B, leaves)
    ensures PathBreak(H, A, B, m).Some? && IsBreak(H, leaves, PathBreak(H, A, B, m).value)
    decreases |A|
  {
    if |A| <= Split(|B|) {
      PathGrows(H, A, B, m);
    } else {
      SplitStable(|A|, |B|);
      var k := Split(|B|);
      var left, a2, b2 := B[..k], A[k..], B[k..];
      PrefixHalves(A, B, k);
      if m < k {
        LastOf(Path(H, left, m), Mth(H, a2), Path(H, left, m), Mth(H, b2));
        SizesCollide(H, a2, b2, leaves);
      } else {
        var i: nat := m - k;
        LastOf(Path(H, a2, i), Mth(H, left), Path(H, b2, i), Mth(H, left));
        PathsDiffer(H, a2, b2, i, leaves);
      }
    }
  }

  lemma PrefixHalves(A: seq<Hash>, B: seq<Hash>, k: nat)
    requires k <= |A| <= |B| && A == B[..|A|]
    ensures A[..k] == B[..k] && A[k..] == B[k..][..|A| - k]
  {
  }

  lemma LastOf(p: seq<Hash>, x: Hash, q: seq<Hash>, y: Hash)
    requires p + [x] == q + [y]
    ensures p == q && x == y
  {
    assert (p + [x])[|p|] == x && (q + [y])[|q|] == y;
    assert p == (p + [x])[..|p|] && q == (q + [y])[..|q|];
  }

  /** The break behind a path of the first `c` leaves that verifies against the root of `L`. */
  function TruncatedPathBreak(H: Hasher, L: seq<Hash>, c: nat, m: nat, leaf: Hash): Option<Break>
    requires m < c < |L|
  {
    var path := Path(H, L[..c], m);
    var found := InclusionBreak(H, L, m, leaf, path);
    if found.Some? then found else PathBreak(H, L[..c], L, m)
  }

  /** A path generated from too few leaves verifies for no leaf, or breaks the hashes. */
  lemma TruncatedPathRejected(H: Hasher, L: seq<Hash>, c: nat, m: nat, leaf: Hash)
    requires m < c < |L|
    requires Replay(H, leaf, m, |L|, Path(H, L[..c], m)) == Some(Mth(H, L))
    ensures
      var found := TruncatedPathBreak(H, L, c, m, leaf);
      found.Some? && IsBreak(H, L, found.value)
  {
    var A := L[..c];
    ReplaySound(H, L, m, leaf, Path(H, A, m));
    if InclusionBreak(H, L, m, leaf, Path(H, A, m)).None? {
      PathsDiffer(H, A, L, m, L);
    }
  }

  // ----- Consistency

  lemma {:induction false} SplitOfPow2(e: nat)
    requires e > 0
    ensures Pow2(e) > 1 && Split(Pow2(e)) == Pow2(e - 1)
  {
    SplitUnique(Pow2(e), e - 1);
  }

  lemma SubLenGlue(m: nat, n: nat, p: nat, q: nat, b: bool)
    requires 0 < m < n <= p == 2 * q && Split(p) == q
    requires if n <= q then SubLen(m, n, b) <= SubLen(m, q, b)
             else Split(n) == q && (m > q ==> SubLen(m - q, n - q, false) <= SubLen(m - q, q, false))
    ensures SubLen(m, n, b) <= SubLen(m, p, b)
  {
  }

  /** Among the trees that a complete tree contains, the complete one has the longest proofs. */
  lemma {:induction false} SubLenMonotone(m: nat, n: nat, e: nat, b: bool)
    requires 0 < m <= n <= Pow2(e)
    ensures SubLen(m, n, b) <= SubLen(m, Pow2(e), b)
    decreases e
  {
    if m < n {
      var q := Pow2(e - 1);
      SplitOfPow2(e);
      if n <= q {
        SubLenMonotone(m, n, e - 1, b);
      } else {
        SplitUnique(n, e - 1);
        if m > q {
          SubLenMonotone(m - q, n - q, e - 1, false);
        }
      }
      SubLenGlue(m, n, 2 * q, q, b);
    }
  }

  lemma SubLenGrows(m: nat, a: nat, n: nat, b: bool)
    requires 0 < m < a < n && a <= Split(n)
    ensures SubLen(m, a, b) < SubLen(m, n, b)
  {
    var e := SplitIsPower(n);
    SubLenMonotone(m, a, e, b);
    assert SubLen(m, n, b) == 1 + SubLen(m, Pow2(e), b);
  }

  lemma SubproofGrows(H: Hasher, A: seq<Hash>, B: seq<Hash>, m: nat, b: bool)
    requires 0 < m < |A| < |B| && |A| <= Split(|B|)
    ensures |Subproof(H, A, m, b)| < |Subproof(H, B, m, b)|
  {
    SubproofHasSubLen(H, A, m, b);
    SubproofHasSubLen(H, B, m, b);
    SubLenGrows(m, |A|, |B|, b);
  }

  /** The break behind equal proofs in a tree and in a proper prefix of it. */
  function SubproofBreak(H: Hasher, A: seq<Hash>, B: seq<Hash>, m: nat): Option<Break>
    requires 0 < m < |A| < |B|
    decreases |A|
  {
    if Split(|A|) != Split(|B|) then None
    else
      var k := Split(|A|);
      if m <= k then Some(SizeBreak(H, A[k..], B[k..])) else SubproofBreak(H, A[k..], B[k..], m - k)
  }

  lemma {:induction false} SubproofsDiffer(H: Hasher, A: seq<Hash>, B: seq<Hash>, m: nat, b: bool, leaves: seq<Hash>)
    requires 0 < m < |A| < |B| && A == B[..|A|] && Subproof(H, A, m, b) == Subproof(H, B, m, b)
    requires Within(B, leaves)
    ensures SubproofBreak(H, A, B, m).Some? && IsBreak(H, leaves, SubproofBreak(H, A, B, m).value)
    decreases |A|
  {
    if |A| <= Split(|B|) {
      SubproofGrows(H, A, B, m, b);
    } else {
      SplitStable(|A|, |B|);
      var k := Split(|B|);
      var left, a2, b2 := B[..k], A[k..], B[k..];
      PrefixHalves(A, B, k);
      if m <= k {
        SubproofsDifferLeft(H, A, B, left, a2, b2, m, b, leaves);
      } else {
        var i: nat := m - k;
        SubproofRight(H, A, left, a2, m, i, b);
        SubproofRight(H, B, left, b2, m, i, b);
        LastOf(Subproof(H, a2, i, false), Mth(H, left), Subproof(H, b2, i, false), Mth(H, left));
        SubproofsDiffer(H, a2, b2, i, false, leaves);
      }
    }
  }

  lemma SubproofsDifferLeft(H: Hasher, A: seq<Hash>, B: seq<Hash>, left: seq<Hash>, a2: seq<Hash>, b2: seq<Hash>,
                            m: nat, b: bool, leaves: seq<Hash>)
    requires AreHalves(A, left, a2) && AreHalves(B, left, b2) && 0 < m <= |left| && |A| < |B|
    requires Subproof(H, A, m, b) == Subproof(H, B, m, b)
    requires Within(a2, leaves) && Within(b2, leaves)
    ensures SubproofBreak(H, A, B, m).Some? && IsBreak(H, leaves, SubproofBreak(H, A, B, m).value)
  {
    LastOf(Subproof(H, left, m, b), Mth(H, a2), Subproof(H, left, m, b), Mth(H, b2));
    SizesCollide(H, a2, b2, leaves);
  }

  lemma SubproofRight(H: Hasher, L: seq<Hash>, left: seq<Hash>, right: seq<Hash>, m: nat, i: nat, b: bool)
    requires AreHalves(L, left, right) && |left| < m < |L| && i == m - |left|
    ensures Subproof(H, L, m, b) == Subproof(H, right, i, false) + [Mth(H, left)]
  {
  }

  /** The break behind a consistency proof of the first `c` leaves that verifies against
      the root of `L`. */
  function TruncatedProofBreak(H: Hasher, L: seq<Hash>, c: nat, m: nat, oldRoot: Hash): Option<Break>
    requires 0 < m <= c < |L|
  {
    var proof := ConsistencyProof(H, L[..c], m).value;
    var found := ConsistencyBreak(H, L, m, oldRoot, proof, true);
    if found.Some? then found
    else if m < c then SubproofBreak(H, L[..c], L, m)
    else None
  }

  /** A consistency proof generated from too few leaves is accepted between no roots, or
      breaks the hashes. */
  lemma TruncatedProofRejected(H: Hasher, L: seq<Hash>, c: nat, m: nat, oldRoot: Hash)
    requires 0 < m <= c < |L|
    requires Accepts(H, m, |L|, ConsistencyProof(H, L[..c], m).value, oldRoot, Mth(H, L))
    ensures
      var found := TruncatedProofBreak(H, L, c, m, oldRoot);
      found.Some? && IsBreak(H, L, found.value)
  {
    var A := L[..c];
    var proof := ConsistencyProof(H, A, m).value;
    ConsistencySound(H, L, m, proof, oldRoot);
    if ConsistencyBreak(H, L, m, oldRoot, proof, true).None? {
      if m == c {
        SubproofHasSubLen(H, L, m, true);
      } else {
        SubproofsDiffer(H, A, L, m, true, L);
      }
    }
  }
}
