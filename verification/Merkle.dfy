/** Merkle tree hash of a list of leaf hashes (section 2.1 of RFC 6962), top down
    as the code computes it and level by level as the proofs need it. */
module Merkle {
  import opened Hashing
  import opened Powers
  import opened Sequences

  function Mth(H: Hasher, L: seq<Hash>): Hash
    requires |L| > 0
  {
    if |L| == 1 then L[0]
    else
      var k := Split(|L|);
      H.Node(Mth(H, L[..k]), Mth(H, L[k..]))
  }

  /** The parents of the complete pairs of `L`. */
  function Pairs(H: Hasher, L: seq<Hash>): (r: seq<Hash>)
    ensures |r| == |L| / 2
  {
    if |L| < 2 then [] else [H.Node(L[0], L[1])] + Pairs(H, L[2..])
  }

  lemma {:induction false} PairsAt(H: Hasher, L: seq<Hash>, i: nat)
    requires i < |L| / 2
    ensures Pairs(H, L)[i] == H.Node(L[2 * i], L[2 * i + 1])
    decreases i
  {
    if i > 0 {
      PairsAt(H, L[2..], i - 1);
    }
  }

  lemma {:induction false} PairsConcat(H: Hasher, A: seq<Hash>, B: seq<Hash>)
    requires |A| % 2 == 0
    ensures Pairs(H, A + B) == Pairs(H, A) + Pairs(H, B)
    decreases |A|
  {
    if A == [] {
      assert A + B == B;
    } else {
      assert (A + B)[2..] == A[2..] + B;
      PairsConcat(H, A[2..], B);
    }
  }

  /** The last element of an odd-length `L`, which has no partner. */
  function Lone(L: seq<Hash>): (r: seq<Hash>)
    ensures |r| == |L| % 2
  {
    if |L| % 2 == 1 then [L[|L| - 1]] else []
  }

  /** One level up: parents of the pairs, and an unpaired last element as it is. */
  function Lift(H: Hasher, L: seq<Hash>): (r: seq<Hash>)
    ensures |r| == (|L| + 1) / 2
  {
    Pairs(H, L) + Lone(L)
  }

  lemma LiftSplits(H: Hasher, L: seq<Hash>, j: nat)
    requires 2 * j <= |L|
    ensures Lift(H, L)[..j] == Lift(H, L[..2 * j])
    ensures Lift(H, L)[j..] == Lift(H, L[2 * j..])
  {
    var A, B := L[..2 * j], L[2 * j..];
    assert L == A + B;
    PairsConcat(H, A, B);
    assert Lone(L) == Lone(B) && Lone(A) == [];
    assert Lift(H, L) == Pairs(H, A) + Lift(H, B);
  }

  /** Two trees with equal halves have equal roots. */
  lemma MthGlue(H: Hasher, L: seq<Hash>, up: seq<Hash>)
    requires |L| > 1 && |up| > 1
    requires Mth(H, L[..Split(|L|)]) == Mth(H, up[..Split(|up|)])
    requires Mth(H, L[Split(|L|)..]) == Mth(H, up[Split(|up|)..])
    ensures Mth(H, L) == Mth(H, up)
  {
  }

  /** Lifting a list does not change its root. */
  lemma {:induction false} MthLift(H: Hasher, L: seq<Hash>)
    requires |L| > 0
    ensures Mth(H, Lift(H, L)) == Mth(H, L)
    decreases |L|
  {
    if |L| == 2 {
      assert L[..1] == [L[0]] && L[1..] == [L[1]];
      assert Lift(H, L) == [H.Node(L[0], L[1])];
    } else if |L| > 2 {
      var up := Lift(H, L);
      var j := Split(|up|);
      SplitHalf(|L|);
      LiftSplits(H, L, j);
      MthLift(H, L[..2 * j]);
      MthLift(H, L[2 * j..]);
      MthGlue(H, up, L);
    }
  }

  /** The root computed bottom up, one level at a time. */
  function RootUp(H: Hasher, L: seq<Hash>): Hash
    requires |L| > 0
    decreases |L|
  {
    if |L| == 1 then L[0] else RootUp(H, Lift(H, L))
  }

  lemma {:induction false} RootUpIsMth(H: Hasher, L: seq<Hash>)
    requires |L| > 0
    ensures RootUp(H, L) == Mth(H, L)
    decreases |L|
  {
    if |L| > 1 {
      MthLift(H, L);
      RootUpIsMth(H, Lift(H, L));
    }
  }

  /** The roots of the complete aligned subtrees of height `h`, left to right. */
  function Level(H: Hasher, L: seq<Hash>, h: nat): seq<Hash> {
    if h == 0 then L else Pairs(H, Level(H, L, h - 1))
  }

  lemma {:induction false} LevelLength(H: Hasher, L: seq<Hash>, h: nat)
    ensures |Level(H, L, h)| == Shr(|L|, h)
  {
    if h > 0 {
      LevelLength(H, L, h - 1);
    }
  }

  lemma {:induction false} LevelOfPairs(H: Hasher, L: seq<Hash>, h: nat)
    ensures Level(H, Pairs(H, L), h) == Level(H, L, h + 1)
  {
    if h == 0 {
      assert Level(H, L, 1) == Pairs(H, Level(H, L, 0));
    } else {
      LevelOfPairs(H, L, h - 1);
    }
  }

  /** Element `i` of level `h` is the root of the `2^h` leaves from `i * 2^h` on. */
  lemma {:induction false} LevelIsMth(H: Hasher, L: seq<Hash>, h: nat, i: nat)
    requires i < |Level(H, L, h)|
    ensures Shl(i, h) < Shl(i + 1, h) <= |L|
    ensures Level(H, L, h)[i] == Mth(H, L[Shl(i, h)..Shl(i + 1, h)])
    decreases h
  {
    if h == 0 {
      assert L[i..i + 1] == [L[i]];
    } else {
      var P := Pairs(H, L);
      assert Level(H, P, h - 1) == Level(H, L, h) by {
        LevelOfPairs(H, L, h - 1);
      }
      LevelIsMth(H, P, h - 1, i);
      LiftOfRange(H, L, Shl(i, h - 1), Shl(i + 1, h - 1));
    }
  }

  lemma PairsMiddle(H: Hasher, A: seq<Hash>, B: seq<Hash>, C: seq<Hash>)
    requires |A| % 2 == 0 && |B| % 2 == 0
    ensures Pairs(H, A + (B + C))[|A| / 2..|A| / 2 + |B| / 2] == Pairs(H, B)
  {
    PairsConcat(H, A, B + C);
    PairsConcat(H, B, C);
    Middle(Pairs(H, A), Pairs(H, B), Pairs(H, C));
  }

  lemma LiftOfBlock(H: Hasher, A: seq<Hash>, B: seq<Hash>, C: seq<Hash>)
    requires |A| % 2 == 0 && |B| % 2 == 0 && B != []
    ensures Mth(H, Pairs(H, A + (B + C))[|A| / 2..|A| / 2 + |B| / 2]) == Mth(H, B)
  {
    PairsMiddle(H, A, B, C);
    assert Lift(H, B) == Pairs(H, B);
    MthLift(H, B);
  }

  lemma LiftOfRange(H: Hasher, L: seq<Hash>, lo: nat, hi: nat)
    requires lo < hi <= |L| / 2
    ensures Mth(H, Pairs(H, L)[lo..hi]) == Mth(H, L[2 * lo..2 * hi])
  {
    ThreeParts(L, 2 * lo, 2 * hi);
    LiftOfBlock(H, L[..2 * lo], L[2 * lo..2 * hi], L[2 * hi..]);
  }

  /** `(size, root)` is the size and root of a non-empty prefix of `L`. */
  ghost predicate PrefixHead(H: Hasher, L: seq<Hash>, size: nat, root: Hash) {
    0 < size <= |L| && root == Mth(H, L[..size])
  }
}
