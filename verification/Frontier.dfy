/** The in-memory Merkle tree, which keeps one root per set bit of its size. */
module Frontier {
  import opened Wrappers
  import opened Hashing
  import opened Powers
  import opened Merkle
  import opened Sequences

  /** The last element of an odd level, or a blank. */
  function Slot(level: seq<Hash>): Hash {
    if |level| % 2 == 1 then level[|level| - 1] else ZERO
  }

  /** `f` stands for the leaves `L`: each slot holds what is left over when the
      level below is paired up, and the slots end with the highest bit of `|L|`.
      `SlotIsSubtree` says the same slot by slot. */
  predicate Represents(H: Hasher, f: seq<Hash>, L: seq<Hash>)
    decreases |L|
  {
    if L == [] then f == []
    else f != [] && f[0] == Slot(L) && Represents(H, f[1..], Pairs(H, L))
  }

  lemma {:induction false} SlotIsLevel(H: Hasher, f: seq<Hash>, L: seq<Hash>, h: nat)
    requires Represents(H, f, L) && h < |f|
    ensures f[h] == Slot(Level(H, L, h))
    decreases h
  {
    if h > 0 {
      assert Level(H, Pairs(H, L), h - 1) == Level(H, L, h) by {
        LevelOfPairs(H, L, h - 1);
      }
      SlotIsLevel(H, f[1..], Pairs(H, L), h - 1);
    }
  }

  lemma {:induction false} SlotsAreBits(H: Hasher, f: seq<Hash>, L: seq<Hash>)
    requires Represents(H, f, L)
    ensures |f| == BitLength(|L|)
    decreases |L|
  {
    if L != [] {
      SlotsAreBits(H, f[1..], Pairs(H, L));
    }
  }

  /** The frontier has one slot per bit of the size. The slot of a set bit holds the
      root of the aligned complete subtree of that height; every other slot is blank. */
  lemma SlotIsSubtree(H: Hasher, f: seq<Hash>, L: seq<Hash>, h: nat)
    requires Represents(H, f, L)
    ensures |f| == BitLength(|L|)
    ensures h < |f| && Shr(|L|, h) % 2 == 0 ==> f[h] == ZERO
    ensures h < |f| && Shr(|L|, h) % 2 == 1 ==>
              var i := Shr(|L|, h) - 1;
              Shl(i, h) < Shl(i + 1, h) <= |L| && f[h] == Mth(H, L[Shl(i, h)..Shl(i + 1, h)])
  {
    SlotsAreBits(H, f, L);
    if h < |f| {
      assert |Level(H, L, h)| == Shr(|L|, h) && f[h] == Slot(Level(H, L, h)) by {
        SlotIsLevel(H, f, L, h);
        LevelLength(H, L, h);
      }
      if Shr(|L|, h) % 2 == 1 {
        LevelIsMth(H, L, h, Shr(|L|, h) - 1);
      }
    }
  }

  /** The frontier after appending `hash`: occupied slots are absorbed and blanked,
      and the first free slot takes what they add up to. */
  function Absorb(H: Hasher, f: seq<Hash>, size: nat, hash: Hash): seq<Hash> {
    if f == [] then [hash]
    else if size % 2 == 1 then [ZERO] + Absorb(H, f[1..], size / 2, H.Node(f[0], hash))
    else [hash] + f[1..]
  }

  function Blank(n: nat): (r: seq<Hash>)
    ensures |r| == n
  {
    if n == 0 then [] else Blank(n - 1) + [ZERO]
  }

  /** `hash` has been carried up to `level`, absorbing every slot below it. */
  ghost predicate Absorbed(H: Hasher, f: seq<Hash>, size: nat, lh: Hash, level: nat, hash: Hash) {
    && level <= |f|
    && Absorb(H, f, size, lh) == Blank(level) + Absorb(H, f[level..], Shr(size, level), hash)
    && Shr(size + 1, level) == Shr(size, level) + 1
  }

  lemma AbsorbStep(H: Hasher, f: seq<Hash>, size: nat, lh: Hash, level: nat, hash: Hash)
    requires Absorbed(H, f, size, lh, level, hash) && |f| == BitLength(size)
    requires Shr(size, level) % 2 == 1
    ensures level < |f| && Absorbed(H, f, size, lh, level + 1, H.Node(f[level], hash))
  {
    ShrPositive(size, level);
    assert f[level..][1..] == f[level + 1..];
    var rest := Absorb(H, f[level + 1..], Shr(size, level + 1), H.Node(f[level], hash));
    calc {
      Absorb(H, f, size, lh);
      Blank(level) + Absorb(H, f[level..], Shr(size, level), hash);
      Blank(level) + ([ZERO] + rest);
      { Reassociate(Blank(level), [ZERO], rest); }
      (Blank(level) + [ZERO]) + rest;
      Blank(level + 1) + rest;
    }
  }

  /** `placed` with its first `n` slots blanked one by one. */
  function Blanked(placed: seq<Hash>, n: nat): (r: seq<Hash>)
    requires n <= |placed|
    ensures |r| == |placed|
  {
    if n == 0 then placed else Blanked(placed, n - 1)[n - 1 := ZERO]
  }

  lemma {:induction false} BlankedIsPrefix(placed: seq<Hash>, n: nat)
    requires n <= |placed|
    ensures Blanked(placed, n) == Blank(n) + placed[n..]
  {
    if n > 0 {
      BlankedIsPrefix(placed, n - 1);
    }
  }

  lemma AbsorbEnd(H: Hasher, f: seq<Hash>, size: nat, lh: Hash, level: nat, hash: Hash, placed: seq<Hash>)
    requires Absorbed(H, f, size, lh, level, hash) && Shr(size, level) % 2 == 0
    requires placed == if level < |f| then f[level := hash] else f + [hash]
    ensures Absorb(H, f, size, lh) == Blanked(placed, level)
  {
    BlankedIsPrefix(placed, level);
    if level < |f| {
      assert placed[level..] == [hash] + f[level..][1..];
    } else {
      assert placed[level..] == [hash];
    }
  }

  lemma AbsorbedBelow64(H: Hasher, f: seq<Hash>, size: nat, lh: Hash, level: nat, hash: Hash)
    requires Absorbed(H, f, size, lh, level, hash) && size + 1 < TWO_64
    ensures level < 64
  {
    ShrPositive(size + 1, level);
    Pow64();
    BitLengthBound(size + 1, 64);
  }

  lemma PairsAppend(H: Hasher, M: seq<Hash>, x: Hash)
    ensures |M| % 2 == 0 ==> Pairs(H, M + [x]) == Pairs(H, M)
    ensures |M| % 2 == 1 ==> Pairs(H, M + [x]) == Pairs(H, M) + [H.Node(M[|M| - 1], x)]
  {
    if |M| % 2 == 0 {
      PairsConcat(H, M, [x]);
    } else {
      var A, y := M[..|M| - 1], M[|M| - 1];
      assert M == A + [y] && M + [x] == A + [y, x];
      PairsConcat(H, A, [y]);
      PairsConcat(H, A, [y, x]);
    }
  }

  /** Appending a leaf keeps the frontier in step with the leaves. */
  lemma {:induction false} AbsorbRepresents(H: Hasher, f: seq<Hash>, L: seq<Hash>, x: Hash)
    requires Represents(H, f, L)
    ensures Represents(H, Absorb(H, f, |L|, x), L + [x])
    decreases |L|
  {
    PairsAppend(H, L, x);
    var f' := Absorb(H, f, |L|, x);
    if L == [] {
      assert Pairs(H, L + [x]) == [] && f'[1..] == [];
    } else if |L| % 2 == 0 {
      assert f'[1..] == f[1..];
    } else {
      var up := H.Node(f[0], x);
      AbsorbRepresents(H, f[1..], Pairs(H, L), up);
      assert f'[1..] == Absorb(H, f[1..], |L| / 2, up);
    }
  }

  function Carried(carry: Option<Hash>): seq<Hash> {
    match carry
    case None => []
    case Some(h) => [h]
  }

  /** The carry above a slot: an occupied one absorbs the carry from below. */
  function Combine(H: Hasher, occupied: bool, node: Hash, carry: Option<Hash>): Option<Hash> {
    if !occupied then carry
    else if carry.None? then Some(node)
    else Some(H.Node(node, carry.value))
  }

  /** The carry out of the top of the frontier. */
  function Fold(H: Hasher, f: seq<Hash>, size: nat, carry: Option<Hash>): Option<Hash> {
    if f == [] then carry
    else Fold(H, f[1..], size / 2, Combine(H, size % 2 == 1, f[0], carry))
  }

  lemma LiftCarries(H: Hasher, M: seq<Hash>, carry: Option<Hash>)
    ensures Lift(H, M + Carried(carry)) == Pairs(H, M) + Carried(Combine(H, |M| % 2 == 1, Slot(M), carry))
  {
    if carry.Some? {
      PairsAppend(H, M, carry.value);
      assert M + Carried(carry) == M + [carry.value];
    } else {
      assert M + Carried(carry) == M;
    }
  }

  /** Folding the frontier gives the root of the leaves followed by the carry. */
  lemma {:induction false} FoldIsRoot(H: Hasher, f: seq<Hash>, L: seq<Hash>, carry: Option<Hash>)
    requires Represents(H, f, L) && L + Carried(carry) != []
    ensures Fold(H, f, |L|, carry) == Some(RootUp(H, L + Carried(carry)))
    decreases |L|
  {
    if L != [] {
      var up := Combine(H, |L| % 2 == 1, f[0], carry);
      LiftCarries(H, L, carry);
      FoldIsRoot(H, f[1..], Pairs(H, L), up);
    }
  }

  class MerkleTree {
    const H: Hasher
    var frontier: seq<Hash>
    var size: nat
    ghost var leaves: seq<Hash>

    ghost predicate Valid()
      reads this
    {
      size == |leaves| && Represents(H, frontier, leaves)
    }

    constructor (H: Hasher)
      ensures Valid() && leaves == [] && this.H == H
    {
      this.H := H;
      frontier, size, leaves := [], 0, [];
    }

    /** The first loop of `Append`: combine `lh` with the occupied slots from the bottom
        up. Sizes are 64-bit words, so the shift that tests a bit must stay below 64. */
    method Climb(lh: Hash) returns (level: nat, hash: Hash)
      requires Valid() && size + 1 < TWO_64
      ensures level < 64 && Shr(size, level) % 2 == 0
      ensures Absorbed(H, frontier, size, lh, level, hash)
    {
      level, hash := 0, lh;
      SlotsAreBits(H, frontier, leaves);
      AbsorbedBelow64(H, frontier, size, lh, level, hash);
      while Shr(size, level) % 2 == 1
        invariant level < 64 && Absorbed(H, frontier, size, lh, level, hash)
        decreases |frontier| - level
      {
        AbsorbStep(H, frontier, size, lh, level, hash);
        hash := H.Node(frontier[level], hash);
        level := level + 1;
        AbsorbedBelow64(H, frontier, size, lh, level, hash);
      }
    }

    /** Appends one leaf hash and returns its index. */
    method Append(lh: Hash) returns (index: nat)
      requires Valid() && size + 1 < TWO_64
      modifies this
      ensures Valid()
      ensures leaves == old(leaves) + [lh]
      ensures index == old(size)
    {
      index := size;
      var level, hash := Climb(lh);
      if level < |frontier| {
        frontier := frontier[level := hash];
      } else {
        frontier := frontier + [hash];
      }
      ghost var placed := frontier;
      AbsorbEnd(H, old(frontier), size, lh, level, hash, placed);
      for l := 0 to level
        invariant size == old(size) && leaves == old(leaves)
        invariant frontier == Blanked(placed, l)
      {
        frontier := frontier[l := ZERO];
      }
      AbsorbRepresents(H, old(frontier), leaves, lh);
      size := size + 1;
      leaves := leaves + [lh];
    }

    /** The root of the leaves appended so far, folded over the set bits of the size. */
    method Root() returns (root: Option<Hash>)
      requires Valid()
      ensures root == if leaves == [] then None else Some(Mth(H, leaves))
    {
      if size == 0 {
        return None;
      }
      root := None;
      assert frontier[0..] == frontier;
      for level := 0 to |frontier|
        invariant Fold(H, frontier[level..], Shr(size, level), root) == Fold(H, frontier, size, None)
      {
        assert frontier[level..][1..] == frontier[level + 1..];
        if Shr(size, level) % 2 == 1 {
          var node := frontier[level];
          root := match root
            case None => Some(node)
            case Some(h) => Some(H.Node(node, h));
        }
      }
      assert leaves + Carried(None) == leaves;
      FoldIsRoot(H, frontier, leaves, None);
      RootUpIsMth(H, leaves);
    }
  }
}
