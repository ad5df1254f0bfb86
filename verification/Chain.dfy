/** What a client learns from a chain of tree heads, each consistent with the next. */
module Chain {
  import opened Wrappers
  import opened Hashing
  import opened Merkle
  import opened Inclusion
  import opened Consistency

  datatype Head = Head(size: nat, root: Hash)

  /** Consecutive heads each come with an accepted consistency proof. */
  ghost predicate Chained(H: Hasher, heads: seq<Head>, proofs: seq<seq<Hash>>) {
    && |heads| == |proofs| + 1
    && forall i :: 0 <= i < |proofs| ==>
                     Accepts(H, heads[i].size, heads[i + 1].size, proofs[i], heads[i].root, heads[i + 1].root)
  }

  /** Every head is the head of a prefix of `L`. */
  ghost predicate HeadsOf(H: Hasher, L: seq<Hash>, heads: seq<Head>) {
    forall i :: 0 <= i < |heads| ==> PrefixHead(H, L, heads[i].size, heads[i].root)
  }

  lemma HeadsOfPrefix(H: Hasher, L: seq<Hash>, n: nat, heads: seq<Head>)
    requires n <= |L| && HeadsOf(H, L[..n], heads)
    ensures HeadsOf(H, L, heads)
  {
    forall i | 0 <= i < |heads| ensures PrefixHead(H, L, heads[i].size, heads[i].root) {
      assert PrefixHead(H, L[..n], heads[i].size, heads[i].root);
      assert L[..n][..heads[i].size] == L[..heads[i].size];
    }
  }

  /** Walks the chain backwards from the head of `L`, looking for a collision in each proof. */
  function ChainBreak(H: Hasher, L: seq<Hash>, heads: seq<Head>, proofs: seq<seq<Hash>>): Option<Break>
    requires |heads| == |proofs| + 1
    decreases |proofs|
  {
    if proofs == [] then None
    else
      var n := |proofs| - 1;
      var before := heads[n];
      if !(0 < before.size <= |L|) then None
      else
        var found := ConsistencyBreak(H, L, before.size, before.root, proofs[n], true);
        if found.Some? then found else ChainBreak(H, L[..before.size], heads[..n + 1], proofs[..n])
  }

  /** Chain safety: if the last head is the head of `L`, every earlier one is the head of a
      prefix of `L`, or a collision is found in one of the proofs. */
  lemma {:induction false} ChainSafe(H: Hasher, L: seq<Hash>, heads: seq<Head>, proofs: seq<seq<Hash>>)
    requires Chained(H, heads, proofs) && |L| > 0
    requires heads[|proofs|] == Head(|L|, Mth(H, L))
    ensures
      var found := ChainBreak(H, L, heads, proofs);
      if found.Some? then IsNodeCollision(H, found.value)
      else HeadsOf(H, L, heads)
    decreases |proofs|
  {
    assert L[..|L|] == L;
    if proofs != [] {
      var n := |proofs| - 1;
      LastLink(H, L, heads, proofs);
      if ConsistencyBreak(H, L, heads[n].size, heads[n].root, proofs[n], true).None? {
        var P, heads', proofs' := L[..heads[n].size], heads[..n + 1], proofs[..n];
        ChainShorter(H, heads, proofs);
        ChainSafe(H, P, heads', proofs');
        if ChainBreak(H, P, heads', proofs').None? {
          HeadsOfPrefix(H, L, heads[n].size, heads');
          HeadsOfMore(H, L, heads);
        }
      }
    }
  }

  /** One link: the head before the head of `L` is the head of a prefix, or a collision is found. */
  lemma LastLink(H: Hasher, L: seq<Hash>, heads: seq<Head>, proofs: seq<seq<Hash>>)
    requires Chained(H, heads, proofs) && |L| > 0 && proofs != []
    requires heads[|proofs|] == Head(|L|, Mth(H, L))
    ensures
      var n := |proofs| - 1;
      && 0 < heads[n].size <= |L|
      && var found := ConsistencyBreak(H, L, heads[n].size, heads[n].root, proofs[n], true);
      if found.Some? then IsNodeCollision(H, found.value)
      else heads[n].root == Mth(H, L[..heads[n].size])
  {
    var n := |proofs| - 1;
    assert Accepts(H, heads[n].size, heads[n + 1].size, proofs[n], heads[n].root, heads[n + 1].root);
    ConsistencySound(H, L, heads[n].size, proofs[n], heads[n].root);
  }

  lemma HeadsOfMore(H: Hasher, L: seq<Hash>, heads: seq<Head>)
    requires heads != [] && HeadsOf(H, L, heads[..|heads| - 1])
    requires PrefixHead(H, L, heads[|heads| - 1].size, heads[|heads| - 1].root)
    ensures HeadsOf(H, L, heads)
  {
    forall i | 0 <= i < |heads| - 1 ensures PrefixHead(H, L, heads[i].size, heads[i].root) {
      assert heads[..|heads| - 1][i] == heads[i];
    }
  }

  lemma ChainShorter(H: Hasher, heads: seq<Head>, proofs: seq<seq<Hash>>)
    requires Chained(H, heads, proofs) && proofs != []
    ensures Chained(H, heads[..|proofs|], proofs[..|proofs| - 1])
  {
    forall i | 0 <= i < |proofs| - 1
      ensures Accepts(H, heads[i].size, heads[i + 1].size, proofs[i], heads[i].root, heads[i + 1].root)
    {
    }
  }

  /** The collision behind a leaf accepted under head `i` of the chain. */
  function LeafBreak(H: Hasher, L: seq<Hash>, heads: seq<Head>, proofs: seq<seq<Hash>>, i: nat,
                     leaf: Hash, index: nat, path: seq<Hash>): Option<Break>
    requires |heads| == |proofs| + 1 && i < |heads|
  {
    var found := ChainBreak(H, L, heads, proofs);
    if found.Some? then found
    else if index < heads[i].size <= |L| then InclusionBreak(H, L[..heads[i].size], index, leaf, path)
    else None
  }

  /** Any leaf accepted under any head of the chain is the leaf of the latest tree at that
      index, or a collision is found. */
  lemma ChainLeaf(H: Hasher, L: seq<Hash>, heads: seq<Head>, proofs: seq<seq<Hash>>, i: nat,
                  leaf: Hash, index: nat, path: seq<Hash>)
    requires Chained(H, heads, proofs) && |L| > 0 && i < |heads|
    requires heads[|proofs|] == Head(|L|, Mth(H, L))
    requires index < heads[i].size && Replay(H, leaf, index, heads[i].size, path) == Some(heads[i].root)
    ensures
      var found := LeafBreak(H, L, heads, proofs, i, leaf, index, path);
      if found.Some? then IsNodeCollision(H, found.value)
      else index < |L| && leaf == L[index]
  {
    ChainSafe(H, L, heads, proofs);
    if ChainBreak(H, L, heads, proofs).None? {
      assert PrefixHead(H, L, heads[i].size, heads[i].root);
      ReplaySound(H, L[..heads[i].size], index, leaf, path);
    }
  }
}
