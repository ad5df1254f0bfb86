/** The loops as the code runs them, over the log, and the table that they are written to. */
module NodeStore {
  import opened Wrappers
  import opened Hashing
  import opened Powers
  import opened NodeTable
  import opened NodeLoop
  import opened NodeGaps
  import opened Storage
  import opened Pagination

  // ----- The leaves of a log

  /** What a rebuild reads from the log. */
  function Numbered(log: Log): (r: seq<(nat, Hash)>)
    ensures |r| == |log|
  {
    if log == [] then []
    else Numbered(log[..|log| - 1]) + [(log[|log| - 1].seqNo, log[|log| - 1].leafHash)]
  }

  lemma {:induction false} NumberedAt(log: Log, k: nat)
    requires k < |log|
    ensures Numbered(log)[k] == (log[k].seqNo, log[k].leafHash)
    decreases |log|
  {
    if k < |log| - 1 {
      NumberedAt(log[..|log| - 1], k);
    }
  }

  lemma {:induction false} NumberedHashes(log: Log)
    ensures Hashes(Numbered(log)) == Leaves(log)
    decreases |log|
  {
    if log != [] {
      var front := log[..|log| - 1];
      NumberedHashes(front);
      assert Numbered(log)[..|log| - 1] == Numbered(front);
    }
  }

  /** A log without gaps is what the loops expect, and any log is in ascending order. */
  lemma NumberedLog(log: Log)
    requires Ascending(log)
    ensures Increasing(Numbers(Numbered(log)))
    ensures GapFree(log) && |log| < TWO_64 / 2 ==> Dense(Numbered(log))
  {
    var leaves := Numbered(log);
    var numbers := Numbers(leaves);
    forall i, j | 0 <= i < j < |numbers| ensures numbers[i] < numbers[j] {
      NumbersOfLog(log, i);
      NumbersOfLog(log, j);
    }
    forall i | 0 <= i < |leaves| ensures leaves[i].0 == log[i].seqNo {
      NumberedAt(log, i);
    }
  }

  lemma NumbersOfLog(log: Log, k: nat)
    requires k < |log|
    ensures Numbers(Numbered(log))[k] == log[k].seqNo
  {
    NumberedAt(log, k);
    NumbersAt(Numbered(log), k);
  }

  /** A log that the server can have: the first write fails, the second succeeds, and the
      rebuild panics. */
  lemma RebuildPanics(H: Hasher, failed: Op, append: Op)
    requires failed.Append? && !failed.written && append.Append? && append.written
    ensures Emit(H, Numbered(RunOps(H, EMPTY, [failed] + [append]).log)).None?
  {
    var s := Apply(H, EMPTY, failed);
    var e := Entry(H, 1, append.key, append.data, append.timestamp);
    assert RunOps(H, EMPTY, [failed]) == s by {
      assert [failed][..0] == [];
    }
    assert RunOps(H, EMPTY, [failed] + [append]).log == [e] by {
      assert ([failed] + [append])[..1] == [failed];
    }
    var leaves := Numbered([e]);
    NumberedAt([e], 0);
    NumbersAt(leaves, 0);
    assert Numbers(leaves) == [1];
    assert Pow2(1) == 2;
    GapPanics(H, leaves, 1, 0);
  }

  // ----- The loops as the code runs them

  /** The inner loop. */
  method EmitParents(H: Hasher, j: nat, e: Emitted) returns (r: Option<Emitted>)
    ensures r == Climb(H, j, 1, e)
  {
    var nodes, cache := e.nodes, e.cache;
    var h := 1;
    while h < 63 && (j + 1) % Pow2(h) == 0
      invariant 0 < h <= 63
      invariant Climb(H, j, h, Emitted(nodes, cache)) == Climb(H, j, 1, e)
      decreases 63 - h
    {
      var idx := Shr(j, h);
      if (h - 1, 2 * idx) !in cache || (h - 1, 2 * idx + 1) !in cache {
        return None;
      }
      var parent := H.Node(cache[(h - 1, 2 * idx)], cache[(h - 1, 2 * idx + 1)]);
      cache := cache[(h, idx) := parent];
      nodes := nodes + [TreeNode(h, idx, parent)];
      h := h + 1;
    }
    r := Some(Emitted(nodes, cache));
  }

  /** The outer loop, over leaves in any order; nothing where the code panics. */
  method EmitAll(H: Hasher, leaves: seq<(nat, Hash)>) returns (r: Option<Emitted>)
    ensures r == Emit(H, leaves)
  {
    var e := Emitted([], map[]);
    for t := 0 to |leaves|
      invariant Emit(H, leaves[..t]) == Some(e)
    {
      var (j, hash) := leaves[t];
      assert leaves[..t + 1][..t] == leaves[..t];
      var next := EmitParents(H, j, Add(e, 0, j, hash));
      if next.None? {
        EmitStops(H, leaves, t + 1);
        return None;
      }
      e := next.value;
    }
    assert leaves[..|leaves|] == leaves;
    r := Some(e);
  }

  /** The nodes of the leaves, or nothing where the code panics. */
  method ComputeNodes(H: Hasher, leaves: seq<(nat, Hash)>) returns (r: Option<seq<TreeNode>>)
    ensures r.Some? <==> Closed(Numbers(leaves))
    ensures r.Some? ==> Emit(H, leaves).Some? && r.value == Emit(H, leaves).value.nodes
    ensures Dense(leaves) ==> r == Some(NodesOf(H, Hashes(leaves)))
  {
    var e := EmitAll(H, leaves);
    EmitSucceeds(H, leaves, 0);
    if Dense(leaves) {
      DenseEmit(H, leaves);
    }
    r := if e.None? then None else Some(e.value.nodes);
  }

  lemma {:induction false} EmitStops(H: Hasher, leaves: seq<(nat, Hash)>, t: nat)
    requires t <= |leaves| && Emit(H, leaves[..t]).None?
    ensures Emit(H, leaves).None?
    decreases |leaves|
  {
    if t < |leaves| {
      var front := leaves[..|leaves| - 1];
      assert front[..t] == leaves[..t];
      EmitStops(H, front, t);
    } else {
      assert leaves[..t] == leaves;
    }
  }

  class TreeStore {
    var tree: Table

    constructor ()
      ensures tree == map[]
    {
      tree := map[];
    }

    /** Writes a batch of nodes atomically. */
    method WriteBatch(nodes: seq<TreeNode>)
      modifies this
      ensures tree == PutAll(old(tree), nodes)
    {
      var batch := tree;
      for i := 0 to |nodes|
        invariant batch == PutAll(old(tree), nodes[..i])
      {
        var n := nodes[i];
        assert nodes[..i + 1][..i] == nodes[..i];
        batch := batch[(n.level, n.index) := n.hash];
      }
      assert nodes[..|nodes|] == nodes;
      tree := batch;
    }

    /** Deletes every node and recomputes the table from the log. The deletion is written
        first, so that a panic leaves the table empty. */
    method RebuildFromLog(H: Hasher, log: LogStore) returns (ok: bool)
      requires Good(H, log.State()) && log.nextSeq < TWO_64
      modifies this
      ensures ok <==> BlocksComplete(Numbers(Numbered(log.log)))
      ensures GapFree(log.log) && |log.log| < TWO_64 / 2 ==> ok && tree == TableOf(H, Leaves(log.log))
      ensures ok ==> Emit(H, Numbered(log.log)).Some? && tree == PutAll(map[], Emit(H, Numbered(log.log)).value.nodes)
      ensures !ok ==> tree == map[]
    {
      var keys := tree.Keys;
      if keys != {} {
        tree := tree - keys;
      }
      assert tree == map[];
      var nodes := NodesOfLog(H, log.log);
      if nodes.None? {
        return false;
      }
      WriteBatch(nodes.value);
      ok := true;
    }
  }

  /** Reads the whole log and computes its nodes. */
  method NodesOfLog(H: Hasher, log: Log) returns (r: Option<seq<TreeNode>>)
    requires Ascending(log) && forall i :: 0 <= i < |log| ==> log[i].seqNo < TWO_64 - 1
    ensures r.Some? <==> BlocksComplete(Numbers(Numbered(log)))
    ensures r.Some? ==> Emit(H, Numbered(log)).Some? && r.value == Emit(H, Numbered(log)).value.nodes
    ensures GapFree(log) && |log| < TWO_64 / 2 ==> r == Some(NodesOf(H, Leaves(log)))
  {
    var entries := SeqRange(log, 0, TWO_64 - 1);
    WholeLog(log, TWO_64 - 1);
    LogLeaves(log);
    r := ComputeNodes(H, Numbered(entries));
  }

  lemma LogLeaves(log: Log)
    requires Ascending(log)
    ensures Closed(Numbers(Numbered(log))) <==> BlocksComplete(Numbers(Numbered(log)))
    ensures GapFree(log) && |log| < TWO_64 / 2 ==> Dense(Numbered(log))
    ensures Hashes(Numbered(log)) == Leaves(log)
  {
    NumberedLog(log);
    NumberedHashes(log);
    ClosedIsComplete(Numbers(Numbered(log)));
  }

  lemma {:induction false} WholeLog(log: Log, end: nat)
    requires forall i :: 0 <= i < |log| ==> log[i].seqNo < end
    ensures Below(log, end) == log
    decreases |log|
  {
    if log != [] {
      WholeLog(log[1..], end);
    }
  }
}
