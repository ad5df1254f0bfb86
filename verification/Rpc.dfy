/** The proof RPCs. Each one reads the latest head, the log and the stored heads in separate
    steps, between which other callers may append and sign. */
module Rpc {
  import opened Wrappers
  import opened Hashing
  import opened Merkle
  import opened Inclusion
  import opened Consistency
  import opened Truncation
  import opened Storage
  import opened Pagination
  import opened Server

  datatype RpcError =
    | NoHeadYet
    | NoHeadAt(size: nat)
    | SeqOutOfRange(seqNo: nat, size: nat)
    | OldSizeZero
    | OldAboveNew(oldSize: nat, newSize: nat)
    | Proof(error: ProofError)

  datatype InclusionResponse = InclusionResponse(
    leafIndex: nat, treeSize: nat, proof: seq<Hash>, sth: SignedTreeHead)

  datatype ConsistencyResponse = ConsistencyResponse(
    oldSize: nat, newSize: nat, proof: seq<Hash>, oldSth: SignedTreeHead, newSth: SignedTreeHead)

  type Heads = map<nat, SignedTreeHead>

  /** The size a request is about: 0 asks for the latest head. */
  function RequestedSize(heads: Heads, size: nat): Option<nat> {
    if size != 0 then Some(size)
    else
      var latest := Latest(heads);
      if latest.None? then None else Some(latest.value.treeSize)
  }

  /** The InclusionProof call: `heads` is what it finds first, `log` what it reads next, and
      `heads'` what it finds last. */
  function InclusionRpc(H: Hasher, heads: Heads, log: Log, heads': Heads, seqNo: nat, size: nat)
    : Result<InclusionResponse, RpcError>
  {
    var wanted := RequestedSize(heads, size);
    if wanted.None? then Err(NoHeadYet)
    else
      var n := wanted.value;
      if seqNo >= n then Err(SeqOutOfRange(seqNo, n))
      else
        var path := InclusionProof(H, Leaves(Below(log, n)), seqNo);
        if path.Err? then Err(Proof(path.error))
        else
          var sth := AtSize(heads', n);
          if sth.None? then Err(NoHeadAt(n))
          else Ok(InclusionResponse(seqNo, n, path.value, sth.value))
  }

  /** The ConsistencyProof call, which reads the heads a third time. */
  function ConsistencyRpc(H: Hasher, heads: Heads, log: Log, heads': Heads, heads'': Heads, oldSize: nat, size: nat)
    : Result<ConsistencyResponse, RpcError>
  {
    if oldSize == 0 then Err(OldSizeZero)
    else
      var wanted := RequestedSize(heads, size);
      if wanted.None? then Err(NoHeadYet)
      else
        var n := wanted.value;
        if oldSize > n then Err(OldAboveNew(oldSize, n))
        else
          var path := ConsistencyProof(H, Leaves(Below(log, n)), oldSize);
          if path.Err? then Err(Proof(path.error))
          else
            var oldSth, newSth := AtSize(heads', oldSize), AtSize(heads'', n);
            if oldSth.None? then Err(NoHeadAt(oldSize))
            else if newSth.None? then Err(NoHeadAt(n))
            else Ok(ConsistencyResponse(oldSize, n, path.value, oldSth.value, newSth.value))
  }

  // ----- What a request asks for

  /** A request for `size` is about `n`: the size it names, or for 0 the greatest size that has
      a head. */
  ghost predicate AsksFor(heads: Heads, size: nat, n: nat) {
    if size != 0 then n == size else n in heads && forall k :: k in heads ==> k <= n
  }

  /** The call finds out what it is asked for, unless it is to pick a head and there is none. */
  lemma SizeIsFound(H: Hasher, s: State, size: nat, n: nat)
    requires Inv(H, s)
    ensures RequestedSize(s.heads, size).None? <==> size == 0 && s.heads == map[]
    ensures AsksFor(s.heads, size, n) <==> RequestedSize(s.heads, size) == Some(n)
  {
    if size == 0 && s.heads != map[] {
      var last: nat := LastKey(s.heads.Keys);
      assert last in s.heads && s.heads[last].treeSize == last;
    }
  }

  /** What InclusionProof answers, in every case: `n` is the size asked for and `c` the number of
      entries below it that are read. */
  lemma InclusionRpcAnswers(H: Hasher, s: State, log: Log, heads': Heads, seqNo: nat, size: nat, n: nat)
    requires Inv(H, s)
    ensures
      var r, c := InclusionRpc(H, s.heads, log, heads', seqNo, size), |Below(log, n)|;
      && (r == Err(NoHeadYet) <==> size == 0 && s.heads == map[])
      && (AsksFor(s.heads, size, n) ==>
            if seqNo >= n then r == Err(SeqOutOfRange(seqNo, n))
            else if seqNo >= c then r == Err(Proof(LeafIndexOutOfRange(seqNo, c)))
            else if n !in heads' then r == Err(NoHeadAt(n))
            else r.Ok? && r.value.leafIndex == seqNo && r.value.treeSize == n && r.value.sth == heads'[n])
  {
    SizeIsFound(H, s, size, n);
  }

  /** And what ConsistencyProof answers. */
  lemma ConsistencyRpcAnswers(H: Hasher, s: State, log: Log, heads': Heads, heads'': Heads, m: nat, size: nat, n: nat)
    requires Inv(H, s)
    ensures
      var r, c := ConsistencyRpc(H, s.heads, log, heads', heads'', m, size), |Below(log, n)|;
      && (m == 0 ==> r == Err(OldSizeZero))
      && (m != 0 ==> (r == Err(NoHeadYet) <==> size == 0 && s.heads == map[]))
      && (m != 0 && AsksFor(s.heads, size, n) ==>
            if m > n then r == Err(OldAboveNew(m, n))
            else if m > c then r == Err(Proof(InvalidSizes(m, c)))
            else if m !in heads' then r == Err(NoHeadAt(m))
            else if n !in heads'' then r == Err(NoHeadAt(n))
            else
              && r.Ok? && r.value.oldSize == m && r.value.newSize == n
              && r.value.oldSth == heads'[m] && r.value.newSth == heads''[n])
  {
    SizeIsFound(H, s, size, n);
    if m != 0 && RequestedSize(s.heads, size) == Some(n) {
      ConsistencyRpcFor(H, s.heads, log, heads', heads'', m, size, n);
    }
  }

  lemma ConsistencyRpcFor(H: Hasher, heads: Heads, log: Log, heads': Heads, heads'': Heads, m: nat, size: nat, n: nat)
    requires m != 0 && RequestedSize(heads, size) == Some(n)
    ensures
      var r, c := ConsistencyRpc(H, heads, log, heads', heads'', m, size), |Below(log, n)|;
      if m > n then r == Err(OldAboveNew(m, n))
      else if m > c then r == Err(Proof(InvalidSizes(m, c)))
      else if m !in heads' then r == Err(NoHeadAt(m))
      else if n !in heads'' then r == Err(NoHeadAt(n))
      else
        && r.Ok? && r.value.oldSize == m && r.value.newSize == n
        && r.value.oldSth == heads'[m] && r.value.newSth == heads''[n]
  {
  }

  // ----- What is read from the log

  /** Every number below `n` is in the log. */
  ghost predicate Complete(log: Log, n: nat) {
    n <= |log| && forall i :: 0 <= i < n ==> log[i].seqNo == i
  }

  /** The entries below `n` are the first ones of the log, and at most `n`. */
  lemma {:induction false} BelowIsPrefix(log: Log, n: nat)
    ensures Below(log, n) <= log
    ensures forall e :: e in Below(log, n) ==> e.seqNo < n
    ensures |Below(log, n)| < |log| ==> log[|Below(log, n)|].seqNo >= n
  {
    if log != [] && log[0].seqNo < n {
      BelowIsPrefix(log[1..], n);
      assert log == [log[0]] + log[1..];
    }
  }

  lemma {:induction false} Spread(log: Log, i: nat, j: nat)
    requires Ascending(log) && i <= j < |log|
    ensures log[i].seqNo + (j - i) <= log[j].seqNo
    decreases j
  {
    if i < j {
      Spread(log, i, j - 1);
    }
  }

  /** A read of the numbers below `n` finds at most `n` entries, and finds `n` exactly when
      none is missing. */
  lemma BelowComplete(log: Log, n: nat)
    requires Ascending(log)
    ensures |Below(log, n)| <= n
    ensures |Below(log, n)| == n <==> Complete(log, n)
  {
    var c := |Below(log, n)|;
    BelowIsPrefix(log, n);
    if c > 0 {
      Spread(log, 0, c - 1);
      assert Below(log, n)[c - 1] in Below(log, n);
    }
    if c < n && Complete(log, n) {
      assert false;
    }
    if c == n {
      forall i | 0 <= i < n ensures log[i].seqNo == i {
        Spread(log, 0, i);
        Spread(log, i, n - 1);
      }
    }
  }

  /** The leaves that a proof is made of are the first leaves of any later log. */
  lemma BelowLeaves(log: Log, log': Log, n: nat)
    requires log <= log'
    ensures |Below(log, n)| <= |log'| && Leaves(Below(log, n)) == Leaves(log')[..|Below(log, n)|]
  {
    var c := |Below(log, n)|;
    BelowIsPrefix(log, n);
    assert Below(log, n) == log'[..c];
    LeavesPrefix(log', c);
  }

  lemma {:induction false} LeafAt(log: Log, i: nat)
    requires i < |log|
    ensures Leaves(log)[i] == log[i].leafHash
    decreases |log|
  {
    if i < |log| - 1 {
      LeafAt(log[..|log| - 1], i);
    }
  }

  // ----- End-to-end correctness

  /** The states that one call reads from are those of some run. */
  ghost predicate Interleaved(H: Hasher, s: State, a: seq<Step>, s': State) {
    Inv(H, s) && s' == Run(H, s, a)
  }

  /** The head that a response carries is the head of the first `n` leaves. */
  lemma HeadCovers(H: Hasher, s: State, n: nat)
    requires Inv(H, s) && n in s.heads
    ensures 0 < n <= |s.tree| && s.heads[n].treeSize == n && s.heads[n].rootHash == Mth(H, s.tree[..n])
  {
    assert PrefixHead(H, s.tree, n, s.heads[n].rootHash);
  }

  /** What a path from the first `c` leaves of `L` is worth for the root of `L`: it verifies
      its leaf if `c` is all of them, and otherwise gives a break if it verifies any leaf. */
  lemma PathOfPrefix(H: Hasher, L: seq<Hash>, c: nat, m: nat)
    requires m < c <= |L|
    ensures
      var path := Path(H, L[..c], m);
      if c == |L| then Replay(H, L[m], m, |L|, path) == Some(Mth(H, L))
      else forall leaf :: Replay(H, leaf, m, |L|, path) == Some(Mth(H, L)) ==>
        var found := TruncatedPathBreak(H, L, c, m, leaf);
        found.Some? && IsBreak(H, L, found.value)
  {
    if c == |L| {
      assert L[..c] == L;
      PathReplays(H, L, m);
    } else {
      forall leaf | Replay(H, leaf, m, |L|, Path(H, L[..c], m)) == Some(Mth(H, L))
        ensures
          var found := TruncatedPathBreak(H, L, c, m, leaf);
          found.Some? && IsBreak(H, L, found.value)
      {
        TruncatedPathRejected(H, L, c, m, leaf);
      }
    }
  }

  /** The head and the leaves that a proof RPC puts into one response. */
  lemma RpcParts(H: Hasher, s2: State, s3: State, n: nat)
    requires Inv(H, s2) && Inv(H, s3) && Evolves(s2, s3) && n in s3.heads
    ensures 0 < n <= |s3.tree| && |Below(s2.store.log, n)| <= n && s3.heads[n].treeSize == n
    ensures
      var L := s3.tree[..n];
      s3.heads[n].rootHash == Mth(H, L) && Leaves(Below(s2.store.log, n)) == L[..|Below(s2.store.log, n)|]
    ensures |Below(s2.store.log, n)| == n <==> Complete(s2.store.log, n)
  {
    HeadCovers(H, s3, n);
    BelowComplete(s2.store.log, n);
    BelowLeaves(s2.store.log, s3.store.log, n);
    var c := |Below(s2.store.log, n)|;
    assert s3.tree[..c] == s3.tree[..n][..c];
  }

  /** Every success of InclusionProof, in every interleaving with appends, failed writes,
      signers and crashes. Its head is the head of the first `n` leaves `L`. If all numbers
      below `n` were in the log when it was read, the proof verifies the stored entry with
      the requested number. If not, the proof verifies no leaf at all, or a break is found. */
  lemma InclusionRpcExact(H: Hasher, s1: State, s2: State, s3: State, a: seq<Step>, b: seq<Step>, seqNo: nat, size: nat)
    requires Interleaved(H, s1, a, s2) && Interleaved(H, s2, b, s3)
    requires InclusionRpc(H, s1.heads, s2.store.log, s3.heads, seqNo, size).Ok?
    ensures
      var r := InclusionRpc(H, s1.heads, s2.store.log, s3.heads, seqNo, size).value;
      var n, log := r.treeSize, s2.store.log;
      && AsksFor(s1.heads, size, n)
      && r.leafIndex == seqNo < n <= |s3.tree|
      && var L := s3.tree[..n];
      && n in s3.heads && r.sth == s3.heads[n] && r.sth.treeSize == n && r.sth.rootHash == Mth(H, L)
      && if Complete(log, n) then
           && log[seqNo].seqNo == seqNo && log[seqNo].leafHash == H.Leaf(log[seqNo].data)
           && Replay(H, log[seqNo].leafHash, seqNo, n, r.proof) == Some(r.sth.rootHash)
         else
           && seqNo < |Below(log, n)| < n
           && forall leaf :: Replay(H, leaf, seqNo, n, r.proof) == Some(r.sth.rootHash) ==>
                var found := TruncatedPathBreak(H, L, |Below(log, n)|, seqNo, leaf);
                found.Some? && IsBreak(H, L, found.value)
  {
    RunKeepsInv(H, s1, a);
    RunKeepsInv(H, s2, b);
    var r := InclusionRpc(H, s1.heads, s2.store.log, s3.heads, seqNo, size).value;
    SizeIsFound(H, s1, size, r.treeSize);
    RpcParts(H, s2, s3, r.treeSize);
    PathOfPrefix(H, s3.tree[..r.treeSize], |Below(s2.store.log, r.treeSize)|, seqNo);
    if Complete(s2.store.log, r.treeSize) {
      LeafAt(s3.store.log, seqNo);
    }
  }

  /** What a consistency proof from the first `c` leaves of `L` is worth for the roots of `L`:
      accepted if `c` is all of them, and a break if it is accepted nevertheless. */
  lemma ProofOfPrefix(H: Hasher, L: seq<Hash>, c: nat, m: nat)
    requires 0 < m <= c <= |L|
    ensures
      var proof, oldRoot := ConsistencyProof(H, L[..c], m).value, Mth(H, L[..m]);
      if c == |L| then Accepts(H, m, |L|, proof, oldRoot, Mth(H, L))
      else Accepts(H, m, |L|, proof, oldRoot, Mth(H, L)) ==>
        var found := TruncatedProofBreak(H, L, c, m, oldRoot);
        found.Some? && IsBreak(H, L, found.value)
  {
    var oldRoot := Mth(H, L[..m]);
    if c == |L| {
      assert L[..c] == L;
      ProofAccepted(H, L, m);
    } else if Accepts(H, m, |L|, ConsistencyProof(H, L[..c], m).value, oldRoot, Mth(H, L)) {
      TruncatedProofRejected(H, L, c, m, oldRoot);
    }
  }

  lemma OldRoot(H: Hasher, s3: State, s4: State, m: nat, n: nat)
    requires Inv(H, s3) && Evolves(s3, s4) && m in s3.heads && m <= n <= |s4.tree|
    ensures 0 < m && s3.heads[m].treeSize == m && s3.heads[m].rootHash == Mth(H, s4.tree[..n][..m])
  {
    HeadCovers(H, s3, m);
    assert s3.tree[..m] == s4.tree[..n][..m];
  }

  /** What the proof in a response is worth, given that its heads are heads of `L`. */
  lemma ConsistencyWorth(H: Hasher, heads: Heads, log: Log, heads': Heads, heads'': Heads, m: nat, size: nat,
                         L: seq<Hash>)
    requires ConsistencyRpc(H, heads, log, heads', heads'', m, size).Ok?
    requires
      var r := ConsistencyRpc(H, heads, log, heads', heads'', m, size).value;
      && r.newSize == |L| && |Below(log, |L|)| <= |L| && Leaves(Below(log, |L|)) == L[..|Below(log, |L|)|]
      && 0 < m <= |L| && r.oldSth.rootHash == Mth(H, L[..m]) && r.newSth.rootHash == Mth(H, L)
    ensures
      var r := ConsistencyRpc(H, heads, log, heads', heads'', m, size).value;
      var c := |Below(log, |L|)|;
      && m <= c
      && if c == |L| then Accepts(H, m, |L|, r.proof, r.oldSth.rootHash, r.newSth.rootHash)
         else Accepts(H, m, |L|, r.proof, r.oldSth.rootHash, r.newSth.rootHash) ==>
           var found := TruncatedProofBreak(H, L, c, m, r.oldSth.rootHash);
           found.Some? && IsBreak(H, L, found.value)
  {
    ProofOfPrefix(H, L, |Below(log, |L|)|, m);
  }

  /** Every success of ConsistencyProof, in every interleaving. Its heads are the heads of
      the first `m` and of the first `n` leaves `L`. If all numbers below `n` were in the log
      when it was read, the proof is accepted between them; if not, accepting it gives a break. */
  lemma ConsistencyRpcExact(H: Hasher, s1: State, s2: State, s3: State, s4: State,
                            a: seq<Step>, b: seq<Step>, c: seq<Step>, m: nat, size: nat)
    requires Interleaved(H, s1, a, s2) && Interleaved(H, s2, b, s3) && Interleaved(H, s3, c, s4)
    requires ConsistencyRpc(H, s1.heads, s2.store.log, s3.heads, s4.heads, m, size).Ok?
    ensures
      var r := ConsistencyRpc(H, s1.heads, s2.store.log, s3.heads, s4.heads, m, size).value;
      var n, log := r.newSize, s2.store.log;
      && AsksFor(s1.heads, size, n)
      && 0 < r.oldSize == m <= n <= |s4.tree|
      && m in s3.heads && r.oldSth == s3.heads[m] && r.oldSth.treeSize == m
      && n in s4.heads && r.newSth == s4.heads[n] && r.newSth.treeSize == n
      && var L := s4.tree[..n];
      && r.oldSth.rootHash == Mth(H, L[..m]) && r.newSth.rootHash == Mth(H, L)
      && if Complete(log, n) then Accepts(H, m, n, r.proof, r.oldSth.rootHash, r.newSth.rootHash)
         else
           && m <= |Below(log, n)| < n
           && (Accepts(H, m, n, r.proof, r.oldSth.rootHash, r.newSth.rootHash) ==>
                 var found := TruncatedProofBreak(H, L, |Below(log, n)|, m, r.oldSth.rootHash);
                 found.Some? && IsBreak(H, L, found.value))
  {
    var r := ConsistencyRpc(H, s1.heads, s2.store.log, s3.heads, s4.heads, m, size).value;
    ConsistencyRpcHeads(H, s1, s2, s3, s4, a, b, c, m, size, r.newSize);
    ConsistencyWorth(H, s1.heads, s2.store.log, s3.heads, s4.heads, m, size, s4.tree[..r.newSize]);
  }

  /** What the heads in a response are, and the leaves that its proof is made of. */
  lemma ConsistencyRpcHeads(H: Hasher, s1: State, s2: State, s3: State, s4: State,
                            a: seq<Step>, b: seq<Step>, c: seq<Step>, m: nat, size: nat, n: nat)
    requires Interleaved(H, s1, a, s2) && Interleaved(H, s2, b, s3) && Interleaved(H, s3, c, s4)
    requires ConsistencyRpc(H, s1.heads, s2.store.log, s3.heads, s4.heads, m, size).Ok?
    requires n == ConsistencyRpc(H, s1.heads, s2.store.log, s3.heads, s4.heads, m, size).value.newSize
    ensures AsksFor(s1.heads, size, n) && 0 < m <= n <= |s4.tree|
    ensures m in s3.heads && s3.heads[m].treeSize == m && n in s4.heads && s4.heads[n].treeSize == n
    ensures |Below(s2.store.log, n)| <= n && (|Below(s2.store.log, n)| == n <==> Complete(s2.store.log, n))
    ensures
      var L := s4.tree[..n];
      && s3.heads[m].rootHash == Mth(H, L[..m]) && s4.heads[n].rootHash == Mth(H, L)
      && Leaves(Below(s2.store.log, n)) == L[..|Below(s2.store.log, n)|]
  {
    RunKeepsInv(H, s2, b);
    RunKeepsInv(H, s3, c);
    SizeIsFound(H, s1, size, n);
    RpcParts(H, s2, s4, n);
    OldRoot(H, s3, s4, m, n);
  }

  lemma ConsistencyRpcComplete(H: Hasher, s1: State, s2: State, s3: State, s4: State,
                               a: seq<Step>, b: seq<Step>, c: seq<Step>, m: nat, size: nat)
    requires Interleaved(H, s1, a, s2) && Interleaved(H, s2, b, s3) && Interleaved(H, s3, c, s4)
    requires ConsistencyRpc(H, s1.heads, s2.store.log, s3.heads, s4.heads, m, size).Ok?
    requires Complete(s2.store.log, RequestedSize(s1.heads, size).value)
    ensures
      var r := ConsistencyRpc(H, s1.heads, s2.store.log, s3.heads, s4.heads, m, size).value;
      Accepts(H, m, r.newSize, r.proof, r.oldSth.rootHash, r.newSth.rootHash)
  {
    var n := RequestedSize(s1.heads, size).value;
    BelowComplete(s2.store.log, n);
    AcceptedWhenAllRead(H, s1, s2, s3, s4, a, b, c, m, size, n);
  }

  lemma AcceptedWhenAllRead(H: Hasher, s1: State, s2: State, s3: State, s4: State,
                            a: seq<Step>, b: seq<Step>, c: seq<Step>, m: nat, size: nat, n: nat)
    requires Interleaved(H, s1, a, s2) && Interleaved(H, s2, b, s3) && Interleaved(H, s3, c, s4)
    requires ConsistencyRpc(H, s1.heads, s2.store.log, s3.heads, s4.heads, m, size).Ok?
    requires RequestedSize(s1.heads, size) == Some(n) && |Below(s2.store.log, n)| == n
    ensures
      var r := ConsistencyRpc(H, s1.heads, s2.store.log, s3.heads, s4.heads, m, size).value;
      r.newSize == n && Accepts(H, m, n, r.proof, r.oldSth.rootHash, r.newSth.rootHash)
  {
    ConsistencyRpcHeads(H, s1, s2, s3, s4, a, b, c, m, size, n);
    ConsistencyWorth(H, s1.heads, s2.store.log, s3.heads, s4.heads, m, size, s4.tree[..n]);
  }

  ghost predicate AllDurable(steps: seq<Step>) {
    forall i :: 0 <= i < |steps| ==> Durable(steps[i])
  }

  /** Without failed writes a read is complete exactly when the log has `n` entries, and so
      whenever the head of size `n` is already stored. */
  lemma CompleteWhenSigned(H: Hasher, steps: seq<Step>, n: nat)
    requires AllDurable(steps)
    ensures
      var s := Run(H, INIT, steps);
      && Inv(H, s)
      && (n in s.heads ==> Complete(s.store.log, n))
      && (Complete(s.store.log, n) <==> n <= |s.store.log|)
  {
    var s := Run(H, INIT, steps);
    InitIsGood(H);
    RunKeepsInv(H, INIT, steps);
    DurableRunsAreGapFree(H, steps);
    if n in s.heads {
      HeadCovers(H, s, n);
    }
  }

  /** The size that the server picks has a head, and so has one that is asked for later. */
  lemma SizeIsSigned(H: Hasher, s1: State, a: seq<Step>, s2: State, size: nat, n: nat)
    requires Interleaved(H, s1, a, s2) && AsksFor(s1.heads, size, n) && (size == 0 || size in s2.heads)
    ensures n in s2.heads
  {
    RunKeepsInv(H, s1, a);
  }

  /** What a call reads without failed writes, when it left the size to the server or when
      the head it asks for was stored before the log was read. */
  lemma ReadIsComplete(H: Hasher, steps: seq<Step>, s1: State, a: seq<Step>, s2: State, size: nat, n: nat)
    requires AllDurable(steps + a) && s1 == Run(H, INIT, steps) && s2 == Run(H, s1, a)
    requires AsksFor(s1.heads, size, n) && (size == 0 || size in s2.heads)
    ensures Inv(H, s1) && Inv(H, s2) && n in s2.heads && Complete(s2.store.log, n)
  {
    InitIsGood(H);
    RunKeepsInv(H, INIT, steps);
    SizeIsSigned(H, s1, a, s2, size, n);
    RunConcat(H, INIT, steps, a);
    CompleteWhenSigned(H, steps + a, n);
  }

  /** End-to-end, without failed writes: when the request leaves the size to the server, or
      its head was stored before the log is read, the call succeeds for exactly the numbers
      below the size, and what it returns verifies the stored entry. */
  lemma InclusionRpcVerifies(H: Hasher, steps: seq<Step>, s1: State, a: seq<Step>, s2: State, b: seq<Step>, s3: State,
                             seqNo: nat, size: nat, n: nat)
    requires AllDurable(steps + a) && s1 == Run(H, INIT, steps) && s2 == Run(H, s1, a) && s3 == Run(H, s2, b)
    requires AsksFor(s1.heads, size, n) && (size == 0 || size in s2.heads)
    ensures
      var log := s2.store.log;
      var r := InclusionRpc(H, s1.heads, log, s3.heads, seqNo, size);
      && n <= |log|
      && (r.Ok? <==> seqNo < n)
      && (r.Ok? ==>
            && r.value.treeSize == n && log[seqNo].seqNo == seqNo
            && Replay(H, log[seqNo].leafHash, seqNo, n, r.value.proof) == Some(r.value.sth.rootHash))
  {
    ReadIsComplete(H, steps, s1, a, s2, size, n);
    BelowComplete(s2.store.log, n);
    RunKeepsInv(H, s2, b);
    InclusionRpcAnswers(H, s1, s2.store.log, s3.heads, seqNo, size, n);
    if InclusionRpc(H, s1.heads, s2.store.log, s3.heads, seqNo, size).Ok? {
      InclusionRpcExact(H, s1, s2, s3, a, b, seqNo, size);
    }
  }

  lemma ConsistencyReads(H: Hasher, steps: seq<Step>, s1: State, a: seq<Step>, s2: State, b: seq<Step>, s3: State,
                         c: seq<Step>, s4: State, size: nat, n: nat)
    requires AllDurable(steps + a) && s1 == Run(H, INIT, steps)
    requires s2 == Run(H, s1, a) && s3 == Run(H, s2, b) && s4 == Run(H, s3, c)
    requires AsksFor(s1.heads, size, n) && (size == 0 || size in s2.heads)
    ensures Interleaved(H, s1, a, s2) && Interleaved(H, s2, b, s3) && Interleaved(H, s3, c, s4)
    ensures RequestedSize(s1.heads, size) == Some(n)
    ensures Complete(s2.store.log, n) && |Below(s2.store.log, n)| == n && n in s4.heads
  {
    ReadIsComplete(H, steps, s1, a, s2, size, n);
    BelowComplete(s2.store.log, n);
    SizeIsFound(H, s1, size, n);
    RunKeepsInv(H, s2, b);
    RunKeepsInv(H, s3, c);
  }

  lemma ConsistencyRpcOk(H: Hasher, heads: Heads, log: Log, heads': Heads, heads'': Heads, m: nat, size: nat, n: nat)
    requires RequestedSize(heads, size) == Some(n) && |Below(log, n)| == n && n in heads''
    ensures
      var r := ConsistencyRpc(H, heads, log, heads', heads'', m, size);
      && (r.Ok? <==> 0 < m <= n && m in heads')
      && (r.Ok? ==> r.value.newSize == n)
  {
  }

  /** The call succeeds for exactly the older heads, and then its proof is accepted. */
  ghost predicate ConsistencyServed(H: Hasher, r: Result<ConsistencyResponse, RpcError>, heads: Heads, m: nat, n: nat) {
    && (r.Ok? <==> 0 < m <= n && m in heads)
    && (r.Ok? ==>
          && r.value.newSize == n
          && Accepts(H, m, n, r.value.proof, r.value.oldSth.rootHash, r.value.newSth.rootHash))
  }

  lemma ConsistencyRpcServed(H: Hasher, s1: State, s2: State, s3: State, s4: State,
                             a: seq<Step>, b: seq<Step>, c: seq<Step>, m: nat, size: nat, n: nat)
    requires Interleaved(H, s1, a, s2) && Interleaved(H, s2, b, s3) && Interleaved(H, s3, c, s4)
    requires RequestedSize(s1.heads, size) == Some(n)
    requires Complete(s2.store.log, n) && |Below(s2.store.log, n)| == n && n in s4.heads
    ensures ConsistencyServed(H, ConsistencyRpc(H, s1.heads, s2.store.log, s3.heads, s4.heads, m, size), s3.heads, m, n)
  {
    ConsistencyRpcOk(H, s1.heads, s2.store.log, s3.heads, s4.heads, m, size, n);
    if ConsistencyRpc(H, s1.heads, s2.store.log, s3.heads, s4.heads, m, size).Ok? {
      ConsistencyRpcComplete(H, s1, s2, s3, s4, a, b, c, m, size);
    }
  }

  /** The same for ConsistencyProof, which succeeds for exactly the older heads. */
  lemma ConsistencyRpcVerifies(H: Hasher, steps: seq<Step>, s1: State, a: seq<Step>, s2: State, b: seq<Step>, s3: State,
                               c: seq<Step>, s4: State, m: nat, size: nat, n: nat)
    requires AllDurable(steps + a) && s1 == Run(H, INIT, steps)
    requires s2 == Run(H, s1, a) && s3 == Run(H, s2, b) && s4 == Run(H, s3, c)
    requires AsksFor(s1.heads, size, n) && (size == 0 || size in s2.heads)
    ensures ConsistencyServed(H, ConsistencyRpc(H, s1.heads, s2.store.log, s3.heads, s4.heads, m, size), s3.heads, m, n)
  {
    ConsistencyReads(H, steps, s1, a, s2, b, s3, c, s4, size, n);
    ConsistencyRpcServed(H, s1, s2, s3, s4, a, b, c, m, size, n);
  }

  // ----- Successes that do not verify

  /** A signer that runs from its snapshot to its write without interruption. */
  const SIGN: seq<Step> := [Snapshot(0)] + [CheckLatest(0)] + [StoreHead(0, 0, [], [], 1)]

  /** An append that is signed at once: the new size has a head, and the old heads stay. */
  lemma AppendAndSign(H: Hasher, s: State, append: Step) returns (t: State)
    requires Inv(H, s) && s.signers == map[] && append.Append? && append.written
    ensures t == Run(H, s, [append] + SIGN) && Inv(H, t) && t.signers == map[]
    ensures t.store == Appended(H, s.store, append.key, append.data, append.timestamp)
    ensures |t.tree| == |s.tree| + 1 && |t.tree| in t.heads && forall n :: n in s.heads ==> n in t.heads
  {
    var u := Next(H, s, append);
    var store := StoreHead(0, 0, [], [], 1);
    RunOne(H, s, append);
    RunConcat(H, s, [append], SIGN);
    NextKeepsInv(H, s, append);
    SignRun(H, u, 0, store);
    t := Signed(H, u, store);
    SignedHasHead(H, u, store);
  }

  lemma SignedHasHead(H: Hasher, s: State, store: Step)
    requires Inv(H, s) && s.tree != [] && store.StoreHead?
    ensures |s.tree| in Signed(H, s, store).heads
  {
  }

  /** A read of the numbers below 2 that finds one entry only gives proofs of no elements. They
      verify nothing in a tree of two leaves, and are accepted between no two roots. */
  lemma LoneLeafProofs(H: Hasher, heads: Heads, log: Log, heads': Heads, leaf: Hash)
    requires |Below(log, 2)| == 1 && 1 in heads' && 2 in heads'
    ensures
      var r := InclusionRpc(H, heads, log, heads', 0, 2);
      r.Ok? && Replay(H, leaf, 0, 2, r.value.proof) == None
    ensures
      var r := ConsistencyRpc(H, heads, log, heads', heads', 1, 2);
      r.Ok? && !Accepts(H, 1, 2, r.value.proof, r.value.oldSth.rootHash, r.value.newSth.rootHash)
  {
    assert Path(H, Leaves(Below(log, 2)), 0) == [];
    var r := ConsistencyRpc(H, heads, log, heads', heads', 1, 2);
    assert r.Ok? && r.value.proof == [];
    assert Rebuild(H, 1, 2, r.value.oldSth.rootHash, [], true)
        == AddRight(H, Rebuild(H, 1, 1, r.value.oldSth.rootHash, [], true));
  }

  /** A race: the log is read when it has one entry, a second one is appended and signed, and
      the head of size 2 goes out with proofs from one leaf. No leaf verifies, and the old
      root is not accepted as a prefix of the new one. */
  lemma RaceDoesNotVerify(H: Hasher, append: Step, leaf: Hash)
    requires append.Append? && append.written
    ensures
      var s := Run(H, INIT, [append] + SIGN);
      var t := Run(H, s, [append] + SIGN);
      && var r := InclusionRpc(H, s.heads, s.store.log, t.heads, 0, 2);
      && r.Ok? && Replay(H, leaf, 0, 2, r.value.proof) == None
      && var c := ConsistencyRpc(H, s.heads, s.store.log, t.heads, t.heads, 1, 2);
      && c.Ok? && !Accepts(H, 1, 2, c.value.proof, c.value.oldSth.rootHash, c.value.newSth.rootHash)
  {
    InitIsGood(H);
    var s := AppendAndSign(H, INIT, append);
    var t := AppendAndSign(H, s, append);
    assert s.store.log == [Entry(H, 0, append.key, append.data, append.timestamp)];
    LoneLeafProofs(H, s.heads, s.store.log, t.heads, leaf);
  }

  /** A failed write uses up number 0. The next two entries are signed, and the head of size 2
      goes out with proofs from one leaf, though all is read from one state. */
  lemma GapDoesNotVerify(H: Hasher, append: Step, failed: Step, leaf: Hash)
    requires append.Append? && append.written && failed.Append? && !failed.written
    ensures
      var s := Run(H, INIT, [failed] + ([append] + SIGN) + ([append] + SIGN));
      && var r := InclusionRpc(H, s.heads, s.store.log, s.heads, 0, 2);
      && r.Ok? && Replay(H, leaf, 0, 2, r.value.proof) == None
      && var c := ConsistencyRpc(H, s.heads, s.store.log, s.heads, s.heads, 1, 2);
      && c.Ok? && !Accepts(H, 1, 2, c.value.proof, c.value.oldSth.rootHash, c.value.newSth.rootHash)
  {
    InitIsGood(H);
    var s0 := Run(H, INIT, [failed]);
    RunOne(H, INIT, failed);
    RunKeepsInv(H, INIT, [failed]);
    var s1 := AppendAndSign(H, s0, append);
    var s2 := AppendAndSign(H, s1, append);
    RunConcat(H, INIT, [failed], [append] + SIGN);
    RunConcat(H, INIT, [failed] + ([append] + SIGN), [append] + SIGN);
    GapLog(H, s0.store, append.key, append.data, append.timestamp);
    LoneLeafProofs(H, s2.heads, s2.store.log, s2.heads, leaf);
  }

  lemma GapLog(H: Hasher, s: Store, key: Bytes, data: Bytes, timestamp: int)
    requires s == Skipped(EMPTY, 1)
    ensures |Below(Appended(H, Appended(H, s, key, data, timestamp), key, data, timestamp).log, 2)| == 1
  {
    var e := Entry(H, 1, key, data, timestamp);
    var log := [e, e.(seqNo := 2)];
    assert Appended(H, s, key, data, timestamp).log == [e];
    assert Appended(H, Appended(H, s, key, data, timestamp), key, data, timestamp).log == log;
    assert log[1..] == [e.(seqNo := 2)];
  }
}
