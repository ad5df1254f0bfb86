/** The server as a state machine: appends under the mutex, tree heads signed in two phases
    outside it, and crashes. Steps of concurrent callers interleave in any order. */
module Server {
  import opened Wrappers
  import opened Hashing
  import opened Merkle
  import opened Sequences
  import opened Storage

  datatype SignedTreeHead = SignedTreeHead(
    treeSize: nat, rootHash: Hash, timestamp: int, signature: Bytes, publicKey: Bytes, keyVersion: nat)

  /** A signer between its snapshot and its write: before or after it has looked at the
      latest head. */
  datatype Signer = Snapped(size: nat, root: Hash) | Cleared(size: nat, root: Hash)

  /** `tree` is the list of leaves that the in-memory tree has been fed. */
  datatype State = State(store: Store, tree: seq<Hash>, heads: map<nat, SignedTreeHead>, signers: map<nat, Signer>)

  const MAX_BATCH: nat := 1000

  const INIT: State := State(EMPTY, [], map[], map[])

  datatype Step =
    | Append(key: Bytes, data: Bytes, timestamp: int, written: bool)
    | BatchAppend(pairs: seq<(Bytes, Bytes)>, timestamp: int, written: bool)
    | Snapshot(id: nat)
    | CheckLatest(id: nat)
    | StoreHead(id: nat, signedAt: int, signature: Bytes, publicKey: Bytes, keyVersion: nat)
    | Crash

  function DataLeaves(H: Hasher, pairs: seq<(Bytes, Bytes)>): seq<Hash> {
    if pairs == [] then [] else DataLeaves(H, pairs[..|pairs| - 1]) + [H.Leaf(pairs[|pairs| - 1].1)]
  }

  /** `key` is the key that an iterator from the end of a column family yields first. */
  predicate IsLast(keys: set<nat>, key: nat) {
    key in keys && forall k :: k in keys ==> k <= key
  }

  /** Going up from any key ends at the last one. */
  lemma {:induction false} LastAbove(keys: set<nat>, key: nat)
    requires key in keys
    ensures exists last: nat :: IsLast(keys, last)
    decreases set k | k in keys && k > key
  {
    var above := set k | k in keys && k > key;
    if above == {} {
      assert forall k :: k in keys && k > key ==> k in above;
      assert IsLast(keys, key);
    } else {
      var k :| k in above;
      assert k !in set k' | k' in keys && k' > k;
      LastAbove(keys, k);
    }
  }

  /** The last key of a column family. */
  function LastKey(keys: set<nat>): (last: nat)
    requires keys != {}
    ensures IsLast(keys, last)
  {
    var some: nat :| some in keys;
    LastAbove(keys, some);
    var last: nat :| IsLast(keys, last);
    last
  }

  function Latest(heads: map<nat, SignedTreeHead>): Option<SignedTreeHead> {
    if heads == map[] then None else Some(heads[LastKey(heads.Keys)])
  }

  function AtSize(heads: map<nat, SignedTreeHead>, size: nat): Option<SignedTreeHead> {
    if size in heads then Some(heads[size]) else None
  }

  /** One atomic step. A step that its caller cannot take changes nothing. */
  function Next(H: Hasher, s: State, step: Step): State {
    match step
    case Append(key, data, ts, written) =>
      if written then s.(store := Appended(H, s.store, key, data, ts), tree := s.tree + [H.Leaf(data)])
      else s.(store := Skipped(s.store, 1))
    case BatchAppend(pairs, ts, written) =>
      if pairs == [] || |pairs| > MAX_BATCH then s
      else if written then s.(store := AppendedAll(H, s.store, pairs, ts), tree := s.tree + DataLeaves(H, pairs))
      else s.(store := Skipped(s.store, |pairs|))
    case Snapshot(id) =>
      if id in s.signers || s.tree == [] then s
      else s.(signers := s.signers[id := Snapped(|s.tree|, Mth(H, s.tree))])
    case CheckLatest(id) =>
      if id !in s.signers || s.signers[id].Cleared? then s
      else
        var Snapped(size, root) := s.signers[id];
        var latest := Latest(s.heads);
        if latest.Some? && latest.value.treeSize == size then s.(signers := s.signers - {id})
        else s.(signers := s.signers[id := Cleared(size, root)])
    case StoreHead(id, signedAt, signature, publicKey, keyVersion) =>
      if id !in s.signers || s.signers[id].Snapped? then s
      else
        var Cleared(size, root) := s.signers[id];
        var sth := SignedTreeHead(size, root, signedAt, signature, publicKey, keyVersion);
        s.(heads := s.heads[size := sth], signers := s.signers - {id})
    case Crash =>
      State(Reopened(s.store), Leaves(s.store.log), s.heads, map[])
  }

  function Run(H: Hasher, s: State, steps: seq<Step>): State {
    if steps == [] then s else Next(H, Run(H, s, steps[..|steps| - 1]), steps[|steps| - 1])
  }

  // ----- Invariant

  ghost predicate Inv(H: Hasher, s: State) {
    && Good(H, s.store)
    && s.tree == Leaves(s.store.log)
    && (forall n :: n in s.heads ==> s.heads[n].treeSize == n && PrefixHead(H, s.tree, n, s.heads[n].rootHash))
    && (forall id :: id in s.signers ==> PrefixHead(H, s.tree, s.signers[id].size, s.signers[id].root))
  }

  lemma PrefixHeadGrows(H: Hasher, L: seq<Hash>, L': seq<Hash>, size: nat, root: Hash)
    requires L <= L' && PrefixHead(H, L, size, root)
    ensures PrefixHead(H, L', size, root)
  {
    assert L[..size] == L'[..size];
  }

  /** A prefix of the leaves has one root only. */
  lemma PrefixHeadUnique(H: Hasher, L: seq<Hash>, L': seq<Hash>, size: nat, root: Hash, root': Hash)
    requires L <= L' && PrefixHead(H, L, size, root) && PrefixHead(H, L', size, root')
    ensures root == root'
  {
    assert L[..size] == L'[..size];
  }

  /** A batch adds its leaves to the log in the order in which the tree is fed. */
  lemma {:induction false} BatchLeaves(H: Hasher, s: Store, pairs: seq<(Bytes, Bytes)>, timestamp: int)
    requires Good(H, s)
    ensures Leaves(AppendedAll(H, s, pairs, timestamp).log) == Leaves(s.log) + DataLeaves(H, pairs)
    decreases |pairs|
  {
    if pairs != [] {
      var n := |pairs| - 1;
      var (key, data) := pairs[n];
      var t := AppendedAll(H, s, pairs[..n], timestamp);
      BatchLeaves(H, s, pairs[..n], timestamp);
      AppendAllKeepsGood(H, s, pairs[..n], timestamp);
      AppendKeepsGood(H, t, key, data, timestamp);
      LeavesAppend(t.log, Entry(H, t.nextSeq, key, data, timestamp));
      Reassociate(Leaves(s.log), DataLeaves(H, pairs[..n]), [H.Leaf(data)]);
    }
  }

  /** What every step keeps, and what it may change: the log and the tree only grow, and a
      stored head is never lost nor its root changed. */
  ghost predicate Evolves(s: State, t: State) {
    && s.store.log <= t.store.log
    && s.tree <= t.tree
    && forall n :: n in s.heads ==> n in t.heads && t.heads[n].rootHash == s.heads[n].rootHash
  }

  lemma AppendStep(H: Hasher, s: State, t: State)
    requires Inv(H, s) && Good(H, t.store) && t.tree == Leaves(t.store.log)
    requires s.store.log <= t.store.log && s.tree <= t.tree && t.heads == s.heads && t.signers == s.signers
    ensures Inv(H, t) && Evolves(s, t)
  {
    forall n | n in s.heads ensures PrefixHead(H, t.tree, n, s.heads[n].rootHash) {
      PrefixHeadGrows(H, s.tree, t.tree, n, s.heads[n].rootHash);
    }
    forall id | id in s.signers ensures PrefixHead(H, t.tree, s.signers[id].size, s.signers[id].root) {
      PrefixHeadGrows(H, s.tree, t.tree, s.signers[id].size, s.signers[id].root);
    }
  }

  lemma AppendKeepsInv(H: Hasher, s: State, key: Bytes, data: Bytes, ts: int)
    requires Inv(H, s)
    ensures
      var t := Next(H, s, Step.Append(key, data, ts, true));
      Inv(H, t) && Evolves(s, t)
  {
    var store := Appended(H, s.store, key, data, ts);
    AppendKeepsGood(H, s.store, key, data, ts);
    LeavesAppend(s.store.log, Entry(H, s.store.nextSeq, key, data, ts));
    AppendStep(H, s, s.(store := store, tree := s.tree + [H.Leaf(data)]));
  }

  lemma BatchKeepsInv(H: Hasher, s: State, pairs: seq<(Bytes, Bytes)>, ts: int)
    requires Inv(H, s)
    ensures
      var t := Next(H, s, BatchAppend(pairs, ts, true));
      Inv(H, t) && Evolves(s, t)
  {
    var store := AppendedAll(H, s.store, pairs, ts);
    AppendAllKeepsGood(H, s.store, pairs, ts);
    BatchLeaves(H, s.store, pairs, ts);
    AppendStep(H, s, s.(store := store, tree := s.tree + DataLeaves(H, pairs)));
  }

  lemma SnapshotKeepsInv(H: Hasher, s: State, id: nat)
    requires Inv(H, s)
    ensures Inv(H, Next(H, s, Snapshot(id))) && Evolves(s, Next(H, s, Snapshot(id)))
  {
    assert s.tree[..|s.tree|] == s.tree;
  }

  lemma CheckKeepsInv(H: Hasher, s: State, id: nat)
    requires Inv(H, s)
    ensures Inv(H, Next(H, s, CheckLatest(id))) && Evolves(s, Next(H, s, CheckLatest(id)))
  {
  }

  lemma CrashKeepsInv(H: Hasher, s: State)
    requires Inv(H, s)
    ensures Inv(H, Next(H, s, Crash)) && Evolves(s, Next(H, s, Crash))
  {
  }

  lemma StoreKeepsInv(H: Hasher, s: State, step: Step)
    requires Inv(H, s) && step.StoreHead?
    ensures Inv(H, Next(H, s, step)) && Evolves(s, Next(H, s, step))
  {
    if step.id in s.signers {
      var signer := s.signers[step.id];
      if signer.size in s.heads {
        PrefixHeadUnique(H, s.tree, s.tree, signer.size, signer.root, s.heads[signer.size].rootHash);
      }
    }
  }

  lemma NextKeepsInv(H: Hasher, s: State, step: Step)
    requires Inv(H, s)
    ensures Inv(H, Next(H, s, step)) && Evolves(s, Next(H, s, step))
  {
    match step
    case Append(key, data, ts, written) =>
      if written {
        AppendKeepsInv(H, s, key, data, ts);
      }
    case BatchAppend(pairs, ts, written) =>
      if written {
        BatchKeepsInv(H, s, pairs, ts);
      }
    case Snapshot(id) => SnapshotKeepsInv(H, s, id);
    case StoreHead(_, _, _, _, _) => StoreKeepsInv(H, s, step);
    case CheckLatest(id) => CheckKeepsInv(H, s, id);
    case Crash => CrashKeepsInv(H, s);
  }

  /** The invariant holds after every run, whatever the interleaving. */
  lemma {:induction false} RunKeepsInv(H: Hasher, s: State, steps: seq<Step>)
    requires Inv(H, s)
    ensures Inv(H, Run(H, s, steps)) && Evolves(s, Run(H, s, steps))
    decreases |steps|
  {
    if steps != [] {
      RunKeepsInv(H, s, steps[..|steps| - 1]);
      NextKeepsInv(H, Run(H, s, steps[..|steps| - 1]), steps[|steps| - 1]);
    }
  }

  lemma InitIsGood(H: Hasher)
    ensures Inv(H, INIT)
  {
  }

  function LatestSize(heads: map<nat, SignedTreeHead>): nat {
    if heads == map[] then 0 else LastKey(heads.Keys)
  }

  /** Safety over whole runs. From the empty server, after any steps and then any more: the
      in-memory tree has exactly the leaves of the log; the log has only grown; every stored
      head is the head of a prefix of the log; a head once stored keeps its root; and the
      latest head does not go back. */
  lemma ServerSafe(H: Hasher, steps: seq<Step>, more: seq<Step>)
    ensures
      var s := Run(H, INIT, steps);
      var t := Run(H, s, more);
      && t.tree == Leaves(t.store.log)
      && s.store.log <= t.store.log
      && (forall n :: n in t.heads ==> PrefixHead(H, Leaves(t.store.log), n, t.heads[n].rootHash))
      && (forall n :: n in s.heads ==> n in t.heads && t.heads[n].rootHash == s.heads[n].rootHash)
      && LatestSize(s.heads) <= LatestSize(t.heads)
  {
    var s := Run(H, INIT, steps);
    InitIsGood(H);
    RunKeepsInv(H, INIT, steps);
    RunKeepsInv(H, s, more);
    var t := Run(H, s, more);
    if s.heads != map[] {
      assert LastKey(s.heads.Keys) in t.heads.Keys;
    }
  }

  lemma {:induction false} RunConcat(H: Hasher, s: State, a: seq<Step>, b: seq<Step>)
    ensures Run(H, s, a + b) == Run(H, Run(H, s, a), b)
    decreases |b|
  {
    if b == [] {
      assert a + b == a;
    } else {
      var b' := b[..|b| - 1];
      assert (a + b)[..|a + b| - 1] == a + b';
      RunConcat(H, s, a, b');
    }
  }

  /** A crash keeps what is stored, and loses the signers under way. The counter comes back as the
      least number above all stored ones, so that a number lost at the end of the log is given
      out again. */
  lemma CrashRecovers(H: Hasher, s: State)
    requires Inv(H, s)
    ensures
      var t := Next(H, s, Crash);
      && t.store.log == s.store.log && t.store.index == s.store.index && t.heads == s.heads
      && t.tree == s.tree && t.signers == map[]
      && (forall i :: 0 <= i < |t.store.log| ==> t.store.log[i].seqNo < t.store.nextSeq)
      && (t.store.nextSeq == 0 || exists i :: 0 <= i < |t.store.log| && t.store.log[i].seqNo + 1 == t.store.nextSeq)
  {
    var log := s.store.log;
    if log != [] {
      assert log[|log| - 1].seqNo + 1 == Reopened(s.store).nextSeq;
      forall i | 0 <= i < |log| - 1 ensures log[i].seqNo < log[|log| - 1].seqNo {
      }
    }
  }

  // ----- Heads and their signers

  /** A snapshot is the head of the whole tree; there is none of an empty one. */
  lemma SnapshotTakesAll(H: Hasher, s: State, id: nat)
    requires id !in s.signers
    ensures
      var t := Next(H, s, Snapshot(id));
      if s.tree == [] then t == s
      else t.signers == s.signers[id := Snapped(|s.tree|, Mth(H, s.tree))] && t.heads == s.heads
  {
  }

  /** A signer gives up exactly when the latest head is of its own size; otherwise it goes on to
      sign, even if heads of greater sizes have been stored meanwhile. */
  lemma SignerGivesUp(H: Hasher, s: State, id: nat)
    requires Inv(H, s) && id in s.signers && s.signers[id].Snapped?
    ensures
      var t, signer := Next(H, s, CheckLatest(id)), s.signers[id];
      && t.heads == s.heads
      && (id !in t.signers <==> IsLast(s.heads.Keys, signer.size))
      && (id in t.signers ==> t.signers[id] == Cleared(signer.size, signer.root))
  {
    if s.heads != map[] {
      var last: nat := LastKey(s.heads.Keys);
      assert last in s.heads && s.heads[last].treeSize == last;
    }
  }

  /** What is stored is the signer's snapshot, with what it was signed with. */
  lemma StoreHeadStores(H: Hasher, s: State, id: nat, signedAt: int, signature: Bytes, publicKey: Bytes,
                        keyVersion: nat)
    requires id in s.signers && s.signers[id].Cleared?
    ensures
      var t, signer := Next(H, s, StoreHead(id, signedAt, signature, publicKey, keyVersion)), s.signers[id];
      && signer.size in t.heads && id !in t.signers
      && t.heads[signer.size] == SignedTreeHead(signer.size, signer.root, signedAt, signature, publicKey, keyVersion)
      && forall n :: n != signer.size ==> AtSize(t.heads, n) == AtSize(s.heads, n)
  {
  }

  /** The head was stored by this step. */
  ghost predicate StoredBy(step: Step, head: SignedTreeHead) {
    && step.StoreHead? && head.timestamp == step.signedAt && head.signature == step.signature
    && head.publicKey == step.publicKey && head.keyVersion == step.keyVersion
  }

  /** Every stored head was stored by some step of the run, and has its timestamp, signature, key
      and version. */
  lemma {:induction false} HeadsAreSigned(H: Hasher, steps: seq<Step>, n: nat) returns (i: nat)
    requires n in Run(H, INIT, steps).heads
    ensures i < |steps| && StoredBy(steps[i], Run(H, INIT, steps).heads[n])
    decreases |steps|
  {
    var front, step := steps[..|steps| - 1], steps[|steps| - 1];
    var s := Run(H, INIT, front);
    if step.StoreHead? && step.id in s.signers && s.signers[step.id].Cleared? && s.signers[step.id].size == n {
      i := |steps| - 1;
    } else {
      i := HeadsAreSigned(H, front, n);
    }
  }

  // ----- One signer, uninterrupted

  lemma RunOne(H: Hasher, s: State, step: Step)
    ensures Run(H, s, [step]) == Next(H, s, step)
  {
    assert [step][..0] == [];
  }

  lemma RunThree(H: Hasher, s: State, x: Step, y: Step, z: Step)
    ensures Run(H, s, [x] + [y] + [z]) == Next(H, Next(H, Next(H, s, x), y), z)
  {
    RunConcat(H, s, [x] + [y], [z]);
    RunConcat(H, s, [x], [y]);
    RunOne(H, s, x);
    RunOne(H, Next(H, s, x), y);
    RunOne(H, Next(H, Next(H, s, x), y), z);
  }

  /** What a signer stores: the head of the tree, unless there is one already. */
  function Signed(H: Hasher, s: State, store: Step): State
    requires store.StoreHead?
  {
    var size, latest := |s.tree|, Latest(s.heads);
    if size == 0 || (latest.Some? && latest.value.treeSize == size) then s
    else
      var sth := SignedTreeHead(
                   size, Mth(H, s.tree), store.signedAt, store.signature, store.publicKey, store.keyVersion);
      s.(heads := s.heads[size := sth])
  }

  lemma ThreeSteps(H: Hasher, s: State, id: nat, store: Step)
    requires id !in s.signers && store.StoreHead? && store.id == id
    ensures Next(H, Next(H, Next(H, s, Snapshot(id)), CheckLatest(id)), store) == Signed(H, s, store)
  {
    if s.tree != [] {
      var size, root := |s.tree|, Mth(H, s.tree);
      var snapped := s.signers[id := Snapped(size, root)];
      assert snapped[id := Cleared(size, root)] - {id} == s.signers && snapped - {id} == s.signers;
    }
  }

  /** The three steps of a signer, one after the other. */
  lemma SignRun(H: Hasher, s: State, id: nat, store: Step)
    requires Inv(H, s) && id !in s.signers && store.StoreHead? && store.id == id
    ensures Run(H, s, [Snapshot(id)] + [CheckLatest(id)] + [store]) == Signed(H, s, store)
    ensures Inv(H, Signed(H, s, store))
  {
    RunThree(H, s, Snapshot(id), CheckLatest(id), store);
    ThreeSteps(H, s, id, store);
    RunKeepsInv(H, s, [Snapshot(id)] + [CheckLatest(id)] + [store]);
  }

  // ----- Runs without failed writes

  predicate Durable(step: Step) {
    (step.Append? ==> step.written) && (step.BatchAppend? ==> step.written)
  }

  /** While every write succeeds, an entry's number is its leaf index. */
  lemma {:induction false} DurableRunsAreGapFree(H: Hasher, steps: seq<Step>)
    requires forall i :: 0 <= i < |steps| ==> Durable(steps[i])
    ensures
      var s := Run(H, INIT, steps);
      GapFree(s.store.log) && s.store.nextSeq == |s.store.log|
    decreases |steps|
  {
    if steps != [] {
      var front, step := steps[..|steps| - 1], steps[|steps| - 1];
      var s := Run(H, INIT, front);
      DurableRunsAreGapFree(H, front);
      InitIsGood(H);
      RunKeepsInv(H, INIT, front);
      match step
      case Append(key, data, ts, written) => AppendKeepsGood(H, s.store, key, data, ts);
      case BatchAppend(pairs, ts, written) =>
        AppendAllGapFree(H, s.store, pairs, ts);
        AppendAllKeepsGood(H, s.store, pairs, ts);
      case _ =>
    }
  }
}
