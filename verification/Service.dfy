/** The server's operations as the code runs them, each tied to a step of the state machine. */
module Service {
  import opened Wrappers
  import opened Hashing
  import opened Powers
  import opened Merkle
  import opened Sequences
  import opened Frontier
  import opened Storage
  import opened Server
  import opened RateLimit
  import Rpc

  class HeadStore {
    var heads: map<nat, SignedTreeHead>

    constructor ()
      ensures heads == map[]
    {
      heads := map[];
    }

    method Write(sth: SignedTreeHead)
      modifies this
      ensures heads == old(heads)[sth.treeSize := sth]
    {
      heads := heads[sth.treeSize := sth];
    }

    /** The head under the last key: no stored size is greater. */
    method Latest() returns (r: Option<SignedTreeHead>)
      ensures r == Server.Latest(heads)
      ensures r.None? <==> heads == map[]
      ensures r.Some? ==> exists n :: IsLast(heads.Keys, n) && r.value == heads[n]
    {
      if heads == map[] {
        return None;
      }
      var last: nat := LastKey(heads.Keys);
      r := Some(heads[last]);
    }

    method AtSize(size: nat) returns (r: Option<SignedTreeHead>)
      ensures r == Server.AtSize(heads, size)
      ensures r == if size in heads then Some(heads[size]) else None
    {
      r := if size in heads then Some(heads[size]) else None;
    }
  }

  datatype AppendError = RateLimited | TooMany(n: nat) | Failed(error: StorageError)

  class AppState {
    const H: Hasher
    const log: LogStore
    const heads: HeadStore
    /** Absent when appends are unlimited. */
    const limiter: Bucket?
    var merkle: MerkleTree
    /** What other callers that are inside `sign_and_store` hold in their local variables. */
    ghost var signers: map<nat, Signer>

    ghost predicate Valid()
      reads this, log, merkle, heads, limiter
    {
      && log.H == H && merkle.H == H && merkle.Valid() && Inv(H, View())
      && (limiter != null ==> limiter.State().Valid())
    }

    ghost function View(): State
      reads this, log, merkle, heads
    {
      State(log.State(), merkle.leaves, heads.heads, signers)
    }

    constructor (H: Hasher, limiter: Bucket?)
      requires limiter != null ==> limiter.State().Valid()
      ensures Valid() && this.H == H && this.limiter == limiter && View() == INIT
      ensures fresh(log) && fresh(heads) && fresh(merkle)
    {
      this.H := H;
      this.limiter := limiter;
      log := new LogStore(H);
      heads := new HeadStore();
      merkle := new MerkleTree(H);
      signers := map[];
      new;
      InitIsGood(H);
    }

    /** Startup: the counter is recovered and the tree rebuilt from the log. */
    method Build()
      requires Valid() && |log.log| < TWO_64
      modifies this, log
      ensures Valid() && fresh(merkle)
      ensures View() == Next(H, old(View()), Crash)
    {
      ghost var before := View();
      log.Open();
      merkle := RebuildTree(H, log.log);
      signers := map[];
      StepKeepsInv(H, before, Crash);
    }

    /** Whether the limiter refuses `n` appends. */
    ghost predicate Refuses(now: real, n: nat)
      reads this, limiter
    {
      limiter != null && !Grants(limiter.State(), Request(now, n))
    }

    /** One append. A refusal by the limiter changes nothing but the limiter, and no number is
        taken. */
    method Append(key: Bytes, data: Bytes, timestamp: int, written: bool, now: real)
      returns (r: Result<(nat, int, Hash), AppendError>)
      requires Valid() && merkle.size + 1 < TWO_64
      modifies log, merkle, limiter
      ensures Valid()
      ensures limiter != null ==> limiter.State() == Serve(old(limiter.State()), Request(now, 1))
      ensures View() == if old(Refuses(now, 1)) then old(View())
                        else Next(H, old(View()), Step.Append(key, data, timestamp, written))
      ensures r == if old(Refuses(now, 1)) then Err(RateLimited)
                   else if written then Ok((old(log.nextSeq), timestamp, H.Leaf(data)))
                   else Err(Failed(WriteFailed))
    {
      if limiter != null {
        var granted := limiter.TryConsume(now);
        if !granted {
          return Err(RateLimited);
        }
      }
      r := AppendLocked(key, data, timestamp, written);
    }

    /** What the mutex guards of one append: the log is written, then the tree is fed. */
    method AppendLocked(key: Bytes, data: Bytes, timestamp: int, written: bool)
      returns (r: Result<(nat, int, Hash), AppendError>)
      requires Valid() && merkle.size + 1 < TWO_64
      modifies log, merkle
      ensures Valid()
      ensures View() == Next(H, old(View()), Step.Append(key, data, timestamp, written))
      ensures r == if written then Ok((old(log.nextSeq), timestamp, H.Leaf(data))) else Err(Failed(WriteFailed))
    {
      ghost var before := View();
      var lh := H.Leaf(data);
      var appended := log.Append(key, data, timestamp, written);
      ghost var after := AppendKeepsValid(H, before, key, data, timestamp, written);
      if appended.Err? {
        assert View() == after;
        return Err(Failed(appended.error));
      }
      var index := merkle.Append(lh);
      assert View() == after;
      var (seqNo, ts) := appended.value;
      r := Ok((seqNo, ts, lh));
    }

    /** A batch. An empty or too large one changes nothing and does not ask the limiter, which
        grants all of a batch or refuses it. */
    method BatchAppend(pairs: seq<(Bytes, Bytes)>, timestamp: int, written: bool, now: real)
      returns (r: Result<seq<(nat, int, Hash)>, AppendError>)
      requires Valid() && merkle.size + |pairs| < TWO_64
      modifies log, merkle, limiter
      ensures Valid()
      ensures
        var asked := 0 < |pairs| <= MAX_BATCH;
        var refused := asked && old(Refuses(now, |pairs|));
        && (limiter != null ==> limiter.State() == if asked then Serve(old(limiter.State()), Request(now, |pairs|))
                                                   else old(limiter.State()))
        && View() == (if refused then old(View())
                      else Next(H, old(View()), Step.BatchAppend(pairs, timestamp, written)))
        && (r.Ok? <==> pairs == [] || (asked && !refused && written))
        && (refused ==> r == Err(RateLimited))
        && (|pairs| > 1000 ==> r == Err(TooMany(|pairs|)))
      ensures 1 <= |pairs| <= 1000 && !old(Refuses(now, |pairs|)) && written ==>
                r.Ok? && EndsWith(H, old(log.log), log.log, old(log.nextSeq), pairs, timestamp)
      ensures r.Ok? ==> AreResults(H, old(log.nextSeq), pairs, timestamp, r.value)
    {
      if pairs == [] {
        return Ok([]);
      }
      if |pairs| > MAX_BATCH {
        return Err(TooMany(|pairs|));
      }
      if limiter != null {
        var granted := limiter.TryConsumeN(now, |pairs|);
        if !granted {
          return Err(RateLimited);
        }
      }
      r := BatchLocked(pairs, timestamp, written);
    }

    /** What the mutex guards of a batch. */
    method BatchLocked(pairs: seq<(Bytes, Bytes)>, timestamp: int, written: bool)
      returns (r: Result<seq<(nat, int, Hash)>, AppendError>)
      requires Valid() && merkle.size + |pairs| < TWO_64 && 0 < |pairs| <= MAX_BATCH
      modifies log, merkle
      ensures Valid()
      ensures View() == Next(H, old(View()), Step.BatchAppend(pairs, timestamp, written))
      ensures r.Ok? <==> written
      ensures written ==> EndsWith(H, old(log.log), log.log, old(log.nextSeq), pairs, timestamp)
      ensures r.Ok? ==> AreResults(H, old(log.nextSeq), pairs, timestamp, r.value)
    {
      ghost var before := View();
      var results := log.AppendBatch(pairs, timestamp, written);
      ghost var after := BatchKeepsValid(H, before, pairs, timestamp, written);
      if results.Err? {
        assert View() == after;
        return Err(Failed(results.error));
      }
      FeedTree(results.value, pairs);
      assert View() == after;
      r := Ok(results.value);
    }

    /** Feeds the leaf hashes of a batch to the tree, in order. */
    method FeedTree(results: seq<(nat, int, Hash)>, ghost pairs: seq<(Bytes, Bytes)>)
      requires merkle.Valid() && merkle.size + |results| < TWO_64
      requires |results| == |pairs| && forall i :: 0 <= i < |pairs| ==> results[i].2 == H.Leaf(pairs[i].1)
      modifies merkle
      ensures merkle.Valid() && merkle.leaves == old(merkle.leaves) + DataLeaves(H, pairs)
    {
      for i := 0 to |results|
        invariant merkle.Valid() && merkle.size == old(merkle.size) + i
        invariant merkle.leaves == old(merkle.leaves) + DataLeaves(H, pairs[..i])
      {
        assert pairs[..i + 1][..i] == pairs[..i];
        Reassociate(old(merkle.leaves), DataLeaves(H, pairs[..i]), [results[i].2]);
        var index := merkle.Append(results[i].2);
      }
      assert pairs[..|pairs|] == pairs;
    }

    /** The tree head of a given size, or the latest one for size 0. What is returned is the
        head of that many leaves of the tree, whatever has been appended since it was signed. */
    method GetSth(size: nat) returns (r: Result<SignedTreeHead, Rpc.RpcError>)
      requires Valid()
      ensures r.Ok? <==> if size == 0 then heads.heads != map[] else size in heads.heads
      ensures r.Ok? ==> PrefixHead(H, merkle.leaves, r.value.treeSize, r.value.rootHash)
      ensures r.Ok? ==> r.value.treeSize in heads.heads && r.value == heads.heads[r.value.treeSize]
      ensures r.Ok? && size != 0 ==> r.value.treeSize == size
      ensures r.Ok? && size == 0 ==> forall n :: n in heads.heads ==> n <= r.value.treeSize
      ensures r.Err? ==> r.error == if size == 0 then Rpc.NoHeadYet else Rpc.NoHeadAt(size)
    {
      if size == 0 {
        var latest := heads.Latest();
        return if latest.None? then Err(Rpc.NoHeadYet) else Ok(latest.value);
      }
      var sth := heads.AtSize(size);
      return if sth.None? then Err(Rpc.NoHeadAt(size)) else Ok(sth.value);
    }

    /** `sign_and_store` from beginning to end, when no other step comes in between. */
    method SignAndStore(signedAt: int, signature: Bytes, publicKey: Bytes, keyVersion: nat, ghost id: nat)
      requires Valid() && id !in signers
      modifies heads
      ensures Valid()
      ensures
        var store := StoreHead(id, signedAt, signature, publicKey, keyVersion);
        View() == Run(H, old(View()), [Snapshot(id)] + [CheckLatest(id)] + [store])
    {
      ghost var s := View();
      ghost var store := StoreHead(id, signedAt, signature, publicKey, keyVersion);
      SignRun(H, s, id, store);
      var size := merkle.size;
      var root := merkle.Root();
      if size == 0 {
        return;
      }
      var latest := heads.Latest();
      if latest.Some? && latest.value.treeSize == size {
        return;
      }
      heads.Write(SignedTreeHead(size, root.value, signedAt, signature, publicKey, keyVersion));
    }
  }

  lemma StepKeepsInv(H: Hasher, s: State, step: Step)
    requires Inv(H, s)
    ensures Inv(H, Next(H, s, step))
  {
    NextKeepsInv(H, s, step);
  }

  /** What an append does to the parts of the state. */
  lemma AppendKeepsValid(H: Hasher, s: State, key: Bytes, data: Bytes, timestamp: int, written: bool)
    returns (t: State)
    requires Inv(H, s)
    ensures t == Next(H, s, Step.Append(key, data, timestamp, written)) && Inv(H, t)
    ensures t == State(Apply(H, s.store, Op.Append(key, data, timestamp, written)),
                       if written then s.tree + [H.Leaf(data)] else s.tree, s.heads, s.signers)
  {
    t := Next(H, s, Step.Append(key, data, timestamp, written));
    NextKeepsInv(H, s, Step.Append(key, data, timestamp, written));
  }

  /** What a batch does to the parts of the state. */
  lemma BatchKeepsValid(H: Hasher, s: State, pairs: seq<(Bytes, Bytes)>, timestamp: int, written: bool)
    returns (t: State)
    requires Inv(H, s) && 0 < |pairs| <= MAX_BATCH
    ensures t == Next(H, s, BatchAppend(pairs, timestamp, written)) && Inv(H, t)
    ensures t == State(Apply(H, s.store, AppendBatch(pairs, timestamp, written)),
                       if written then s.tree + DataLeaves(H, pairs) else s.tree, s.heads, s.signers)
  {
    t := Next(H, s, BatchAppend(pairs, timestamp, written));
    NextKeepsInv(H, s, BatchAppend(pairs, timestamp, written));
  }

  /** A tree fed with all the leaves of the log. */
  method RebuildTree(H: Hasher, entries: Log) returns (merkle: MerkleTree)
    requires |entries| < TWO_64
    ensures fresh(merkle) && merkle.H == H && merkle.Valid() && merkle.leaves == Leaves(entries)
  {
    merkle := new MerkleTree(H);
    for i := 0 to |entries|
      invariant fresh(merkle) && merkle.H == H && merkle.Valid()
      invariant merkle.leaves == Leaves(entries[..i])
    {
      assert entries[..i + 1][..i] == entries[..i];
      var index := merkle.Append(entries[i].leafHash);
    }
    assert entries[..|entries|] == entries;
  }
}
