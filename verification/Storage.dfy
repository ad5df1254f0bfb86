/** The log and its key index, as one store written in atomic batches.

    A column family is an ordered map; it is kept here as the list of its entries in
    ascending key order, which is what an iterator over it yields. */
module Storage {
  import opened Wrappers
  import opened Hashing

  datatype LogEntry = LogEntry(seqNo: nat, timestamp: int, key: Bytes, data: Bytes, leafHash: Hash)

  type Log = seq<LogEntry>

  datatype Store = Store(log: Log, index: map<Bytes, nat>, nextSeq: nat)

  const EMPTY: Store := Store([], map[], 0)

  /** Puts an entry under its number, keeping the order and replacing an equal number. */
  function Put(log: Log, e: LogEntry): Log {
    if log == [] then [e]
    else
      var front, last := log[..|log| - 1], log[|log| - 1];
      if last.seqNo < e.seqNo then log + [e]
      else if last.seqNo == e.seqNo then front + [e]
      else Put(front, e) + [last]
  }

  function Entry(H: Hasher, seqNo: nat, key: Bytes, data: Bytes, timestamp: int): LogEntry {
    LogEntry(seqNo, timestamp, key, data, H.Leaf(data))
  }

  /** A successful append: the number is taken first, then log and index are written at once. */
  function Appended(H: Hasher, s: Store, key: Bytes, data: Bytes, timestamp: int): Store {
    Store(Put(s.log, Entry(H, s.nextSeq, key, data, timestamp)), s.index[key := s.nextSeq], s.nextSeq + 1)
  }

  /** A failed write of `n` entries: the numbers are gone and nothing else has changed. */
  function Skipped(s: Store, n: nat): Store {
    s.(nextSeq := s.nextSeq + n)
  }

  /** Appends one after the other, all with one timestamp. */
  function AppendedAll(H: Hasher, s: Store, pairs: seq<(Bytes, Bytes)>, timestamp: int): Store {
    if pairs == [] then s
    else
      var (key, data) := pairs[|pairs| - 1];
      Appended(H, AppendedAll(H, s, pairs[..|pairs| - 1], timestamp), key, data, timestamp)
  }

  /** Opening the database recovers the next number from the last entry. */
  function Reopened(s: Store): Store {
    s.(nextSeq := if s.log == [] then 0 else s.log[|s.log| - 1].seqNo + 1)
  }

  /** The leaf hashes of a log, in order. */
  function Leaves(log: Log): (r: seq<Hash>)
    ensures |r| == |log|
  {
    if log == [] then [] else Leaves(log[..|log| - 1]) + [log[|log| - 1].leafHash]
  }

  lemma LeavesAppend(log: Log, e: LogEntry)
    ensures Leaves(log + [e]) == Leaves(log) + [e.leafHash]
  {
    assert (log + [e])[..|log|] == log;
  }

  lemma {:induction false} LeavesPrefix(log: Log, n: nat)
    requires n <= |log|
    ensures Leaves(log[..n]) == Leaves(log)[..n]
    decreases |log|
  {
    if n < |log| {
      var front := log[..|log| - 1];
      assert log[..n] == front[..n];
      LeavesPrefix(front, n);
    } else {
      assert log[..n] == log;
    }
  }

  // ----- Invariant

  ghost predicate Ascending(log: Log) {
    forall i, j :: 0 <= i < j < |log| ==> log[i].seqNo < log[j].seqNo
  }

  /** The number of the last entry with `key`, if there is one. */
  function LastWith(log: Log, key: Bytes): Option<nat> {
    if log == [] then None
    else if log[|log| - 1].key == key then Some(log[|log| - 1].seqNo)
    else LastWith(log[..|log| - 1], key)
  }

  /** `LastWith` is the greatest number under `key`, and absent exactly when there is none. */
  lemma {:induction false} LastWithIsGreatest(log: Log, key: Bytes)
    requires Ascending(log)
    ensures LastWith(log, key).None? <==> forall i :: 0 <= i < |log| ==> log[i].key != key
    ensures LastWith(log, key).Some? ==>
              && (exists i :: 0 <= i < |log| && log[i].key == key && log[i].seqNo == LastWith(log, key).value)
              && (forall i :: 0 <= i < |log| && log[i].key == key ==> log[i].seqNo <= LastWith(log, key).value)
  {
    if log != [] {
      var n := |log| - 1;
      if log[n].key != key {
        LastWithIsGreatest(log[..n], key);
      }
    }
  }

  ghost predicate IndexAgrees(log: Log, index: map<Bytes, nat>) {
    forall key :: LastWith(log, key) == if key in index then Some(index[key]) else None
  }

  ghost predicate Good(H: Hasher, s: Store) {
    && Ascending(s.log)
    && (forall i :: 0 <= i < |s.log| ==> s.log[i].seqNo < s.nextSeq && s.log[i].leafHash == H.Leaf(s.log[i].data))
    && IndexAgrees(s.log, s.index)
  }

  lemma PutAtEnd(log: Log, e: LogEntry)
    requires forall i :: 0 <= i < |log| ==> log[i].seqNo < e.seqNo
    ensures Put(log, e) == log + [e]
  {
  }

  lemma AppendKeepsGood(H: Hasher, s: Store, key: Bytes, data: Bytes, timestamp: int)
    requires Good(H, s)
    ensures Good(H, Appended(H, s, key, data, timestamp))
    ensures Appended(H, s, key, data, timestamp).log == s.log + [Entry(H, s.nextSeq, key, data, timestamp)]
  {
    var e, t := Entry(H, s.nextSeq, key, data, timestamp), Appended(H, s, key, data, timestamp);
    PutAtEnd(s.log, e);
    forall k ensures LastWith(t.log, k) == if k in t.index then Some(t.index[k]) else None {
      assert t.log[..|t.log| - 1] == s.log;
      assert LastWith(s.log, k) == if k in s.index then Some(s.index[k]) else None;
    }
  }

  lemma {:induction false} AppendAllKeepsGood(H: Hasher, s: Store, pairs: seq<(Bytes, Bytes)>, timestamp: int)
    requires Good(H, s)
    ensures
      var t := AppendedAll(H, s, pairs, timestamp);
      Good(H, t) && s.log <= t.log && |t.log| == |s.log| + |pairs| && t.nextSeq == s.nextSeq + |pairs|
    decreases |pairs|
  {
    if pairs != [] {
      var n := |pairs| - 1;
      var before := AppendedAll(H, s, pairs[..n], timestamp);
      AppendAllKeepsGood(H, s, pairs[..n], timestamp);
      AppendKeepsGood(H, before, pairs[n].0, pairs[n].1, timestamp);
    }
  }

  // ----- Runs

  datatype Op =
    | Append(key: Bytes, data: Bytes, timestamp: int, written: bool)
    | AppendBatch(pairs: seq<(Bytes, Bytes)>, timestamp: int, written: bool)
    | Reopen

  function Apply(H: Hasher, s: Store, op: Op): Store {
    match op
    case Append(key, data, ts, written) => if written then Appended(H, s, key, data, ts) else Skipped(s, 1)
    case AppendBatch(pairs, ts, written) => if written then AppendedAll(H, s, pairs, ts) else Skipped(s, |pairs|)
    case Reopen => Reopened(s)
  }

  function RunOps(H: Hasher, s: Store, ops: seq<Op>): Store {
    if ops == [] then s else Apply(H, RunOps(H, s, ops[..|ops| - 1]), ops[|ops| - 1])
  }

  lemma ApplyKeepsGood(H: Hasher, s: Store, op: Op)
    requires Good(H, s)
    ensures Good(H, Apply(H, s, op)) && s.log <= Apply(H, s, op).log
  {
    match op
    case Append(key, data, ts, written) => AppendKeepsGood(H, s, key, data, ts);
    case AppendBatch(pairs, ts, written) => AppendAllKeepsGood(H, s, pairs, ts);
    case Reopen =>
  }

  /** After any mix of single and batch appends, failed writes and reopens, the index maps
      each key to the greatest number stored under it, and holds no other key. */
  lemma {:induction false} IndexAlwaysAgrees(H: Hasher, ops: seq<Op>)
    ensures Good(H, RunOps(H, EMPTY, ops))
    decreases |ops|
  {
    if ops != [] {
      IndexAlwaysAgrees(H, ops[..|ops| - 1]);
      ApplyKeepsGood(H, RunOps(H, EMPTY, ops[..|ops| - 1]), ops[|ops| - 1]);
    }
  }

  /** Entries are numbered by their position. */
  ghost predicate GapFree(log: Log) {
    forall i :: 0 <= i < |log| ==> log[i].seqNo == i
  }

  predicate Written(op: Op) {
    op.Reopen? || op.written
  }

  lemma {:induction false} AppendAllGapFree(H: Hasher, s: Store, pairs: seq<(Bytes, Bytes)>, timestamp: int)
    requires Good(H, s) && GapFree(s.log) && s.nextSeq == |s.log|
    ensures GapFree(AppendedAll(H, s, pairs, timestamp).log)
    decreases |pairs|
  {
    if pairs != [] {
      var n := |pairs| - 1;
      AppendAllGapFree(H, s, pairs[..n], timestamp);
      AppendAllKeepsGood(H, s, pairs[..n], timestamp);
      AppendKeepsGood(H, AppendedAll(H, s, pairs[..n], timestamp), pairs[n].0, pairs[n].1, timestamp);
    }
  }

  lemma ApplyKeepsGapFree(H: Hasher, s: Store, op: Op)
    requires Good(H, s) && GapFree(s.log) && s.nextSeq == |s.log| && Written(op)
    ensures GapFree(Apply(H, s, op).log) && Apply(H, s, op).nextSeq == |Apply(H, s, op).log|
  {
    match op
    case Append(key, data, ts, written) => AppendKeepsGood(H, s, key, data, ts);
    case AppendBatch(pairs, ts, written) =>
      AppendAllGapFree(H, s, pairs, ts);
      AppendAllKeepsGood(H, s, pairs, ts);
    case Reopen =>
  }

  /** While every write succeeds, an entry's number is its position in the log. */
  lemma {:induction false} WrittenRunsAreGapFree(H: Hasher, ops: seq<Op>)
    requires forall i :: 0 <= i < |ops| ==> Written(ops[i])
    ensures GapFree(RunOps(H, EMPTY, ops).log) && RunOps(H, EMPTY, ops).nextSeq == |RunOps(H, EMPTY, ops).log|
    decreases |ops|
  {
    if ops != [] {
      var front := ops[..|ops| - 1];
      WrittenRunsAreGapFree(H, front);
      IndexAlwaysAgrees(H, front);
      ApplyKeepsGapFree(H, RunOps(H, EMPTY, front), ops[|ops| - 1]);
    }
  }

  // ----- A batch is its entries, one by one

  function AppendedEach(H: Hasher, s: Store, pairs: seq<(Bytes, Bytes)>, times: seq<int>): Store
    requires |times| == |pairs|
  {
    if pairs == [] then s
    else
      var n := |pairs| - 1;
      Appended(H, AppendedEach(H, s, pairs[..n], times[..n]), pairs[n].0, pairs[n].1, times[n])
  }

  function Timeless(log: Log): (r: Log)
    ensures |r| == |log|
  {
    if log == [] then [] else Timeless(log[..|log| - 1]) + [log[|log| - 1].(timestamp := 0)]
  }

  lemma TimelessAppend(log: Log, e: LogEntry)
    ensures Timeless(log + [e]) == Timeless(log) + [e.(timestamp := 0)]
  {
    assert (log + [e])[..|log|] == log;
  }

  lemma {:induction false} AppendEachKeepsGood(H: Hasher, s: Store, pairs: seq<(Bytes, Bytes)>, times: seq<int>)
    requires Good(H, s) && |times| == |pairs|
    ensures Good(H, AppendedEach(H, s, pairs, times))
    decreases |pairs|
  {
    if pairs != [] {
      var n := |pairs| - 1;
      AppendEachKeepsGood(H, s, pairs[..n], times[..n]);
      AppendKeepsGood(H, AppendedEach(H, s, pairs[..n], times[..n]), pairs[n].0, pairs[n].1, times[n]);
    }
  }

  /** A batch leaves the same store as its entries appended one by one, but for timestamps. */
  lemma {:induction false} BatchIsOneByOne(H: Hasher, s: Store, pairs: seq<(Bytes, Bytes)>, timestamp: int,
                                           times: seq<int>)
    requires Good(H, s) && |times| == |pairs|
    ensures
      var a, b := AppendedAll(H, s, pairs, timestamp), AppendedEach(H, s, pairs, times);
      Timeless(a.log) == Timeless(b.log) && a.index == b.index && a.nextSeq == b.nextSeq
    decreases |pairs|
  {
    if pairs != [] {
      var n := |pairs| - 1;
      var (key, data) := pairs[n];
      var a, b := AppendedAll(H, s, pairs[..n], timestamp), AppendedEach(H, s, pairs[..n], times[..n]);
      BatchIsOneByOne(H, s, pairs[..n], timestamp, times[..n]);
      AppendAllKeepsGood(H, s, pairs[..n], timestamp);
      AppendEachKeepsGood(H, s, pairs[..n], times[..n]);
      AppendKeepsGood(H, a, key, data, timestamp);
      AppendKeepsGood(H, b, key, data, times[n]);
      TimelessAppend(a.log, Entry(H, a.nextSeq, key, data, timestamp));
      TimelessAppend(b.log, Entry(H, b.nextSeq, key, data, times[n]));
    }
  }

  // ----- The store as the code updates it

  datatype StorageError = WriteFailed

  lemma OneMorePut(H: Hasher, s: Store, pairs: seq<(Bytes, Bytes)>, i: nat, timestamp: int,
                   log: Log, index: map<Bytes, nat>)
    requires i < |pairs| && Store(log, index, s.nextSeq + i) == AppendedAll(H, s, pairs[..i], timestamp)
    ensures
      var n, pair := s.nextSeq + i, pairs[i];
      AppendedAll(H, s, pairs[..i + 1], timestamp) ==
      Store(Put(log, LogEntry(n, timestamp, pair.0, pair.1, H.Leaf(pair.1))), index[pair.0 := n], n + 1)
  {
    assert pairs[..i + 1][..i] == pairs[..i];
  }

  /** What a batch append returns, entry by entry: its number, the timestamp and its leaf hash. */
  ghost predicate AreResults(H: Hasher, first: nat, pairs: seq<(Bytes, Bytes)>, timestamp: int,
                             results: seq<(nat, int, Hash)>) {
    && |results| == |pairs|
    && forall i :: 0 <= i < |pairs| ==> results[i] == (first + i, timestamp, H.Leaf(pairs[i].1))
  }

  lemma OneMoreResult(H: Hasher, first: nat, pairs: seq<(Bytes, Bytes)>, timestamp: int,
                      results: seq<(nat, int, Hash)>, i: nat)
    requires i < |pairs| && AreResults(H, first, pairs[..i], timestamp, results)
    ensures AreResults(H, first, pairs[..i + 1], timestamp, results + [(first + i, timestamp, H.Leaf(pairs[i].1))])
  {
  }

  /** The loop of a batch append: the puts of each entry under its number, in order. */
  method Collect(H: Hasher, s: Store, pairs: seq<(Bytes, Bytes)>, timestamp: int)
    returns (log: Log, index: map<Bytes, nat>, results: seq<(nat, int, Hash)>)
    ensures Store(log, index, s.nextSeq + |pairs|) == AppendedAll(H, s, pairs, timestamp)
    ensures AreResults(H, s.nextSeq, pairs, timestamp, results)
  {
    log, index, results := s.log, s.index, [];
    for i := 0 to |pairs|
      invariant Store(log, index, s.nextSeq + i) == AppendedAll(H, s, pairs[..i], timestamp)
      invariant AreResults(H, s.nextSeq, pairs[..i], timestamp, results)
    {
      var (key, data) := pairs[i];
      var seqNo, leafHash := s.nextSeq + i, H.Leaf(data);
      OneMorePut(H, s, pairs, i, timestamp, log, index);
      OneMoreResult(H, s.nextSeq, pairs, timestamp, results, i);
      log := Put(log, LogEntry(seqNo, timestamp, key, data, leafHash));
      index := index[key := seqNo];
      results := results + [(seqNo, timestamp, leafHash)];
    }
    assert pairs[..|pairs|] == pairs;
  }

  /** `log'` is `log` and then the entries of a batch, in order: each with its own key and data,
      consecutive numbers from `first` on, and one timestamp. */
  ghost predicate EndsWith(H: Hasher, log: Log, log': Log, first: nat, pairs: seq<(Bytes, Bytes)>, timestamp: int) {
    && log <= log' && |log'| == |log| + |pairs|
    && forall i :: 0 <= i < |pairs| ==>
         log'[|log| + i] == LogEntry(first + i, timestamp, pairs[i].0, pairs[i].1, H.Leaf(pairs[i].1))
  }

  lemma {:induction false} BatchEndsLog(H: Hasher, s: Store, pairs: seq<(Bytes, Bytes)>, timestamp: int)
    requires Good(H, s)
    ensures EndsWith(H, s.log, AppendedAll(H, s, pairs, timestamp).log, s.nextSeq, pairs, timestamp)
    decreases |pairs|
  {
    if pairs != [] {
      var n := |pairs| - 1;
      var front := AppendedAll(H, s, pairs[..n], timestamp);
      BatchEndsLog(H, s, pairs[..n], timestamp);
      AppendAllKeepsGood(H, s, pairs[..n], timestamp);
      AppendKeepsGood(H, front, pairs[n].0, pairs[n].1, timestamp);
      OneMoreEntry(H, s.log, front.log, s.nextSeq, pairs, timestamp);
    }
  }

  lemma OneMoreEntry(H: Hasher, log: Log, front: Log, first: nat, pairs: seq<(Bytes, Bytes)>, timestamp: int)
    requires pairs != [] && EndsWith(H, log, front, first, pairs[..|pairs| - 1], timestamp)
    ensures
      var n := |pairs| - 1;
      var e := LogEntry(first + n, timestamp, pairs[n].0, pairs[n].1, H.Leaf(pairs[n].1));
      EndsWith(H, log, front + [e], first, pairs, timestamp)
  {
  }

  class LogStore {
    const H: Hasher
    var log: Log
    var index: map<Bytes, nat>
    var nextSeq: nat

    function State(): Store
      reads this
    {
      Store(log, index, nextSeq)
    }

    /** An empty database. */
    constructor (H: Hasher)
      ensures this.H == H && State() == EMPTY && Good(H, State())
    {
      this.H := H;
      log, index, nextSeq := [], map[], 0;
    }

    /** Recovery of the counter when the database is opened. */
    method Open()
      requires Good(H, State())
      modifies this
      ensures State() == Reopened(old(State())) && Good(H, State())
      ensures log == old(log) && index == old(index)
      ensures (forall i :: 0 <= i < |log| ==> log[i].seqNo < nextSeq)
           && (nextSeq == 0 || exists i :: 0 <= i < |log| && log[i].seqNo + 1 == nextSeq)
    {
      if log == [] {
        nextSeq := 0;
      } else {
        nextSeq := log[|log| - 1].seqNo + 1;
      }
    }

    /** Appends one entry; `written` says whether the database accepts the batch. */
    method Append(key: Bytes, data: Bytes, timestamp: int, written: bool)
      returns (r: Result<(nat, int), StorageError>)
      requires Good(H, State())
      modifies this
      ensures State() == Apply(H, old(State()), Op.Append(key, data, timestamp, written))
      ensures r == if written then Ok((old(nextSeq), timestamp)) else Err(WriteFailed)
      ensures Good(H, State())
      ensures written ==> log == old(log) + [LogEntry(old(nextSeq), timestamp, key, data, H.Leaf(data))]
      ensures !written ==> log == old(log) && index == old(index)
    {
      var seqNo := nextSeq;
      nextSeq := nextSeq + 1;
      AppendKeepsGood(H, old(State()), key, data, timestamp);
      if !written {
        return Err(WriteFailed);
      }
      log := Put(log, LogEntry(seqNo, timestamp, key, data, H.Leaf(data)));
      index := index[key := seqNo];
      r := Ok((seqNo, timestamp));
    }

    /** Appends a batch: numbers are reserved at once, the puts are collected and written
        together, and a key that occurs twice ends up at its last entry. */
    method AppendBatch(pairs: seq<(Bytes, Bytes)>, timestamp: int, written: bool)
      returns (r: Result<seq<(nat, int, Hash)>, StorageError>)
      requires Good(H, State())
      modifies this
      ensures State() == Apply(H, old(State()), Op.AppendBatch(pairs, timestamp, written))
      ensures Good(H, State())
      ensures pairs != [] && !written ==> r.Err?
      ensures pairs == [] || written ==> r.Ok? && AreResults(H, old(nextSeq), pairs, timestamp, r.value)
      ensures written ==> EndsWith(H, old(log), log, old(nextSeq), pairs, timestamp)
      ensures !written ==> log == old(log) && index == old(index)
    {
      if pairs == [] {
        return Ok([]);
      }
      var firstSeq := nextSeq;
      nextSeq := nextSeq + |pairs|;
      var log', index', results := Collect(H, State().(nextSeq := firstSeq), pairs, timestamp);
      AppendAllKeepsGood(H, old(State()), pairs, timestamp);
      BatchEndsLog(H, old(State()), pairs, timestamp);
      if !written {
        return Err(WriteFailed);
      }
      log, index := log', index';
      r := Ok(results);
    }

    /** The index finds the last entry with a key. */
    method GetSeqByKey(key: Bytes) returns (r: Option<nat>)
      requires Good(H, State())
      ensures r == LastWith(log, key)
    {
      assert LastWith(log, key) == if key in index then Some(index[key]) else None;
      r := if key in index then Some(index[key]) else None;
    }
  }
}
