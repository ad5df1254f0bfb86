/** Cursor pagination over the log, and what following the cursors adds up to. */
module Pagination {
  import opened Hashing
  import opened Storage
  import opened Sequences

  /** What a scan is after: a range of numbers, or one key. */
  datatype Query = Range(end: nat) | ByKey(wanted: Bytes) {

    /** A range that ends at 0 has no upper bound. */
    predicate Wants(e: LogEntry) {
      match this
      case Range(end) => end == 0 || e.seqNo < end
      case ByKey(wanted) => e.key == wanted
    }
  }

  /** The entries from number `start` on that the query wants, in order. */
  function Select(log: Log, start: nat, q: Query): Log {
    if log == [] then []
    else (if log[0].seqNo >= start && q.Wants(log[0]) then [log[0]] else []) + Select(log[1..], start, q)
  }

  datatype Page = Page(entries: Log, next: nat)

  /** One page: the first `limit` selected entries, and where the next page starts, or 0. */
  function PageOf(log: Log, start: nat, q: Query, limit: nat): Page {
    var all := Select(log, start, q);
    if limit == 0 || |all| < limit then Page(if limit == 0 then [] else all, 0)
    else
      var next := all[limit - 1].seqNo + 1;
      Page(all[..limit], if q.Range? && q.end != 0 && next >= q.end then 0 else next)
  }

  lemma {:induction false} SelectConcat(a: Log, b: Log, start: nat, q: Query)
    ensures Select(a + b, start, q) == Select(a, start, q) + Select(b, start, q)
    decreases |a|
  {
    if a == [] {
      assert a + b == b;
    } else {
      assert (a + b)[1..] == a[1..] + b;
      SelectConcat(a[1..], b, start, q);
    }
  }

  /** Where a scan starts does not matter below its first entry. */
  lemma {:induction false} SelectStart(log: Log, start: nat, start': nat, q: Query)
    requires forall i :: 0 <= i < |log| ==> log[i].seqNo >= start && log[i].seqNo >= start'
    ensures Select(log, start, q) == Select(log, start', q)
    decreases |log|
  {
    if log != [] {
      SelectStart(log[1..], start, start', q);
    }
  }

  /** Selected entries are wanted entries of the log, in ascending order. */
  lemma {:induction false} SelectMembers(log: Log, start: nat, q: Query)
    requires Ascending(log)
    ensures
      var all := Select(log, start, q);
      && Ascending(all)
      && forall i :: 0 <= i < |all| ==> all[i] in log && all[i].seqNo >= start && q.Wants(all[i])
    decreases |log|
  {
    if log != [] {
      SelectMembers(log[1..], start, q);
    }
  }

  lemma {:induction false} SelectHas(log: Log, start: nat, q: Query, e: LogEntry)
    ensures e in Select(log, start, q) <==> e in log && e.seqNo >= start && q.Wants(e)
    decreases |log|
  {
    if log != [] {
      SelectHas(log[1..], start, q, e);
      assert e in log <==> e == log[0] || e in log[1..];
    }
  }

  /** A scan by key yields the entries with exactly that key, and all of them. */
  lemma KeyScanExactly(log: Log, start: nat, key: Bytes, e: LogEntry)
    ensures e in Select(log, start, ByKey(key)) <==> e in log && e.seqNo >= start && e.key == key
  {
    SelectHas(log, start, ByKey(key), e);
  }

  /** A scan of a range yields the entries with its numbers, and all of them. */
  lemma RangeScanExactly(log: Log, start: nat, end: nat, e: LogEntry)
    ensures e in Select(log, start, Range(end)) <==>
            e in log && e.seqNo >= start && (end == 0 || e.seqNo < end)
  {
    SelectHas(log, start, Range(end), e);
  }

  /** Starting just after a selected entry selects the entries that follow it. */
  lemma {:induction false} SelectAfter(log: Log, start: nat, q: Query, k: nat, mid: nat)
    requires Ascending(log) && k < |Select(log, start, q)| && mid == Select(log, start, q)[k].seqNo + 1
    ensures Select(log, mid, q) == Select(log, start, q)[k + 1..]
    decreases |log|
  {
    var head, tail := log[0], log[1..];
    var picked := head.seqNo >= start && q.Wants(head);
    if picked && k == 0 {
      SelectStart(tail, start, mid, q);
    } else {
      var k' := if picked then k - 1 else k;
      SelectAfter(tail, start, q, k', mid);
      HeadIsBelow(log, start, q, k');
      SkipsHead(log, start, q, k, k', mid);
    }
  }

  lemma SkipsHead(log: Log, start: nat, q: Query, k: nat, k': nat, mid: nat)
    requires log != [] && log[0].seqNo < mid && k' < |Select(log[1..], start, q)|
    requires k == if log[0].seqNo >= start && q.Wants(log[0]) then k' + 1 else k'
    requires Select(log[1..], mid, q) == Select(log[1..], start, q)[k' + 1..]
    ensures Select(log, mid, q) == Select(log, start, q)[k + 1..]
  {
    var rest := Select(log[1..], start, q);
    if k > k' {
      DropCons(log[0], rest, k);
    } else {
      assert [] + rest == rest;
    }
    assert [] + Select(log[1..], mid, q) == Select(log[1..], mid, q);
  }

  lemma HeadIsBelow(log: Log, start: nat, q: Query, k: nat)
    requires Ascending(log) && log != [] && k < |Select(log[1..], start, q)|
    ensures log[0].seqNo < Select(log[1..], start, q)[k].seqNo
  {
    SelectMembers(log[1..], start, q);
    assert Select(log[1..], start, q)[k] in log[1..];
  }

  lemma DropCons(head: LogEntry, rest: Log, k: nat)
    requires 0 < k <= |rest|
    ensures ([head] + rest)[k] == rest[k - 1] && ([head] + rest)[k + 1..] == rest[k..]
  {
  }

  /** One page and the scan from its cursor on make up the scan, even if the log has grown
      in between; a page without a cursor is the whole scan of the log it was read from. */
  lemma PageSplits(log: Log, log': Log, start: nat, q: Query, limit: nat)
    requires limit > 0 && log <= log' && Ascending(log')
    ensures
      var p := PageOf(log, start, q, limit);
      if p.next == 0 then p.entries == Select(log, start, q)
      else |p.entries| == limit && Select(log', start, q) == p.entries + Select(log', p.next, q)
  {
    var all := Select(log, start, q);
    if |all| >= limit {
      var more := log'[|log|..];
      assert log' == log + more;
      SelectConcat(log, more, start, q);
      var all' := Select(log', start, q);
      assert all'[..limit] == all[..limit] && all'[limit - 1] == all[limit - 1];
      SelectAfter(log', start, q, limit - 1, all[limit - 1].seqNo + 1);
      assert all' == all'[..limit] + all'[limit..];
      if PageOf(log, start, q, limit).next == 0 {
        LastPage(log, start, q, limit);
      }
    }
  }

  lemma NotLast(log: Log, i: nat, end: nat)
    requires Ascending(log) && i < |log| && forall j :: 0 <= j < |log| ==> log[j].seqNo < end
    ensures i + 1 < |log| ==> log[i].seqNo + 1 < end
  {
    assert i + 1 < |log| ==> log[i].seqNo < log[i + 1].seqNo;
  }

  lemma LastPage(log: Log, start: nat, q: Query, limit: nat)
    requires limit > 0 && Ascending(log) && q.Range? && q.end != 0
    requires |Select(log, start, q)| >= limit && Select(log, start, q)[limit - 1].seqNo + 1 >= q.end
    ensures Select(log, start, q)[..limit] == Select(log, start, q)
  {
    var all := Select(log, start, q);
    SelectMembers(log, start, q);
    NotLast(all, limit - 1, q.end);
  }

  // ----- Following the cursor

  /** What a client collects that asks page after page, finding `logs[0]`, `logs[1]`, ... */
  datatype Walked = Walked(entries: Log, next: nat, seen: Log)

  function Walk(logs: seq<Log>, start: nat, q: Query, limit: nat): Walked
    requires logs != []
  {
    var p := PageOf(logs[0], start, q, limit);
    if p.next == 0 || |logs| == 1 then Walked(p.entries, p.next, logs[0])
    else
      var rest := Walk(logs[1..], p.next, q, limit);
      rest.(entries := p.entries + rest.entries)
  }

  /** The log only ever grows between pages. */
  ghost predicate Growing(logs: seq<Log>) {
    forall i, j :: 0 <= i <= j < |logs| ==> logs[i] <= logs[j]
  }

  /** Pages add up: at the end of the walk they are exactly the scan of the log that the last
      page saw, and before that they are its beginning, up to the cursor. Nothing is missed
      and nothing comes twice, whatever was appended in between. */
  lemma {:induction false} PagesAddUp(logs: seq<Log>, start: nat, q: Query, limit: nat)
    requires logs != [] && limit > 0 && Growing(logs) && (forall i :: 0 <= i < |logs| ==> Ascending(logs[i]))
    ensures
      var w := Walk(logs, start, q, limit);
      && w.seen in logs
      && Select(w.seen, start, q) == w.entries + if w.next == 0 then [] else Select(w.seen, w.next, q)
    decreases |logs|
  {
    var first := logs[0];
    var p := PageOf(first, start, q, limit);
    if p.next == 0 || |logs| == 1 {
      PageSplits(first, first, start, q, limit);
      assert p.entries + [] == p.entries;
    } else {
      var logs' := logs[1..];
      PagesAddUp(logs', p.next, q, limit);
      PagesGlue(first, logs', start, q, limit);
    }
  }

  lemma PagesGlue(first: Log, logs: seq<Log>, start: nat, q: Query, limit: nat)
    requires logs != [] && limit > 0 && (forall i :: 0 <= i < |logs| ==> first <= logs[i] && Ascending(logs[i]))
    requires PageOf(first, start, q, limit).next != 0
    requires
      var p := PageOf(first, start, q, limit);
      var w := Walk(logs, p.next, q, limit);
      && w.seen in logs
      && Select(w.seen, p.next, q) == w.entries + if w.next == 0 then [] else Select(w.seen, w.next, q)
    ensures
      var p := PageOf(first, start, q, limit);
      var w := Walk(logs, p.next, q, limit);
      Select(w.seen, start, q) == (p.entries + w.entries) + if w.next == 0 then [] else Select(w.seen, w.next, q)
  {
    var p := PageOf(first, start, q, limit);
    var w := Walk(logs, p.next, q, limit);
    PageSplits(first, w.seen, start, q, limit);
    Reassociate(p.entries, w.entries, if w.next == 0 then [] else Select(w.seen, w.next, q));
  }

  /** On a log that stays as it is the walk ends, after at most one page per entry and one more. */
  lemma {:induction false} WalkEnds(logs: seq<Log>, log: Log, start: nat, q: Query, limit: nat)
    requires limit > 0 && Ascending(log) && |logs| > |Select(log, start, q)|
    requires forall i :: 0 <= i < |logs| ==> logs[i] == log
    ensures Walk(logs, start, q, limit).next == 0
    ensures Walk(logs, start, q, limit).entries == Select(log, start, q)
    decreases |logs|
  {
    PageSplits(log, log, start, q, limit);
    var p := PageOf(log, start, q, limit);
    if p.next != 0 {
      WalkEnds(logs[1..], log, p.next, q, limit);
    }
  }

  // ----- The scans as the code runs them

  /** The first entry numbered `start` or more, where an iterator from `start` begins. */
  function LowerBound(log: Log, start: nat): (i: nat)
    ensures i <= |log|
  {
    if log == [] || log[0].seqNo >= start then 0 else 1 + LowerBound(log[1..], start)
  }

  lemma {:induction false} SelectFromBound(log: Log, start: nat, q: Query)
    ensures Select(log, start, q) == Select(log[LowerBound(log, start)..], start, q)
    decreases |log|
  {
    if log != [] && log[0].seqNo < start {
      var tail := log[1..];
      SelectFromBound(tail, start, q);
      assert log[1 + LowerBound(tail, start)..] == tail[LowerBound(tail, start)..];
    }
  }

  lemma {:induction false} AtLeastBound(log: Log, start: nat, i: nat)
    requires Ascending(log) && LowerBound(log, start) <= i < |log|
    ensures log[i].seqNo >= start
    decreases |log|
  {
    if log[0].seqNo < start {
      AtLeastBound(log[1..], start, i - 1);
    }
  }

  lemma {:induction false} SelectNothing(log: Log, start: nat, end: nat)
    requires Ascending(log) && end != 0 && (log != [] ==> log[0].seqNo >= end)
    ensures Select(log, start, Range(end)) == []
    decreases |log|
  {
    if log != [] {
      SelectNothing(log[1..], start, end);
    }
  }

  lemma EndReached(log: Log, start: nat, end: nat, i: nat)
    requires Ascending(log) && i < |log| && end != 0 && log[i].seqNo >= end
    ensures Select(log[i..], start, Range(end)) == []
  {
    SelectNothing(log[i..], start, end);
  }

  lemma SelectHere(log: Log, start: nat, q: Query, i: nat, entries: Log)
    requires i < |log| && log[i].seqNo >= start
    requires Select(log, start, q) == entries + Select(log[i..], start, q)
    ensures Select(log, start, q)
         == (if q.Wants(log[i]) then entries + [log[i]] else entries) + Select(log[i + 1..], start, q)
  {
    assert log[i..][1..] == log[i + 1..];
    Reassociate(entries, [log[i]], Select(log[i + 1..], start, q));
    if !q.Wants(log[i]) {
      assert [] + Select(log[i + 1..], start, q) == Select(log[i + 1..], start, q);
    }
  }

  /** What a scan collects: `limit` entries and it stopped there, or fewer and that is all. */
  ghost predicate IsScan(log: Log, start: nat, q: Query, limit: nat, entries: Log, full: bool) {
    if full then |entries| == limit && entries <= Select(log, start, q)
    else |entries| < limit && entries == Select(log, start, q)
  }

  lemma ScanIsPage(log: Log, start: nat, q: Query, limit: nat, entries: Log, full: bool)
    requires limit > 0 && IsScan(log, start, q, limit, entries, full)
    ensures !full ==> PageOf(log, start, q, limit) == Page(entries, 0)
    ensures full ==>
              var next := entries[limit - 1].seqNo + 1;
              PageOf(log, start, q, limit) == Page(entries, if q.Range? && q.end != 0 && next >= q.end then 0 else next)
  {
  }

  /** Where a scan is: what it has collected, and what is still ahead of entry `i`. */
  ghost predicate Scanning(log: Log, start: nat, q: Query, entries: Log, i: nat) {
    i <= |log| && Select(log, start, q) == entries + Select(log[i..], start, q)
  }

  lemma ScanBegins(log: Log, start: nat, q: Query)
    ensures Scanning(log, start, q, [], LowerBound(log, start))
  {
    SelectFromBound(log, start, q);
    var all := Select(log, start, q);
    assert [] + all == all;
  }

  lemma ScanStep(log: Log, start: nat, q: Query, entries: Log, i: nat)
    requires Ascending(log) && LowerBound(log, start) <= i < |log| && Scanning(log, start, q, entries, i)
    ensures Scanning(log, start, q, if q.Wants(log[i]) then entries + [log[i]] else entries, i + 1)
  {
    AtLeastBound(log, start, i);
    SelectHere(log, start, q, i, entries);
  }

  lemma ScanEnds(log: Log, start: nat, q: Query, limit: nat, entries: Log, i: nat)
    requires Scanning(log, start, q, entries, i)
    ensures |entries| == limit ==> IsScan(log, start, q, limit, entries, true)
    ensures |entries| < limit && Select(log[i..], start, q) == [] ==> IsScan(log, start, q, limit, entries, false)
  {
    assert entries + [] == entries;
  }

  method ScanRange(log: Log, start: nat, end: nat, limit: nat) returns (entries: Log, full: bool)
    requires Ascending(log) && limit > 0
    ensures IsScan(log, start, Range(end), limit, entries, full)
  {
    var i := LowerBound(log, start);
    entries := [];
    ghost var q := Range(end);
    ScanBegins(log, start, q);
    while i < |log|
      invariant LowerBound(log, start) <= i <= |log| && |entries| < limit
      invariant Scanning(log, start, q, entries, i)
    {
      var e := log[i];
      if end != 0 && e.seqNo >= end {
        EndReached(log, start, end, i);
        break;
      }
      ScanStep(log, start, q, entries, i);
      entries := entries + [e];
      i := i + 1;
      if |entries| >= limit {
        ScanEnds(log, start, q, limit, entries, i);
        return entries, true;
      }
    }
    ScanEnds(log, start, q, limit, entries, i);
    full := false;
  }

  /** A page is a stretch of the scan: at most `limit` entries in order, and all that are wanted
      up to the cursor, or to the end where there is none. */
  ghost predicate IsPage(log: Log, start: nat, q: Query, limit: nat, p: Page) {
    && |p.entries| <= limit && Ascending(p.entries)
    && (p.next != 0 ==> |p.entries| == limit > 0 && p.next == p.entries[limit - 1].seqNo + 1)
    && (limit > 0 ==> forall e :: e in p.entries <==> e in Select(log, start, q) && (p.next == 0 || e.seqNo < p.next))
  }

  lemma InFront(all: Log, n: nat, e: LogEntry)
    requires Ascending(all) && 0 < n <= |all|
    ensures e in all[..n] <==> e in all && e.seqNo < all[n - 1].seqNo + 1
  {
    if e in all {
      var i :| 0 <= i < |all| && all[i] == e;
      if i < n {
        assert all[..n][i] == e;
        assert i < n - 1 ==> all[i].seqNo < all[n - 1].seqNo;
      } else {
        assert all[n - 1].seqNo < all[i].seqNo;
      }
    }
    if e in all[..n] {
      var i :| 0 <= i < n && all[..n][i] == e;
      assert all[i] == e;
    }
  }

  lemma PageIsPage(log: Log, start: nat, q: Query, limit: nat)
    requires Ascending(log)
    ensures IsPage(log, start, q, limit, PageOf(log, start, q, limit))
  {
    var all, p := Select(log, start, q), PageOf(log, start, q, limit);
    SelectMembers(log, start, q);
    if 0 < limit <= |all| {
      AscendingFront(all, limit);
      if p.next == 0 {
        LastPage(log, start, q, limit);
      }
      forall e ensures e in all[..limit] <==> e in all && e.seqNo < all[limit - 1].seqNo + 1 {
        InFront(all, limit, e);
      }
    }
  }

  /** One page of a range of numbers: the entries with those numbers up to the cursor. */
  method SeqRangePaged(log: Log, start: nat, end: nat, limit: nat) returns (p: Page)
    requires Ascending(log)
    ensures p == PageOf(log, start, Range(end), limit)
    ensures |p.entries| <= limit && Ascending(p.entries)
    ensures p.next == if 0 < |p.entries| == limit && (end == 0 || p.entries[limit - 1].seqNo + 1 < end)
                      then p.entries[limit - 1].seqNo + 1 else 0
    ensures limit > 0 ==> forall e :: e in p.entries <==>
              && e in log && e.seqNo >= start
              && (end == 0 || e.seqNo < end)
              && (p.next == 0 || e.seqNo < p.next)
  {
    PageIsPage(log, start, Range(end), limit);
    forall e ensures e in Select(log, start, Range(end)) <==>
                       e in log && e.seqNo >= start && (end == 0 || e.seqNo < end) {
      RangeScanExactly(log, start, end, e);
    }
    p := RangePage(log, start, end, limit);
  }

  /** The code of that scan. */
  method RangePage(log: Log, start: nat, end: nat, limit: nat) returns (p: Page)
    requires Ascending(log)
    ensures p == PageOf(log, start, Range(end), limit)
  {
    if limit == 0 {
      return Page([], 0);
    }
    var entries, full := ScanRange(log, start, end, limit);
    ScanIsPage(log, start, Range(end), limit, entries, full);
    if full {
      var next := entries[limit - 1].seqNo + 1;
      p := Page(entries, if end == 0 || next < end then next else 0);
    } else {
      p := Page(entries, 0);
    }
  }

  method ScanKey(log: Log, key: Bytes, fromSeq: nat, limit: nat) returns (entries: Log, full: bool)
    requires Ascending(log) && limit > 0
    ensures IsScan(log, fromSeq, ByKey(key), limit, entries, full)
  {
    var first := LowerBound(log, fromSeq);
    entries := [];
    ghost var q := ByKey(key);
    ScanBegins(log, fromSeq, q);
    for i := first to |log|
      invariant |entries| < limit && Scanning(log, fromSeq, q, entries, i)
    {
      ScanStep(log, fromSeq, q, entries, i);
      if log[i].key == key {
        entries := entries + [log[i]];
        if |entries| >= limit {
          ScanEnds(log, fromSeq, q, limit, entries, i + 1);
          return entries, true;
        }
      }
    }
    ScanEnds(log, fromSeq, q, limit, entries, |log|);
    full := false;
  }

  /** One page of the entries under a key, oldest first: those with exactly that key, up to the
      cursor. */
  method EntriesByKey(log: Log, key: Bytes, fromSeq: nat, limit: nat) returns (p: Page)
    requires Ascending(log)
    ensures p == PageOf(log, fromSeq, ByKey(key), limit)
    ensures |p.entries| <= limit && Ascending(p.entries)
    ensures p.next == if 0 < |p.entries| == limit then p.entries[limit - 1].seqNo + 1 else 0
    ensures limit > 0 ==> forall e :: e in p.entries <==>
              && e in log && e.seqNo >= fromSeq && e.key == key
              && (p.next == 0 || e.seqNo < p.next)
  {
    PageIsPage(log, fromSeq, ByKey(key), limit);
    forall e ensures e in Select(log, fromSeq, ByKey(key)) <==> e in log && e.seqNo >= fromSeq && e.key == key {
      KeyScanExactly(log, fromSeq, key, e);
    }
    p := KeyPage(log, key, fromSeq, limit);
  }

  /** The code of that scan. */
  method KeyPage(log: Log, key: Bytes, fromSeq: nat, limit: nat) returns (p: Page)
    requires Ascending(log)
    ensures p == PageOf(log, fromSeq, ByKey(key), limit)
  {
    if limit == 0 {
      return Page([], 0);
    }
    var entries, full := ScanKey(log, key, fromSeq, limit);
    ScanIsPage(log, fromSeq, ByKey(key), limit, entries, full);
    p := Page(entries, if full then entries[limit - 1].seqNo + 1 else 0);
  }

  /** The entries numbered below `end`, up to the first that is not. */
  function Below(log: Log, end: nat): Log {
    if log == [] || log[0].seqNo >= end then [] else [log[0]] + Below(log[1..], end)
  }

  /** All entries from `start` on and below `end`. */
  lemma {:induction false} BelowIsSelect(log: Log, start: nat, end: nat)
    requires Ascending(log) && end != 0 && (log != [] ==> log[0].seqNo >= start)
    ensures Below(log, end) == Select(log, start, Range(end))
    decreases |log|
  {
    if log != [] {
      if log[0].seqNo < end {
        BelowIsSelect(log[1..], start, end);
      } else {
        SelectNothing(log, start, end);
      }
    }
  }

  lemma RangeFromBound(log: Log, start: nat, end: nat, tail: Log)
    requires Ascending(log) && tail == log[LowerBound(log, start)..]
    ensures Below(tail, end) == if end == 0 then [] else Select(log, start, Range(end))
    ensures start == 0 ==> tail == log
  {
    SelectFromBound(log, start, Range(end));
    if tail != [] {
      AtLeastBound(log, start, LowerBound(log, start));
    }
    if end != 0 {
      BelowIsSelect(tail, start, end);
    }
  }

  /** The scan that the proof RPCs and the rebuilds use; here 0 is an upper bound too. */
  method SeqRange(log: Log, start: nat, end: nat) returns (entries: Log)
    requires Ascending(log)
    ensures entries == if end == 0 then [] else Select(log, start, Range(end))
    ensures start == 0 ==> entries == Below(log, end)
  {
    var first := LowerBound(log, start);
    RangeFromBound(log, start, end, log[first..]);
    entries := ScanBelow(log, first, end);
  }

  lemma BelowStep(log: Log, i: nat, end: nat, entries: Log)
    requires i < |log| && log[i].seqNo < end
    ensures entries + Below(log[i..], end) == (entries + [log[i]]) + Below(log[i + 1..], end)
  {
    assert log[i..][1..] == log[i + 1..];
    Reassociate(entries, [log[i]], Below(log[i + 1..], end));
  }

  /** The loop of that scan, from entry `first` on. */
  method ScanBelow(log: Log, first: nat, end: nat) returns (entries: Log)
    requires first <= |log|
    ensures entries == Below(log[first..], end)
  {
    entries := [];
    for i := first to |log|
      invariant Below(log[first..], end) == entries + Below(log[i..], end)
    {
      if log[i].seqNo >= end {
        break;
      }
      BelowStep(log, i, end, entries);
      entries := entries + [log[i]];
    }
  }

  // ----- The order of a page

  /** Newest first, as the interface describes the entries under a key. */
  ghost predicate Descending(log: Log) {
    forall i, j :: 0 <= i < j < |log| ==> log[i].seqNo > log[j].seqNo
  }

  lemma BothOrders(log: Log)
    requires Ascending(log)
    ensures Descending(log) <==> |log| <= 1
  {
    if |log| > 1 {
      assert log[0].seqNo < log[1].seqNo;
    }
  }

  lemma AscendingFront(log: Log, n: nat)
    requires Ascending(log) && n <= |log|
    ensures Ascending(log[..n])
  {
  }

  /** Pages come oldest first: one is in the promised order exactly when it can hold no more
      than one entry, or there is no more than one to return. */
  lemma PageIsDescending(log: Log, start: nat, q: Query, limit: nat)
    requires Ascending(log)
    ensures Descending(PageOf(log, start, q, limit).entries) <==> limit <= 1 || |Select(log, start, q)| <= 1
  {
    var all := Select(log, start, q);
    SelectMembers(log, start, q);
    AscendingFront(all, if limit <= |all| then limit else |all|);
    BothOrders(PageOf(log, start, q, limit).entries);
  }

  /** Two entries under one key come back in the order in which they were appended. */
  lemma NewestComesLast(a: LogEntry, b: LogEntry)
    requires a.seqNo < b.seqNo && a.key == b.key
    ensures
      var page := PageOf([a, b], 0, ByKey(a.key), 2);
      page.entries == [a, b] && !Descending(page.entries)
  {
    var log, q := [a, b], ByKey(a.key);
    assert log[1..] == [b];
    assert Select([b], 0, q) == [b] + Select([b][1..], 0, q);
    assert Select(log, 0, q) == [a] + Select(log[1..], 0, q);
    assert [a, b][..2] == [a, b];
    BothOrders([a, b]);
  }
}
