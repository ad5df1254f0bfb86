/** Watch streams while broadcasts come in commit order: what a stream consists of, and when it
    keeps what the interface promises. */
module WatchInOrder {
  import opened Wrappers
  import opened Sequences
  import opened Storage
  import opened Pagination
  import opened Watch

  predicate InOrder(step: Step) {
    step.Broadcast? ==> step.i == 0
  }

  ghost predicate AllInOrder(steps: seq<Step>) {
    forall i :: 0 <= i < |steps| ==> InOrder(steps[i])
  }

  /** What waits to be broadcast is the end of the log, in its order. How the broadcasts before
      the subscription were ordered does not matter. */
  ghost predicate EndsPending(s: State) {
    |s.pending| <= |s.log| && s.log[|s.log| - |s.pending|..] == s.pending
  }

  /** The first entry that is not broadcast yet. */
  function FirstPending(s: State): nat
    requires |s.pending| <= |s.log|
  {
    |s.log| - |s.pending|
  }

  /** From entry `next` on, the log is what was broadcast since position `sub`, and then what is
      pending. */
  ghost predicate Queued(s: State, sub: nat, next: nat) {
    next <= |s.log| && sub <= |s.channel| && s.log[next..] == s.channel[sub..] + s.pending
  }

  lemma OpenQueued(s: State)
    requires EndsPending(s)
    ensures Queued(s, |s.channel|, FirstPending(s))
  {
    assert s.channel[|s.channel|..] == [];
    assert [] + s.pending == s.pending;
  }

  lemma NextKeepsQueued(s: State, sub: nat, next: nat, step: Step)
    requires Queued(s, sub, next) && InOrder(step)
    ensures Queued(Next(s, step), sub, next)
  {
    if step.Commit? {
      var e := step.e.(seqNo := s.nextSeq);
      assert (s.log + [e])[next..] == s.log[next..] + [e];
      Reassociate(s.channel[sub..], s.pending, [e]);
    } else if step.Broadcast? && s.pending != [] {
      var e, rest := s.pending[0], s.pending[1..];
      assert s.pending == [e] + rest && s.pending[..0] + rest == rest;
      assert (s.channel + [e])[sub..] == s.channel[sub..] + [e];
      Reassociate(s.channel[sub..], [e], rest);
    }
  }

  /** What a run does not change, and what it only adds to: new entries have new numbers. */
  ghost predicate Extends(s: State, t: State) {
    && s.log <= t.log && s.nextSeq <= t.nextSeq && t.stream.from == s.stream.from
    && forall i :: |s.log| <= i < |t.log| ==> t.log[i].seqNo >= s.nextSeq
  }

  /** The replay ends no earlier than with the log of the beginning. */
  ghost predicate Covers(t: State, n: nat) {
    && (t.stream.from == 0 ==> t.stream.cursor == 0 && t.stream.seen == 0)
    && (t.stream.from != 0 && t.stream.cursor == 0 ==> n <= t.stream.seen)
  }

  lemma NextExtends(s: State, t: State, step: Step)
    requires Extends(s, t) && Covers(t, |s.log|)
    ensures Extends(s, Next(t, step)) && Covers(Next(t, step), |s.log|)
  {
  }

  lemma {:induction false} RunInOrder(s: State, steps: seq<Step>, sub: nat, next: nat)
    requires Queued(s, sub, next) && Covers(s, |s.log|) && AllInOrder(steps)
    ensures
      var t := Run(s, steps);
      Queued(t, sub, next) && Extends(s, t) && Covers(t, |s.log|)
    decreases |steps|
  {
    if steps != [] {
      var front, step := steps[..|steps| - 1], steps[|steps| - 1];
      RunInOrder(s, front, sub, next);
      NextKeepsQueued(Run(s, front), sub, next, step);
      NextExtends(s, Run(s, front), step);
    }
  }

  /** The entries from `start` on are a suffix of the log. */
  lemma {:induction false} SelectIsSuffix(log: Log, start: nat)
    requires Ascending(log)
    ensures Select(log, start, ALL) == log[LowerBound(log, start)..]
    decreases |log|
  {
    if log != [] {
      var tail := log[1..];
      SelectIsSuffix(tail, start);
      if log[0].seqNo >= start {
        AllAbove(tail, start);
      }
      SuffixGrows(log, tail, start);
    }
  }

  lemma SuffixGrows(log: Log, tail: Log, start: nat)
    requires log != [] && tail == log[1..] && Select(tail, start, ALL) == tail[LowerBound(tail, start)..]
    requires log[0].seqNo >= start ==> LowerBound(tail, start) == 0
    ensures Select(log, start, ALL) == log[LowerBound(log, start)..]
  {
    if log[0].seqNo >= start {
      assert log == [log[0]] + tail;
    } else {
      assert log[1 + LowerBound(tail, start)..] == tail[LowerBound(tail, start)..];
    }
  }

  lemma AllAbove(log: Log, start: nat)
    requires AtLeast(log, start)
    ensures LowerBound(log, start) == 0
  {
  }

  lemma {:induction false} LowerBoundAt(log: Log, start: nat, i: nat)
    requires i <= |log| && (forall j :: 0 <= j < i ==> log[j].seqNo < start) && (i < |log| ==> log[i].seqNo >= start)
    ensures LowerBound(log, start) == i
    decreases |log|
  {
    if i > 0 {
      LowerBoundAt(log[1..], start, i - 1);
    }
  }

  /** What the replay reads of the first `k` entries is the stretch of the log up to there. */
  lemma ReplayIsStretch(log: Log, k: nat, from: nat)
    requires Ascending(log) && k <= |log| && Select(log[..k], from, ALL) != []
    ensures LowerBound(log, from) < k && Select(log[..k], from, ALL) == log[LowerBound(log, from)..k]
  {
    var front := log[..k];
    var i := LowerBound(front, from);
    SelectIsSuffix(front, from);
    if i < |front| {
      AtLeastBound(front, from, i);
    }
    LowerBelow(front, from);
    LowerBoundAt(log, from, i);
    assert front[i..] == log[i..k];
  }

  lemma {:induction false} LowerBelow(log: Log, start: nat)
    ensures forall i :: 0 <= i < LowerBound(log, start) ==> log[i].seqNo < start
    decreases |log|
  {
    if log != [] && log[0].seqNo < start {
      LowerBelow(log[1..], start);
      assert forall i :: 1 <= i < LowerBound(log, start) ==> log[i] == log[1..][i - 1];
    }
  }

  /** Of a stretch of the log that was received, what lies behind the replay is kept. */
  lemma RecordsOfStretch(log: Log, k: nat, lo: nat, hi: nat)
    requires Ascending(log) && 0 < k <= |log| && lo <= k && lo <= hi <= |log|
    ensures Records(log[lo..hi], log[k - 1].seqNo + 1) == log[k..if k <= hi then hi else k]
  {
    var items := log[lo..hi];
    var i := if k <= hi then k - lo else hi - lo;
    StretchBound(log, k, lo, hi, i);
    AscendingStretch(log, lo, hi);
    RecordsAreSuffix(items, log[k - 1].seqNo + 1);
    assert items[i..] == log[k..if k <= hi then hi else k];
  }

  lemma RecordsAreSuffix(items: Log, floor: nat)
    requires Ascending(items)
    ensures Records(items, floor) == items[LowerBound(items, floor)..]
  {
    SelectMembers(items, floor, ALL);
    RecordsComplete(items, floor);
    SelectIsSuffix(items, floor);
  }

  lemma AscendingStretch(log: Log, lo: nat, hi: nat)
    requires Ascending(log) && lo <= hi <= |log|
    ensures Ascending(log[lo..hi])
  {
  }

  lemma StretchBound(log: Log, k: nat, lo: nat, hi: nat, i: nat)
    requires Ascending(log) && 0 < k <= |log| && lo <= k && lo <= hi <= |log|
    requires i == if k <= hi then k - lo else hi - lo
    ensures LowerBound(log[lo..hi], log[k - 1].seqNo + 1) == i
  {
    var items, floor := log[lo..hi], log[k - 1].seqNo + 1;
    forall j | 0 <= j < i ensures items[j].seqNo < floor {
      assert lo + j < k - 1 ==> log[lo + j].seqNo < log[k - 1].seqNo;
    }
    LowerBoundAt(items, floor, i);
  }

  /** Without a replay everything received is kept. */
  lemma RecordsOfAll(log: Log, lo: nat, hi: nat)
    requires Ascending(log) && lo <= hi <= |log|
    ensures Records(log[lo..hi], 0) == log[lo..hi]
  {
    var items := log[lo..hi];
    AscendingStretch(log, lo, hi);
    RecordsAreSuffix(items, 0);
    AllAbove(items, 0);
  }

  /** Where in the log a stream starts: at `from` if the replay found anything, and at the
      first entry that was not broadcast before the subscription if not. */
  function FirstIndex(s: State, next: nat): nat
    requires s.stream.seen <= |s.log|
  {
    if Replayed(s) != [] then LowerBound(s.log, s.stream.from) else next
  }

  /** `sent` is the stretch of the log that starts at `first`, and reaches to `upto` or beyond. */
  ghost predicate IsStretch(log: Log, first: nat, sent: Log, upto: nat) {
    upto <= first + |sent| <= |log| && sent == log[first..first + |sent|]
  }

  /** What a stream has sent is a stretch of the log, and once it is live the stretch reaches to
      what it has received. */
  ghost predicate SendsStretch(s: State, sub: nat, next: nat) {
    var w := s.stream;
    && w.seen <= |s.log| && sub <= w.pos
    && IsStretch(s.log, FirstIndex(s, next), w.delivered + w.buffer, if w.cursor == 0 then next + (w.pos - sub) else 0)
  }

  lemma ReplayStretch(s: State, sub: nat, next: nat)
    requires Inv(s, sub) && s.stream.cursor != 0 && next <= |s.log|
    ensures IsStretch(s.log, FirstIndex(s, next), s.stream.delivered + s.stream.buffer, 0)
  {
    var w := s.stream;
    var sent, rest := w.delivered + w.buffer, Select(s.log, w.cursor, ALL);
    if sent != [] {
      SelectIsSuffix(s.log, w.from);
      assert sent == (sent + rest)[..|sent|];
      assert s.log[LowerBound(s.log, w.from)..][..|sent|]
          == s.log[LowerBound(s.log, w.from)..LowerBound(s.log, w.from) + |sent|];
    }
  }

  /** In order, what was received is a stretch of the log too. */
  lemma LiveFacts(s: State, sub: nat, next: nat)
    requires Inv(s, sub) && s.stream.cursor == 0 && Queued(s, sub, next)
    ensures next + (s.stream.pos - sub) <= |s.log|
    ensures s.stream.delivered + s.stream.buffer
         == Replayed(s) + Records(s.log[next..next + (s.stream.pos - sub)], Bound(Replayed(s), 0))
  {
    ReceivedStretch(s.log, s.channel, s.pending, sub, s.stream.pos, next);
  }

  lemma ReceivedStretch(log: Log, channel: Log, pending: Log, sub: nat, pos: nat, next: nat)
    requires next <= |log| && sub <= pos <= |channel| && log[next..] == channel[sub..] + pending
    ensures next + (pos - sub) <= |log| && channel[sub..pos] == log[next..next + (pos - sub)]
  {
    var n := pos - sub;
    assert |log[next..]| == |channel[sub..]| + |pending|;
    SliceOfConcat(channel[sub..], pending, 0, n);
    SliceOfSuffix(log, next, 0, n);
    SliceOfSuffix(channel, sub, 0, n);
  }

  lemma LiveStretch(s: State, lo: nat, hi: nat, sent: Log, n: nat)
    requires Ascending(s.log) && s.stream.seen <= |s.log| && s.stream.cursor == 0
    requires Covers(s, n) && lo <= n && lo <= hi <= |s.log|
    requires sent == Replayed(s) + Records(s.log[lo..hi], Bound(Replayed(s), 0))
    ensures IsStretch(s.log, FirstIndex(s, lo), sent, hi)
  {
    if Replayed(s) == [] {
      OnlyLive(s.log, lo, hi, sent);
    } else {
      ReplayThenLive(s.log, s.stream.from, s.stream.seen, lo, hi, Replayed(s), sent);
    }
  }

  lemma OnlyLive(log: Log, lo: nat, hi: nat, sent: Log)
    requires Ascending(log) && lo <= hi <= |log| && sent == [] + Records(log[lo..hi], 0)
    ensures IsStretch(log, lo, sent, hi)
  {
    RecordsOfAll(log, lo, hi);
    assert [] + log[lo..hi] == log[lo..hi];
  }

  lemma ReplayThenLive(log: Log, from: nat, k: nat, lo: nat, hi: nat, replay: Log, sent: Log)
    requires Ascending(log) && k <= |log| && lo <= k && lo <= hi <= |log|
    requires replay == Select(log[..k], from, ALL) && replay != []
    requires sent == replay + Records(log[lo..hi], Bound(replay, 0))
    ensures IsStretch(log, LowerBound(log, from), sent, hi)
  {
    var first, last := LowerBound(log, from), if k <= hi then hi else k;
    ReplayIsStretch(log, k, from);
    RecordsOfStretch(log, k, lo, hi);
    BoundOfStretch(log, first, k);
    JoinStretches(log, first, k, last, sent);
  }

  lemma BoundOfStretch(log: Log, a: nat, b: nat)
    requires a < b <= |log|
    ensures Bound(log[a..b], 0) == log[b - 1].seqNo + 1
  {
  }

  lemma JoinStretches(log: Log, a: nat, b: nat, c: nat, sent: Log)
    requires a < b <= c <= |log| && sent == log[a..b] + log[b..c]
    ensures IsStretch(log, a, sent, c)
  {
    assert sent == log[a..c];
  }

  /** Gap-freedom. While broadcasts come in commit order, a stream is one stretch of the log,
      without gap or repetition, and once it is live it reaches to what it has received. */
  lemma WatchGapFree(s: State, from: nat, steps: seq<Step>)
    requires Opened(s, from) && EndsPending(s) && AllInOrder(steps)
    ensures SendsStretch(Run(s, steps), |s.channel|, FirstPending(s))
  {
    var t := InOrderRun(s, from, steps);
    StretchOf(t, |s.channel|, FirstPending(s), |s.log|);
  }

  lemma InOrderRun(s: State, from: nat, steps: seq<Step>) returns (t: State)
    requires Opened(s, from) && EndsPending(s) && AllInOrder(steps)
    ensures t == Run(s, steps) && t.stream.from == from
    ensures Inv(t, |s.channel|) && Queued(t, |s.channel|, FirstPending(s)) && Covers(t, |s.log|) && Extends(s, t)
  {
    OpenInv(s, from);
    RunKeepsInv(s, |s.channel|, steps);
    OpenQueued(s);
    RunInOrder(s, steps, |s.channel|, FirstPending(s));
    t := Run(s, steps);
  }

  lemma StretchOf(t: State, sub: nat, next: nat, n: nat)
    requires Inv(t, sub) && Queued(t, sub, next) && Covers(t, n) && next <= n <= |t.log|
    ensures SendsStretch(t, sub, next)
  {
    if t.stream.cursor == 0 {
      LiveFacts(t, sub, next);
      LiveStretch(t, next, next + (t.stream.pos - sub), t.stream.delivered + t.stream.buffer, n);
    } else {
      ReplayStretch(t, sub, next);
    }
  }

  /** Such a stream delivers the entries from number `from` on, and only those, exactly when
      nothing was delivered yet, or the replay found an entry, or the first entry from `from`
      on is the next one to be broadcast when the stream is opened. */
  lemma WatchStartsAtFrom(s: State, from: nat, steps: seq<Step>)
    requires Opened(s, from) && EndsPending(s) && AllInOrder(steps)
    ensures
      var t := Run(s, steps);
      && t.stream.seen <= |t.log|
      && (t.stream.delivered <= Select(t.log, from, ALL) <==>
            || t.stream.delivered == []
            || Replayed(t) != []
            || LowerBound(t.log, from) == FirstPending(s))
  {
    WatchGapFree(s, from, steps);
    RunAscends(s, from, steps);
    var t := Run(s, steps);
    SelectIsSuffix(t.log, from);
    StretchStart(t.log, FirstIndex(t, FirstPending(s)), LowerBound(t.log, from), t.stream.delivered, t.stream.buffer);
  }

  lemma RunAscends(s: State, from: nat, steps: seq<Step>)
    requires Opened(s, from) && EndsPending(s) && AllInOrder(steps)
    ensures Ascending(Run(s, steps).log) && Run(s, steps).stream.from == from
  {
    var t := InOrderRun(s, from, steps);
  }

  /** No entry comes twice in a log, so a stretch starts in one place only. */
  lemma StretchStart(log: Log, first: nat, start: nat, delivered: Log, buffer: Log)
    requires Ascending(log) && start <= |log| && IsStretch(log, first, delivered + buffer, 0)
    ensures delivered <= log[start..] <==> delivered == [] || first == start
  {
    if delivered != [] {
      var sent := delivered + buffer;
      assert delivered[0] == sent[0] == log[first];
      if first == start {
        assert delivered == sent[..|delivered|];
        assert log[start..][..|delivered|] == log[start..start + |sent|][..|delivered|];
      } else if start < |log| {
        assert log[start..][0] == log[start];
        assert log[first].seqNo != log[start].seqNo;
      }
    }
  }

  // ----- What a stream promises

  /** What a stream opened on a log of `stored` entries is to deliver of the log as it is now:
      the entries from number `from` on, or for 0 only those appended since. */
  function Promised(log: Log, stored: nat, from: nat): Log
    requires stored <= |log|
  {
    if from == 0 then log[stored..] else Select(log, from, ALL)
  }

  /** What can be told when the stream is opened: for 0, that nothing is waiting to be
      broadcast; for another number, that the log has reached it, or that nothing is waiting and
      no later append can take a smaller number. */
  predicate Ready(s: State, from: nat) {
    if from == 0 then s.pending == []
    else from < Bound(s.log, 0) || (from <= s.nextSeq && s.pending == [])
  }

  lemma {:induction false} SelectFinds(log: Log, start: nat, i: nat)
    requires i < |log| && log[i].seqNo >= start
    ensures Select(log, start, ALL) != []
    decreases |log|
  {
    if i > 0 {
      SelectFinds(log[1..], start, i - 1);
    }
  }

  /** A replay that has something to find has found it by the time anything is delivered. */
  lemma ReplayFinds(s: State, sub: nat, log: Log)
    requires Inv(s, sub) && Covers(s, |log|) && log <= s.log && 0 < s.stream.from < Bound(log, 0)
    ensures s.stream.cursor == 0 || s.stream.delivered != [] ==> Replayed(s) != []
  {
    var w := s.stream;
    if w.cursor == 0 {
      SelectFinds(s.log[..w.seen], w.from, |log| - 1);
    }
  }

  /** Entries that are yet to come start where the stored ones end. */
  lemma NewIsFirst(s: State, t: State, from: nat)
    requires Ascending(s.log) && Extends(s, t) && Bound(s.log, 0) <= from <= s.nextSeq
    ensures LowerBound(t.log, from) == |s.log|
  {
    forall j | 0 <= j < |s.log| ensures t.log[j].seqNo < from {
      assert t.log[j] == s.log[j];
      assert j < |s.log| - 1 ==> s.log[j].seqNo < s.log[|s.log| - 1].seqNo;
    }
    LowerBoundAt(t.log, from, |s.log|);
  }

  lemma PromisedStart(s: State, t: State, sub: nat)
    requires Ascending(s.log) && |s.pending| <= |s.log| && Ready(s, t.stream.from)
    requires Inv(t, sub) && Covers(t, |s.log|) && Extends(s, t)
    requires t.stream.delivered != [] || t.stream.cursor == 0
    ensures
      var first := FirstIndex(t, FirstPending(s));
      first <= |t.log| && Promised(t.log, |s.log|, t.stream.from) == t.log[first..]
  {
    var from := t.stream.from;
    if from == 0 {
      assert t.log[..0] == [] && Replayed(t) == [];
    } else {
      SelectIsSuffix(t.log, from);
      if from < Bound(s.log, 0) {
        ReplayFinds(t, sub, s.log);
      } else {
        NewIsFirst(s, t, from);
      }
    }
  }

  /** A stream that is opened in a ready state delivers what it promises, in order and from
      the start, in every run in which broadcasts come in commit order. */
  lemma ReadyDelivers(s: State, from: nat, steps: seq<Step>)
    requires Opened(s, from) && EndsPending(s) && Ready(s, from) && AllInOrder(steps)
    ensures Keeps(s, from, steps)
  {
    var t := InOrderRun(s, from, steps);
    StretchOf(t, |s.channel|, FirstPending(s), |s.log|);
    if t.stream.delivered != [] {
      PromisedStart(s, t, |s.channel|);
      StretchFromFirst(t, |s.channel|, FirstPending(s));
    }
  }

  lemma StretchFromFirst(t: State, sub: nat, next: nat)
    requires Ascending(t.log) && SendsStretch(t, sub, next) && FirstIndex(t, next) <= |t.log|
    ensures t.stream.delivered <= t.log[FirstIndex(t, next)..]
  {
    var first := FirstIndex(t, next);
    StretchStart(t.log, first, first, t.stream.delivered, t.stream.buffer);
  }

  /** A live stream that has delivered nothing delivers the next entry, whatever its number. */
  lemma DeliversNext(s: State)
    requires var w := s.stream; w.cursor == 0 && w.buffer == [] && w.last == None && w.delivered == [] && !w.ended
    requires s.stream.pos == |s.channel| && s.pending != []
    ensures
      var t := Next(Next(s, Broadcast(0)), Receive);
      t.stream.delivered == [s.pending[0]] && t.log == s.log
  {
  }

  /** Reading a page where there is nothing to read ends the replay. */
  lemma ReadsNothing(s: State)
    requires var w := s.stream; w.buffer == [] && !w.ended && Select(s.log, w.cursor, ALL) == []
    ensures
      var t := Next(s, ReadPage);
      t == s || t == s.(stream := s.stream.(cursor := 0, seen := |s.log|))
    ensures Next(s, ReadPage).stream.cursor == 0
  {
  }

  lemma {:induction false} SelectsNone(log: Log, start: nat)
    requires forall i :: 0 <= i < |log| ==> log[i].seqNo < start
    ensures Select(log, start, ALL) == []
    decreases |log|
  {
    if log != [] {
      SelectsNone(log[1..], start);
    }
  }

  lemma BelowBound(log: Log, start: nat)
    requires Ascending(log) && Bound(log, 0) <= start
    ensures Select(log, start, ALL) == []
  {
    forall i | 0 <= i < |log| ensures log[i].seqNo < start {
      assert i < |log| - 1 ==> log[i].seqNo < log[|log| - 1].seqNo;
    }
    SelectsNone(log, start);
  }

  /** For 0: an entry that was stored before and is broadcast after the subscription. */
  lemma StoredIsDelivered(s: State)
    requires Opened(s, 0) && s.pending != []
    ensures !Keeps(s, 0, [Broadcast(0)] + [Receive])
  {
    RunTwo(s, Broadcast(0), Receive);
    DeliversNext(s);
    assert s.log[|s.log|..] == [];
  }

  /** For a number beyond the log: such an entry again, which is below the number. */
  lemma PendingIsDelivered(s: State, from: nat)
    requires Opened(s, from) && 0 < from && Bound(s.log, 0) <= from && s.pending != []
    ensures !Keeps(s, from, [ReadPage] + [Broadcast(0)] + [Receive])
  {
    BelowBound(s.log, from);
    ReadsNothing(s);
    RunThree(s, ReadPage, Broadcast(0), Receive);
    DeliversNext(Next(s, ReadPage));
  }

  /** And an entry that is appended under a number below. */
  lemma EarlierIsDelivered(s: State, from: nat, e: LogEntry)
    requires Opened(s, from) && s.nextSeq < from && s.pending == []
    ensures !Keeps(s, from, [ReadPage] + [Commit(e)] + [Broadcast(0)] + [Receive])
  {
    var e' := e.(seqNo := s.nextSeq);
    BelowBound(s.log, from);
    ReadsNothing(s);
    RunThree(s, ReadPage, Commit(e), Broadcast(0));
    RunSnoc(s, [ReadPage] + [Commit(e)] + [Broadcast(0)], Receive);
    DeliversNext(Next(Next(s, ReadPage), Commit(e)));
    AscendingAppend(s.log, e');
    BelowBound(s.log + [e'], from);
  }

  /** In any other state there is a run, in commit order too, that delivers something else
      first: an entry stored before for 0, or one below the number asked for. */
  lemma UnreadyBreaks(s: State, from: nat, e: LogEntry) returns (steps: seq<Step>)
    requires Opened(s, from) && !Ready(s, from)
    ensures AllInOrder(steps) && !Keeps(s, from, steps)
  {
    if from == 0 {
      steps := [Broadcast(0)] + [Receive];
      StoredIsDelivered(s);
    } else if s.pending != [] {
      steps := [ReadPage] + [Broadcast(0)] + [Receive];
      PendingIsDelivered(s, from);
    } else {
      steps := [ReadPage] + [Commit(e)] + [Broadcast(0)] + [Receive];
      EarlierIsDelivered(s, from, e);
    }
  }

  /** The stream has delivered the beginning of what it promises. */
  ghost predicate Keeps(s: State, from: nat, steps: seq<Step>) {
    var t := Run(s, steps);
    |s.log| <= |t.log| && t.stream.delivered <= Promised(t.log, |s.log|, from)
  }

  /** The promise is kept in all runs with broadcasts in commit order, whatever is appended and
      whichever writes fail, exactly when the stream is opened in a ready state. */
  lemma WatchKeepsPromise(s: State, from: nat, e: LogEntry)
    requires Opened(s, from) && EndsPending(s)
    ensures Ready(s, from) <==> forall steps :: AllInOrder(steps) ==> Keeps(s, from, steps)
  {
    if Ready(s, from) {
      forall steps | AllInOrder(steps) ensures Keeps(s, from, steps) {
        ReadyDelivers(s, from, steps);
      }
    } else {
      var steps := UnreadyBreaks(s, from, e);
    }
  }
}
