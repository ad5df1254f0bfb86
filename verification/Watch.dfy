/** A watch stream: history is replayed page by page, then entries arrive from a broadcast
    channel that was subscribed to before the replay. Commits, broadcasts and the steps of
    the stream interleave in any order. */
module Watch {
  import opened Wrappers
  import opened Sequences
  import opened Storage
  import opened Pagination

  const CHANNEL_CAP: nat := 1024
  const PAGE: nat := 200
  const ALL: Query := Range(0)

  /** `buffer` is what is left to send of the last page read, and `cursor` where the next one
      starts, 0 when the replay is over. `seen` is the length of the log at the last page,
      `pos` the position in the channel, and `last` the last number sent. */
  datatype Stream = Stream(from: nat, cursor: nat, buffer: Log, seen: nat, pos: nat,
                           last: Option<nat>, delivered: Log, ended: bool)

  /** `nextSeq` is the number that the next append takes, and `pending` are entries that are in
      the log and not yet broadcast. */
  datatype State = State(log: Log, nextSeq: nat, pending: Log, channel: Log, stream: Stream)

  /** `Commit` stores an entry under the next number, and `Skip` is a failed write, which loses
      its numbers. */
  datatype Step =
    | Commit(e: LogEntry)
    | Skip(n: nat)
    | Broadcast(i: nat)
    | ReadPage
    | Send
    | Receive
    | Hangup

  /** A stream from number `from` on, subscribed at position `sub` of the channel. */
  function Start(from: nat, sub: nat): Stream {
    Stream(from, from, [], 0, sub, None, [], false)
  }

  /** A stream has just been opened, on any log and with any broadcasts before. */
  ghost predicate Opened(s: State, from: nat) {
    Ascending(s.log) && Bound(s.log, 0) <= s.nextSeq && s.stream == Start(from, |s.channel|)
  }

  /** The next append to the log, under the next number. */
  function Committed(s: State, e: LogEntry): State {
    var e' := e.(seqNo := s.nextSeq);
    s.(log := s.log + [e'], nextSeq := s.nextSeq + 1, pending := s.pending + [e'])
  }

  function Push(w: Stream, e: LogEntry): Stream {
    w.(delivered := w.delivered + [e], last := Some(e.seqNo))
  }

  /** Takes one item from the channel, which it sends unless the number has been passed. */
  function Received(w: Stream, e: LogEntry): Stream {
    var w' := w.(pos := w.pos + 1);
    if w.last.Some? && e.seqNo <= w.last.value then w' else Push(w', e)
  }

  function Next(s: State, step: Step): State {
    var w := s.stream;
    match step
    case Commit(e) =>
      Committed(s, e)
    case Skip(n) =>
      s.(nextSeq := s.nextSeq + n)
    case Broadcast(i) =>
      if i >= |s.pending| then s
      else s.(pending := s.pending[..i] + s.pending[i + 1..], channel := s.channel + [s.pending[i]])
    case ReadPage =>
      if w.ended || w.buffer != [] || w.cursor == 0 then s
      else
        var page := PageOf(s.log, w.cursor, ALL, PAGE);
        s.(stream := w.(buffer := page.entries, cursor := page.next, seen := |s.log|))
    case Send =>
      if w.ended || w.buffer == [] then s
      else s.(stream := Push(w, w.buffer[0]).(buffer := w.buffer[1..]))
    case Receive =>
      if w.ended || w.buffer != [] || w.cursor != 0 || w.pos >= |s.channel| then s
      else if |s.channel| - w.pos > CHANNEL_CAP then s.(stream := w.(ended := true))
      else s.(stream := Received(w, s.channel[w.pos]))
    case Hangup =>
      s.(stream := w.(ended := true))
  }

  function Run(s: State, steps: seq<Step>): State {
    if steps == [] then s else Next(Run(s, steps[..|steps| - 1]), steps[|steps| - 1])
  }

  // ----- What a stream consists of

  /** The least number that is greater than all of an ascending `log`, at least `floor`. */
  function Bound(log: Log, floor: nat): nat {
    if log == [] then floor else log[|log| - 1].seqNo + 1
  }

  /** The items that exceed all before them, starting at `floor`. */
  function Records(items: Log, floor: nat): Log {
    if items == [] then []
    else
      var front, e := items[..|items| - 1], items[|items| - 1];
      var kept := Records(front, floor);
      if e.seqNo < Bound(kept, floor) then kept else kept + [e]
  }

  /** What the replay has read: until it is over, all that was sent or waits to be sent. */
  function Replayed(s: State): Log
    requires s.stream.seen <= |s.log|
  {
    if s.stream.cursor != 0 then s.stream.delivered + s.stream.buffer
    else Select(s.log[..s.stream.seen], s.stream.from, ALL)
  }

  /** During the replay, `sent` and what lies ahead of the cursor are the entries from `from` on. */
  ghost predicate Replaying(log: Log, from: nat, cursor: nat, sent: Log) {
    cursor == Bound(sent, from) && Select(log, from, ALL) == sent + Select(log, cursor, ALL)
  }

  /** After the replay come the records among the items received. */
  ghost predicate Live(replay: Log, items: Log, sent: Log) {
    sent == replay + Records(items, Bound(replay, 0))
  }

  ghost predicate LastIs(last: Option<nat>, delivered: Log) {
    last == if delivered == [] then None else Some(delivered[|delivered| - 1].seqNo)
  }

  /** What holds of a stream that subscribed at position `sub` of the channel. */
  ghost predicate StreamInv(log: Log, channel: Log, w: Stream, sub: nat) {
    && sub <= w.pos <= |channel| && w.seen <= |log|
    && (w.buffer != [] || w.cursor != 0 ==> w.pos == sub)
    && LastIs(w.last, w.delivered)
    && if w.cursor != 0 then Replaying(log, w.from, w.cursor, w.delivered + w.buffer)
       else Live(Select(log[..w.seen], w.from, ALL), channel[sub..w.pos], w.delivered + w.buffer)
  }

  ghost predicate Inv(s: State, sub: nat) {
    Ascending(s.log) && Bound(s.log, 0) <= s.nextSeq && StreamInv(s.log, s.channel, s.stream, sub)
  }

  lemma OpenInv(s: State, from: nat)
    requires Opened(s, from)
    ensures Inv(s, |s.channel|)
  {
    assert s.channel[|s.channel|..|s.channel|] == [];
    assert [] + Select(s.log, from, ALL) == Select(s.log, from, ALL);
  }

  lemma AscendingAppend(log: Log, e: LogEntry)
    requires Ascending(log) && Bound(log, 0) <= e.seqNo
    ensures Ascending(log + [e])
  {
    forall i | 0 <= i < |log| ensures log[i].seqNo < e.seqNo {
      assert i < |log| - 1 ==> log[i].seqNo < log[|log| - 1].seqNo;
    }
  }

  /** The cursor does not pass an entry that is yet to come. */
  lemma CursorBehind(log: Log, from: nat, sent: Log, rest: Log, e: LogEntry)
    requires Ascending(log) && Bound(log, 0) <= e.seqNo && Select(log, from, ALL) == sent + rest
    ensures e.seqNo >= from <==> e.seqNo >= Bound(sent, from)
  {
    if sent != [] {
      var x := sent[|sent| - 1];
      SelectMembers(log, from, ALL);
      assert x == Select(log, from, ALL)[|sent| - 1];
      assert x in log;
    }
  }

  lemma CommitInv(log: Log, channel: Log, w: Stream, sub: nat, e: LogEntry)
    requires Ascending(log) && StreamInv(log, channel, w, sub) && Bound(log, 0) <= e.seqNo
    ensures StreamInv(log + [e], channel, w, sub)
  {
    assert (log + [e])[..w.seen] == log[..w.seen];
    if w.cursor != 0 {
      var sent, rest := w.delivered + w.buffer, Select(log, w.cursor, ALL);
      CursorBehind(log, w.from, sent, rest, e);
      SelectConcat(log, [e], w.from, ALL);
      SelectConcat(log, [e], w.cursor, ALL);
      Reassociate(sent, rest, Select([e], w.cursor, ALL));
    }
  }

  lemma SliceOfConcat(a: Log, b: Log, lo: nat, hi: nat)
    requires lo <= hi <= |a|
    ensures (a + b)[lo..hi] == a[lo..hi]
  {
  }

  lemma SliceOfSuffix(a: Log, base: nat, lo: nat, hi: nat)
    requires base <= |a| && lo <= hi <= |a| - base
    ensures a[base..][lo..hi] == a[base + lo..base + hi]
  {
  }

  lemma BroadcastInv(s: State, sub: nat, pending: Log, e: LogEntry)
    requires Inv(s, sub)
    ensures Inv(s.(pending := pending, channel := s.channel + [e]), sub)
  {
    SliceOfConcat(s.channel, [e], sub, s.stream.pos);
  }

  lemma BoundOfConcat(a: Log, b: Log, floor: nat)
    ensures Bound(a + b, floor) == Bound(b, Bound(a, floor))
  {
  }

  lemma ReadLast(log: Log, from: nat, cursor: nat, delivered: Log)
    requires Replaying(log, from, cursor, delivered) && Ascending(log)
    requires PageOf(log, cursor, ALL, PAGE).next == 0
    ensures delivered + PageOf(log, cursor, ALL, PAGE).entries == Select(log[..|log|], from, ALL)
  {
    PageSplits(log, log, cursor, ALL, PAGE);
    assert log[..|log|] == log;
  }

  lemma ReadMore(log: Log, from: nat, cursor: nat, delivered: Log)
    requires Replaying(log, from, cursor, delivered) && Ascending(log)
    requires PageOf(log, cursor, ALL, PAGE).next != 0
    ensures
      var page := PageOf(log, cursor, ALL, PAGE);
      Replaying(log, from, page.next, delivered + page.entries)
  {
    var page := PageOf(log, cursor, ALL, PAGE);
    PageSplits(log, log, cursor, ALL, PAGE);
    Reassociate(delivered, page.entries, Select(log, page.next, ALL));
    BoundOfConcat(delivered, page.entries, from);
  }

  lemma ReadInv(s: State, sub: nat)
    requires Inv(s, sub) && s.stream.buffer == [] && s.stream.cursor != 0
    ensures Inv(Next(s, ReadPage), sub)
  {
    var w, page := s.stream, PageOf(s.log, s.stream.cursor, ALL, PAGE);
    assert w.delivered + w.buffer == w.delivered;
    if page.next == 0 {
      ReadLast(s.log, w.from, w.cursor, w.delivered);
      var replay := Select(s.log[..|s.log|], w.from, ALL);
      assert s.channel[sub..sub] == [];
      assert replay + [] == replay;
    } else {
      ReadMore(s.log, w.from, w.cursor, w.delivered);
    }
  }

  /** A page has at most 200 entries. */
  lemma ReadsAtMost(s: State)
    requires s.stream.buffer == []
    ensures |Next(s, ReadPage).stream.buffer| <= 200
  {
  }

  lemma SendInv(log: Log, channel: Log, w: Stream, sub: nat)
    requires StreamInv(log, channel, w, sub) && w.buffer != []
    ensures StreamInv(log, channel, Push(w, w.buffer[0]).(buffer := w.buffer[1..]), sub)
  {
    Reassociate(w.delivered, [w.buffer[0]], w.buffer[1..]);
    assert w.buffer == [w.buffer[0]] + w.buffer[1..];
  }

  lemma ReceiveInv(log: Log, channel: Log, w: Stream, sub: nat)
    requires StreamInv(log, channel, w, sub) && w.buffer == [] && w.cursor == 0 && w.pos < |channel|
    ensures StreamInv(log, channel, Received(w, channel[w.pos]), sub)
  {
    var items, e := channel[sub..w.pos], channel[w.pos];
    var w' := Received(w, e);
    assert channel[sub..w.pos + 1] == items + [e];
    assert w.delivered + w.buffer == w.delivered && w'.delivered + w'.buffer == w'.delivered;
    ReceiveOne(Select(log[..w.seen], w.from, ALL), items, e, w, w');
  }

  lemma ReceiveOne(replay: Log, items: Log, e: LogEntry, w: Stream, w': Stream)
    requires Live(replay, items, w.delivered) && LastIs(w.last, w.delivered) && w' == Received(w, e)
    ensures Live(replay, items + [e], w'.delivered) && LastIs(w'.last, w'.delivered)
  {
    RecordsSnoc(replay, items, e);
  }

  /** One more item is kept exactly when it exceeds all that was kept so far. */
  lemma RecordsSnoc(replay: Log, items: Log, e: LogEntry)
    ensures
      var all := replay + Records(items, Bound(replay, 0));
      replay + Records(items + [e], Bound(replay, 0)) == if e.seqNo < Bound(all, 0) then all else all + [e]
  {
    var kept := Records(items, Bound(replay, 0));
    assert (items + [e])[..|items|] == items;
    BoundOfConcat(replay, kept, 0);
    Reassociate(replay, kept, [e]);
  }

  lemma NextKeepsInv(s: State, sub: nat, step: Step)
    requires Inv(s, sub)
    ensures Inv(Next(s, step), sub)
  {
    var w := s.stream;
    match step
    case Commit(e) =>
      AscendingAppend(s.log, e.(seqNo := s.nextSeq));
      CommitInv(s.log, s.channel, w, sub, e.(seqNo := s.nextSeq));
    case Skip(n) =>
    case Broadcast(i) =>
      if i < |s.pending| {
        BroadcastInv(s, sub, s.pending[..i] + s.pending[i + 1..], s.pending[i]);
      }
    case ReadPage =>
      if w.buffer == [] && w.cursor != 0 {
        ReadInv(s, sub);
      }
    case Send =>
      if w.buffer != [] {
        SendInv(s.log, s.channel, w, sub);
      }
    case Receive =>
      if w.buffer == [] && w.cursor == 0 && w.pos < |s.channel| {
        ReceiveInv(s.log, s.channel, w, sub);
      }
    case Hangup =>
  }

  lemma {:induction false} RunKeepsInv(s: State, sub: nat, steps: seq<Step>)
    requires Inv(s, sub)
    ensures Inv(Run(s, steps), sub)
    decreases |steps|
  {
    if steps != [] {
      RunKeepsInv(s, sub, steps[..|steps| - 1]);
      NextKeepsInv(Run(s, steps[..|steps| - 1]), sub, steps[|steps| - 1]);
    }
  }

  // ----- Order

  ghost predicate AtLeast(log: Log, floor: nat) {
    forall i :: 0 <= i < |log| ==> log[i].seqNo >= floor
  }

  lemma AscendingConcat(a: Log, b: Log)
    requires Ascending(a) && Ascending(b) && AtLeast(b, Bound(a, 0))
    ensures Ascending(a + b)
  {
    forall i | 0 <= i < |a| ensures a[i].seqNo < Bound(a, 0) {
      assert i < |a| - 1 ==> a[i].seqNo < a[|a| - 1].seqNo;
    }
  }

  lemma {:induction false} RecordsAscend(items: Log, floor: nat)
    ensures Ascending(Records(items, floor)) && AtLeast(Records(items, floor), floor)
    decreases |items|
  {
    if items != [] {
      var front, e := items[..|items| - 1], items[|items| - 1];
      var kept := Records(front, floor);
      RecordsAscend(front, floor);
      if e.seqNo >= Bound(kept, floor) {
        AscendingAppend(kept, e);
      }
    }
  }

  lemma AscendingPrefix(a: Log, b: Log)
    requires Ascending(a + b)
    ensures Ascending(a)
  {
    forall i, j | 0 <= i < j < |a| ensures a[i].seqNo < a[j].seqNo {
      assert (a + b)[i] == a[i] && (a + b)[j] == a[j];
    }
  }

  lemma DeliveredAscends(s: State, sub: nat)
    requires Inv(s, sub)
    ensures Ascending(s.stream.delivered)
  {
    var w := s.stream;
    if w.cursor != 0 {
      SelectMembers(s.log, w.from, ALL);
      AscendingPrefix(w.delivered + w.buffer, Select(s.log, w.cursor, ALL));
    } else {
      var replay := Replayed(s);
      SelectMembers(s.log[..w.seen], w.from, ALL);
      RecordsAscend(s.channel[sub..w.pos], Bound(replay, 0));
      AscendingConcat(replay, Records(s.channel[sub..w.pos], Bound(replay, 0)));
    }
    AscendingPrefix(w.delivered, w.buffer);
  }

  /** In every interleaving, however broadcasts are ordered, the numbers on a stream are
      strictly increasing, across the end of the replay too. */
  lemma WatchAscends(s: State, from: nat, steps: seq<Step>)
    requires Opened(s, from)
    ensures Ascending(Run(s, steps).stream.delivered)
  {
    OpenInv(s, from);
    RunKeepsInv(s, |s.channel|, steps);
    DeliveredAscends(Run(s, steps), |s.channel|);
  }

  /** Everything on its way to the stream since position `sub`, and all of it that was
      delivered, is in the log. */
  ghost predicate AllStored(s: State, sub: nat) {
    && sub <= s.stream.pos
    && (forall e :: e in s.pending || e in s.stream.buffer || e in s.stream.delivered ==> e in s.log)
    && (forall i :: sub <= i < |s.channel| ==> s.channel[i] in s.log)
  }

  lemma NextKeepsStored(s: State, sub: nat, step: Step)
    requires Ascending(s.log) && AllStored(s, sub)
    ensures AllStored(Next(s, step), sub)
  {
    if step.ReadPage? {
      SelectMembers(s.log, s.stream.cursor, ALL);
    }
  }

  lemma {:induction false} RunKeepsStored(s: State, sub: nat, steps: seq<Step>)
    requires Inv(s, sub) && AllStored(s, sub)
    ensures AllStored(Run(s, steps), sub)
    decreases |steps|
  {
    if steps != [] {
      var front := steps[..|steps| - 1];
      RunKeepsStored(s, sub, front);
      RunKeepsInv(s, sub, front);
      NextKeepsStored(Run(s, front), sub, steps[|steps| - 1]);
    }
  }

  /** And whatever a stream delivers is in the log. */
  lemma WatchDeliversLog(s: State, from: nat, steps: seq<Step>)
    requires Opened(s, from) && forall e :: e in s.pending ==> e in s.log
    ensures forall e :: e in Run(s, steps).stream.delivered ==> e in Run(s, steps).log
  {
    OpenInv(s, from);
    RunKeepsStored(s, |s.channel|, steps);
  }

  // ----- Nothing lost

  lemma AscendingAlso(log: Log, e: LogEntry)
    requires Ascending(log + [e])
    ensures Ascending(log) && Bound(log, 0) <= e.seqNo
  {
    AscendingPrefix(log, [e]);
    assert (log + [e])[|log|] == e;
    assert log != [] ==> (log + [e])[|log| - 1] == log[|log| - 1];
  }

  lemma SelectSnoc(log: Log, e: LogEntry, floor: nat)
    ensures Select(log + [e], floor, ALL)
         == if e.seqNo >= floor then Select(log, floor, ALL) + [e] else Select(log, floor, ALL)
  {
    SelectConcat(log, [e], floor, ALL);
    assert Select([e], floor, ALL) == (if e.seqNo >= floor then [e] else []) + Select([e][1..], floor, ALL);
    assert Select(log, floor, ALL) + [] == Select(log, floor, ALL);
  }

  /** The records are all the items from `floor` on exactly when those come in order. */
  lemma {:induction false} RecordsComplete(items: Log, floor: nat)
    ensures Records(items, floor) == Select(items, floor, ALL) <==> Ascending(Select(items, floor, ALL))
    decreases |items|
  {
    RecordsAscend(items, floor);
    if items != [] && Ascending(Select(items, floor, ALL)) {
      var front, e := items[..|items| - 1], items[|items| - 1];
      var all := Select(front, floor, ALL);
      assert items == front + [e];
      SelectSnoc(front, e, floor);
      RecordsComplete(front, floor);
      if e.seqNo >= floor {
        AscendingAlso(all, e);
      } else {
        BoundAbove(all, front, floor);
      }
    }
  }

  lemma BoundAbove(all: Log, front: Log, floor: nat)
    requires all == Records(front, floor)
    ensures Bound(all, floor) >= floor
  {
    RecordsAscend(front, floor);
    assert all != [] ==> all[|all| - 1].seqNo >= floor;
  }

  /** A live stream has delivered everything that the replay read and that it received since,
      exactly when the broadcasts of what the replay had not covered came in order. */
  lemma NothingLost(s: State, from: nat, steps: seq<Step>)
    requires Opened(s, from) && Run(s, steps).stream.cursor == 0 && Run(s, steps).stream.buffer == []
    ensures
      var t := Run(s, steps);
      && |s.channel| <= t.stream.pos <= |t.channel| && t.stream.seen <= |t.log|
      && var unseen := Select(t.channel[|s.channel|..t.stream.pos], Bound(Replayed(t), 0), ALL);
      t.stream.delivered == Replayed(t) + unseen <==> Ascending(unseen)
  {
    OpenInv(s, from);
    RunKeepsInv(s, |s.channel|, steps);
    var t := Run(s, steps);
    var w, replay := t.stream, Replayed(t);
    var items := t.channel[|s.channel|..w.pos];
    assert w.delivered + w.buffer == w.delivered;
    RecordsComplete(items, Bound(replay, 0));
    SamePrefix(replay, Records(items, Bound(replay, 0)), Select(items, Bound(replay, 0), ALL));
  }

  lemma SamePrefix(a: Log, b: Log, c: Log)
    ensures a + b == a + c <==> b == c
  {
    assert (a + b)[|a|..] == b && (a + c)[|a|..] == c;
  }

  // ----- Falling behind

  lemma {:induction false} EndedIsFinal(s: State, steps: seq<Step>)
    requires s.stream.ended
    ensures Run(s, steps).stream == s.stream
    decreases |steps|
  {
    if steps != [] {
      EndedIsFinal(s, steps[..|steps| - 1]);
    }
  }

  /** A live stream that has fallen behind by more than the channel holds ends at its next
      receive, and delivers nothing more, instead of going on with a gap. */
  lemma {:induction false} LagEnds(s: State, steps: seq<Step>)
    requires s.stream.cursor == 0 && s.stream.buffer == [] && |s.channel| > s.stream.pos + 1024
    ensures
      var t := Run(Next(s, Receive), steps);
      t.stream.ended && t.stream.delivered == s.stream.delivered
  {
    EndedIsFinal(Next(s, Receive), steps);
  }

  /** A client that hangs up gets nothing more. */
  lemma {:induction false} HangupEnds(s: State, steps: seq<Step>)
    ensures Run(Next(s, Hangup), steps).stream.delivered == s.stream.delivered
  {
    EndedIsFinal(Next(s, Hangup), steps);
  }

  // ----- Broadcasts in the opposite order

  lemma RunSnoc(s: State, steps: seq<Step>, step: Step)
    ensures Run(s, steps + [step]) == Next(Run(s, steps), step)
  {
    assert (steps + [step])[..|steps|] == steps;
  }

  lemma RunOne(s: State, step: Step)
    ensures Run(s, [step]) == Next(s, step)
  {
    assert [step][..0] == [];
  }

  lemma RunTwo(s: State, x: Step, y: Step)
    ensures Run(s, [x] + [y]) == Next(Next(s, x), y)
  {
    RunOne(s, x);
    RunSnoc(s, [x], y);
  }

  lemma RunThree(s: State, x: Step, y: Step, z: Step)
    ensures Run(s, [x] + [y] + [z]) == Next(Next(Next(s, x), y), z)
  {
    RunTwo(s, x, y);
    RunSnoc(s, [x] + [y], z);
  }

  /** Two entries are committed in order and broadcast in the opposite order. */
  lemma BroadcastSwapped(s: State, a: LogEntry, b: LogEntry)
    requires s == State([], 0, [], [], Start(0, 0)) && a.seqNo == 0 && b.seqNo == 1
    ensures Run(s, [Commit(a)] + [Commit(b)] + [Broadcast(1)] + [Broadcast(0)])
         == State([a, b], 2, [], [b, a], s.stream)
  {
    var s2 := State([a, b], 2, [a, b], [], s.stream);
    var s3 := State([a, b], 2, [a], [b], s.stream);
    RunThree(s, Commit(a), Commit(b), Broadcast(1));
    RunSnoc(s, [Commit(a)] + [Commit(b)] + [Broadcast(1)], Broadcast(0));
    assert Next(s, Commit(a)) == State([a], 1, [a], [], s.stream);
    assert Next(Next(s, Commit(a)), Commit(b)) == s2;
    assert [a, b][..1] + [a, b][2..] == [a];
    assert Next(s2, Broadcast(1)) == s3;
    assert [a][..0] + [a][1..] == [];
  }

  /** Two appends leave the mutex in order and broadcast in the opposite order: the stream
      receives both entries and delivers only the second. */
  lemma OutOfOrderLoses(a: LogEntry, b: LogEntry)
    requires a.seqNo == 0 && b.seqNo == 1
    ensures
      var steps := [Commit(a)] + [Commit(b)] + [Broadcast(1)] + [Broadcast(0)] + [Receive] + [Receive];
      var t := Run(State([], 0, [], [], Start(0, 0)), steps);
      t.log == [a, b] && t.channel == [b, a] && t.stream.pos == 2 && t.stream.delivered == [b]
  {
    var s := State([], 0, [], [], Start(0, 0));
    var published := [Commit(a)] + [Commit(b)] + [Broadcast(1)] + [Broadcast(0)];
    BroadcastSwapped(s, a, b);
    RunSnoc(s, published, Receive);
    RunSnoc(s, published + [Receive], Receive);
  }
}
