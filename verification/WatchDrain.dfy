/** Watch streams make progress: what is stored is replayed to the end, and what is broadcast is
    received, as long as the stream takes its steps. */
module WatchDrain {
  import opened Storage
  import opened Pagination
  import opened Watch
  import opened WatchInOrder

  /** Steps that only the stream itself takes. */
  ghost predicate OwnSteps(steps: seq<Step>) {
    forall i :: 0 <= i < |steps| ==> steps[i] == ReadPage || steps[i] == Send || steps[i] == Receive
  }

  /** The replay is over and all of it has been sent. */
  predicate IsLive(w: Stream) {
    w.cursor == 0 && w.buffer == [] && !w.ended
  }

  lemma {:induction false} RunFirst(s: State, step: Step, steps: seq<Step>)
    ensures Run(s, [step] + steps) == Run(Next(s, step), steps)
    decreases |steps|
  {
    if steps == [] {
      assert [step] + steps == [step];
      RunOne(s, step);
    } else {
      var front := steps[..|steps| - 1];
      assert ([step] + steps)[..|steps|] == [step] + front;
      RunFirst(s, step, front);
    }
  }

  /** How much a stream has still to replay. */
  function Ahead(s: State): nat {
    if s.stream.cursor == 0 then 0 else 1 + |Select(s.log, s.stream.cursor, ALL)|
  }

  lemma ReadAdvances(s: State)
    requires Ascending(s.log) && !s.stream.ended && s.stream.buffer == [] && s.stream.cursor != 0
    ensures Ahead(Next(s, ReadPage)) < Ahead(s)
  {
    PageSplits(s.log, s.log, s.stream.cursor, ALL, PAGE);
  }

  /** From any state of a stream that has not ended, its own steps finish the replay, and change
      nothing else. A replay that had pages to read has then seen all of the log. */
  lemma {:induction false} ReplayEnds(s: State, sub: nat) returns (steps: seq<Step>, t: State)
    requires Inv(s, sub) && !s.stream.ended
    ensures OwnSteps(steps) && t == Run(s, steps) && Inv(t, sub) && IsLive(t.stream)
    ensures t == s.(stream := t.stream) && t.stream.from == s.stream.from && t.stream.pos == s.stream.pos
    ensures t.stream.seen == if s.stream.cursor != 0 then |s.log| else s.stream.seen
    decreases Ahead(s), |s.stream.buffer|
  {
    var w := s.stream;
    if w.buffer == [] && w.cursor == 0 {
      steps, t := [], s;
    } else {
      var step := if w.buffer != [] then Send else ReadPage;
      if step == ReadPage {
        ReadAdvances(s);
      }
      NextKeepsInv(s, sub, step);
      var rest, u := ReplayEnds(Next(s, step), sub);
      RunFirst(s, step, rest);
      steps, t := [step] + rest, u;
    }
  }

  /** Replay is complete: a stream that is opened from a number on delivers, by its own steps, all
      stored entries from that number on, in order, before anything else. */
  lemma ReplayDeliversAll(s: State, from: nat) returns (steps: seq<Step>)
    requires Opened(s, from) && from > 0
    ensures OwnSteps(steps) && IsLive(Run(s, steps).stream)
    ensures Run(s, steps).log == s.log && Run(s, steps).stream.delivered == Select(s.log, from, ALL)
  {
    OpenInv(s, from);
    var steps', t := ReplayEnds(s, |s.channel|);
    steps := steps';
    var w, all := t.stream, Select(s.log, from, ALL);
    assert s.log[..|s.log|] == s.log;
    assert t.channel[|s.channel|..w.pos] == [];
    assert w.delivered + w.buffer == w.delivered && all + [] == all;
  }

  /** A live stream that is at most 1024 items behind does not end at a receive: it takes the
      next item. */
  lemma ReceiveGoesOn(s: State)
    requires IsLive(s.stream) && s.stream.pos < |s.channel| <= s.stream.pos + 1024
    ensures
      var t := Next(s, Receive);
      IsLive(t.stream) && t.stream.pos == s.stream.pos + 1 && t == s.(stream := t.stream)
  {
  }

  /** So by its own steps it receives all that has been broadcast. */
  lemma {:induction false} ReceivesAll(s: State, sub: nat) returns (steps: seq<Step>, t: State)
    requires Inv(s, sub) && IsLive(s.stream) && |s.channel| <= s.stream.pos + 1024
    ensures OwnSteps(steps) && t == Run(s, steps) && Inv(t, sub) && IsLive(t.stream)
    ensures t == s.(stream := t.stream) && t.stream.pos == |s.channel|
    decreases |s.channel| - s.stream.pos
  {
    if s.stream.pos == |s.channel| {
      steps, t := [], s;
    } else {
      ReceiveGoesOn(s);
      NextKeepsInv(s, sub, Receive);
      var rest, u := ReceivesAll(Next(s, Receive), sub);
      RunFirst(s, Receive, rest);
      steps, t := [Receive] + rest, u;
    }
  }

  lemma OwnConcat(a: seq<Step>, b: seq<Step>)
    requires OwnSteps(a) && OwnSteps(b)
    ensures OwnSteps(a + b)
  {
  }

  lemma {:induction false} RunBoth(s: State, a: seq<Step>, b: seq<Step>)
    ensures Run(s, a + b) == Run(Run(s, a), b)
    decreases |b|
  {
    if b == [] {
      assert a + b == a;
    } else {
      var front := b[..|b| - 1];
      assert (a + b)[..|a + b| - 1] == a + front;
      RunBoth(s, a, front);
    }
  }

  /** From any state of a stream that has not ended and is at most 1024 items behind, its own
      steps finish the replay and receive all that has been broadcast. */
  lemma CatchesUp(s: State, sub: nat) returns (steps: seq<Step>)
    requires Inv(s, sub) && !s.stream.ended && |s.channel| <= s.stream.pos + 1024
    ensures
      var t := Run(s, steps);
      OwnSteps(steps) && Inv(t, sub) && IsLive(t.stream) && t.stream.pos == |t.channel| && t == s.(stream := t.stream)
  {
    var a, t := ReplayEnds(s, sub);
    var b, u := ReceivesAll(t, sub);
    RunBoth(s, a, b);
    OwnConcat(a, b);
    steps := a + b;
  }

  lemma OwnIsInOrder(a: seq<Step>, b: seq<Step>)
    requires AllInOrder(a) && OwnSteps(b)
    ensures AllInOrder(a + b)
  {
    forall i | 0 <= i < |a + b| ensures InOrder((a + b)[i]) {
      assert i < |a| ==> (a + b)[i] == a[i];
      assert i >= |a| ==> (a + b)[i] == b[i - |a|];
    }
  }

  /** Delivery. A stream that was opened in a ready state, has come through any run with
      broadcasts in commit order, has not ended and is at most 1024 items behind, delivers by
      its own steps all that it promises, but for entries that wait to be broadcast. */
  lemma WatchDelivers(s: State, from: nat, steps: seq<Step>) returns (more: seq<Step>)
    requires Opened(s, from) && EndsPending(s) && Ready(s, from) && AllInOrder(steps)
    requires
      var t := Run(s, steps);
      !t.stream.ended && |t.channel| <= t.stream.pos + 1024
    ensures
      var t := Run(s, steps);
      var u := Run(t, more);
      && OwnSteps(more) && u == t.(stream := u.stream) && !u.stream.ended && |s.log| <= |u.log|
      && var all := Promised(u.log, |s.log|, from);
      && u.stream.delivered <= all
      && |all| <= |u.stream.delivered| + |u.pending|
      && (u.pending == [] ==> u.stream.delivered == all)
  {
    OpenInv(s, from);
    RunKeepsInv(s, |s.channel|, steps);
    more := CatchesUp(Run(s, steps), |s.channel|);
    RunBoth(s, steps, more);
    OwnIsInOrder(steps, more);
    CaughtUp(s, from, steps + more);
  }

  /** What a stream that is up to date has delivered. */
  lemma CaughtUp(s: State, from: nat, steps: seq<Step>)
    requires Opened(s, from) && EndsPending(s) && Ready(s, from) && AllInOrder(steps)
    requires
      var u := Run(s, steps);
      IsLive(u.stream) && u.stream.pos == |u.channel|
    ensures
      var u := Run(s, steps);
      && |s.log| <= |u.log|
      && var all := Promised(u.log, |s.log|, from);
      && u.stream.delivered <= all && |all| <= |u.stream.delivered| + |u.pending|
      && (u.pending == [] ==> u.stream.delivered == all)
  {
    var u := InOrderRun(s, from, steps);
    var next := FirstPending(s);
    StretchOf(u, |s.channel|, next, |s.log|);
    PromisedStart(s, u, |s.channel|);
    StretchFromFirst(u, |s.channel|, next);
    Reaches(u, |s.channel|, next);
    PrefixOfSize(u.stream.delivered, Promised(u.log, |s.log|, from));
  }

  lemma Reaches(u: State, sub: nat, next: nat)
    requires SendsStretch(u, sub, next) && Queued(u, sub, next) && FirstIndex(u, next) <= |u.log|
    requires IsLive(u.stream) && u.stream.pos == |u.channel|
    ensures |u.log[FirstIndex(u, next)..]| <= |u.stream.delivered| + |u.pending|
  {
    assert |u.log[next..]| == |u.channel[sub..]| + |u.pending|;
    assert u.stream.delivered + u.stream.buffer == u.stream.delivered;
  }

  lemma PrefixOfSize(a: Log, b: Log)
    requires a <= b
    ensures |b| <= |a| ==> a == b
  {
  }
}
