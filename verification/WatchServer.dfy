/** Watch streams of a running server: the appends of the server are the commits that a stream
    sees, so that what is proved of streams holds of the server. */
module WatchServer {
  import opened Hashing
  import opened Storage
  import opened Sequences
  import opened Server
  import W = Watch

  /** The entries of a batch, to be committed one after the other. */
  function Commits(H: Hasher, pairs: seq<(Bytes, Bytes)>, timestamp: int): seq<W.Step> {
    if pairs == [] then []
    else
      var (key, data) := pairs[|pairs| - 1];
      Commits(H, pairs[..|pairs| - 1], timestamp) + [W.Commit(Entry(H, 0, key, data, timestamp))]
  }

  /** What a step of the server is to a stream. A crash ends all streams. */
  function StepsOf(H: Hasher, step: Step): seq<W.Step> {
    match step
    case Append(key, data, ts, written) =>
      if written then [W.Commit(Entry(H, 0, key, data, ts))] else [W.Skip(1)]
    case BatchAppend(pairs, ts, written) =>
      if pairs == [] || |pairs| > MAX_BATCH then []
      else if written then Commits(H, pairs, ts)
      else [W.Skip(|pairs|)]
    case _ => []
  }

  /** The stream's machine has the log and the counter of the server. */
  ghost predicate Agree(w: W.State, store: Store) {
    w.log == store.log && w.nextSeq == store.nextSeq
  }

  /** What new entries of the log are to a stream: they are stored, and wait to be broadcast. */
  function Published(w: W.State, store: Store): W.State
    requires w.log <= store.log
  {
    w.(log := store.log, nextSeq := store.nextSeq, pending := w.pending + store.log[|w.log|..])
  }

  lemma OneCommit(H: Hasher, w: W.State, s: Store, key: Bytes, data: Bytes, timestamp: int)
    requires Good(H, s) && Agree(w, s)
    ensures
      var t := Appended(H, s, key, data, timestamp);
      w.log <= t.log && W.Next(w, W.Commit(Entry(H, 0, key, data, timestamp))) == Published(w, t)
  {
    AppendKeepsGood(H, s, key, data, timestamp);
  }

  lemma {:induction false} BatchCommits(H: Hasher, w: W.State, s: Store, pairs: seq<(Bytes, Bytes)>, timestamp: int)
    requires Good(H, s) && Agree(w, s)
    ensures
      var t := AppendedAll(H, s, pairs, timestamp);
      w.log <= t.log && W.Run(w, Commits(H, pairs, timestamp)) == Published(w, t)
    decreases |pairs|
  {
    if pairs == [] {
      assert w.pending + s.log[|w.log|..] == w.pending;
    } else {
      var n := |pairs| - 1;
      var (key, data) := pairs[n];
      var t := AppendedAll(H, s, pairs[..n], timestamp);
      BatchCommits(H, w, s, pairs[..n], timestamp);
      AppendAllKeepsGood(H, s, pairs[..n], timestamp);
      W.RunSnoc(w, Commits(H, pairs[..n], timestamp), W.Commit(Entry(H, 0, key, data, timestamp)));
      OneCommit(H, Published(w, t), t, key, data, timestamp);
      AppendKeepsGood(H, t, key, data, timestamp);
      PublishedTwice(w, t, Appended(H, t, key, data, timestamp));
    }
  }

  lemma PublishedTwice(w: W.State, s: Store, t: Store)
    requires w.log <= s.log <= t.log
    ensures Published(Published(w, s), t) == Published(w, t)
  {
    var a, b := s.log[|w.log|..], t.log[|s.log|..];
    assert t.log[|w.log|..] == a + b;
    Reassociate(w.pending, a, b);
  }

  /** Every step of the server, other than a crash, is its steps on the stream's machine. */
  lemma StepIsSteps(H: Hasher, s: State, w: W.State, step: Step)
    requires Inv(H, s) && Agree(w, s.store) && !step.Crash?
    ensures
      var t := Next(H, s, step);
      w.log <= t.store.log && W.Run(w, StepsOf(H, step)) == Published(w, t.store)
  {
    match step
    case Append(key, data, ts, written) =>
      if written {
        OneCommit(H, w, s.store, key, data, ts);
        W.RunOne(w, W.Commit(Entry(H, 0, key, data, ts)));
      } else {
        W.RunOne(w, W.Skip(1));
        Unchanged(w);
      }
    case BatchAppend(pairs, ts, written) =>
      BatchCommits(H, w, s.store, pairs, ts);
      W.RunOne(w, W.Skip(|pairs|));
      Unchanged(w);
    case _ =>
      Unchanged(w);
  }

  lemma Unchanged(w: W.State)
    ensures w.pending + w.log[|w.log|..] == w.pending
  {
    assert w.log[|w.log|..] == [];
  }

  // ----- A server and a stream, interleaved

  /** A step of the server, or one of the stream and its broadcasts. */
  datatype Event = Serve(step: Step) | Stream(move: W.Step)

  predicate Proper(e: Event) {
    if e.Serve? then !e.step.Crash? else !e.move.Commit? && !e.move.Skip?
  }

  ghost predicate AllProper(events: seq<Event>) {
    forall i :: 0 <= i < |events| ==> Proper(events[i])
  }

  function ServerSteps(events: seq<Event>): seq<Step> {
    if events == [] then []
    else
      var e := events[|events| - 1];
      ServerSteps(events[..|events| - 1]) + if e.Serve? then [e.step] else []
  }

  function WatchSteps(H: Hasher, events: seq<Event>): seq<W.Step> {
    if events == [] then []
    else
      var e := events[|events| - 1];
      WatchSteps(H, events[..|events| - 1]) + if e.Serve? then StepsOf(H, e.step) else [e.move]
  }

  lemma {:induction false} WatchRunConcat(w: W.State, a: seq<W.Step>, b: seq<W.Step>)
    ensures W.Run(w, a + b) == W.Run(W.Run(w, a), b)
    decreases |b|
  {
    if b == [] {
      assert a + b == a;
    } else {
      var b' := b[..|b| - 1];
      assert (a + b)[..|a + b| - 1] == a + b';
      WatchRunConcat(w, a, b');
    }
  }

  /** In any interleaving of the steps of the server with those of the stream, the log and the
      counter that the stream reads stay those of the server. */
  lemma {:induction false} EventsAgree(H: Hasher, s: State, w: W.State, events: seq<Event>)
    requires Inv(H, s) && Agree(w, s.store) && AllProper(events)
    ensures Inv(H, Run(H, s, ServerSteps(events)))
    ensures Agree(W.Run(w, WatchSteps(H, events)), Run(H, s, ServerSteps(events)).store)
    decreases |events|
  {
    if events != [] {
      var front, e := events[..|events| - 1], events[|events| - 1];
      EventsAgree(H, s, w, front);
      var s', w' := Run(H, s, ServerSteps(front)), W.Run(w, WatchSteps(H, front));
      if e.Serve? {
        RunConcat(H, s, ServerSteps(front), [e.step]);
        RunOne(H, s', e.step);
        NextKeepsInv(H, s', e.step);
        WatchRunConcat(w, WatchSteps(H, front), StepsOf(H, e.step));
        StepIsSteps(H, s', w', e.step);
      } else {
        assert ServerSteps(front) + [] == ServerSteps(front);
        W.RunSnoc(w, WatchSteps(H, front), e.move);
      }
    }
  }

  /** So a stream opened on any server that has run delivers, in every interleaving, entries of
      that server's log in the order of their numbers. */
  lemma ServerWatchAscends(H: Hasher, steps: seq<Step>, w: W.State, from: nat, events: seq<Event>)
    requires
      var s := Run(H, INIT, steps);
      && Agree(w, s.store) && w.stream == W.Start(from, |w.channel|) && AllProper(events)
      && forall e :: e in w.pending ==> e in s.store.log
    ensures
      var t := W.Run(w, WatchSteps(H, events));
      && Ascending(t.stream.delivered)
      && forall e :: e in t.stream.delivered ==> e in Run(H, Run(H, INIT, steps), ServerSteps(events)).store.log
  {
    var s := Run(H, INIT, steps);
    InitIsGood(H);
    RunKeepsInv(H, INIT, steps);
    EventsAgree(H, s, w, events);
    assert W.Opened(w, from);
    W.WatchAscends(w, from, WatchSteps(H, events));
    W.WatchDeliversLog(w, from, WatchSteps(H, events));
  }
}
