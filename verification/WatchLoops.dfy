/** The two loops of a watch stream as the code runs them. */
module WatchLoops {
  import opened Wrappers
  import opened Sequences
  import opened Storage
  import opened Pagination
  import opened Watch

  /** The replay loop: page after page until there is no cursor. `logs[i]` is what the log is
      when page `i` is read, and the list ends where the replay is cut off, if it is. */
  method ReplayLoop(logs: seq<Log>, from: nat) returns (sent: Log, last: Option<nat>, cursor: nat)
    requires logs != [] && forall i :: 0 <= i < |logs| ==> Ascending(logs[i])
    ensures
      var w := Walk(logs, from, ALL, PAGE);
      sent == w.entries && cursor == w.next
    ensures last == if sent == [] then None else Some(sent[|sent| - 1].seqNo)
  {
    sent, last, cursor := [], None, from;
    var k := 0;
    ghost var w := Walk(logs, from, ALL, PAGE);
    assert logs[0..] == logs && [] + w.entries == w.entries;
    while true
      invariant 0 <= k < |logs|
      invariant last == if sent == [] then None else Some(sent[|sent| - 1].seqNo)
      invariant
        var rest := Walk(logs[k..], cursor, ALL, PAGE);
        w.entries == sent + rest.entries && w.next == rest.next
      decreases |logs| - k
    {
      var page := RangePage(logs[k], cursor, 0, PAGE);
      WalkOn(logs, k, cursor, sent);
      sent, last := SendPage(sent, last, page.entries);
      cursor, k := page.next, k + 1;
      if page.next == 0 || k == |logs| {
        return;
      }
    }
  }

  lemma WalkOn(logs: seq<Log>, k: nat, cursor: nat, sent: Log)
    requires k < |logs|
    ensures
      var page, w := PageOf(logs[k], cursor, ALL, PAGE), Walk(logs[k..], cursor, ALL, PAGE);
      if page.next == 0 || k + 1 == |logs| then sent + w.entries == sent + page.entries && w.next == page.next
      else
        var rest := Walk(logs[k + 1..], page.next, ALL, PAGE);
        sent + w.entries == (sent + page.entries) + rest.entries && w.next == rest.next
  {
    var page := PageOf(logs[k], cursor, ALL, PAGE);
    assert logs[k..][1..] == logs[k + 1..];
    if page.next != 0 && k + 1 < |logs| {
      Reassociate(sent, page.entries, Walk(logs[k + 1..], page.next, ALL, PAGE).entries);
    }
  }

  /** Sends the entries of one page, one by one. */
  method SendPage(before: Log, lastBefore: Option<nat>, entries: Log) returns (sent: Log, last: Option<nat>)
    requires lastBefore == if before == [] then None else Some(before[|before| - 1].seqNo)
    ensures sent == before + entries
    ensures last == if sent == [] then None else Some(sent[|sent| - 1].seqNo)
  {
    sent, last := before, lastBefore;
    for i := 0 to |entries|
      invariant sent == before + entries[..i]
      invariant last == if sent == [] then None else Some(sent[|sent| - 1].seqNo)
    {
      sent := sent + [entries[i]];
      last := Some(entries[i].seqNo);
    }
  }

  /** The live loop over the items received before the stream ends. */
  method LiveLoop(items: Log, last: Option<nat>) returns (sent: Log)
    ensures sent == Records(items, if last.None? then 0 else last.value + 1)
    ensures Ascending(sent)
  {
    sent := [];
    var lastSent := last;
    ghost var floor := if last.None? then 0 else last.value + 1;
    for i := 0 to |items|
      invariant sent == Records(items[..i], floor)
      invariant Bound(sent, floor) == if lastSent.None? then 0 else lastSent.value + 1
    {
      var e := items[i];
      assert items[..i + 1][..i] == items[..i];
      if lastSent.Some? && e.seqNo <= lastSent.value {
        continue;
      }
      lastSent := Some(e.seqNo);
      sent := sent + [e];
    }
    assert items[..|items|] == items;
    RecordsAscend(items, floor);
  }
}
