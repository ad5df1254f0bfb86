/** The token bucket that limits appends, over real time and real tokens. */
module RateLimit {
  /** The tokens that time adds. */
  function Earned(elapsed: real, rate: real): real {
    elapsed * rate
  }

  datatype Level = Level(tokens: real, capacity: real, rate: real, last: real) {

    ghost predicate Valid() {
      0.0 <= tokens <= capacity && 0.0 <= rate
    }

    /** A clock that is set back counts as no time at all. */
    function Elapsed(now: real): real {
      if now >= last then now - last else 0.0
    }

    function Refilled(now: real): Level {
      var sum := tokens + Earned(Elapsed(now), rate);
      this.(tokens := if sum < capacity then sum else capacity, last := now)
    }

    /** What a refill cannot add because the bucket is full. */
    function Spilled(now: real): real {
      tokens + Earned(Elapsed(now), rate) - Refilled(now).tokens
    }
  }

  /** A request for `n` tokens at time `now`. */
  datatype Request = Request(now: real, n: nat)

  predicate Grants(b: Level, r: Request) {
    b.Refilled(r.now).tokens >= r.n as real
  }

  function Serve(b: Level, r: Request): Level {
    var full := b.Refilled(r.now);
    if Grants(b, r) then full.(tokens := full.tokens - r.n as real) else full
  }

  function ServeAll(b: Level, rs: seq<Request>): Level {
    if rs == [] then b else Serve(ServeAll(b, rs[..|rs| - 1]), rs[|rs| - 1])
  }

  /** All tokens granted to a list of requests. */
  function Granted(b: Level, rs: seq<Request>): nat {
    if rs == [] then 0
    else
      var front, r := rs[..|rs| - 1], rs[|rs| - 1];
      Granted(b, front) + if Grants(ServeAll(b, front), r) then r.n else 0
  }

  function AllSpilled(b: Level, rs: seq<Request>): real {
    if rs == [] then 0.0
    else
      var front, r := rs[..|rs| - 1], rs[|rs| - 1];
      AllSpilled(b, front) + ServeAll(b, front).Spilled(r.now)
  }

  /** The clock does not go back, from `start` on. */
  ghost predicate Forward(start: real, rs: seq<Request>) {
    && (forall i :: 0 <= i < |rs| ==> start <= rs[i].now)
    && forall i, j :: 0 <= i < j < |rs| ==> rs[i].now <= rs[j].now
  }

  /** From `start` to the last request it takes `length`. */
  ghost predicate Spans(start: real, rs: seq<Request>, length: real) {
    length == if rs == [] then 0.0 else rs[|rs| - 1].now - start
  }

  lemma RefillKeepsValid(b: Level, now: real)
    requires b.Valid()
    ensures b.Refilled(now).Valid() && b.Spilled(now) >= 0.0 && b.tokens <= b.Refilled(now).tokens
  {
    assert Earned(b.Elapsed(now), b.rate) >= 0.0;
  }

  /** However the clock runs, the tokens stay between zero and the capacity. */
  lemma {:induction false} AlwaysWithinCapacity(b: Level, rs: seq<Request>)
    requires b.Valid()
    ensures ServeAll(b, rs).Valid() && AllSpilled(b, rs) >= 0.0
    ensures ServeAll(b, rs).capacity == b.capacity && ServeAll(b, rs).rate == b.rate
    decreases |rs|
  {
    if rs != [] {
      var front, r := rs[..|rs| - 1], rs[|rs| - 1];
      AlwaysWithinCapacity(b, front);
      RefillKeepsValid(ServeAll(b, front), r.now);
    }
  }

  lemma Distributes(a: real, b: real, sum: real, c: real)
    requires sum == a + b
    ensures Earned(a, c) + Earned(b, c) == Earned(sum, c)
  {
  }

  /** One request conserves tokens. */
  lemma ServeConserves(b: Level, r: Request, added: real)
    requires b.last <= r.now && added == Earned(r.now - b.last, b.rate)
    ensures b.tokens + added
         == (if Grants(b, r) then r.n as real else 0.0) + Serve(b, r).tokens + b.Spilled(r.now)
  {
  }

  lemma {:induction false} EarnedConserved(b: Level, rs: seq<Request>, elapsed: real)
    requires Forward(b.last, rs) && Spans(b.last, rs, elapsed)
    ensures ServeAll(b, rs).rate == b.rate
    ensures ServeAll(b, rs).last == if rs == [] then b.last else rs[|rs| - 1].now
    ensures b.tokens + Earned(elapsed, b.rate)
         == Granted(b, rs) as real + ServeAll(b, rs).tokens + AllSpilled(b, rs)
    decreases |rs|
  {
    if rs != [] {
      var front, r := rs[..|rs| - 1], rs[|rs| - 1];
      var before := if front == [] then 0.0 else front[|front| - 1].now - b.last;
      EarnedConserved(b, front, before);
      var t := ServeAll(b, front);
      ServeConserves(t, r, Earned(r.now - t.last, t.rate));
      Distributes(before, r.now - t.last, elapsed, b.rate);
    }
  }

  /** Tokens are conserved: what was there and what the rate has added in the time that passed
      is what was granted, what is left, and what was spilled. */
  lemma {:induction false} TokensConserved(b: Level, rs: seq<Request>, elapsed: real) returns (added: real)
    requires Forward(b.last, rs) && Spans(b.last, rs, elapsed)
    ensures added == elapsed * b.rate
    ensures b.tokens + added == Granted(b, rs) as real + ServeAll(b, rs).tokens + AllSpilled(b, rs)
  {
    added := elapsed * b.rate;
    AddedConserved(b, rs, elapsed, added);
  }

  lemma {:induction false} AddedConserved(b: Level, rs: seq<Request>, elapsed: real, added: real)
    requires Forward(b.last, rs) && Spans(b.last, rs, elapsed) && added == Earned(elapsed, b.rate)
    ensures b.tokens + added == Granted(b, rs) as real + ServeAll(b, rs).tokens + AllSpilled(b, rs)
  {
    EarnedConserved(b, rs, elapsed);
  }

  lemma EarnedIsProduct(elapsed: real, rate: real, base: real, total: real)
    ensures base + Earned(elapsed, rate) == total ==> base + elapsed * rate == total
    ensures total <= base + Earned(elapsed, rate) ==> total <= base + elapsed * rate
    ensures elapsed * rate >= base ==> Earned(elapsed, rate) >= base
  {
  }

  /** And tokens are only spilled into a full bucket. */
  lemma SpillsWhenFull(b: Level, now: real)
    requires b.Valid()
    ensures b.Spilled(now) >= 0.0 && (b.Spilled(now) > 0.0 ==> b.Refilled(now).tokens == b.capacity)
  {
    RefillKeepsValid(b, now);
  }

  /** The rate bound: in any window of any run, from the first request in it to the last, no
      more is granted than the capacity and what the rate adds in the length of the window. */
  lemma {:induction false} WindowBound(b: Level, before: seq<Request>, window: seq<Request>, length: real)
    requires b.Valid() && Forward(b.last, before + window) && window != []
    requires Spans(window[0].now, window, length)
    ensures Granted(ServeAll(b, before), window) as real <= b.capacity + length * b.rate
  {
    assert Earned(length, b.rate) == length * b.rate;
    assert Granted(ServeAll(b, before), window) as real <= b.capacity + Earned(length, b.rate) by {
      AlwaysWithinCapacity(b, before);
      ForwardParts(b.last, before, window);
      LastServed(b, before);
      WindowFrom(ServeAll(b, before), window, length);
    }
  }

  lemma {:induction false} LastServed(b: Level, rs: seq<Request>)
    ensures ServeAll(b, rs).last == if rs == [] then b.last else rs[|rs| - 1].now
  {
  }

  lemma ForwardParts(start: real, before: seq<Request>, window: seq<Request>)
    requires Forward(start, before + window) && window != []
    ensures Forward(start, before) && Forward(window[0].now, window)
    ensures Forward(if before == [] then start else before[|before| - 1].now, window)
  {
    var all := before + window;
    forall i | 0 <= i < |before| ensures start <= before[i].now {
      assert all[i] == before[i];
    }
    forall i, j | 0 <= i < j < |before| ensures before[i].now <= before[j].now {
      assert all[i] == before[i] && all[j] == before[j];
    }
    forall i | 0 <= i < |window|
      ensures start <= window[i].now && (before != [] ==> before[|before| - 1].now <= window[i].now)
    {
      assert all[|before| + i] == window[i];
      assert before != [] ==> all[|before| - 1] == before[|before| - 1];
    }
    forall i, j | 0 <= i < j < |window| ensures window[i].now <= window[j].now {
      assert all[|before| + i] == window[i] && all[|before| + j] == window[j];
    }
  }

  /** Refilling twice is refilling once. */
  lemma RefillTwice(b: Level, mid: real, now: real)
    requires b.Valid() && b.last <= mid <= now
    ensures b.Refilled(mid).Refilled(now) == b.Refilled(now)
  {
    RefillKeepsValid(b, mid);
    Distributes(mid - b.last, now - mid, now - b.last, b.rate);
    assert Earned(now - mid, b.rate) >= 0.0;
  }

  /** Refilling ahead of a run changes nothing that it decides. */
  lemma {:induction false} RefillFirst(b: Level, mid: real, rs: seq<Request>)
    requires b.Valid() && rs != [] && b.last <= mid && Forward(mid, rs)
    ensures ServeAll(b.Refilled(mid), rs) == ServeAll(b, rs)
    ensures Granted(b.Refilled(mid), rs) == Granted(b, rs)
    decreases |rs|
  {
    var front := rs[..|rs| - 1];
    if front == [] {
      RefillTwice(b, mid, rs[0].now);
    } else {
      RefillFirst(b, mid, front);
    }
  }

  /** A refusal spends nothing: every later request fares as if it had not been made. */
  lemma RefusalSpendsNothing(b: Level, r: Request, rs: seq<Request>)
    requires b.Valid() && b.last <= r.now && !Grants(b, r) && rs != [] && Forward(r.now, rs)
    ensures ServeAll(Serve(b, r), rs) == ServeAll(b, rs)
    ensures Granted(Serve(b, r), rs) == Granted(b, rs)
  {
    RefillFirst(b, r.now, rs);
  }

  lemma {:induction false} WindowFrom(b: Level, window: seq<Request>, length: real)
    requires b.Valid() && window != [] && Forward(b.last, window) && Spans(window[0].now, window, length)
    ensures Granted(b, window) as real <= b.capacity + Earned(length, b.rate)
  {
    RefillKeepsValid(b, window[0].now);
    RefillFirst(b, window[0].now, window);
    GrantedFrom(b.Refilled(window[0].now), window, length);
  }

  lemma {:induction false} GrantedFrom(b: Level, window: seq<Request>, length: real)
    requires b.Valid() && window != [] && Forward(b.last, window) && Spans(b.last, window, length)
    ensures Granted(b, window) as real <= b.capacity + Earned(length, b.rate)
  {
    EarnedConserved(b, window, length);
    AlwaysWithinCapacity(b, window);
  }

  /** A request for more than the capacity is refused in every state of every run. */
  lemma OversizedRefused(b: Level, rs: seq<Request>, r: Request)
    requires b.Valid() && r.n as real > b.capacity
    ensures !Grants(ServeAll(b, rs), r)
  {
    AlwaysWithinCapacity(b, rs);
  }

  /** What decides a request: it is within the capacity, and what was left and what the rate has
      added since the last request are enough. */
  lemma GrantsExactly(b: Level, r: Request)
    requires r.now >= b.last
    ensures Grants(b, r) <==> r.n as real <= b.capacity && b.tokens + (r.now - b.last) * b.rate >= r.n as real
  {
  }

  /** In any state of any run, a request within the capacity is granted after waiting as long as
      the rate takes to add its tokens. */
  lemma {:induction false} GrantedInTime(b: Level, rs: seq<Request>, r: Request)
    requires b.Valid() && r.n as real <= b.capacity
    requires r.now >= ServeAll(b, rs).last && (r.now - ServeAll(b, rs).last) * b.rate >= r.n as real
    ensures Grants(ServeAll(b, rs), r)
  {
    AlwaysWithinCapacity(b, rs);
    EarnedIsProduct(r.now - ServeAll(b, rs).last, b.rate, r.n as real, 0.0);
    EnoughTime(ServeAll(b, rs), r, Earned(r.now - ServeAll(b, rs).last, b.rate));
  }

  lemma EnoughTime(b: Level, r: Request, added: real)
    requires b.Valid() && r.n as real <= b.capacity && r.now >= b.last
    requires added == Earned(r.now - b.last, b.rate) && added >= r.n as real
    ensures Grants(b, r)
  {
  }

  /** The bucket behind its mutex. */
  class Bucket {
    var tokens: real
    var capacity: real
    var rate: real
    var last: real

    function State(): Level
      reads this
    {
      Level(tokens, capacity, rate, last)
    }

    constructor (ratePerSec: nat, now: real)
      ensures State() == Level(ratePerSec as real, ratePerSec as real, ratePerSec as real, now)
      ensures State().Valid()
    {
      tokens, capacity, rate, last := ratePerSec as real, ratePerSec as real, ratePerSec as real, now;
    }

    method TryConsume(now: real) returns (ok: bool)
      requires State().Valid()
      modifies this
      ensures State().Valid() && State() == Serve(old(State()), Request(now, 1))
      ensures ok <==> Grants(old(State()), Request(now, 1))
      ensures last == now && capacity == old(capacity) && rate == old(rate)
    {
      RefillKeepsValid(State(), now);
      var elapsed := if now >= last then now - last else 0.0;
      var sum := tokens + elapsed * rate;
      tokens := if sum < capacity then sum else capacity;
      last := now;
      ok := tokens >= 1.0;
      if ok {
        tokens := tokens - 1.0;
      }
    }

    method TryConsumeN(now: real, n: nat) returns (ok: bool)
      requires State().Valid()
      modifies this
      ensures State().Valid() && State() == Serve(old(State()), Request(now, n))
      ensures ok <==> Grants(old(State()), Request(now, n))
      ensures last == now && capacity == old(capacity) && rate == old(rate)
    {
      RefillKeepsValid(State(), now);
      var elapsed := if now >= last then now - last else 0.0;
      var sum := tokens + elapsed * rate;
      tokens := if sum < capacity then sum else capacity;
      last := now;
      ok := tokens >= n as real;
      if ok {
        tokens := tokens - n as real;
      }
    }
  }
}
