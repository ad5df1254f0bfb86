/** The verifiers of the Rust SDK, which split by doubling instead of counting zeros. */
module Sdk {
  import opened Wrappers
  import opened Hashing
  import opened Powers
  import opened Consistency

  const TWO_63: nat := TWO_64 / 2

  /** What a call comes to: a value, or 64-bit arithmetic that overflows, where the code panics
      or, compiled without that check, does not return. */
  datatype Outcome<T> = Done(value: T) | Overflow

  /** The largest power of two below `n`, by doubling. Above 2^63 the next double leaves the
      range of a 64-bit word before the loop can end. */
  method SplitByDoubling(n: nat) returns (r: Outcome<nat>)
    requires 1 < n < TWO_64
    ensures r == if n <= TWO_63 then Done(Split(n)) else Overflow
  {
    var p := 1;
    ghost var e := 0;
    Pow64();
    while true
      invariant p == Pow2(e) && p < n && p <= TWO_63
      decreases n - p
    {
      if p * 2 >= TWO_64 {
        return Overflow;
      }
      if p * 2 >= n {
        break;
      }
      DoublesFit(e);
      p := p * 2;
      e := e + 1;
    }
    SplitUnique(n, e);
    DoublesFit(e);
    r := Done(p);
  }

  /** A power of two that can be doubled once in 64 bits is at most 2^62. */
  lemma DoublesFit(e: nat)
    requires Pow2(e) * 2 < TWO_64
    ensures Pow2(e) * 2 <= TWO_63
  {
    Pow64();
    if e >= 63 {
      Pow2Monotone(63, e);
    } else {
      Pow2Monotone(e + 1, 63);
    }
  }

  /** The same recursion as in the core, over the SDK's own split. */
  method VerifySubproof(H: Hasher, m: nat, n: nat, oldRoot: Hash, next: Cursor, b: bool)
    returns (r: Outcome<Option<(Hash, Hash)>>)
    requires 0 < m <= n < TWO_64 && next.Valid()
    modifies next
    ensures next.Valid()
    ensures r.Overflow? <==> m < n && n > TWO_63
    ensures r.Done? ==> Matches(Rebuild(H, m, n, oldRoot, old(next.Rest()), b), r.value, next.Rest())
    decreases n
  {
    if m == n {
      if b {
        return Done(Some((oldRoot, oldRoot)));
      }
      var h := next.Next();
      return Done(if h.None? then None else Some((h.value, h.value)));
    }
    var split := SplitByDoubling(n);
    if split.Overflow? {
      return Overflow;
    }
    var sp := split.value;
    if m <= sp {
      r := VerifySubproof(H, m, sp, oldRoot, next, b);
      if r.value.None? {
        return;
      }
      var rh := next.Next();
      var (lo, ln) := r.value.value;
      r := Done(if rh.None? then None else Some((lo, H.Node(ln, rh.value))));
    } else {
      r := VerifySubproof(H, m - sp, n - sp, oldRoot, next, false);
      if r.value.None? {
        return;
      }
      var lh := next.Next();
      var (ro, rn) := r.value.value;
      r := Done(if lh.None? then None else Some((H.Node(lh.value, ro), H.Node(lh.value, rn))));
    }
  }

  /** The verdict of the core verifier on all 64-bit sizes, but that the call overflows exactly
      when it has to split a new size above 2^63. */
  method VerifyConsistency(H: Hasher, oldSize: nat, newSize: nat, proof: seq<Hash>, oldRoot: Hash, newRoot: Hash)
    returns (r: Outcome<bool>)
    requires oldSize < TWO_64 && newSize < TWO_64
    ensures r.Overflow? <==> 0 < oldSize < newSize && newSize > TWO_63
    ensures r.Done? ==> (r.value <==> Accepts(H, oldSize, newSize, proof, oldRoot, newRoot))
  {
    if oldSize == newSize {
      return Done(proof == [] && oldRoot == newRoot);
    }
    if oldSize == 0 || oldSize > newSize {
      return Done(false);
    }
    var next := new Cursor(proof);
    var rebuilt := VerifySubproof(H, oldSize, newSize, oldRoot, next, true);
    if rebuilt.Overflow? {
      return Overflow;
    }
    if rebuilt.value.None? {
      return Done(false);
    }
    var (computedOld, computedNew) := rebuilt.value.value;
    assert next.pos == |next.proof| <==> next.Rest() == [];
    r := Done(next.pos == |next.proof| && computedOld == oldRoot && computedNew == newRoot);
  }
}
