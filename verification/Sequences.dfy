/** Facts about sequences of anything. */
module Sequences {
  lemma Reassociate<T>(a: seq<T>, b: seq<T>, c: seq<T>)
    ensures a + (b + c) == (a + b) + c
  {
  }

  lemma ThreeParts<T>(s: seq<T>, i: nat, j: nat)
    requires i <= j <= |s|
    ensures s == s[..i] + (s[i..j] + s[j..])
  {
  }

  lemma Middle<T>(a: seq<T>, b: seq<T>, c: seq<T>)
    ensures (a + (b + c))[|a|..|a| + |b|] == b
  {
  }
}
