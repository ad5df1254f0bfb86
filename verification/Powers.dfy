/** Powers of two and the split point of a Merkle tree. */
module Powers {

  function Pow2(e: nat): (p: nat)
    ensures p > 0
  {
    if e == 0 then 1 else 2 * Pow2(e - 1)
  }

  /** One more than the largest 64-bit word. */
  const TWO_64: nat := 0x1_0000_0000_0000_0000

  lemma {:induction false} Pow2Add(a: nat, b: nat)
    ensures Pow2(a + b) == Pow2(a) * Pow2(b)
  {
    if b > 0 {
      Pow2Add(a, b - 1);
      DoubleFactor(Pow2(a), Pow2(b - 1));
    }
  }

  lemma DoubleFactor(i: nat, p: nat)
    ensures i * (2 * p) == 2 * (i * p)
  {
  }

  lemma Pow64()
    ensures Pow2(64) == TWO_64 && Pow2(63) == TWO_64 / 2
  {
    Pow16();
    Pow2Add(16, 16);
    Pow2Add(32, 32);
    assert Pow2(64) == 2 * Pow2(63);
  }

  lemma Pow16()
    ensures Pow2(16) == 0x1_0000
  {
    assert Pow2(2) == 2 * Pow2(1) && Pow2(4) == 2 * Pow2(3);
    Pow2Add(4, 4);
    Pow2Add(8, 8);
  }

  lemma {:induction false} Pow2Monotone(a: nat, b: nat)
    requires a <= b
    ensures Pow2(a) <= Pow2(b)
    decreases b - a
  {
    if a < b {
      Pow2Monotone(a, b - 1);
    }
  }

  /** `n` shifted right by `h` bits; its lowest bit is bit `h` of `n`. */
  function Shr(n: nat, h: nat): nat {
    if h == 0 then n else Shr(n, h - 1) / 2
  }

  /** `i` shifted left by `h` bits: the first leaf of block `i` of height `h`. */
  function Shl(i: nat, h: nat): nat {
    if h == 0 then i else 2 * Shl(i, h - 1)
  }

  lemma {:induction false} ShlIsMul(i: nat, h: nat)
    ensures Shl(i, h) == i * Pow2(h)
  {
    if h > 0 {
      ShlIsMul(i, h - 1);
      DoubleFactor(i, Pow2(h - 1));
    }
  }

  /** Block `i` of height `h` fits below `n` exactly when `i` is below `n` shifted. */
  lemma {:induction false} ShrShl(n: nat, h: nat, i: nat)
    ensures i < Shr(n, h) <==> Shl(i + 1, h) <= n
  {
    if h > 0 {
      ShrShl(n, h - 1, 2 * i + 1);
      ShlDouble(i + 1, h - 1);
    }
  }

  lemma {:induction false} ShlDouble(i: nat, h: nat)
    ensures Shl(2 * i, h) == Shl(i, h + 1)
  {
    if h > 0 {
      ShlDouble(i, h - 1);
    }
  }

  /** The number of bits of `n` up to and including its highest one bit. */
  function BitLength(n: nat): nat {
    if n == 0 then 0 else 1 + BitLength(n / 2)
  }

  lemma {:induction false} ShrHalf(n: nat, h: nat)
    ensures Shr(n / 2, h) == Shr(n, h + 1)
  {
    if h == 0 {
      assert Shr(n, 1) == Shr(n, 0) / 2;
    } else {
      ShrHalf(n, h - 1);
    }
  }

  lemma {:induction false} ShrPositive(n: nat, h: nat)
    ensures Shr(n, h) > 0 <==> h < BitLength(n)
    decreases n, h
  {
    if n == 0 {
      if h > 0 {
        ShrPositive(n, h - 1);
      }
    } else if h > 0 {
      ShrHalf(n, h - 1);
      ShrPositive(n / 2, h - 1);
    }
  }

  lemma {:induction false} BitLengthBound(n: nat, e: nat)
    ensures n < Pow2(e) <==> BitLength(n) <= e
    decreases n
  {
    if n > 0 && e > 0 {
      BitLengthBound(n / 2, e - 1);
    }
  }

  /** The split point of a tree with `n` leaves; `SplitIsLargestPower` says what it is. */
  function Split(n: nat): (k: nat)
    requires n > 1
    ensures 0 < k < n <= 2 * k
  {
    if n == 2 then 1 else 2 * Split((n + 1) / 2)
  }

  lemma {:induction false} SplitUnique(n: nat, e: nat)
    requires Pow2(e) < n <= 2 * Pow2(e)
    ensures Split(n) == Pow2(e)
  {
    if n > 2 {
      assert e > 0;
      SplitUnique((n + 1) / 2, e - 1);
    }
  }

  /** Halving a tree, rounding up, halves its split point. */
  lemma SplitHalf(n: nat)
    requires n > 2
    ensures Split(n) == 2 * Split((n + 1) / 2)
  {
  }

  lemma {:induction false} SplitIsPower(n: nat) returns (e: nat)
    requires n > 1
    ensures Split(n) == Pow2(e)
  {
    if n == 2 {
      e := 0;
    } else {
      var d := SplitIsPower((n + 1) / 2);
      e := d + 1;
    }
  }

  /** The split point is the largest power of two strictly below `n`. */
  lemma SplitIsLargestPower(n: nat)
    requires n > 1
    ensures exists e: nat :: Split(n) == Pow2(e)
    ensures forall e: nat :: Pow2(e) < n ==> Pow2(e) <= Split(n)
  {
    var d := SplitIsPower(n);
    forall e: nat | Pow2(e) < n
      ensures Pow2(e) <= Split(n)
    {
      if e <= d {
        Pow2Monotone(e, d);
      } else {
        Pow2Monotone(d + 1, e);
      }
    }
  }

  /** Every tree size above the split point and up to `n` splits where `n` does. */
  lemma {:induction false} SplitStable(m: nat, n: nat)
    requires n > 1 && Split(n) < m <= n
    ensures Split(m) == Split(n)
  {
    var e := SplitIsPower(n);
    SplitUnique(m, e);
  }

  /** The number of zero bits above the highest one bit of a `width`-bit word. */
  function LeadingZeros(x: nat, width: nat): (z: nat)
    requires x < Pow2(width)
    ensures z <= width && (x > 0 ==> z < width)
  {
    if width == 0 || x >= Pow2(width - 1) then 0 else 1 + LeadingZeros(x, width - 1)
  }

  /** The split point as both crates compute it on words of `bits` bits, by shifting
      a one to the place of the highest set bit of `n - 1`. */
  function K(n: nat, bits: nat): nat
    requires 1 < n <= Pow2(bits)
  {
    Pow2(bits - 1 - LeadingZeros(n - 1, bits))
  }

  /** The bit form gives the split point, for every width of the word. */
  lemma {:induction false} KIsSplit(n: nat, bits: nat)
    requires 1 < n <= Pow2(bits)
    ensures K(n, bits) == Split(n)
  {
    if n - 1 >= Pow2(bits - 1) {
      SplitUnique(n, bits - 1);
    } else {
      KIsSplit(n, bits - 1);
    }
  }

  /** The least `d` with `n <= Pow2(d)`: the height of a tree with `n` leaves. */
  function Height(n: nat): (d: nat)
    requires n > 0
    ensures n <= Pow2(d)
    ensures forall e: nat :: n <= Pow2(e) ==> d <= e
  {
    if n == 1 then 0
    else
      var d := Height((n + 1) / 2);
      assert forall e: nat :: n <= Pow2(e) ==> e > 0 && (n + 1) / 2 <= Pow2(e - 1);
      d + 1
  }
}
