/** Numbers as bit sequences, least significant bit first. */
module Bits {
  import opened Arith

  function Pow2(n: nat): (p: nat)
    ensures p > 0
  {
    if n == 0 then 1 else 2 * Pow2(n - 1)
  }

  /** v shifted right by n bits. */
  function Shr(v: nat, n: nat): nat {
    if n == 0 then v else Shr(v / 2, n - 1)
  }

  /** The n low bits of v. */
  function BitsOf(v: nat, n: nat): (bits: seq<bool>)
    ensures |bits| == n
  {
    if n == 0 then [] else [v % 2 == 1] + BitsOf(v / 2, n - 1)
  }

  function FromBits(bits: seq<bool>): nat {
    if bits == [] then 0 else (if bits[0] then 1 else 0) + 2 * FromBits(bits[1..])
  }

  lemma {:induction false} FromBitsBound(bits: seq<bool>)
    ensures FromBits(bits) < Pow2(|bits|)
  {
    if bits != [] {
      FromBitsBound(bits[1..]);
    }
  }

  lemma {:induction false} BitsOfFromBits(bits: seq<bool>)
    ensures BitsOf(FromBits(bits), |bits|) == bits
  {
    if bits != [] {
      BitsOfFromBits(bits[1..]);
      assert FromBits(bits) / 2 == FromBits(bits[1..]);
    }
  }

  lemma {:induction false} FromBitsOf(v: nat, n: nat)
    ensures FromBits(BitsOf(v, n)) == v % Pow2(n)
  {
    if n > 0 {
      FromBitsOf(v / 2, n - 1);
      assert BitsOf(v, n)[1..] == BitsOf(v / 2, n - 1);
      ModHalves(v, Pow2(n - 1));
    }
  }

  lemma ModHalves(v: nat, p: nat)
    requires 0 < p
    ensures v % (2 * p) == v % 2 + 2 * (v / 2 % p)
  {
    var q, r := v / 2 / p, v / 2 % p;
    assert v == (2 * p) * q + (v % 2 + 2 * r);
    ModUnique(v, 2 * p, q, v % 2 + 2 * r);
  }

  lemma {:induction false} ShrFromBits(bits: seq<bool>, n: nat)
    requires n <= |bits|
    ensures Shr(FromBits(bits), n) == FromBits(bits[n..])
  {
    if n > 0 {
      assert FromBits(bits) / 2 == FromBits(bits[1..]);
      ShrFromBits(bits[1..], n - 1);
      assert bits[1..][n - 1..] == bits[n..];
    } else {
      assert bits[0..] == bits;
    }
  }

  lemma {:induction false} ShrTwice(v: nat, m: nat, n: nat)
    ensures Shr(Shr(v, m), n) == Shr(v, m + n)
  {
    if m > 0 {
      ShrTwice(v / 2, m - 1, n);
    }
  }

  lemma {:induction false} BitsOfBit(v: nat, n: nat, i: nat)
    requires i < n
    ensures BitsOf(v, n)[i] == (Shr(v, i) % 2 == 1)
  {
    if i > 0 {
      BitsOfBit(v / 2, n - 1, i - 1);
    }
  }

  /** The low w bits of a number are the number modulo 2^w. */
  lemma LowBits(bits: seq<bool>, w: nat)
    requires w <= |bits|
    ensures FromBits(bits) % Pow2(w) == FromBits(bits[..w])
  {
    FromBitsOf(FromBits(bits), w);
    BitsOfPrefix(FromBits(bits), |bits|, w);
    BitsOfFromBits(bits);
  }

  lemma {:induction false} BitsOfPrefix(v: nat, n: nat, w: nat)
    requires w <= n
    ensures BitsOf(v, n)[..w] == BitsOf(v, w)
  {
    if w > 0 {
      BitsOfPrefix(v / 2, n - 1, w - 1);
    }
  }

  lemma {:induction false} Concat(low: seq<bool>, high: seq<bool>)
    ensures FromBits(low + high) == FromBits(low) + Pow2(|low|) * FromBits(high)
  {
    if low == [] {
      assert low + high == high;
    } else {
      assert (low + high)[1..] == low[1..] + high;
      Concat(low[1..], high);
      TwiceProduct(Pow2(|low| - 1), FromBits(high));
    }
  }

  lemma TwiceProduct(p: nat, x: nat)
    ensures (2 * p) * x == 2 * (p * x)
  {
  }

  lemma {:induction false} Pow2Monotonic(m: nat, n: nat)
    requires m <= n
    ensures Pow2(m) <= Pow2(n)
  {
    if m < n {
      Pow2Monotonic(m, n - 1);
    }
  }

  function BitLength(x: nat): nat {
    if x == 0 then 0 else 1 + BitLength(x / 2)
  }

  /** The bit length of x is the least power of two above it. */
  lemma {:induction false} BitLengthBounds(x: nat)
    requires 0 < x
    ensures 0 < BitLength(x) && Pow2(BitLength(x) - 1) <= x < Pow2(BitLength(x))
  {
    if x > 1 {
      BitLengthBounds(x / 2);
    }
  }
}
