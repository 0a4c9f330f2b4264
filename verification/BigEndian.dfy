/** Numbers as big-endian bytes, and the repeated patterns that the memset functions write. */
module BigEndian {
  import opened Arith
  import opened Common
  import opened FlashHardware

  function Pow256(n: nat): nat {
    if n == 0 then 1 else 256 * Pow256(n - 1)
  }

  /** v shifted right by n bytes. */
  function Shifted(v: nat, n: nat): nat {
    if n == 0 then v else Shifted(v / 256, n - 1)
  }

  function LowByte(v: nat): Byte {
    (v % 256) as Byte
  }

  /** Byte k of the width-byte big-endian number v. */
  function ByteAt(v: nat, width: nat, k: nat): Byte
    requires k < width
  {
    LowByte(Shifted(v, width - 1 - k))
  }

  /** The first n bytes of the width-byte number v, repeated. */
  function Pattern(v: nat, width: nat, n: nat): seq<Byte>
    requires 0 < width
  {
    seq(n, i => ByteAt(v, width, i % width))
  }

  /** The number that bytes stand for when the most significant one comes first. */
  function Value(bytes: seq<Byte>): nat {
    if bytes == [] then 0 else 256 * Value(bytes[..|bytes| - 1]) + bytes[|bytes| - 1] as nat
  }

  /** The first round of a pattern is the number, most significant byte first. */
  lemma {:induction false} PatternValue(v: nat, w: nat)
    requires 0 < w && v < Pow256(w)
    ensures Value(Pattern(v, w, w)) == v
  {
    var high, low := v / 256, v % 256;
    assert v == 256 * high + low && high < Pow256(w - 1);
    hide Pattern, LowByte, Pow256;
    PatternRound(v, w);
    LowByteValue(v);
    if w > 1 {
      PatternValue(high, w - 1);
    } else {
      OneRound(v, high);
    }
  }

  lemma OneRound(v: nat, high: nat)
    requires high < Pow256(0)
    ensures Pattern(v, 1, 1)[..0] == [] && high == 0
  {
  }

  lemma PatternRound(v: nat, w: nat)
    requires 0 < w
    ensures var bytes := Pattern(v, w, w);
      |bytes| == w && bytes[w - 1] == LowByte(v) && (1 < w ==> bytes[..w - 1] == Pattern(v / 256, w - 1, w - 1))
  {
    hide LowByte;
    forall i | 0 <= i < w
      ensures Pattern(v, w, w)[i] == ByteAt(v, w, i)
      ensures i < w - 1 ==> Pattern(v / 256, w - 1, w - 1)[i] == ByteAt(v, w, i)
    {
      Within(i, w);
      if i < w - 1 {
        Within(i, w - 1);
      }
    }
  }

  lemma Within(i: nat, w: nat)
    requires i < w
    ensures i % w == i
  {
    ModUnique(i, w, 0, i);
  }

  lemma LowByteValue(v: nat)
    ensures LowByte(v) as nat == v % 256
  {
    ByteRoundTrip(v % 256);
  }

  lemma ByteRoundTrip(r: nat)
    requires r < 256
    ensures (r as Byte) as nat == r
  {
    HalvesRoundTrip(r / 16, r % 16);
    assert r == 16 * (r / 16) + r % 16;
  }

  lemma HalvesRoundTrip(high: nat, low: nat)
    requires high < 16 && low < 16
    ensures ((16 * high + low) as Byte) as nat == 16 * high + low
  {
  }

  /** Every further round is the same bytes again. */
  lemma PatternRepeats(v: nat, w: nat, n: nat, at: nat)
    requires 0 < w && at % w == 0 && at + w <= n
    ensures Pattern(v, w, n)[at..at + w] == Pattern(v, w, w)
  {
    hide ByteAt;
    var whole, first := Pattern(v, w, n), Pattern(v, w, w);
    forall i | 0 <= i < w
      ensures whole[at + i] == first[i]
    {
      Rounds(at, i, w);
    }
  }

  lemma Rounds(at: nat, i: nat, w: nat)
    requires 0 < w && at % w == 0
    ensures (at + i) % w == i % w
  {
    ModOfSum(i, at / w, w);
  }

  ghost function CellsAt(cells: Cells, a: int, w: nat): seq<Byte>
    requires forall b :: a <= b < a + w ==> b in cells
  {
    seq(w, i requires 0 <= i < w => cells[a + i])
  }

  /** The w cells from address a on hold the number v, most significant byte first. */
  ghost predicate HoldsNumber(cells: Cells, a: int, w: nat, v: nat) {
    (forall b :: a <= b < a + w ==> b in cells) && Value(CellsAt(cells, a, w)) == v
  }

  lemma TimesPow(u: nat, n: nat)
    requires 0 < n
    ensures u * Pow256(n) == 256 * (u * Pow256(n - 1))
  {
  }

  lemma {:induction false} ShiftedPlus(v: nat, w: nat, n: nat, u: nat)
    requires n <= w
    ensures Shifted(v + u * Pow256(w), n) == Shifted(v, n) + u * Pow256(w - n)
  {
    if n > 0 {
      TimesPow(u, w);
      assert (v + 256 * (u * Pow256(w - 1))) / 256 == v / 256 + u * Pow256(w - 1);
      ShiftedPlus(v / 256, w - 1, n - 1, u);
    }
  }

  lemma {:induction false} ShiftedAway(v: nat, n: nat)
    requires v < Pow256(n)
    ensures Shifted(v, n) == 0
  {
    if n > 0 {
      ShiftedAway(v / 256, n - 1);
    }
  }

  lemma {:induction false} ShiftedTwice(v: nat, m: nat, n: nat)
    ensures Shifted(Shifted(v, m), n) == Shifted(v, m + n)
  {
    if m > 0 {
      ShiftedTwice(v / 256, m - 1, n);
    }
  }

  /** A number repeated once in twice its width has the same bytes, twice over. */
  lemma DoubledByte(v: nat, w: nat, k: nat)
    requires v < Pow256(w) && k < 2 * w
    ensures ByteAt(v + v * Pow256(w), 2 * w, k) == ByteAt(v, w, if k < w then k else k - w)
  {
    hide Pow256, Shifted, LowByte;
    var j := 2 * w - 1 - k;
    if j < w {
      ShiftedPlus(v, w, j, v);
      TimesPow(v, w - j);
      LowBytePlus(Shifted(v, j), v * Pow256(w - j - 1));
    } else {
      ShiftedPast(v, w);
      ShiftedTwice(v + v * Pow256(w), w, j - w);
    }
  }

  lemma ShiftedPast(v: nat, w: nat)
    requires v < Pow256(w)
    ensures Shifted(v + v * Pow256(w), w) == v
  {
    ShiftedPlus(v, w, w, v);
    ShiftedAway(v, w);
  }

  lemma LowBytePlus(x: nat, y: nat)
    ensures LowByte(x + 256 * y) == LowByte(x)
  {
    assert (x + 256 * y) % 256 == x % 256;
  }

  lemma DoubledPattern(v: nat, w: nat, n: nat)
    requires 0 < w && v < Pow256(w)
    ensures Pattern(v + v * Pow256(w), 2 * w, n) == Pattern(v, w, n)
  {
    hide ByteAt, Pow256;
    forall i | 0 <= i < n
      ensures Pattern(v + v * Pow256(w), 2 * w, n)[i] == Pattern(v, w, n)[i]
    {
      DoubledByte(v, w, i % (2 * w));
      HalfRemainder(i, w);
    }
  }

  lemma HalfRemainder(i: nat, w: nat)
    requires 0 < w
    ensures i % w == if i % (2 * w) < w then i % (2 * w) else i % (2 * w) - w
  {
    var q, r := i / (2 * w), i % (2 * w);
    if r < w {
      assert i == w * (2 * q) + r;
      ModUnique(i, w, 2 * q, r);
    } else {
      assert i == w * (2 * q + 1) + (r - w);
      ModUnique(i, w, 2 * q + 1, r - w);
    }
  }
}
