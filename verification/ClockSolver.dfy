/**
The PLL and divider search of pm_configure_clocks (pm_conf_clocks.c, lines 97 to 167): every frequency is an integer
number of hertz.
*/
module ClockSolver {
  import opened Arith
  import opened Bits

  /**
   What the part fixes: the largest values of the multiplier, divider and clock select fields, the VCO range, the PBA
   limit and the zero-wait-state limit.
   */
  datatype Part = Part(
    maxMul: nat, maxDiv: nat, maxSelect: nat, vcoMin: nat, vcoMax: nat, pbaMax: nat, zeroWaitMax: nat)

  /** A part with 4-bit PLL fields and 3-bit selects, a VCO range of 160 to 240 MHz, and a PBA limit of 66 MHz. */
  const UC3 := Part(15, 15, 7, 160_000_000, 240_000_000, 66_000_000, 33_000_000)

  /** A PLL setting: the oscillator is multiplied by mul, divided by div, and k times halved on the way to the CPU. */
  ghost predicate Realises(osc: nat, cpu: nat, mul: nat, div: nat, k: nat) {
    0 < mul && 0 < div && osc * mul == cpu * div * Pow2(k)
  }

  /** Some multiplier of the field and some divider below 32 turn the oscillator into the CPU frequency. */
  ghost predicate Solvable(part: Part, osc: nat, cpu: nat) {
    exists mul: nat, div: nat :: mul <= part.maxMul && 1 <= div < 32 && cpu * div == osc * mul
  }

  /** The frequencies for which no 32-bit product of the search wraps around. */
  ghost predicate InRange(part: Part, osc: nat, cpu: nat) {
    && 0 < osc && 0 < cpu && 0 < part.maxMul
    && 31 * cpu < 0x1_0000_0000 && 31 * osc < 0x1_0000_0000 && 2 * part.maxMul * osc < 0x1_0000_0000
  }

  // ----- Divisibility

  lemma DivMod(a: nat, d: nat)
    requires 0 < d
    ensures a == d * (a / d) + a % d && 0 <= a % d < d
  {
  }

  lemma ExactDivision(a: nat, d: nat, q: nat)
    requires 0 < d && a == d * q
    ensures a % d == 0 && a / d == q
  {
    ModUnique(a, d, q, 0);
  }

  /** d times the remainder is a multiple of m exactly when d times the number is. */
  lemma RemainderSuffices(a: nat, m: nat, d: nat)
    requires 0 < m
    ensures d * (a % m) % m == 0 <==> d * a % m == 0
  {
    DivMod(a, m);
    var q, r := a / m, a % m;
    DivMod(d * r, m);
    assert d * a == m * (d * q) + d * r;
    var p, s := d * r / m, d * r % m;
    assert d * a == m * (d * q + p) + s;
    ModUnique(d * a, m, d * q + p, s);
  }

  /** div is the least divider for which cpu * div is a multiple of the oscillator frequency. */
  ghost predicate LeastDivider(osc: nat, cpu: nat, div: nat)
    requires 0 < osc
  {
    1 <= div && div * cpu % osc == 0 && forall d :: 1 <= d < div ==> d * cpu % osc != 0
  }

  /** The dividers are the multiples of the least one. */
  lemma DividersAreMultiples(osc: nat, cpu: nat, div: nat, d: nat)
    requires 0 < osc && LeastDivider(osc, cpu, div) && d * cpu % osc == 0
    ensures d % div == 0
  {
    DivMod(d, div);
    DivMod(d * cpu, osc);
    DivMod(div * cpu, osc);
    var q, r := d / div, d % div;
    var a, b := d * cpu / osc, div * cpu / osc;
    assert r * cpu == d * cpu - q * (div * cpu);
    assert r * cpu == osc * (a - q * b);
    MultipleOf(r * cpu, osc, a - q * b);
  }

  lemma MultipleOf(x: nat, m: nat, k: int)
    requires 0 < m && x == m * k
    ensures x % m == 0
  {
    ModUnique(x, m, k, 0);
  }

  /** An odd divisor of 2^k times x divides x. */
  lemma {:induction false} OddDivisor(o: nat, x: nat, k: nat)
    requires o % 2 == 1 && x * Pow2(k) % o == 0
    ensures x % o == 0
  {
    if k > 0 {
      var y := x * Pow2(k - 1);
      assert x * Pow2(k) == 2 * y;
      HalfOfMultiple(o, y);
      OddDivisor(o, x, k - 1);
    } else {
      assert x * Pow2(0) == x;
    }
  }

  lemma HalfOfMultiple(o: nat, y: nat)
    requires o % 2 == 1 && 2 * y % o == 0
    ensures y % o == 0
  {
    DivMod(2 * y, o);
    var q := 2 * y / o;
    OddProduct(o, q);
    assert o * q == 2 * (o * (q / 2));
    MultipleOf(y, o, q / 2);
  }

  lemma OddProduct(o: nat, q: nat)
    requires o % 2 == 1 && o * q % 2 == 0
    ensures q % 2 == 0
  {
    var i := o / 2;
    assert o * q == 2 * (i * q) + q;
  }

  lemma MultipleAtLeast(x: nat, o: nat)
    requires 0 < o && 0 < x && x % o == 0
    ensures o <= x
  {
    DivMod(x, o);
    ScaledOrder(o, x / o, 0);
  }

  lemma CancelFactor(a: nat, x: nat, y: nat)
    requires 0 < a && a * x <= a * y
    ensures x <= y
  {
    ScaledOrder(a, x, y);
  }

  // ----- The four loops

  /** Lines 97 to 105: the least divider below 32, or 32. */
  method FindDivider(osc: nat, cpu: nat) returns (div: nat)
    requires 0 < osc
    ensures 1 <= div <= 32
    ensures div < 32 ==> LeastDivider(osc, cpu, div)
    ensures div == 32 ==> forall d :: 1 <= d < 32 ==> d * cpu % osc != 0
  {
    var rest := cpu % osc;
    div := 1;
    while div < 32
      invariant 1 <= div <= 32
      invariant forall d :: 1 <= d < div ==> d * cpu % osc != 0
    {
      RemainderSuffices(cpu, osc, div);
      if div * rest % osc == 0 {
        break;
      }
      div := div + 1;
    }
  }

  /** Lines 112 to 117: exports the powers of two of the divider. */
  method ExportTwos(div0: nat) returns (div: nat, k: nat)
    requires 0 < div0
    ensures 0 < div <= div0 && div % 2 == 1 && div0 == div * Pow2(k)
  {
    div, k := div0, 0;
    while div % 2 == 0
      invariant 0 < div <= div0 && div0 == div * Pow2(k)
      decreases div
    {
      assert div * Pow2(k) == (div / 2) * Pow2(k + 1);
      div, k := div / 2, k + 1;
    }
  }

  /**
   Lines 123 to 129: doubles the multiplier while the VCO stays below its limit and the multiplier in its field,
   so that one more doubling would break one of the two.
   */
  method RaiseVco(part: Part, osc: nat, cpu: nat, mul0: nat, div: nat, k0: nat) returns (mul: nat, k: nat)
    requires Realises(osc, cpu, mul0, div, k0) && mul0 <= part.maxMul
    ensures Realises(osc, cpu, mul, div, k) && mul <= part.maxMul && k0 <= k
    ensures 2 * mul > part.maxMul || cpu * Pow2(k + 1) >= part.vcoMax
    ensures cpu * Pow2(k) < part.vcoMax <==> cpu * Pow2(k0) < part.vcoMax
    ensures k0 < k ==> cpu * Pow2(k) < part.vcoMax
  {
    mul, k := mul0, k0;
    VcoFrequency(osc, cpu, mul, div, k);
    while osc * 2 * mul / div < part.vcoMax
      invariant Realises(osc, cpu, mul, div, k) && mul <= part.maxMul && k0 <= k
      invariant osc * 2 * mul / div == cpu * Pow2(k + 1)
      invariant k == k0 || (cpu * Pow2(k) < part.vcoMax && cpu * Pow2(k0) < part.vcoMax)
      decreases part.maxMul - mul
    {
      if 2 * mul > part.maxMul {
        break;
      }
      DoubledSetting(osc, cpu, mul, div, k);
      Pow2Monotonic(k0, k + 1);
      ProductAtLeast(cpu, Pow2(k + 1), cpu, Pow2(k0));
      mul, k := 2 * mul, k + 1;
      VcoFrequency(osc, cpu, mul, div, k);
    }
  }

  lemma DoubledSetting(osc: nat, cpu: nat, mul: nat, div: nat, k: nat)
    requires Realises(osc, cpu, mul, div, k)
    ensures Realises(osc, cpu, 2 * mul, div, k + 1)
  {
    assert cpu * div * Pow2(k + 1) == 2 * (cpu * div * Pow2(k));
    assert osc * (2 * mul) == 2 * (osc * mul);
  }

  /** The divisions of the search lose nothing: the VCO runs at a power-of-two multiple of the CPU frequency. */
  lemma VcoFrequency(osc: nat, cpu: nat, mul: nat, div: nat, k: nat)
    requires Realises(osc, cpu, mul, div, k)
    ensures osc * mul / div == cpu * Pow2(k) && osc * 2 * mul / div == cpu * Pow2(k + 1)
  {
    assert osc * mul == div * (cpu * Pow2(k));
    ExactDivision(osc * mul, div, cpu * Pow2(k));
    assert osc * 2 * mul == 2 * (osc * mul) == div * (2 * (cpu * Pow2(k)));
    assert cpu * Pow2(k + 1) == 2 * (cpu * Pow2(k));
    ExactDivision(osc * 2 * mul, div, cpu * Pow2(k + 1));
  }

  function Quotient(a: nat, d: nat): nat
    requires 0 < d
  {
    a / d
  }

  function Halved(f: nat, k: nat): nat {
    Quotient(f, Pow2(k))
  }

  lemma HalvedOnceMore(f: nat, k: nat)
    ensures Halved(f, k + 1) == Halved(f, k) / 2
  {
    var p := Pow2(k);
    DivMod(f, p);
    var q, r := f / p, f % p;
    assert f == (2 * p) * (q / 2) + ((q % 2) * p + r) by {
      assert q == 2 * (q / 2) + q % 2;
      assert p * q == (2 * p) * (q / 2) + (q % 2) * p;
    }
    assert q % 2 == 0 || q % 2 == 1;
    ModUnique(f, 2 * p, q / 2, (q % 2) * p + r);
  }

  /** The loop leaves the PBA search after k halvings. */
  predicate Leaves(part: Part, pll: nat, pba: nat, k: nat) {
    if k == 0 then pll == pba && pll <= part.pbaMax
    else Halved(pll, k) < pba || (Halved(pll, k) == pba && pba <= part.pbaMax)
  }

  /** Lines 159 to 167: halves the PLL frequency down to the PBA request. */
  method DividePba(part: Part, pll: nat, pba: nat) returns (k: nat)
    ensures FirstLeaves(part, pll, pba, k)
  {
    k := 0;
    var rest := pll;
    while rest > part.pbaMax || rest != pba
      invariant rest == Halved(pll, k) && forall j :: 0 <= j < k ==> !Leaves(part, pll, pba, j)
      invariant k > 0 ==> pba <= rest
      decreases k == 0, rest
    {
      HalvedOnceMore(pll, k);
      k := k + 1;
      rest := Halved(pll, k);
      if rest < pba {
        break;
      }
    }
  }

  // ----- Completeness and optimality

  /** The least divider decides solvability: it gives the least multiplier. */
  lemma LeastMultiplier(part: Part, osc: nat, cpu: nat, div: nat, mul: nat)
    requires 0 < osc && 0 < cpu && LeastDivider(osc, cpu, div) && div < 32 && osc * mul == cpu * div
    ensures mul <= part.maxMul <==> Solvable(part, osc, cpu)
  {
    if mul <= part.maxMul {
      assert cpu * div == osc * mul;
    }
    if m: nat, d: nat :| m <= part.maxMul && 1 <= d < 32 && cpu * d == osc * m {
      MultipleOf(d * cpu, osc, m);
      assert div <= d;
      assert osc * mul == cpu * div && cpu * d == cpu * div + cpu * (d - div);
      CancelFactor(osc, mul, m);
    }
  }

  lemma NoDivider(part: Part, osc: nat, cpu: nat)
    requires 0 < osc && forall d :: 1 <= d < 32 ==> d * cpu % osc != 0
    ensures !Solvable(part, osc, cpu)
  {
    if m: nat, d: nat :| m <= part.maxMul && 1 <= d < 32 && cpu * d == osc * m {
      MultipleOf(d * cpu, osc, m);
    }
  }

  /** No setting that realises the CPU frequency with the VCO below its limit has a faster VCO. */
  ghost predicate FastestVco(part: Part, osc: nat, cpu: nat, k: nat) {
    forall mul: nat, div: nat, j: nat ::
      Realises(osc, cpu, mul, div, j) && mul <= part.maxMul && cpu * Pow2(j) < part.vcoMax ==> j <= k
  }

  lemma SearchIsOptimal(part: Part, osc: nat, cpu: nat, div0: nat, div: nat, k0: nat, mul: nat, k: nat)
    requires 0 < osc && 0 < cpu && LeastDivider(osc, cpu, div0)
    requires 0 < div && div % 2 == 1 && div0 == div * Pow2(k0)
    requires Realises(osc, cpu, mul, div, k)
    requires 2 * mul > part.maxMul || cpu * Pow2(k + 1) >= part.vcoMax
    ensures FastestVco(part, osc, cpu, k)
  {
    hide Pow2, LeastDivider;
    forall m: nat, d: nat, j: nat |
      Realises(osc, cpu, m, d, j) && m <= part.maxMul && cpu * Pow2(j) < part.vcoMax
      ensures j <= k
    {
      if k < j {
        FasterNeedsMore(osc, cpu, div0, div, k0, mul, k, m, d, j);
        Pow2Monotonic(k + 1, j);
        ProductAtLeast(cpu, Pow2(j), cpu, Pow2(k + 1));
      }
    }
  }

  /** A setting with a faster VCO needs at least twice the multiplier. */
  lemma FasterNeedsMore(osc: nat, cpu: nat, div0: nat, div: nat, k0: nat, mul: nat, k: nat, m: nat, d: nat, j: nat)
    requires 0 < osc && 0 < cpu && LeastDivider(osc, cpu, div0)
    requires div % 2 == 1 && div0 == div * Pow2(k0)
    requires Realises(osc, cpu, mul, div, k) && Realises(osc, cpu, m, d, j) && k < j
    ensures 2 * mul <= m
  {
    OddPartDivides(osc, cpu, div0, div, k0, m, d, j);
    Pow2Monotonic(k + 1, j);
    TwiceMultiplier(osc, cpu, mul, div, Pow2(k), m, d, Pow2(j));
  }

  lemma TwiceMultiplier(osc: nat, cpu: nat, mul: nat, div: nat, p: nat, m: nat, d: nat, q: nat)
    requires 0 < osc && osc * mul == cpu * div * p && osc * m == cpu * d * q && div <= d && 2 * p <= q
    ensures 2 * mul <= m
  {
    ProductAtLeast(d, q, div, 2 * p);
    ProductAtLeast(cpu, d * q, cpu, div * (2 * p));
    assert osc * (2 * mul) == 2 * (cpu * div * p) == cpu * (div * (2 * p));
    assert osc * m == cpu * (d * q);
    CancelFactor(osc, 2 * mul, m);
  }

  lemma ProductAtLeast(a: nat, b: nat, c: nat, d: nat)
    requires c <= a && d <= b
    ensures c * d <= a * b
  {
    assert a * b == c * d + (a - c) * b + c * (b - d);
  }

  lemma OddPartDivides(osc: nat, cpu: nat, div0: nat, div: nat, k0: nat, m: nat, d: nat, j: nat)
    requires 0 < osc && LeastDivider(osc, cpu, div0) && div % 2 == 1 && div0 == div * Pow2(k0)
    requires Realises(osc, cpu, m, d, j)
    ensures div <= d
  {
    hide Pow2;
    var x := d * Pow2(j);
    assert x * cpu == osc * m;
    MultipleOf(x * cpu, osc, m);
    DividersAreMultiples(osc, cpu, div0, x);
    DivMod(x, div0);
    var q := x / div0;
    assert x == div * (Pow2(k0) * q);
    MultipleOf(x, div, Pow2(k0) * q);
    OddDivisor(div, d, j);
    MultipleAtLeast(d, div);
  }

  /** The largest halving of the PLL frequency that exceeds neither the request nor the limit. */
  ghost predicate BestPba(part: Part, pll: nat, pba: nat, k: nat) {
    && Halved(pll, k) <= pba && Halved(pll, k) <= part.pbaMax
    && forall j: nat :: Halved(pll, j) <= pba && Halved(pll, j) <= part.pbaMax ==> Halved(pll, j) <= Halved(pll, k)
  }

  lemma {:induction false} HalvedDecreases(f: nat, j: nat, k: nat)
    requires j <= k
    ensures Halved(f, k) <= Halved(f, j)
    ensures j < k && 0 < Halved(f, j) ==> Halved(f, k) < Halved(f, j)
  {
    if j < k {
      HalvedDecreases(f, j, k - 1);
      HalvedOnceMore(f, k - 1);
    }
  }

  /**
   For a request within the limit, the search is optimal exactly when the PLL can reach the request; for a request
   above the limit, exactly when the PLL itself is above the limit and no halving lies between limit and request.
   */
  lemma PbaOptimalIff(part: Part, pll: nat, pba: nat, k: nat)
    requires 0 < pll
    requires FirstLeaves(part, pll, pba, k)
    ensures BestPba(part, pll, pba, k) <==>
            if pba <= part.pbaMax then pba <= pll else part.pbaMax < pll && NoneBetween(part, pll, pba)
  {
    assert Halved(pll, 0) == pll;
    PbaLimitIff(part, pll, pba, k);
    forall j: nat | 1 <= j && Halved(pll, j) <= pba && Halved(pll, j) <= part.pbaMax
      ensures Halved(pll, j) <= Halved(pll, k)
    {
      var _ := Leaves(part, pll, pba, j);
      if k <= j {
        HalvedDecreases(pll, k, j);
      }
    }
    HalvedDecreases(pll, 0, k);
    var _ := Leaves(part, pll, pba, 0);
    if pll <= pba && pll <= part.pbaMax && k > 0 {
      assert Halved(pll, k) < Halved(pll, 0);
      assert !BestPba(part, pll, pba, k);
    } else {
      assert k == 0 ==> pll == pba <= part.pbaMax;
      assert BestPba(part, pll, pba, k) <==> Halved(pll, k) <= pba && Halved(pll, k) <= part.pbaMax;
    }
  }

  /** No halving lies between the limit and the request. */
  ghost predicate NoneBetween(part: Part, pll: nat, pba: nat) {
    forall j: nat :: 1 <= j && Halved(pll, j) < pba ==> Halved(pll, j) <= part.pbaMax
  }

  /** Whatever the request, the result stays within the limit exactly when no halving falls between the two. */
  lemma PbaLimitIff(part: Part, pll: nat, pba: nat, k: nat)
    requires FirstLeaves(part, pll, pba, k)
    ensures Halved(pll, k) <= part.pbaMax <==> NoneBetween(part, pll, pba)
  {
    assert Halved(pll, 0) == pll;
    forall j: nat | 1 <= j && Halved(pll, j) < pba
      ensures Halved(pll, j) <= Halved(pll, k)
    {
      var _ := Leaves(part, pll, pba, j);
      if k <= j {
        HalvedDecreases(pll, k, j);
      }
    }
  }

  /** A request above the limit can be answered with a frequency above the limit. */
  lemma PbaLimitExceeded()
    ensures var part := Part(15, 15, 7, 80, 180, 66, 33);
      Leaves(part, 150, 100, 1) && !Leaves(part, 150, 100, 0) && Halved(150, 1) > part.pbaMax
  {
    assert Pow2(1) == 2;
  }

  // ----- The whole search

  /** The PLL output of a setting, and its halving down to the CPU, are exact. */
  lemma PllIsExact(osc: nat, cpu: nat, mul: nat, div: nat, k: nat)
    requires Realises(osc, cpu, mul, div, k)
    ensures k == 0 ==> osc * mul / (div * 1) == cpu
    ensures k > 0 ==> osc * mul / (div * 2) == cpu * Pow2(k - 1)
    ensures k > 0 ==> Quotient(cpu * Pow2(k - 1), Pow2(k - 1)) == cpu
  {
    if k == 0 {
      ExactDivision(osc * mul, div * 1, cpu);
    } else {
      var p := Pow2(k - 1);
      assert osc * mul == (div * 2) * (cpu * p);
      ExactDivision(osc * mul, div * 2, cpu * p);
      ExactDivision(cpu * p, p, cpu);
    }
  }

  /**
   What the search finds. The powers of two exported from the divider, k0 of them, may alone put the VCO over its
   limit; nothing else can.
   */
  ghost predicate Found(part: Part, osc: nat, cpu: nat, mul: nat, div: nat, k: nat, k0: nat)
    requires 0 < osc
  {
    && Realises(osc, cpu, mul, div, k) && mul <= part.maxMul && div * Pow2(k0) < 32
    && (2 * mul > part.maxMul || cpu * Pow2(k + 1) >= part.vcoMax)
    && FastestVco(part, osc, cpu, k)
    && LeastDivider(osc, cpu, div * Pow2(k0)) && div % 2 == 1
    && (cpu * Pow2(k) < part.vcoMax <==> cpu * Pow2(k0) < part.vcoMax)
    && k0 <= k && (k0 < k ==> cpu * Pow2(k) < part.vcoMax)
  }

  /** Lines 97 to 135: the whole search, as one setting or none. */
  method Search(part: Part, osc: nat, cpu: nat) returns (found: bool, mul: nat, div: nat, k: nat, ghost k0: nat)
    requires InRange(part, osc, cpu)
    ensures found <==> Solvable(part, osc, cpu)
    ensures found ==> Found(part, osc, cpu, mul, div, k, k0)
  {
    hide FastestVco, Solvable;
    found, mul, div, k, k0 := false, 0, 0, 0, 0;
    var div0 := FindDivider(osc, cpu);
    if div0 == 32 {
      NoDivider(part, osc, cpu);
      return;
    }
    mul := cpu * div0 / osc;
    FirstSetting(part, osc, cpu, div0);
    if mul > part.maxMul {
      return;
    }
    var exported;
    div, exported := ExportTwos(div0);
    k0 := exported;
    ExportedSetting(osc, cpu, mul, div0, div, exported);
    mul, k := RaiseVco(part, osc, cpu, mul, div, exported);
    SearchIsOptimal(part, osc, cpu, div0, div, exported, mul, k);
    found := true;
  }

  /**
   From 20 MHz to 75 MHz, with a 4-bit multiplier field and a VCO limit of 240 MHz: whatever the search finds, the VCO
   is over its limit, although multiplier 15 and divider 4 keep it at 75 MHz.
   */
  lemma VcoLimitExceeded()
    ensures var part, osc, cpu := UC3, 20_000_000, 75_000_000;
      && InRange(part, osc, cpu) && Solvable(part, osc, cpu)
      && (forall mul: nat, div: nat, k: nat, k0: nat :: Found(part, osc, cpu, mul, div, k, k0) ==>
          cpu * Pow2(k) >= part.vcoMax)
      && Realises(osc, cpu, 15, 4, 0) && 15 <= part.maxMul && cpu * Pow2(0) < part.vcoMax
  {
    var part, osc, cpu := UC3, 20_000_000, 75_000_000;
    assert cpu * 4 == osc * 15;
    forall mul: nat, div: nat, k: nat, k0: nat | Found(part, osc, cpu, mul, div, k, k0)
      ensures cpu * Pow2(k) >= part.vcoMax
    {
      assert 4 * cpu % osc == 0 && div * Pow2(k0) <= 4;
      ExportedFromFour(osc, cpu, div, k0);
      assert cpu * Pow2(k0) >= part.vcoMax;
    }
  }

  /** 4 is the only odd number times a power of two that is its least divider here. */
  lemma ExportedFromFour(osc: nat, cpu: nat, div: nat, k: nat)
    requires osc == 20_000_000 && cpu == 75_000_000
    requires div % 2 == 1 && div * Pow2(k) <= 4 && div * Pow2(k) * cpu % osc == 0
    ensures Pow2(k) == 4
  {
    var d := div * Pow2(k);
    ProductAtLeast(div, Pow2(k), 1, Pow2(k));
    assert d in {1, 2, 3, 4};
    assert d == 4;
    EvenPowers(k);
  }

  lemma EvenPowers(k: nat)
    ensures Pow2(k) in {1, 2, 4} || Pow2(k) >= 8
  {
    if k >= 3 {
      Pow2Monotonic(3, k);
    }
  }

  lemma FirstSetting(part: Part, osc: nat, cpu: nat, div: nat)
    requires 0 < osc && 0 < cpu && LeastDivider(osc, cpu, div) && div < 32
    ensures var mul := cpu * div / osc;
      && 0 < mul && osc * mul == cpu * div
      && (mul <= part.maxMul <==> Solvable(part, osc, cpu))
  {
    DivMod(cpu * div, osc);
    var mul := cpu * div / osc;
    assert cpu * div == div * cpu;
    if mul == 0 {
      ScaledOrder(cpu, div, 0);
    }
    LeastMultiplier(part, osc, cpu, div, mul);
  }

  lemma ExportedSetting(osc: nat, cpu: nat, mul: nat, div0: nat, div: nat, k: nat)
    requires 0 < mul && 0 < div && osc * mul == cpu * div0 && div0 == div * Pow2(k)
    ensures Realises(osc, cpu, mul, div, k)
  {
    assert cpu * div0 == cpu * div * Pow2(k);
  }

  /** The first halving at which the PBA search ends. */
  ghost predicate FirstLeaves(part: Part, pll: nat, pba: nat, k: nat) {
    Leaves(part, pll, pba, k) && forall j :: 0 <= j < k ==> !Leaves(part, pll, pba, j)
  }
}
