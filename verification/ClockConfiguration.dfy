/**
pm_configure_clocks (pm_conf_clocks.c, lines 60 to 224) with the registers it writes (pm.c,
    lines 342 to 427). A bit-field
keeps a value modulo its size; so what runs is what was found only as far as that fits the fields.
*/
module ClockConfiguration {
  import opened Arith
  import opened Bits
  import opened ClockSolver

  /** What a bit-field whose largest value is max keeps of a value. */
  function Stored(v: nat, max: nat): (r: nat)
    ensures r <= v && (r == v <==> v <= max)
  {
    v % (max + 1)
  }

  /** The PLL register: the multiplier less one, the divider, and two options. */
  datatype PllRegister = PllRegister(mul: nat, div: nat, lowRange: bool, half: bool)

  /** A divider as the clock select register has it: enabled, with a power-of-two select. */
  datatype Select = Select(enabled: bool, select: nat) {
    function Shift(): nat {
      if enabled then select + 1 else 0
    }
  }

  /** The clock select register. */
  datatype ClockSelect = ClockSelect(cpu: Select, hsb: Select, pba: Select, pbb: Select)

  /** A shift as pm_configure_clocks hands it to pm_cksel. */
  function Encode(k: nat): (s: Select)
    ensures s.Shift() == k
  {
    if k != 0 then Select(true, k - 1) else Select(false, k)
  }

  function StoredSelect(part: Part, s: Select): Select {
    s.(select := Stored(s.select, part.maxSelect))
  }

  predicate FitsSelect(part: Part, shift: nat) {
    shift <= part.maxSelect + 1
  }

  lemma StoredShift(part: Part, shift: nat)
    ensures StoredSelect(part, Encode(shift)).Shift() <= shift
    ensures 0 < shift ==> 0 < StoredSelect(part, Encode(shift)).Shift()
    ensures StoredSelect(part, Encode(shift)).Shift() == shift <==> FitsSelect(part, shift)
  {
  }

  /** What is found: multiplier, divider, halvings from the VCO to the CPU, and halvings from the PLL to the PBA. */
  datatype Setting = Setting(mul: nat, div: nat, k: nat, pba: nat) {
    /** The first halving to the CPU is done in the PLL. */
    function CpuShift(): nat {
      if k > 0 then k - 1 else 0
    }

    function PllFrequency(cpu: nat): nat {
      cpu * Pow2(CpuShift())
    }
  }

  ghost predicate Chosen(part: Part, osc: nat, cpu: nat, pba: nat, s: Setting, k0: nat)
    requires 0 < osc
  {
    && Found(part, osc, cpu, s.mul, s.div, s.k, k0)
    && FirstLeaves(part, s.PllFrequency(cpu), pba, s.pba)
  }

  // ----- What the registers hold

  /** The PLL register that a setting leaves. */
  function PllFor(part: Part, cpu: nat, s: Setting): PllRegister
    requires 0 < s.mul
  {
    PllRegister(Stored(s.mul - 1, part.maxMul), Stored(s.div, part.maxDiv), s.PllFrequency(cpu) < part.vcoMin, s.k > 0)
  }

  /** The clock select register that a setting leaves. */
  function SelectFor(part: Part, s: Setting): ClockSelect {
    var cpu := StoredSelect(part, Encode(s.CpuShift()));
    ClockSelect(cpu, cpu, StoredSelect(part, Encode(s.pba)), cpu)
  }

  /** How often the VCO frequency is halved on the way to the CPU. */
  function CpuHalvings(pll: PllRegister, cksel: ClockSelect): nat {
    (if pll.half then 1 else 0) + cksel.cpu.Shift()
  }

  /** The registers run the CPU at cpu. */
  ghost predicate CpuRunsAt(osc: nat, cpu: nat, pll: PllRegister, cksel: ClockSelect) {
    Realises(osc, cpu, pll.mul + 1, pll.div, CpuHalvings(pll, cksel))
  }

  /** The CPU runs at the frequency asked for and reported exactly when divider and CPU select fit their fields. */
  lemma CpuRunsIff(part: Part, osc: nat, cpu: nat, s: Setting, k0: nat)
    requires 0 < osc && 0 < cpu && Found(part, osc, cpu, s.mul, s.div, s.k, k0)
    ensures CpuRunsAt(osc, cpu, PllFor(part, cpu, s), SelectFor(part, s)) <==>
            s.div <= part.maxDiv && FitsSelect(part, s.CpuShift())
  {
    hide FastestVco, LeastDivider;
    var pll, cksel := PllFor(part, cpu, s), SelectFor(part, s);
    StoredShift(part, s.CpuShift());
    var d, k := pll.div, CpuHalvings(pll, cksel);
    if CpuRunsAt(osc, cpu, pll, cksel) {
      SameSetting(osc, cpu, s.mul, s.div, s.k, d, k);
    }
  }

  /** With the same multiplier, a smaller divider or fewer halvings give another frequency. */
  lemma SameSetting(osc: nat, cpu: nat, mul: nat, div: nat, k: nat, d: nat, j: nat)
    requires 0 < cpu && Realises(osc, cpu, mul, div, k) && Realises(osc, cpu, mul, d, j) && d <= div && j <= k
    ensures d == div && j == k
  {
    hide Pow2;
    var p, q := Pow2(k), Pow2(j);
    assert cpu * (div * p) == cpu * div * p == cpu * d * q == cpu * (d * q);
    CancelFactor(cpu, div * p, d * q);
    CancelFactor(cpu, d * q, div * p);
    Pow2Monotonic(j, k);
    SameFactors(div, p, d, q);
    if j < k {
      Pow2Grows(j, k);
    }
  }

  lemma SameFactors(a: nat, b: nat, c: nat, d: nat)
    requires 0 < c <= a && 0 < d <= b && a * b == c * d
    ensures a == c && b == d
  {
    assert a * b == c * d + (a - c) * b + c * (b - d);
    if a > c {
      ProductAtLeast(a - c, b, 1, 1);
    }
    if b > d {
      ProductAtLeast(c, b - d, 1, 1);
    }
  }

  lemma Pow2Grows(j: nat, k: nat)
    requires j < k
    ensures Pow2(j) < Pow2(k)
  {
    Pow2Monotonic(j + 1, k);
  }

  /** The PBA runs at the frequency reported exactly when its select fits its field. */
  lemma PbaRunsIff(part: Part, pll: nat, pba: nat, s: Setting)
    requires FirstLeaves(part, pll, pba, s.pba)
    ensures Halved(pll, SelectFor(part, s).pba.Shift()) == Halved(pll, s.pba) <==> FitsSelect(part, s.pba)
  {
    StoredShift(part, s.pba);
    var k := SelectFor(part, s).pba.Shift();
    if k < s.pba {
      var _ := Leaves(part, pll, pba, k);
      HalvedDecreases(pll, k, s.pba);
    }
  }

  // ----- When the fields are wide enough

  /** The frequency that an oscillator and the PLL register alone give at the output of the PLL. */
  function PllOutput(osc: nat, pll: PllRegister): nat
    requires 0 < pll.div
  {
    osc * (pll.mul + 1) / (pll.div * if pll.half then 2 else 1)
  }

  /** Where the divider fits, that is the frequency the search computes with. */
  lemma PllOutputOf(part: Part, osc: nat, cpu: nat, s: Setting, k0: nat)
    requires 0 < osc && 0 < cpu && Found(part, osc, cpu, s.mul, s.div, s.k, k0) && s.div <= part.maxDiv
    ensures 0 < PllFor(part, cpu, s).div && PllOutput(osc, PllFor(part, cpu, s)) == s.PllFrequency(cpu)
  {
    hide FastestVco, LeastDivider;
    PllIsExact(osc, cpu, s.mul, s.div, s.k);
  }

  /** The divider found fits its field exactly when any setting of the two PLL fields reaches the frequency. */
  lemma DividerFitsIff(part: Part, osc: nat, cpu: nat, s: Setting, k0: nat)
    requires 0 < osc && Found(part, osc, cpu, s.mul, s.div, s.k, k0)
    ensures s.div <= part.maxDiv <==>
            exists mul: nat, div: nat, k: nat ::
              Realises(osc, cpu, mul, div, k) && mul <= part.maxMul && div <= part.maxDiv
  {
    if mul: nat, div: nat, k: nat :| Realises(osc, cpu, mul, div, k) && mul <= part.maxMul && div <= part.maxDiv {
      OddPartDivides(osc, cpu, s.div * Pow2(k0), s.div, k0, mul, div, k);
    }
  }

  /** How many halvings are found: the exported ones, and as many doublings as multiplier field and VCO limit allow. */
  lemma HalvingsIff(part: Part, osc: nat, cpu: nat, mul0: nat, s: Setting, k0: nat, n: nat)
    requires 0 < osc && 0 < cpu && Found(part, osc, cpu, s.mul, s.div, s.k, k0)
    requires osc * mul0 == cpu * s.div * Pow2(k0)
    ensures n <= s.k <==> n <= k0 || (mul0 * Pow2(n - k0) <= part.maxMul && cpu * Pow2(n) < part.vcoMax)
  {
    hide Pow2, FastestVco, LeastDivider;
    Doublings(osc, cpu, mul0, s.mul, s.div, k0, s.k);
    if k0 < n <= s.k {
      Pow2Monotonic(n - k0, s.k - k0);
      ProductAtLeast(mul0, Pow2(s.k - k0), mul0, Pow2(n - k0));
      Pow2Monotonic(n, s.k);
      ProductAtLeast(cpu, Pow2(s.k), cpu, Pow2(n));
    } else if k0 <= s.k < n {
      Pow2Monotonic(s.k + 1 - k0, n - k0);
      Doublings(osc, cpu, mul0, 2 * s.mul, s.div, k0, s.k + 1) by {
        DoubledSetting(osc, cpu, s.mul, s.div, s.k);
      }
      ProductAtLeast(mul0, Pow2(n - k0), mul0, Pow2(s.k + 1 - k0));
      Pow2Monotonic(s.k + 1, n);
      ProductAtLeast(cpu, Pow2(n), cpu, Pow2(s.k + 1));
    }
  }

  /** The CPU select fits exactly when one halving more than it can hold is not found. */
  lemma CpuSelectFitsIff(part: Part, osc: nat, cpu: nat, mul0: nat, s: Setting, k0: nat)
    requires 0 < osc && 0 < cpu && Found(part, osc, cpu, s.mul, s.div, s.k, k0)
    requires osc * mul0 == cpu * s.div * Pow2(k0)
    ensures var n := part.maxSelect + 3;
      FitsSelect(part, s.CpuShift()) <==>
      k0 < n && (mul0 * Pow2(n - k0) > part.maxMul || cpu * Pow2(n) >= part.vcoMax)
  {
    hide Pow2, Found;
    HalvingsIff(part, osc, cpu, mul0, s, k0, part.maxSelect + 3);
  }

  lemma Doublings(osc: nat, cpu: nat, mul0: nat, mul: nat, div: nat, k0: nat, k: nat)
    requires 0 < osc && k0 <= k && osc * mul0 == cpu * div * Pow2(k0) && osc * mul == cpu * div * Pow2(k)
    ensures mul == mul0 * Pow2(k - k0)
  {
    hide Pow2;
    PowerSum(k0, k - k0);
    var a, p, q := cpu * div, Pow2(k0), Pow2(k - k0);
    assert osc * (mul0 * q) == a * p * q == a * (p * q) == osc * mul;
    CancelFactor(osc, mul, mul0 * q);
    CancelFactor(osc, mul0 * q, mul);
  }

  lemma {:induction false} PowerSum(m: nat, n: nat)
    ensures Pow2(m + n) == Pow2(m) * Pow2(n)
  {
    if n > 0 {
      PowerSum(m, n - 1);
      assert Pow2(m) * Pow2(n) == 2 * (Pow2(m) * Pow2(n - 1));
    }
  }

  /** With a 4-bit multiplier and a 3-bit select, the CPU select always fits: there are at most 7 halvings. */
  lemma CpuSelectFits(part: Part, osc: nat, cpu: nat, s: Setting, k0: nat)
    requires 0 < osc && 0 < cpu && Found(part, osc, cpu, s.mul, s.div, s.k, k0)
    requires part.maxMul <= 15 && 5 <= part.maxSelect
    ensures s.k <= 7 && FitsSelect(part, s.CpuShift())
  {
    hide FastestVco, Pow2, Realises;
    var mul0 := FirstMultiplier(osc, cpu, s.div, Pow2(k0));
    HalvingsIff(part, osc, cpu, mul0, s, k0, 8);
    AtMostFour(s.div, k0);
    Pow2Monotonic(4, 8 - k0);
    PowersOf4();
    ProductAtLeast(mul0, Pow2(8 - k0), 1, 16);
  }

  lemma FirstMultiplier(osc: nat, cpu: nat, div: nat, p: nat) returns (mul: nat)
    requires 0 < osc && 0 < cpu && 0 < div && 0 < p && div * p * cpu % osc == 0
    ensures 0 < mul && osc * mul == cpu * div * p
  {
    DivMod(div * p * cpu, osc);
    mul := div * p * cpu / osc;
    Rotated(cpu, div, p);
    NonZeroProduct(cpu, div, p);
  }

  lemma Rotated(a: nat, b: nat, c: nat)
    ensures b * c * a == a * b * c
  {
    assert b * c * a == a * (b * c);
  }

  lemma PowersOf4()
    ensures Pow2(4) == 16 && Pow2(5) == 32
  {
  }

  lemma AtMostFour(div: nat, k: nat)
    requires 0 < div && div * Pow2(k) < 32
    ensures k <= 4
  {
    hide Pow2;
    PowersOf4();
    ProductAtLeast(div, Pow2(k), 1, Pow2(k));
    if k >= 5 {
      Pow2Monotonic(5, k);
    }
  }

  lemma NonZeroProduct(a: nat, b: nat, c: nat)
    requires 0 < a && 0 < b && 0 < c
    ensures 0 < a * b * c
  {
    ProductAtLeast(a, b, 1, 1);
    ProductAtLeast(a * b, c, 1, 1);
  }

  /** The PBA search has left after n halvings exactly when it may leave at the n-th. */
  lemma PbaHalvingsIff(part: Part, pll: nat, pba: nat, k: nat, n: nat)
    requires FirstLeaves(part, pll, pba, k) && 1 <= n
    ensures k <= n <==> Halved(pll, n) < pba || (Halved(pll, n) == pba && pba <= part.pbaMax)
  {
    assert Halved(pll, 0) == pll;
    var _ := Leaves(part, pll, pba, n);
    if k < n {
      HalvedDecreases(pll, k, n);
    }
  }

  /** The PBA select fits exactly when the search may leave after as many halvings as it can hold. */
  lemma PbaSelectFitsIff(part: Part, pll: nat, pba: nat, k: nat)
    requires FirstLeaves(part, pll, pba, k)
    ensures var slowest := Halved(pll, part.maxSelect + 1);
      FitsSelect(part, k) <==> slowest < pba || (slowest == pba && pba <= part.pbaMax)
  {
    PbaHalvingsIff(part, pll, pba, k, part.maxSelect + 1);
  }

  /**
   The PBA clock is slowed down at least as much as the CPU clock, as sysclk.h (line 824) demands, exactly when the PLL
   runs at the CPU frequency, or the request is below twice the CPU frequency, or equals it but is above the limit, or
   exceeds it with the PLL at just twice the CPU frequency.
   */
  lemma PbaNotFasterIff(part: Part, osc: nat, cpu: nat, pba: nat, s: Setting, k0: nat)
    requires 0 < osc && Chosen(part, osc, cpu, pba, s, k0)
    ensures s.CpuShift() <= s.pba <==>
            || s.CpuShift() == 0
            || pba < 2 * cpu
            || (pba == 2 * cpu && part.pbaMax < pba)
            || (2 * cpu < pba && s.CpuShift() == 1)
  {
    hide Found;
    var pll, shift := s.PllFrequency(cpu), s.CpuShift();
    if shift == 1 {
      assert Pow2(1) == 2 && Halved(pll, 0) == pll;
      var _ := Leaves(part, pll, pba, 0);
    } else if shift > 1 {
      PbaHalvingsIff(part, pll, pba, s.pba, shift - 1);
      HalvedBack(cpu, shift);
    }
  }

  lemma HalvedBack(cpu: nat, shift: nat)
    requires 0 < shift
    ensures Halved(cpu * Pow2(shift), shift - 1) == 2 * cpu
  {
    assert Pow2(shift) == 2 * Pow2(shift - 1);
    hide Pow2, Quotient;
    TwiceOver(cpu, Pow2(shift - 1), Pow2(shift));
    QuotientOfProduct(Pow2(shift - 1), 2 * cpu);
  }

  lemma TwiceOver(a: nat, p: nat, q: nat)
    requires q == 2 * p
    ensures a * q == p * (2 * a)
  {
  }

  lemma QuotientOfProduct(d: nat, q: nat)
    requires 0 < d
    ensures Quotient(d * q, d) == q
  {
    ExactDivision(d * q, d, q);
  }

  // ----- The configuration

  /** The frequencies asked for, and those reported, in the same fields. */
  class FreqParam {
    var cpuF: nat
    var pbaF: nat
    var osc0F: nat

    constructor (cpuF: nat, pbaF: nat, osc0F: nat)
      ensures this.cpuF == cpuF && this.pbaF == pbaF && this.osc0F == osc0F
    {
      this.cpuF, this.pbaF, this.osc0F := cpuF, pbaF, osc0F;
    }
  }

  datatype Clock = SlowClock | Oscillator0 | Pll0

  class PowerManager {
    const part: Part
    var mainClock: Clock
    var pll: PllRegister
    var cksel: ClockSelect
    var waitState: nat

    constructor (part: Part)
      ensures this.part == part && mainClock == SlowClock
    {
      this.part, mainClock, waitState := part, SlowClock, 0;
      pll := PllRegister(0, 0, false, false);
      cksel := ClockSelect(Select(false, 0), Select(false, 0), Select(false, 0), Select(false, 0));
    }

    /** pm_pll_setup. */
    method PllSetup(mul: nat, div: nat)
      modifies this`pll
      ensures pll == PllRegister(Stored(mul, part.maxMul), Stored(div, part.maxDiv), false, false)
    {
      pll := PllRegister(Stored(mul, part.maxMul), Stored(div, part.maxDiv), false, false);
    }

    /** pm_pll_set_option. */
    method PllSetOption(lowRange: bool, half: bool)
      modifies this`pll
      ensures pll == old(pll).(lowRange := lowRange, half := half)
    {
      pll := pll.(lowRange := lowRange, half := half);
    }

    /** pm_cksel: the CPU clock runs with the HSB clock. */
    method SelectClocks(pba: Select, pbb: Select, hsb: Select)
      modifies this`cksel
      ensures var cpu := StoredSelect(part, hsb);
        cksel == ClockSelect(cpu, cpu, StoredSelect(part, pba), StoredSelect(part, pbb))
    {
      var cpu := StoredSelect(part, hsb);
      cksel := ClockSelect(cpu, cpu, StoredSelect(part, pba), StoredSelect(part, pbb));
    }
  }

  /**
   pm_configure_clocks. It succeeds exactly when the request is solvable or is the oscillator's own frequency. It then
   reports exactly the requested CPU frequency, from the fastest VCO below the limit that can give it; and the registers
   run CPU and PBA at the frequencies reported exactly as far as the setting fits their fields.
   */
  method ConfigureClocks(pm: PowerManager, param: FreqParam) returns (ok: bool, ghost s: Setting, ghost k0: nat)
    requires 0 < param.osc0F
    requires param.cpuF != param.osc0F ==> InRange(pm.part, param.osc0F, param.cpuF)
    modifies pm, param
    ensures ok <==> old(param.cpuF) == old(param.osc0F) || Solvable(pm.part, old(param.osc0F), old(param.cpuF))
    ensures param.cpuF == old(param.cpuF) && param.osc0F == old(param.osc0F)
    ensures !ok ==> param.pbaF == old(param.pbaF)
    ensures pm.mainClock == if ok && param.cpuF != param.osc0F then Pll0 else Oscillator0
    ensures pm.mainClock == Oscillator0 && ok ==> param.pbaF == param.cpuF
    ensures pm.mainClock == Oscillator0 ==>
      pm.pll == old(pm.pll) && pm.cksel == old(pm.cksel) && pm.waitState == old(pm.waitState)
    ensures pm.mainClock == Pll0 ==>
      && Chosen(pm.part, param.osc0F, param.cpuF, old(param.pbaF), s, k0)
      && pm.pll == PllFor(pm.part, param.cpuF, s) && pm.cksel == SelectFor(pm.part, s)
      && param.pbaF == Halved(s.PllFrequency(param.cpuF), s.pba)
      && pm.waitState == (if param.cpuF > pm.part.zeroWaitMax then 1 else 0)
    ensures pm.mainClock == Pll0 ==>
      && (CpuRunsAt(param.osc0F, param.cpuF, pm.pll, pm.cksel) <==>
          s.div <= pm.part.maxDiv && FitsSelect(pm.part, s.CpuShift()))
      && (Halved(s.PllFrequency(param.cpuF), pm.cksel.pba.Shift()) == param.pbaF <==> FitsSelect(pm.part, s.pba))
    // From the registers alone: the option for a slow PLL is set exactly when the PLL is slower than the VCO range, the
    // PBA divides what comes out of the PLL, and PBB and HSB run with the CPU.
    ensures pm.mainClock == Pll0 && s.div <= pm.part.maxDiv ==>
      && 0 < pm.pll.div
      && (pm.pll.lowRange <==> PllOutput(param.osc0F, pm.pll) < pm.part.vcoMin)
      && (Halved(PllOutput(param.osc0F, pm.pll), pm.cksel.pba.Shift()) == param.pbaF <==>
          FitsSelect(pm.part, s.pba))
    ensures pm.mainClock == Pll0 ==> pm.cksel.pbb == pm.cksel.hsb == pm.cksel.cpu
  {
    assert param.cpuF != param.osc0F ==> 0 < param.cpuF;
    hide Solvable, Pow2, InRange, Halved, Found, Stored, FirstLeaves, CpuRunsAt, PllOutput;
    s, k0 := Setting(0, 0, 0, 0), 0;
    var part, cpu, osc, pba := pm.part, param.cpuF, param.osc0F, param.pbaF;
    pm.mainClock := Oscillator0;
    if cpu == osc {
      param.cpuF, param.pbaF := osc, osc;
      ok := true;
      return;
    }
    var mul, div, k;
    ok, mul, div, k, k0 := Search(part, osc, cpu);
    if !ok {
      return;
    }
    PllOfSetting(part, osc, cpu, mul, div, k, k0);
    var half, shift := false, k;
    if shift != 0 {
      shift, half := shift - 1, true;
    }
    var pll := osc * mul / (div * if half then 2 else 1);
    param.cpuF := Quotient(pll, Pow2(shift));
    pm.PllSetup(mul - 1, div);
    pm.PllSetOption(pll < part.vcoMin, half);
    var shiftPba := DividePba(part, pll, pba);
    param.pbaF := Halved(pll, shiftPba);
    pm.SelectClocks(Encode(shiftPba), Encode(shift), Encode(shift));
    pm.waitState := if param.cpuF > part.zeroWaitMax then 1 else 0;
    pm.mainClock := Pll0;
    s := Setting(mul, div, k, shiftPba);
    CpuRunsIff(part, osc, cpu, s, k0);
    PbaRunsIff(part, pll, pba, s);
    if s.div <= part.maxDiv {
      PllOutputOf(part, osc, cpu, s, k0);
    }
  }

  lemma PllOfSetting(part: Part, osc: nat, cpu: nat, mul: nat, div: nat, k: nat, k0: nat)
    requires 0 < osc && 0 < cpu && Found(part, osc, cpu, mul, div, k, k0)
    ensures 0 < mul && 0 < div
    ensures var pll := osc * mul / (div * if k > 0 then 2 else 1);
      var shift := if k > 0 then k - 1 else 0;
      pll == cpu * Pow2(shift) && Quotient(pll, Pow2(shift)) == cpu
  {
    PllIsExact(osc, cpu, mul, div, k);
    assert cpu / 1 == cpu;
  }

  // ----- Settings that do not fit

  /** From 17 MHz to 15 MHz the search finds divider 17, and no setting of the fields reaches the frequency. */
  lemma DividerLost(s: Setting, k0: nat)
    requires Found(UC3, 17_000_000, 15_000_000, s.mul, s.div, s.k, k0)
    ensures InRange(UC3, 17_000_000, 15_000_000) && Solvable(UC3, 17_000_000, 15_000_000)
    ensures s.div == 17 && PllFor(UC3, 15_000_000, s).div == 1
    ensures !CpuRunsAt(17_000_000, 15_000_000, PllFor(UC3, 15_000_000, s), SelectFor(UC3, s))
  {
    var osc, cpu := 17_000_000, 15_000_000;
    var d := s.div * Pow2(k0);
    assert cpu * 17 == osc * 15;
    assert 17 * cpu % osc == 0 && d <= 17;
    LeastIs17(d);
    EvenProduct(s.div, k0);
    CpuRunsIff(UC3, osc, cpu, s, k0);
  }

  lemma LeastIs17(d: nat)
    requires 1 <= d <= 17 && d * 15_000_000 % 17_000_000 == 0
    ensures d == 17
  {
  }

  lemma EvenProduct(a: nat, k: nat)
    ensures k > 0 ==> a * Pow2(k) % 2 == 0
    ensures k == 0 ==> a * Pow2(k) == a
  {
    if k > 0 {
      assert a * Pow2(k) == 2 * (a * Pow2(k - 1));
    }
  }

  /** From 12 MHz to 66 MHz with a PBA request of 100 kHz: 64453 Hz is reported, and the PBA runs at 16.5 MHz. */
  lemma PbaSelectLost(s: Setting, k0: nat)
    requires Chosen(UC3, 12_000_000, 66_000_000, 100_000, s, k0)
    ensures InRange(UC3, 12_000_000, 66_000_000) && Solvable(UC3, 12_000_000, 66_000_000)
    ensures s.PllFrequency(66_000_000) == 66_000_000 && s.pba == 10 && Halved(66_000_000, s.pba) == 64_453
    ensures SelectFor(UC3, s).pba == Select(true, 1)
    ensures Halved(66_000_000, SelectFor(UC3, s).pba.Shift()) == 16_500_000
  {
    var osc, cpu, d := 12_000_000, 66_000_000, s.div * Pow2(k0);
    assert cpu * 2 == osc * 11;
    assert 2 * cpu % osc == 0 && d <= 2;
    assert d * cpu % osc == 0 && d == 2;
    OddPartOf2(s.div, k0);
    assert osc * 11 == cpu * s.div * Pow2(k0);
    HalvingsIff(UC3, osc, cpu, 11, s, k0, 2);
    SmallPowers();
    PbaHalvingsIff(UC3, cpu, 100_000, s.pba, 9);
    PbaHalvingsIff(UC3, cpu, 100_000, s.pba, 10);
  }

  lemma SmallPowers()
    ensures Pow2(0) == 1 && Pow2(1) == 2 && Pow2(2) == 4 && Pow2(3) == 8 && Pow2(4) == 16
    ensures Pow2(7) == 128 && Pow2(9) == 512 && Pow2(10) == 1024
  {
    assert Pow2(4) == 16 && Pow2(7) == 8 * Pow2(4) && Pow2(10) == 8 * Pow2(7);
  }

  lemma OddPartOf2(div: nat, k: nat)
    requires div % 2 == 1 && div * Pow2(k) == 2
    ensures div == 1 && k == 1
  {
    AtMostFour(div, k);
    SmallPowers();
    assert k in {0, 1, 2, 3, 4};
  }

  /** From 16 MHz to 1 MHz there are 7 halvings. */
  lemma SevenHalvings(part: Part, s: Setting, k0: nat)
    requires part.maxMul == UC3.maxMul && part.vcoMax == UC3.vcoMax
    requires Found(part, 16_000_000, 1_000_000, s.mul, s.div, s.k, k0)
    ensures s.k == 7
  {
    var osc, cpu, d := 16_000_000, 1_000_000, s.div * Pow2(k0);
    assert 16 * cpu % osc == 0 && d <= 16;
    assert d * cpu % osc == 0 && d == 16;
    OddPartOf16(s.div, k0);
    SmallPowers();
    assert osc * 1 == cpu * s.div * Pow2(k0);
    HalvingsIff(part, osc, cpu, 1, s, k0, 7);
    HalvingsIff(part, osc, cpu, 1, s, k0, 8);
  }

  lemma OddPartOf16(div: nat, k: nat)
    requires div % 2 == 1 && div * Pow2(k) == 16
    ensures div == 1 && k == 4
  {
    AtMostFour(div, k);
    SmallPowers();
    assert k in {0, 1, 2, 3, 4};
  }

  /** With a 2-bit select, the CPU does not run at 1 MHz then. */
  lemma CpuSelectLost(s: Setting, k0: nat)
    requires Found(UC3.(maxSelect := 3), 16_000_000, 1_000_000, s.mul, s.div, s.k, k0)
    ensures var part := UC3.(maxSelect := 3);
      SelectFor(part, s).cpu == Select(true, 1) &&
      !CpuRunsAt(16_000_000, 1_000_000, PllFor(part, 1_000_000, s), SelectFor(part, s))
  {
    var part := UC3.(maxSelect := 3);
    SevenHalvings(part, s, k0);
    CpuRunsIff(part, 16_000_000, 1_000_000, s, k0);
  }

  /** With a PBA request of 4 MHz, the PBA is then slowed down less than the CPU. */
  lemma PbaFasterThanCpu(s: Setting, k0: nat)
    requires Chosen(UC3, 16_000_000, 1_000_000, 4_000_000, s, k0)
    ensures s.pba < s.CpuShift()
  {
    SevenHalvings(UC3, s, k0);
    PbaNotFasterIff(UC3, 16_000_000, 1_000_000, 4_000_000, s, k0);
  }
}
