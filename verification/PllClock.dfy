/** The clock solver pm_configure_clocks of pm_conf_clocks.c: a PLL multiplier and divider, a CPU prescaler
    and a peripheral-bus prescaler for requested frequencies. */
module PllClock {
  import opened Arith

  const UINT: nat := 0x1_0000_0000

  // The device header's limits.
  datatype Device = Device(maxMul: nat, vcoRange0Min: nat, vcoRange0Max: nat, pbaMax: nat)

  // The frequencies for which no intermediate product leaves an unsigned 32-bit word.
  predicate NoOverflow(cpu: nat, osc: nat, dev: Device) {
    31 * osc < UINT && 31 * cpu < UINT && 2 * osc * dev.maxMul < UINT
  }

  // The PLL can multiply osc by m and divide it by d to reach the CPU frequency exactly.
  predicate Ratio(cpu: nat, osc: nat, d: nat, m: nat) { cpu * d == osc * m }

  predicate Divides(cpu: nat, osc: nat, d: nat)
    requires osc > 0
  {
    d * cpu % osc == 0
  }

  ghost predicate Reachable(cpu: nat, osc: nat, dev: Device) {
    exists d: nat, m: nat :: 1 <= d <= 31 && 1 <= m <= dev.maxMul && Ratio(cpu, osc, d, m)
  }

  function PllDivider(div: nat, div2: bool): nat { if div2 then div * 2 else div }

  // A frequency divided by two k times.
  function Halved(f: nat, k: nat): nat { Quot(f, Pow2(k)) }

  // What the peripheral-bus search chooses: for a request within the bus limit that the PLL reaches, the
  // largest prescaled frequency not above it; otherwise the largest one below it that prescales at all.
  ghost predicate PbaChoice(r: nat, pll: nat, pba: nat, pbaMax: nat) {
    if pba <= pbaMax && pba <= pll then
      r <= pba && (exists k: nat :: r == Halved(pll, k)) &&
      forall k: nat :: Halved(pll, k) <= pba ==> Halved(pll, k) <= r
    else
      r < pba && (exists k: nat :: 1 <= k && r == Halved(pll, k)) &&
      forall k: nat :: 1 <= k && Halved(pll, k) < pba ==> Halved(pll, k) <= r
  }

  // The frequencies that the hardware derives from the register fields.
  function PllFreq(osc: nat, pllMul: nat, pllDiv: nat, div2: bool): nat
    requires pllDiv > 0
  {
    Quot(osc * (pllMul + 1), PllDivider(pllDiv, div2))
  }

  function Prescaled(f: nat, on: bool, sel: nat): nat {
    if on then Halved(f, sel + 1) else f
  }

  // The multiplier cannot be doubled without leaving its field, or the oscillator range.
  predicate Raised(osc: nat, mul: nat, div: nat, dev: Device)
    requires div > 0
  {
    2 * mul > dev.maxMul || Quot(osc * 2 * mul, div) >= dev.vcoRange0Max
  }

  // The multiplier and the divider written, from the first divider d0 that works and its multiplier: all powers of
  // two move out of the divider, and the multiplier is doubled as often as the frequency range and its field allow.
  ghost predicate Solved(cpu: nat, osc: nat, dev: Device, d0: nat, mul: nat, div: nat, moved: nat, doubled: nat)
    requires osc > 0
  {
    && 1 <= d0 <= 31 && Divides(cpu, osc, d0) && (forall d :: 1 <= d < d0 ==> !Divides(cpu, osc, d))
    && div % 2 == 1 && d0 == div * Pow2(moved) && mul == Quot(cpu * d0, osc) * Pow2(doubled)
    && mul <= dev.maxMul && Raised(osc, mul, div, dev) && (doubled > 0 ==> Quot(osc * mul, div) < dev.vcoRange0Max)
  }

  // The PLL's own halving is on if any power of two has left the divider or entered the multiplier.
  ghost predicate IsSolution(cpu: nat, osc: nat, dev: Device, mul: nat, div: nat, div2: bool)
    requires osc > 0
  {
    exists d0, moved, doubled :: Solved(cpu, osc, dev, d0, mul, div, moved, doubled) && div2 == (moved + doubled > 0)
  }

  class FreqParam {
    var cpuF: nat
    var pbaF: nat
    const osc0F: nat
  }

  // The register fields that the solver programs.
  class PowerManager {
    var onPll: bool
    var pllMul: nat
    var pllDiv: nat
    var pllDiv2: bool
    var pllOpt: bool
    var cpuDiv: bool
    var cpuSel: nat
    var pbaDiv: bool
    var pbaSel: nat

    // The registers, given the oscillator, run the PLL inside its limits and yield these frequencies.
    ghost predicate Runs(osc: nat, dev: Device, cpu: nat, pba: nat, request: nat)
      requires osc > 0
      reads this
    {
      onPll && pllMul + 1 <= dev.maxMul && 1 <= pllDiv <= 31
      && IsSolution(cpu, osc, dev, pllMul + 1, pllDiv, pllDiv2)
      && var pll := PllFreq(osc, pllMul, pllDiv, pllDiv2);
         && pllOpt == (pll < dev.vcoRange0Min)
         && Prescaled(pll, cpuDiv, cpuSel) == cpu
         && Prescaled(pll, pbaDiv, pbaSel) == pba
         && PbaChoice(pba, pll, request, dev.pbaMax)
    }

    method ConfigureClocks(param: FreqParam, dev: Device) returns (ok: bool)
      requires param.cpuF > 0 && param.osc0F > 0 && dev.pbaMax > 0
      requires param.pbaF > 0 || param.cpuF == param.osc0F
      requires NoOverflow(param.cpuF, param.osc0F, dev)
      modifies this, param
      ensures ok <==> old(param.cpuF) == param.osc0F || Reachable(old(param.cpuF), param.osc0F, dev)
      ensures param.cpuF == old(param.cpuF)
      ensures !ok || param.cpuF == param.osc0F ==> !onPll
      ensures !ok ==> param.pbaF == old(param.pbaF)
      ensures ok && param.cpuF == param.osc0F ==> param.pbaF == param.osc0F
      ensures ok && param.cpuF != param.osc0F ==>
        Runs(param.osc0F, dev, param.cpuF, param.pbaF, old(param.pbaF))
    {
      hide Halved, PbaChoice, Reachable, Ratio, Divides, Quot, Raised, Pow2, IsSolution;
      var cpu, osc := param.cpuF, param.osc0F;
      onPll := false;
      if cpu == osc {
        param.pbaF := osc;
        return true;
      }
      var div := FindDivider(cpu, osc);
      FoundExactly(cpu, osc, div, dev);
      if div == 32 {
        return false;
      }
      var mul := Quot(cpu * div, osc);
      if mul > dev.maxMul {
        return false;
      }
      ghost var div0, mul0 := div, mul;
      var div2Cpu: nat;
      div, div2Cpu := HalveDivider(div);
      ghost var moved := div2Cpu;
      mul, div2Cpu := RaiseVco(osc, mul, div, div2Cpu, dev);
      SolvedHere(cpu, osc, dev, div0, mul, div, moved, div2Cpu - moved);
      SettingExact(cpu, osc, div0, mul0, div, mul, div2Cpu);
      var div2En := div2Cpu != 0;
      if div2Cpu != 0 {
        div2Cpu := div2Cpu - 1;
      }
      PllExact(cpu, osc, div, mul, div2Cpu, div2En);
      PllFits(osc, mul, dev, PllDivider(div, div2En));
      PllPositive(cpu, div2Cpu);
      var pllFreq := Quot(osc * mul, PllDivider(div, div2En));
      param.cpuF := Halved(pllFreq, div2Cpu);
      pllMul, pllDiv, pllOpt, pllDiv2 := mul - 1, div, pllFreq < dev.vcoRange0Min, div2En;
      var div2Pba := FindPba(pllFreq, param.pbaF, dev.pbaMax);
      param.pbaF := Halved(pllFreq, div2Pba);
      cpuDiv, cpuSel := div2Cpu != 0, if div2Cpu != 0 then div2Cpu - 1 else 0;
      pbaDiv, pbaSel := div2Pba != 0, if div2Pba != 0 then div2Pba - 1 else 0;
      HalvedNone(pllFreq);
      onPll := true;
      ok := true;
    }
  }

  // The first of 1..31 that clears the remainder, or 32.
  method FindDivider(cpu: nat, osc: nat) returns (div: nat)
    requires osc > 0
    ensures 1 <= div <= 32
    ensures div < 32 ==> Divides(cpu, osc, div)
    ensures forall d :: 1 <= d < div ==> !Divides(cpu, osc, d)
  {
    hide Divides;
    var rest := cpu % osc;
    div := 1;
    while div < 32
      invariant 1 <= div <= 32
      invariant forall d :: 1 <= d < div ==> !Divides(cpu, osc, d)
    {
      RestSuffices(cpu, osc, div);
      if div * rest % osc == 0 {
        return;
      }
      div := div + 1;
    }
  }

  lemma Pow2Step(n: nat)
    ensures Pow2(0) == 1 && Pow2(n + 1) == 2 * Pow2(n)
  {
  }

  lemma DoubleOnce(osc: nat, mul: nat, mul0: nat, p: nat)
    requires mul == mul0 * p
    ensures 2 * mul == mul0 * (2 * p) && osc * 2 * mul == osc * (2 * mul)
  {
  }

  lemma SolvedHere(cpu: nat, osc: nat, dev: Device, d0: nat, mul: nat, div: nat, moved: nat, doubled: nat)
    requires osc > 0 && 1 <= d0 <= 31 && Divides(cpu, osc, d0) && forall d :: 1 <= d < d0 ==> !Divides(cpu, osc, d)
    requires div % 2 == 1 && d0 == div * Pow2(moved) && mul == Quot(cpu * d0, osc) * Pow2(doubled)
    requires mul <= dev.maxMul && Raised(osc, mul, div, dev)
    requires doubled > 0 ==> Quot(osc * mul, div) < dev.vcoRange0Max
    ensures IsSolution(cpu, osc, dev, mul, div, moved + doubled > 0)
  {
    hide Raised, Quot, Divides, Pow2;
    assert Solved(cpu, osc, dev, d0, mul, div, moved, doubled);
  }

  /** There is only one solution: the registers of the PLL follow from the request. */
  lemma SolutionUnique(cpu: nat, osc: nat, dev: Device, mul: nat, div: nat, div2: bool,
                       mul': nat, div': nat, div2': bool)
    requires osc > 0 && IsSolution(cpu, osc, dev, mul, div, div2) && IsSolution(cpu, osc, dev, mul', div', div2')
    ensures mul == mul' && div == div' && div2 == div2'
  {
    hide Quot, Pow2, Divides, Raised;
    var d0, moved, doubled :| Solved(cpu, osc, dev, d0, mul, div, moved, doubled) && div2 == (moved + doubled > 0);
    var d0', moved', doubled' :|
      Solved(cpu, osc, dev, d0', mul', div', moved', doubled') && div2' == (moved' + doubled' > 0);
    assert d0 == d0';
    OddPart(div, moved, div', moved');
    var mul0 := Quot(cpu * d0, osc);
    NotDoubledFurther(osc, dev, mul0, div, doubled, doubled');
    NotDoubledFurther(osc, dev, mul0, div, doubled', doubled);
  }

  lemma {:induction false} OddPart(a: nat, m: nat, b: nat, n: nat)
    requires a % 2 == b % 2 == 1 && a * Pow2(m) == b * Pow2(n)
    ensures a == b && m == n
  {
    if m > 0 {
      TwiceProduct(a, Pow2(m - 1));
    }
    if n > 0 {
      TwiceProduct(b, Pow2(n - 1));
    }
    hide Pow2;
    Pow2Step(if m > 0 then m - 1 else 0);
    Pow2Step(if n > 0 then n - 1 else 0);
    if m > 0 && n > 0 {
      OddPart(a, m - 1, b, n - 1);
    }
  }

  lemma TwiceProduct(a: nat, p: nat)
    ensures a * (2 * p) == 2 * (a * p) && a * (2 * p) % 2 == 0
  {
    assert a * (2 * p) == 2 * (a * p);
  }

  // Where the doubling stopped, it could not have gone on.
  lemma NotDoubledFurther(osc: nat, dev: Device, mul0: nat, div: nat, n: nat, m: nat)
    requires div > 0 && Raised(osc, mul0 * Pow2(n), div, dev) && mul0 * Pow2(m) <= dev.maxMul
    requires m > 0 ==> Quot(osc * (mul0 * Pow2(m)), div) < dev.vcoRange0Max
    ensures m <= n
  {
    if m > n {
      Pow2Monotone(n + 1, m);
      hide Quot, Pow2;
      Pow2Step(n);
      MulMono(2 * Pow2(n), Pow2(m), mul0);
      TwiceProduct(mul0, Pow2(n));
      NotFurther(osc, dev, mul0 * Pow2(n), div, mul0 * Pow2(m));
    }
  }

  lemma NotFurther(osc: nat, dev: Device, mul: nat, div: nat, mul': nat)
    requires div > 0 && Raised(osc, mul, div, dev) && 2 * mul <= mul' <= dev.maxMul
    ensures Quot(osc * mul', div) >= dev.vcoRange0Max
  {
    hide Quot;
    MulMono(2 * mul, mul', osc);
    assert osc * (2 * mul) == osc * 2 * mul;
    QuotMono(osc * 2 * mul, osc * mul', div);
  }

  lemma QuotMono(v: nat, w: nat, p: nat)
    requires p > 0 && v <= w
    ensures Quot(v, p) <= Quot(w, p)
  {
    hide Quot;
    assert (Quot(w, p) + 1) * p == Quot(w, p) * p + p;
    QuotBelow(v, p, Quot(w, p));
  }

  // Powers of two leave the PLL divider.
  method HalveDivider(div0: nat) returns (div: nat, shift: nat)
    requires div0 > 0
    ensures div % 2 == 1 && div <= div0 && div0 == div * Pow2(shift)
  {
    div, shift := div0, 0;
    while div % 2 == 0
      invariant 0 < div <= div0 && div0 == div * Pow2(shift)
      decreases div
    {
      MoveTwo(div, Pow2(shift));
      div, shift := div / 2, shift + 1;
    }
  }

  // The PLL runs as fast as its multiplier and its frequency range allow.
  method RaiseVco(osc: nat, mul0: nat, div: nat, shift0: nat, dev: Device) returns (mul: nat, shift: nat)
    requires div > 0 && 1 <= mul0 <= dev.maxMul
    ensures shift >= shift0 && mul == mul0 * Pow2(shift - shift0)
    ensures 1 <= mul <= dev.maxMul
    ensures Raised(osc, mul, div, dev)
    ensures shift > shift0 ==> Quot(osc * mul, div) < dev.vcoRange0Max
  {
    hide Quot, Pow2;
    Pow2Step(0);
    mul, shift := mul0, shift0;
    while Quot(osc * 2 * mul, div) < dev.vcoRange0Max
      invariant shift >= shift0 && mul == mul0 * Pow2(shift - shift0)
      invariant 1 <= mul <= dev.maxMul
      invariant shift > shift0 ==> Quot(osc * mul, div) < dev.vcoRange0Max
      decreases dev.maxMul - mul
    {
      if 2 * mul > dev.maxMul {
        break;
      }
      DoubleOnce(osc, mul, mul0, Pow2(shift - shift0));
      Pow2Step(shift - shift0);
      mul, shift := 2 * mul, shift + 1;
    }
  }

  // The prescaler of the peripheral bus; the shift stays inside a 32-bit word.
  method FindPba(pll: nat, pba: nat, pbaMax: nat) returns (shift: nat)
    requires 0 < pll < UINT && pba > 0 && pbaMax > 0
    ensures shift <= 31
    ensures PbaChoice(Halved(pll, shift), pll, pba, pbaMax)
  {
    hide Halved, PbaChoice;
    shift := 0;
    var rest := pll;
    HalvedNone(pll);
    while rest > pbaMax || rest != pba
      invariant rest == Halved(pll, shift) && shift <= 31
      invariant shift > 0 ==> rest >= pba
      decreases rest
    {
      HalvedNext(pll, shift);
      if shift > 0 {
        HalvedBig(pll, shift);
      }
      shift := shift + 1;
      rest := Halved(pll, shift);
      if rest < pba {
        PbaBelow(pll, pba, pbaMax, shift);
        return;
      }
    }
    PbaReached(pll, pba, pbaMax, shift);
  }

  // ----- The divider.

  lemma RestSuffices(cpu: nat, osc: nat, d: nat)
    requires osc > 0
    ensures d * (cpu % osc) % osc == 0 <==> Divides(cpu, osc, d)
  {
    var q, r := cpu / osc, cpu % osc;
    assert cpu == q * osc + r;
    QuotBounds(cpu, osc);
    RestScaled(q, osc, r, d);
  }

  lemma RestScaled(q: nat, osc: nat, r: nat, d: nat)
    requires osc > 0
    ensures d * (q * osc + r) % osc == d * r % osc
  {
    var v := d * r;
    QuotBounds(v, osc);
    var a: nat, b: nat := v / osc, v % osc;
    Distribute(d, q, osc, r);
    AddScaled(d * q, a, osc);
    DivUnique(d * (q * osc + r), d * q + a, osc, b);
  }

  lemma Distribute(d: nat, q: nat, osc: nat, r: nat)
    ensures d * (q * osc + r) == d * q * osc + d * r
  {
  }

  lemma AddScaled(x: nat, a: nat, osc: nat)
    ensures x * osc + a * osc == (x + a) * osc
  {
  }

  // The first divider succeeds exactly when some divider and multiplier do.
  lemma FoundExactly(cpu: nat, osc: nat, div: nat, dev: Device)
    requires cpu > 0 && osc > 0 && 1 <= div <= 32
    requires div < 32 ==> Divides(cpu, osc, div)
    requires forall d :: 1 <= d < div ==> !Divides(cpu, osc, d)
    ensures div < 32 ==> 1 <= Quot(cpu * div, osc) && osc * (Quot(cpu * div, osc)) == cpu * div
    ensures div < 32 && Quot(cpu * div, osc) <= dev.maxMul <==> Reachable(cpu, osc, dev)
  {
    if div < 32 {
      FoundQuotient(cpu, osc, div);
      assert Quot(cpu * div, osc) <= dev.maxMul ==> Ratio(cpu, osc, div, Quot(cpu * div, osc));
    }
    if Reachable(cpu, osc, dev) {
      var d: nat, m: nat :| 1 <= d <= 31 && 1 <= m <= dev.maxMul && Ratio(cpu, osc, d, m);
      RatioDivides(cpu, osc, d, m);
      assert div <= d;
      MulMono(div, d, cpu);
      QuotientBelow(cpu * div, osc, m);
    }
  }

  lemma FoundQuotient(cpu: nat, osc: nat, div: nat)
    requires cpu > 0 && osc > 0 && 1 <= div && Divides(cpu, osc, div)
    ensures 1 <= Quot(cpu * div, osc) && osc * Quot(cpu * div, osc) == cpu * div
  {
    var v := cpu * div;
    assert v == div * cpu;
    assert v == v / osc * osc + v % osc;
    MulMono(1, div, cpu);
    QuotBounds(v, osc);
    QuotUnique(v, v / osc, osc);
  }

  lemma RatioDivides(cpu: nat, osc: nat, d: nat, m: nat)
    requires osc > 0 && Ratio(cpu, osc, d, m)
    ensures Divides(cpu, osc, d)
  {
    DivUnique(d * cpu, m, osc, 0);
  }

  lemma QuotientBelow(v: nat, osc: nat, m: nat)
    requires osc > 0 && v <= osc * m
    ensures Quot(v, osc) <= m
  {
    assert (m + 1) * osc == osc * m + osc;
    QuotBelow(v, osc, m);
  }

  // The multiplier after n passes of the VCO loop, as long as it goes on.
  function Doubled(mul: nat, n: nat): nat {
    if n == 0 then mul else 2 * Doubled(mul, n - 1)
  }

  /** For a CPU request of zero the divider search succeeds at once with multiplier zero, and then the VCO loop never
      ends: at every pass its guard holds, the break is not taken, and the multiplier stays zero. */
  lemma {:induction false} ZeroRequestLoops(osc: nat, dev: Device, n: nat)
    requires osc > 0 && dev.vcoRange0Max > 0
    ensures Divides(0, osc, 1) && Quot(0 * 1, osc) == 0
    ensures Doubled(0, n) == 0 && !Raised(osc, Doubled(0, n), 1, dev)
  {
    QuotUnique(0, 0, osc);
    QuotUnique(0, 0, 1);
    ModSmall(0, osc);
    if n != 0 {
      ZeroRequestLoops(osc, dev, n - 1);
    }
  }

  // ----- The CPU frequency.

  lemma MoveTwo(div: nat, p: nat)
    requires div % 2 == 0
    ensures div * p == div / 2 * (2 * p)
  {
    assert div == div / 2 * 2;
  }

  // Moving powers of two between the divider, the multiplier and the prescaler keeps the CPU frequency.
  lemma SettingExact(cpu: nat, osc: nat, div0: nat, mul0: nat, div: nat, mul: nat, shift: nat)
    requires osc * mul0 == cpu * div0
    requires exists s :: 0 <= s <= shift && div0 == div * Pow2(s) && mul == mul0 * Pow2(shift - s)
    ensures osc * mul == cpu * div * Pow2(shift)
  {
    var s :| 0 <= s <= shift && div0 == div * Pow2(s) && mul == mul0 * Pow2(shift - s);
    Pow2Add(s, shift - s);
    Regroup(cpu, osc, div, mul0, Pow2(s), Pow2(shift - s));
  }

  lemma Regroup(cpu: nat, osc: nat, div: nat, mul0: nat, p: nat, q: nat)
    requires osc * mul0 == cpu * (div * p)
    ensures osc * (mul0 * q) == cpu * div * (p * q)
  {
    calc {
      osc * (mul0 * q);
      osc * mul0 * q;
      cpu * (div * p) * q;
      cpu * div * p * q;
      cpu * div * (p * q);
    }
  }

  lemma PllExact(cpu: nat, osc: nat, div: nat, mul: nat, shift: nat, div2: bool)
    requires div > 0
    requires osc * mul == cpu * div * Pow2(if div2 then shift + 1 else shift)
    ensures Quot(osc * mul, PllDivider(div, div2)) == cpu * Pow2(shift)
    ensures Halved(cpu * Pow2(shift), shift) == cpu
  {
    hide Quot;
    var p := Pow2(shift);
    if div2 {
      assert cpu * div * (2 * p) == cpu * p * (div * 2);
    } else {
      assert cpu * div * p == cpu * p * div;
    }
    QuotUnique(osc * mul, cpu * p, PllDivider(div, div2));
    QuotUnique(cpu * p, cpu, p);
  }

  lemma PllPositive(cpu: nat, shift: nat)
    requires cpu > 0
    ensures cpu * Pow2(shift) > 0
  {
    MulMono(1, cpu, Pow2(shift));
  }

  lemma PllFits(osc: nat, mul: nat, dev: Device, d: nat)
    requires d > 0 && mul <= dev.maxMul && 2 * osc * dev.maxMul < UINT
    ensures Quot(osc * mul, d) < UINT
  {
    MulMono(mul, dev.maxMul, osc);
    assert 2 * osc * dev.maxMul == 2 * (osc * dev.maxMul);
    MulMono(1, d, osc * mul);
    QuotientBelow(osc * mul, d, osc * mul);
  }

  // ----- The peripheral bus.

  lemma HalvedNone(f: nat)
    ensures Halved(f, 0) == f
  {
  }

  lemma HalvedNext(f: nat, k: nat)
    ensures Halved(f, k + 1) == Halved(f, k) / 2
  {
    hide Quot;
    var p, q := Pow2(k), Halved(f, k);
    var a, b := q / 2, q % 2;
    assert q * p == (a * 2 + b) * p == a * (2 * p) + b * p;
    MulMono(b, 1, p);
    QuotUnique(f, a, 2 * p);
  }

  lemma {:induction false} HalvedAntitone(f: nat, k: nat, l: nat)
    requires k <= l
    ensures Halved(f, l) <= Halved(f, k)
  {
    hide Halved;
    if k < l {
      HalvedAntitone(f, k, l - 1);
      HalvedNext(f, l - 1);
    }
  }

  lemma HalvedBig(f: nat, k: nat)
    requires f < UINT && Halved(f, k) >= 2
    ensures k <= 30
  {
    hide Quot;
    MulMono(2, Halved(f, k), Pow2(k));
    Pow2ThirtyTwo();
    assert Pow2(32) == 2 * Pow2(31);
    if k > 30 {
      Pow2Monotone(31, k);
      assert false;
    }
  }

  lemma PbaReached(pll: nat, pba: nat, pbaMax: nat, shift: nat)
    requires Halved(pll, shift) == pba <= pbaMax
    ensures PbaChoice(Halved(pll, shift), pll, pba, pbaMax)
  {
    hide Halved;
    HalvedAntitone(pll, 0, shift);
    HalvedNone(pll);
  }

  lemma PbaBelow(pll: nat, pba: nat, pbaMax: nat, shift: nat)
    requires shift > 0 && Halved(pll, shift) < pba
    requires shift > 1 ==> Halved(pll, shift - 1) >= pba
    requires Halved(pll, shift - 1) > pbaMax || Halved(pll, shift - 1) != pba
    ensures PbaChoice(Halved(pll, shift), pll, pba, pbaMax)
  {
    hide Halved;
    HalvedNone(pll);
    forall k: nat | k < shift
      ensures Halved(pll, shift - 1) <= Halved(pll, k)
    {
      HalvedAntitone(pll, k, shift - 1);
    }
    forall k: nat | shift <= k
      ensures Halved(pll, k) <= Halved(pll, shift)
    {
      HalvedAntitone(pll, shift, k);
    }
  }

  /** For a request within the bus limit, the chosen frequency is the best one not above the request exactly when the
      PLL reaches the request; below that it is half the PLL frequency. */
  lemma PbaBest(r: nat, pll: nat, pba: nat, pbaMax: nat)
    requires 0 < pll && 0 < pba <= pbaMax && PbaChoice(r, pll, pba, pbaMax)
    ensures r <= pba
    ensures (forall k: nat :: Halved(pll, k) <= pba ==> Halved(pll, k) <= r) <==> pba <= pll
    ensures pll < pba ==> r == pll / 2
  {
    hide Halved;
    HalvedNone(pll);
    HalvedNext(pll, 0);
    if pll < pba {
      forall k: nat | 1 <= k
        ensures Halved(pll, k) <= Halved(pll, 1)
      {
        HalvedAntitone(pll, 1, k);
      }
    }
  }

  /** The chosen bus frequency respects the bus limit exactly when halving the PLL frequency meets nothing between the
      limit and the request: always for a request up to one above the limit. */
  lemma PbaWithinLimit(r: nat, pll: nat, pba: nat, pbaMax: nat)
    requires PbaChoice(r, pll, pba, pbaMax)
    ensures r <= pbaMax <==> forall k: nat :: 1 <= k && Halved(pll, k) < pba ==> Halved(pll, k) <= pbaMax
    ensures pba <= pbaMax + 1 ==> r <= pbaMax
  {
    hide Halved;
  }

  // The guard of the search tests the limit, but its break does not: a PLL at 192 and a request of 100 give 96 under a
  // limit of 66.
  lemma PbaOverLimit()
    ensures forall r :: PbaChoice(r, 192, 100, 66) ==> r == 96
  {
    Halved192();
    hide Halved;
    forall k: nat | 1 <= k
      ensures Halved(192, k) <= 96
    {
      HalvedAntitone(192, 1, k);
    }
  }

  lemma Halved192()
    ensures Halved(192, 1) == 96
  {
    HalvedNone(192);
    HalvedNext(192, 0);
  }
}
