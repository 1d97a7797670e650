/** Conversion between low-power clock cycles and half microseconds. The length of a cycle in microseconds has "frac" fractional bits. */
module LowPowerClock {

  const TWO_32: nat := 0x1_0000_0000
  const TWO_64: nat := 0x1_0000_0000_0000_0000

  // ----- shifts -----

  function Shl(n: nat, k: nat): nat { if k == 0 then n else 2 * Shl(n, k - 1) }

  function Shr(n: nat, k: nat): nat { if k == 0 then n else Shr(n / 2, k - 1) }

  /** The k low bits. */
  function Low(n: nat, k: nat): nat { if k == 0 then 0 else 2 * Low(n / 2, k - 1) + n % 2 }

  lemma {:induction false} ShiftParts(n: nat, k: nat)
    ensures Shl(Shr(n, k), k) + Low(n, k) == n && Low(n, k) < Shl(1, k)
  {
    if k > 0 {
      ShiftParts(n / 2, k - 1);
    }
  }

  /** The parts of a number at bit k are determined. */
  lemma {:induction false} ShiftUnique(q: nat, r: nat, k: nat)
    requires r < Shl(1, k)
    ensures Shr(Shl(q, k) + r, k) == q && Low(Shl(q, k) + r, k) == r
  {
    if k > 0 {
      ShiftUnique(q, r / 2, k - 1);
      assert (Shl(q, k) + r) / 2 == Shl(q, k - 1) + r / 2 && (Shl(q, k) + r) % 2 == r % 2;
    }
  }

  lemma {:induction false} ShlAdds(a: nat, b: nat, k: nat)
    ensures Shl(a + b, k) == Shl(a, k) + Shl(b, k)
  {
    if k > 0 {
      ShlAdds(a, b, k - 1);
    }
  }

  lemma {:induction false} ShlOrder(a: nat, b: nat, k: nat)
    ensures a < b ==> Shl(a, k) + Shl(1, k) <= Shl(b, k)
    ensures a <= b ==> Shl(a, k) <= Shl(b, k)
  {
    if k > 0 {
      ShlOrder(a, b, k - 1);
    }
  }

  lemma {:induction false} ShlGrows(n: nat, j: nat, k: nat)
    requires j <= k
    ensures Shl(n, j) <= Shl(n, k)
  {
    if j < k {
      ShlGrows(n, j, k - 1);
    }
  }

  lemma ShlByEight(n: nat, k: nat)
    ensures Shl(n, k + 8) == 256 * Shl(n, k)
  {
    assert Shl(n, k + 2) == 4 * Shl(n, k) && Shl(n, k + 4) == 4 * Shl(n, k + 2);
    assert Shl(n, k + 6) == 4 * Shl(n, k + 4) && Shl(n, k + 8) == 4 * Shl(n, k + 6);
  }

  lemma ShlBound(n: nat, k: nat)
    requires k < 32
    ensures Shl(n, k) <= TWO_32 * n
  {
    ShlGrows(n, k, 32);
    ShlByEight(n, 24);
    ShlByEight(n, 16);
    ShlByEight(n, 8);
    ShlByEight(n, 0);
  }

  // ----- a single conversion -----

  /** A conversion: the half microseconds and the remainder that is carried on. */
  datatype Conversion = Conversion(hus: nat, rest: nat)

  /** The shifts of btdm_lpcycles_2_hus on the time of the cycles, in 64-bit arithmetic with results of 32 bits. */
  function Convert(frac: nat, time: nat, error: nat): Conversion {
    var sum := (error + time % TWO_64) % TWO_64;
    var res := Shr(sum, frac);
    ShiftParts(sum, frac);
    Conversion(res % TWO_32, (sum - Shl(res, frac)) % TWO_32)
  }

  /** btdm_lpcycles_2_hus. */
  function CyclesToHus(lp: nat, frac: nat, cycles: nat, error: nat): Conversion {
    Convert(frac, lp * cycles * 2, error)
  }

  /** btdm_hus_2_lpcycles. */
  function HusToCycles(lp: nat, frac: nat, hus: nat): nat
    requires lp > 0
  {
    Shl(hus, frac) % TWO_64 / lp / 2 % TWO_32
  }

  lemma ConvertIs(frac: nat, time: nat, error: nat, sum: nat)
    requires frac < 32 && sum == (error + time % TWO_64) % TWO_64
    ensures Convert(frac, time, error) == Conversion(Shr(sum, frac) % TWO_32, Low(sum, frac))
  {
    ShiftParts(sum, frac);
    ShlBound(1, frac);
    hide Shl, Shr, Low;
  }

  lemma SumIs(error: nat, time: nat)
    requires error + time < TWO_64
    ensures (error + time % TWO_64) % TWO_64 == error + time
  {
  }

  /** Nothing is lost in a conversion exactly when the half microseconds fit 32 bits. */
  lemma ConversionExact(frac: nat, time: nat, error: nat)
    requires frac < 32
    ensures var r := Convert(frac, time, error);
            (Shl(r.hus, frac) + r.rest == error + time <==> error + time < Shl(TWO_32, frac)) && r.rest < Shl(1, frac)
  {
    var sum := (error + time % TWO_64) % TWO_64;
    var q := Shr(sum, frac);
    ConvertIs(frac, time, error, sum);
    ShiftParts(sum, frac);
    Below64(error + time, frac);
    hide Shl, Shr, Low, Convert;
    ShlOrder(q % TWO_32, TWO_32, frac);
    ShlOrder(TWO_32, q, frac);
    if error + time < Shl(TWO_32, frac) {
      SumIs(error, time);
    }
  }

  lemma Below64(n: nat, frac: nat)
    requires frac < 32
    ensures n < Shl(TWO_32, frac) ==> n < TWO_64
  {
    ShlBound(TWO_32, frac);
  }

  // ----- a run of conversions with the carried remainder -----

  function Sum(s: seq<nat>): nat {
    if s == [] then 0 else s[0] + Sum(s[1..])
  }

  /** The remainder after a run. */
  function Carried(lp: nat, frac: nat, cycles: seq<nat>, error: nat): nat {
    if cycles == [] then error else Carried(lp, frac, cycles[1..], CyclesToHus(lp, frac, cycles[0], error).rest)
  }

  /** The sum of the half microseconds of a run. */
  function Total(lp: nat, frac: nat, cycles: seq<nat>, error: nat): nat {
    if cycles == [] then 0
    else
      var r := CyclesToHus(lp, frac, cycles[0], error);
      r.hus + Total(lp, frac, cycles[1..], r.rest)
  }

  /** No call of the run overflows its 32-bit result. */
  predicate NoOverflow(lp: nat, frac: nat, cycles: seq<nat>, error: nat) {
    cycles != [] ==>
      error + lp * cycles[0] * 2 < Shl(TWO_32, frac)
      && NoOverflow(lp, frac, cycles[1..], CyclesToHus(lp, frac, cycles[0], error).rest)
  }

  lemma TimeAdds(lp: nat, a: nat, b: nat)
    ensures lp * (a + b) * 2 == lp * a * 2 + lp * b * 2
  {
  }

  /** Over a run nothing is lost: the results and the remainder at the end make up the total. */
  lemma {:induction false} RunConserves(lp: nat, frac: nat, cycles: seq<nat>, error: nat)
    requires frac < 32 && NoOverflow(lp, frac, cycles, error)
    ensures Shl(Total(lp, frac, cycles, error), frac) + Carried(lp, frac, cycles, error) == error + lp * Sum(cycles) * 2
    ensures cycles != [] ==> Carried(lp, frac, cycles, error) < Shl(1, frac)
    decreases |cycles|
  {
    if cycles == [] {
      ShlAdds(0, 0, frac);
      assert lp * 0 * 2 == 0;
    } else {
      var (r, rest) := (CyclesToHus(lp, frac, cycles[0], error), cycles[1..]);
      assert NoOverflow(lp, frac, rest, r.rest);
      assert r == Convert(frac, lp * cycles[0] * 2, error);
      assert |cycles| == 1 ==> Carried(lp, frac, cycles, error) == r.rest;
      hide Convert, CyclesToHus, NoOverflow, Shl;
      ConversionExact(frac, lp * cycles[0] * 2, error);
      RunConserves(lp, frac, rest, r.rest);
      ShlAdds(r.hus, Total(lp, frac, rest, r.rest), frac);
      TimeAdds(lp, cycles[0], Sum(rest));
    }
  }

  /** Main result: however a time is cut into calls, the half microseconds add up to the exact conversion of all cycles, rounded down,
      and the remainder is what is left. */
  lemma RunIsExact(lp: nat, frac: nat, cycles: seq<nat>, error: nat)
    requires frac < 32 && NoOverflow(lp, frac, cycles, error) && cycles != []
    ensures Total(lp, frac, cycles, error) == Shr(error + lp * Sum(cycles) * 2, frac)
    ensures Carried(lp, frac, cycles, error) == Low(error + lp * Sum(cycles) * 2, frac)
  {
    RunConserves(lp, frac, cycles, error);
    ShiftUnique(Total(lp, frac, cycles, error), Carried(lp, frac, cycles, error), frac);
  }

  // ----- there and back -----

  lemma MulStep(a: nat, b: nat, c: nat)
    requires a < b
    ensures a * c + c <= b * c
  {
    assert b * c == (a + 1) * c + (b - a - 1) * c;
  }

  lemma DivIs(a: nat, b: nat, q: nat)
    requires b > 0 && q * b <= a < q * b + b
    ensures a / b == q
  {
    assert a == (a / b) * b + a % b;
    if a / b < q {
      MulStep(a / b, q, b);
    } else if a / b > q {
      MulStep(q, a / b, b);
    }
  }

  /** Halving a quotient. */
  lemma Halve(a: nat, b: nat, q: nat)
    requires b > 0 && q * (2 * b) <= a < q * (2 * b) + 2 * b
    ensures a / b / 2 == q
  {
    var h := q * (2 * b);
    assert h == (2 * q) * b && h + b == (2 * q + 1) * b;
    if a < h + b {
      DivIs(a, b, 2 * q);
    } else {
      DivIs(a, b, 2 * q + 1);
    }
  }

  lemma HusToCyclesIs(lp: nat, frac: nat, hus: nat, back: nat)
    requires lp > 0 && Shl(hus, frac) < TWO_64 && Shl(hus, frac) / lp / 2 == back < TWO_32
    ensures HusToCycles(lp, frac, hus) == back
  {
    hide Shl;
  }

  /** Without a carried remainder, converting cycles to half microseconds and back loses at most one cycle when a cycle is at least half a
      microsecond long, and none exactly when the time is a whole number of half microseconds. */
  lemma ThereAndBack(lp: nat, frac: nat, cycles: nat)
    requires frac < 32 && 2 * lp >= Shl(1, frac) && lp * cycles * 2 < Shl(TWO_32, frac) && 0 < lp && cycles < TWO_32
    ensures var back := HusToCycles(lp, frac, CyclesToHus(lp, frac, cycles, 0).hus);
            && (back == cycles || back == cycles - 1)
            && (back == cycles <==> Low(lp * cycles * 2, frac) == 0)
  {
    var time := lp * cycles * 2;
    var r := CyclesToHus(lp, frac, cycles, 0);
    assert r == Convert(frac, time, 0);
    hide *;
    ConversionExact(frac, time, 0);
    ShiftUnique(r.hus, r.rest, frac);
    Below64(time, frac);
    BackFrom(lp, cycles, Shl(r.hus, frac), r.rest, time);
    HusToCyclesIs(lp, frac, r.hus, if r.rest == 0 then cycles else cycles - 1);
  }

  lemma BackFrom(lp: nat, cycles: nat, whole: nat, rest: nat, time: nat)
    requires lp > 0 && time == lp * cycles * 2 && whole + rest == time && rest < 2 * lp
    ensures whole / lp / 2 == if rest == 0 then cycles else cycles - 1
    ensures rest > 0 ==> cycles > 0
  {
    assert time == cycles * (2 * lp);
    if rest == 0 {
      Halve(whole, lp, cycles);
    } else {
      assert cycles > 0;
      assert (cycles - 1) * (2 * lp) + 2 * lp == cycles * (2 * lp);
      Halve(whole, lp, cycles - 1);
    }
  }

  /** The remainder of a caller; callers without one pass none. */
  class Correction {
    var value: nat
  }

  /** btdm_lpcycles_2_hus with its pointer to the remainder. */
  method LpCyclesToHus(lp: nat, frac: nat, cycles: nat, error: Correction?) returns (hus: nat)
    requires lp < TWO_32 && cycles < TWO_32 && frac < 32 && (error != null ==> error.value < TWO_32)
    modifies error
    ensures var r := CyclesToHus(lp, frac, cycles, if error == null then 0 else old(error.value));
            hus == r.hus && (error != null ==> error.value == r.rest < Shl(1, frac))
  {
    var local := if error == null then 0 else error.value;
    ConversionExact(frac, lp * cycles * 2, local);
    var res := lp * cycles * 2 % TWO_64;
    local := (local + res) % TWO_64;
    res := Shr(local, frac);
    ShiftParts(local, frac);
    local := local - Shl(res, frac);
    if error != null {
      error.value := local % TWO_32;
    }
    return res % TWO_32;
  }
}
