/** The unit ladder of the size report: a byte count is converted to a 64-bit
    float and divided by 1024 until it is below 1024; the number of divisions
    picks the unit name. */
module HumanSize {
  import opened GoStrconv

  const Units: seq<string> := ["Bytes", "KB", "MB", "GB", "TB", "PB", "EB"]

  /** Bits of precision of a 64-bit float. */
  const MantissaBits: nat := 53
  const TwoPow53: nat := 0x20_0000_0000_0000

  function Pow2(n: nat): (p: nat)
    ensures p >= 1
  {
    if n == 0 then 1 else 2 * Pow2(n - 1)
  }

  function Pow1024(n: nat): (p: nat)
    ensures p >= 1
  {
    if n == 0 then 1 else 1024 * Pow1024(n - 1)
  }

  lemma MulMono(b: nat, x: nat, y: nat)
    requires x <= y
    ensures b * x <= b * y
  {
    assert b * y == b * x + b * (y - x);
  }

  /** A count split at the 53-bit mantissa: `q` units of `ulp`, the unit in
      the last place, plus the remainder `rem` the mantissa cannot hold. */
  datatype Truncated = Truncated(q: nat, rem: nat, ulp: nat)

  /** `n` is a power of two. */
  predicate IsPow2(n: nat)
  {
    n == 1 || (n >= 2 && n % 2 == 0 && IsPow2(n / 2))
  }

  lemma DoublePow2(n: nat)
    requires IsPow2(n)
    ensures IsPow2(2 * n)
  {
    assert (2 * n) / 2 == n;
  }

  /** The mantissa of `b`, found by halving until it fits in 53 bits. A
      count that needs more than 53 bits keeps a normalised mantissa of
      exactly 53 bits, and its unit in the last place is a power of two. */
  function Truncate(b: nat): (t: Truncated)
    ensures t.ulp >= 1 && t.rem < t.ulp && t.q < TwoPow53
    ensures b == t.q * t.ulp + t.rem
    ensures IsPow2(t.ulp)
    ensures b < TwoPow53 ==> t == Truncated(b, 0, 1)
    ensures b >= TwoPow53 ==> TwoPow53 / 2 <= t.q
  {
    if b < TwoPow53 then Truncated(b, 0, 1)
    else
      var t := Truncate(b / 2);
      assert t.q * (2 * t.ulp) == 2 * (t.q * t.ulp);
      DoublePow2(t.ulp);
      Truncated(t.q, 2 * t.rem + b % 2, 2 * t.ulp)
  }

  /** A count below 2^(53 + k) loses at most k bits. */
  lemma {:induction false} TruncateBelow(b: nat, k: nat)
    requires b < TwoPow53 * Pow2(k)
    ensures Truncate(b).ulp <= Pow2(k)
  {
    if b >= TwoPow53 {
      assert k > 0;
      assert b / 2 < TwoPow53 * Pow2(k - 1);
      TruncateBelow(b / 2, k - 1);
    }
  }

  /** Rounding `q` units plus a remainder `rem` to whole units: down below
      half a unit, up above it, and to the even count on a tie. */
  function RoundUnits(q: nat, rem: nat, ulp: nat): (r: nat)
    ensures r == q * ulp || r == (q + 1) * ulp
    ensures ulp >= 1 && 2 * rem == ulp ==> (r == q * ulp <==> q % 2 == 0)
  {
    if 2 * rem < ulp || (2 * rem == ulp && q % 2 == 0) then q * ulp else (q + 1) * ulp
  }

  /** Rounding moves the value by at most half a unit and keeps it within
      `n` units when fewer than `n` whole units were there. */
  lemma RoundUnitsNear(q: nat, rem: nat, ulp: nat, n: nat)
    requires rem < ulp && q < n
    ensures var v := q * ulp + rem;
      v - ulp / 2 <= RoundUnits(q, rem, ulp) <= v + ulp / 2 && RoundUnits(q, rem, ulp) <= n * ulp
  {
    assert (q + 1) * ulp == q * ulp + ulp;
    MulMono(ulp, q + 1, n);
    assert ulp * (q + 1) == (q + 1) * ulp && ulp * n == n * ulp;
  }

  /** float64(b): `b` rounded to the nearest value with a 53-bit mantissa,
      ties to the even mantissa. Every such value is an integer here. The
      conversion is exact below 2^53; above, it moves the value by at most
      half a unit in the last place and keeps at most 2^53 such units. */
  function ToFloat64(b: nat): (r: nat)
    ensures b < TwoPow53 ==> r == b
    ensures var t := Truncate(b);
      b - t.ulp / 2 <= r <= b + t.ulp / 2 && r <= TwoPow53 * t.ulp
    ensures var t := Truncate(b);
      (r == t.q * t.ulp || r == (t.q + 1) * t.ulp) &&
      (2 * t.rem == t.ulp ==> (r == t.q * t.ulp <==> t.q % 2 == 0))
  {
    var t := Truncate(b);
    RoundUnitsNear(t.q, t.rem, t.ulp, TwoPow53);
    RoundUnits(t.q, t.rem, t.ulp)
  }

  /** Every 64-bit count converts to at most 2^64. */
  lemma ToFloat64Max(b: nat)
    requires b <= MaxUint64
    ensures ToFloat64(b) <= TwoPow53 * 2048
  {
    assert Pow2(11) == 2048;
    TruncateBelow(b, 11);
    MulMono(TwoPow53, Truncate(b).ulp, 2048);
  }

  /** The number of whole divisions by 1024 that leave a value of at least 1:
      the largest `i` with 1024^i <= x (0 for x < 1024). */
  function UnitIndex(x: nat): (i: nat)
    ensures x < Pow1024(i + 1)
    ensures x >= 1 ==> Pow1024(i) <= x
    ensures x < 1024 ==> i == 0
  {
    if x < 1024 then 0 else 1 + UnitIndex(x / 1024)
  }

  /** A value below 1024^(k+1) gets a unit index of at most k. */
  lemma {:induction false} UnitIndexBelow(x: nat, k: nat)
    requires x < Pow1024(k + 1)
    ensures UnitIndex(x) <= k
  {
    if x >= 1024 {
      assert k > 0;
      UnitIndexBelow(x / 1024, k - 1);
    }
  }

  /** Every 64-bit count gets a unit the table has. */
  lemma UnitIndexInTable(b: nat)
    requires b <= MaxUint64
    ensures UnitIndex(ToFloat64(b)) < |Units|
  {
    ToFloat64Max(b);
    assert Pow1024(7) == 0x40_0000_0000_0000_0000;
    UnitIndexBelow(ToFloat64(b), 6);
  }

  /** A count of 53 + k one bits, k >= 1, truncates to 53 one bits and a
      remainder of k one bits. */
  lemma {:induction false} TruncateAllOnes(k: nat)
    requires k >= 1
    ensures Truncate(TwoPow53 * Pow2(k) - 1) == Truncated(TwoPow53 - 1, Pow2(k) - 1, Pow2(k))
  {
    var b := TwoPow53 * Pow2(k) - 1;
    assert b / 2 == TwoPow53 * Pow2(k - 1) - 1 && b % 2 == 1;
    if k > 1 {
      TruncateAllOnes(k - 1);
    }
  }

  /** Such a count rounds up to the next power of two. */
  lemma RoundsUpToPowerOfTwo(k: nat, b: nat)
    requires k >= 1 && b + 1 == TwoPow53 * Pow2(k)
    ensures ToFloat64(b) == b + 1
  {
    TruncateAllOnes(k);
  }

  /** A power of 1024 is the first count of its unit. */
  lemma {:induction false} UnitIndexOfPower(k: nat)
    ensures UnitIndex(Pow1024(k)) == k
    ensures k >= 1 ==> UnitIndex(Pow1024(k) - 1) == k - 1
  {
    if k >= 1 {
      UnitIndexOfPower(k - 1);
      assert Pow1024(k) / 1024 == Pow1024(k - 1);
      assert k >= 2 ==> (Pow1024(k) - 1) / 1024 == Pow1024(k - 1) - 1;
    }
  }

  /** 1024^6 = 2^60 = 2^53 * 2^7: the one power of 1024 within 64 bits that
      a float64 mantissa cannot hold exactly less one. */
  lemma SixthPower()
    ensures Pow1024(6) == TwoPow53 * Pow2(7)
  {
    assert Pow2(7) == 128;
    assert Pow1024(6) == 0x1000_0000_0000_0000;
  }

  /** When 1024^j is 2^(53 + k), k >= 1 (as for j = 6, see SixthPower), the
      count just below it converts to 1024^j itself: its own unit index is
      j - 1 but the division loop reports unit j. */
  lemma {:induction false} RoundingBumpsUnit(j: nat, k: nat)
    requires k >= 1 && Pow1024(j) == TwoPow53 * Pow2(k)
    ensures ToFloat64(Pow1024(j) - 1) == Pow1024(j)
    ensures UnitIndex(Pow1024(j) - 1) == j - 1
    ensures UnitIndex(ToFloat64(Pow1024(j) - 1)) == j
  {
    var p := Pow1024(j);
    assert j >= 1 by {
      assert TwoPow53 * Pow2(k) >= 2;
    }
    assert ToFloat64(p - 1) == p by {
      RoundsUpToPowerOfTwo(k, p - 1);
    }
    assert UnitIndex(p - 1) == j - 1 && UnitIndex(p) == j by {
      UnitIndexOfPower(j);
    }
  }

  /** 2^60 - 1, the largest count of the PB range (unit 5), is reported in
      EB (unit 6). The exponent is a parameter fixed to 6 by the precondition
      rather than a literal, so that the verifier does not evaluate
      `ToFloat64(Pow1024(6) - 1)` by unfolding it. */
  lemma EBJustBelow(j: nat)
    requires j == 6
    ensures UnitIndex(Pow1024(j) - 1) == 5
    ensures UnitIndex(ToFloat64(Pow1024(j) - 1)) == 6
  {
    SixthPower();
    RoundingBumpsUnit(j, 7);
  }

  /** A value of at least 1024^k gets a unit index of at least k. */
  lemma {:induction false} UnitIndexAtLeast(x: nat, k: nat)
    requires x >= Pow1024(k)
    ensures UnitIndex(x) >= k
  {
    if k > 0 {
      UnitIndexAtLeast(x / 1024, k - 1);
    }
  }

  /** `x` divided by 1024, `i` times over. Dividing a float by 1024 only
      lowers its exponent, so each step is exact. */
  function Scaled(x: nat, i: nat): (r: real)
    ensures r >= 0.0
  {
    if i == 0 then x as real else Scaled(x, i - 1) / 1024.0
  }

  lemma {:induction false} ScaledTimesPower(x: nat, i: nat)
    ensures Scaled(x, i) * (Pow1024(i) as real) == x as real
  {
    if i > 0 {
      ScaledTimesPower(x, i - 1);
    }
  }

  lemma RealScale(s: real, p: real, x: real)
    requires p > 0.0 && s * p == x
    ensures s >= 1024.0 <==> x >= 1024.0 * p
  {
    if s >= 1024.0 {
      assert s * p - 1024.0 * p == (s - 1024.0) * p;
    } else {
      assert 1024.0 * p - s * p == (1024.0 - s) * p;
    }
  }

  /** The scaled value is still at least 1024 exactly when 1024^(i+1) <= x. */
  lemma ScaledAtLeast1024(x: nat, i: nat)
    ensures Scaled(x, i) >= 1024.0 <==> x >= Pow1024(i + 1)
  {
    ScaledTimesPower(x, i);
    RealScale(Scaled(x, i), Pow1024(i) as real, x as real);
  }

  /** The division loop of HumanSize. It returns the scaled value before its
      rounding to three decimals, and the unit name. */
  method HumanSize(b: nat) returns (scaled: real, unit: string)
    requires b <= MaxUint64
    ensures UnitIndex(ToFloat64(b)) < |Units|
    ensures unit == Units[UnitIndex(ToFloat64(b))]
    ensures scaled == Scaled(ToFloat64(b), UnitIndex(ToFloat64(b)))
    ensures scaled < 1024.0
  {
    var units := Units;
    var fb: real := ToFloat64(b) as real;
    ghost var f := ToFloat64(b);
    UnitIndexInTable(b);
    var i: nat := 0;
    while fb >= 1024.0
      invariant i <= UnitIndex(f)
      invariant fb == Scaled(f, i)
      decreases UnitIndex(f) - i
    {
      ScaledAtLeast1024(f, i);
      UnitIndexAtLeast(f, i + 1);
      fb := fb / 1024.0;
      i := i + 1;
    }
    ScaledAtLeast1024(f, i);
    UnitIndexBelow(f, i);
    scaled, unit := fb, units[i];
  }
}
