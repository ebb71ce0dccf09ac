/** Integers as `float`s bit for bit: the format binary32 of section 3.4 of IEEE 754 does what module FloatLiterals
    asks of conversions (src/executor/executor.cpp:67-103 and 138-157). */
module Binary32 {
  import opened Keys
  import opened Wrappers
  import opened IndexSeeds
  import opened FloatLiterals

  /** The smallest significand. */
  const UNIT := 0x80_0000

  /** The pattern of a number from 2 to the 23rd on: halving it adds one to the exponent. */
  function LargeBits(m: nat): nat
    requires m >= UNIT
  {
    if m < 2 * UNIT then 149 * UNIT + m else LargeBits(m / 2) + UNIT
  }

  /** The pattern of a number below 2 to the 24th: doubling it takes one from the exponent. */
  function SmallBits(m: nat): int
    requires 0 < m < 2 * UNIT
    decreases UNIT - m
  {
    if m >= UNIT then 149 * UNIT + m else SmallBits(2 * m) - UNIT
  }

  function MagnitudeBits(m: nat): int {
    if m == 0 then 0 else if m < UNIT then SmallBits(m) else LargeBits(m)
  }

  /** No significand has more than 24 bits. */
  predicate Representable(m: nat) {
    m < 2 * UNIT || (m % 2 == 0 && Representable(m / 2))
  }

  function Power(k: nat): nat { if k == 0 then 1 else 2 * Power(k - 1) }

  // ------------------------------------------------------------ patterns are ordered as the numbers

  lemma {:induction false} SmallAtMost(m: nat)
    requires 0 < m < 2 * UNIT
    ensures SmallBits(m) < 151 * UNIT && (m < UNIT ==> SmallBits(m) < 150 * UNIT)
    decreases UNIT - m
  {
    if m < UNIT {
      SmallAtMost(2 * m);
    }
  }

  /** After k doublings at most the significand is there. */
  lemma {:induction false} SmallAtLeast(m: nat, k: nat)
    requires 0 < m < 2 * UNIT && UNIT <= m * Power(k)
    ensures SmallBits(m) >= (150 - k) * UNIT
    decreases k
  {
    if m < UNIT && k > 0 {
      assert m * Power(k) == (2 * m) * Power(k - 1);
      SmallAtLeast(2 * m, k - 1);
    }
  }

  lemma {:induction false} SmallInOrder(m: nat, n: nat)
    requires 0 < m < n < 2 * UNIT
    ensures SmallBits(m) < SmallBits(n)
    decreases UNIT - m
  {
    if m < UNIT {
      if n < UNIT {
        SmallInOrder(2 * m, 2 * n);
      } else {
        SmallAtMost(m);
      }
    }
  }

  lemma {:induction false} LargeAtLeast(m: nat)
    requires m >= UNIT
    ensures LargeBits(m) >= 150 * UNIT && (m >= 2 * UNIT ==> LargeBits(m) >= 151 * UNIT)
  {
    if m >= 2 * UNIT {
      LargeAtLeast(m / 2);
    }
  }

  lemma {:induction false} LargeAtMost(m: nat, k: nat)
    requires UNIT <= m < 2 * UNIT * Power(k)
    ensures LargeBits(m) < (151 + k) * UNIT
    decreases k
  {
    if m >= 2 * UNIT && k > 0 {
      assert 2 * UNIT * Power(k) == 2 * (2 * UNIT * Power(k - 1));
      LargeAtMost(m / 2, k - 1);
    }
  }

  lemma {:induction false} LargeInOrder(m: nat, n: nat)
    requires UNIT <= m < n && Representable(m) && Representable(n)
    ensures LargeBits(m) < LargeBits(n)
  {
    if n >= 2 * UNIT {
      if m < 2 * UNIT {
        LargeAtLeast(n);
      } else {
        LargeInOrder(m / 2, n / 2);
      }
    }
  }

  lemma Powers()
    ensures Power(8) == 256 && Power(23) == UNIT
  {
    assert Power(4) == 16;
    assert Power(8) == 256;
    assert Power(12) == 4096;
    assert Power(16) == 65536;
    assert Power(20) == 1048576;
  }

  lemma MagnitudesInRange(m: nat)
    requires m <= 0x8000_0000
    ensures 0 <= MagnitudeBits(m) < 0x7F80_0000 && (m > 0 ==> MagnitudeBits(m) > 0)
  {
    Powers();
    if 0 < m < UNIT {
      SmallAtLeast(m, 23);
      SmallAtMost(m);
    } else if m >= UNIT {
      LargeAtLeast(m);
      LargeAtMost(m, 8);
    }
  }

  lemma MagnitudesInOrder(m: nat, n: nat)
    requires m < n <= 0x8000_0000 && Representable(m) && Representable(n)
    ensures MagnitudeBits(m) < MagnitudeBits(n)
  {
    MagnitudesInRange(n);
    if m == 0 {
    } else if n < UNIT {
      SmallInOrder(m, n);
    } else if m < UNIT {
      SmallAtMost(m);
      LargeAtLeast(n);
    } else {
      LargeInOrder(m, n);
    }
  }

  // ------------------------------------------------------------ rounded integers are representable

  lemma {:induction false} MultipleIsRepresentable(k: nat, u: nat, e: nat)
    requires u == Power(e) && k <= 2 * UNIT
    ensures Representable(k * u)
    decreases e
  {
    if e == 0 {
      assert k * u == k;
      assert k == 2 * UNIT ==> Representable(k / 2);
    } else {
      var half := Power(e - 1);
      MultipleIsRepresentable(k, half, e - 1);
      assert k * u == 2 * (k * half);
    }
  }

  lemma SpacingIsPower(a: nat) returns (e: nat)
    ensures Spacing(a) == Power(e) && e <= 8
  {
    Powers();
    assert Power(1) == 2 && Power(2) == 4 && Power(3) == 8 && Power(4) == 16;
    assert Power(5) == 32 && Power(6) == 64 && Power(7) == 128;
    e := if a < EXACT then 0 else if a < 0x200_0000 then 1 else if a < 0x400_0000 then 2 else if a < 0x800_0000 then 3
      else if a < 0x1000_0000 then 4 else if a < 0x2000_0000 then 5 else if a < 0x4000_0000 then 6 else if a < 0x8000_0000 then 7 else 8;
  }

  /** A rounded magnitude is a multiple of the spacing there, at most 2 to the 24th of them. */
  lemma NearestIsMultiple(a: nat) returns (k: nat)
    requires a <= 0x8000_0000
    ensures Nearest(a, Spacing(a)) == k * Spacing(a) && k <= EXACT
  {
    var u := Spacing(a);
    Binade(a);
    hide Spacing;
    Quotient(a, u);
    NearestStops(a, u, EXACT);
    var q, r := a / u, a % u;
    k := if 2 * r < u || (2 * r == u && q % 2 == 0) then q else q + 1;
    assert (q + 1) * u == q * u + u;
    if k > EXACT {
      NextMultiple(EXACT, k, u);
    }
  }

  lemma RoundedIsRepresentable(i: Int32)
    ensures Representable(Magnitude(Rounded(i))) && Magnitude(Rounded(i)) <= 0x8000_0000
  {
    var k := NearestIsMultiple(Magnitude(i));
    var e := SpacingIsPower(Magnitude(i));
    MultipleIsRepresentable(k, Spacing(Magnitude(i)), e);
    NearestStops(Magnitude(i), Spacing(Magnitude(i)), 0);
    AtTop(i);
    RoundedKeepsOrder(-0x8000_0000, i);
    LowestRounds();
  }

  lemma LowestRounds()
    ensures Rounded(-0x8000_0000) == -0x8000_0000
  {
  }

  // ------------------------------------------------------------ the conversions

  /** static_cast<float>(int32_t) */
  function FloatOf(i: Int32): FloatBits {
    var r := Rounded(i);
    RoundedIsRepresentable(i);
    MagnitudesInRange(Magnitude(r));
    if r >= 0 then MagnitudeBits(r) else 0x8000_0000 + MagnitudeBits(-r)
  }

  lemma FloatsInOrder(i: Int32, j: Int32)
    ensures FloatRank(FloatOf(i)) < FloatRank(FloatOf(j)) <==> Rounded(i) < Rounded(j)
  {
    hide Rounded, MagnitudeBits, Representable;
    RoundedIsRepresentable(i);
    RoundedIsRepresentable(j);
    RanksFollow(i, j);
    RanksFollow(j, i);
  }

  lemma RanksFollow(i: Int32, j: Int32)
    ensures Rounded(i) < Rounded(j) ==> FloatRank(FloatOf(i)) < FloatRank(FloatOf(j))
    ensures Rounded(i) == Rounded(j) ==> FloatOf(i) == FloatOf(j)
  {
    hide Rounded, MagnitudeBits, Representable;
    var r, t := Rounded(i), Rounded(j);
    RoundedIsRepresentable(i);
    RoundedIsRepresentable(j);
    MagnitudesInRange(Magnitude(r));
    MagnitudesInRange(Magnitude(t));
    if r < t {
      if Magnitude(r) < Magnitude(t) {
        MagnitudesInOrder(Magnitude(r), Magnitude(t));
      } else if Magnitude(t) < Magnitude(r) {
        MagnitudesInOrder(Magnitude(t), Magnitude(r));
      }
    }
  }

  /** The integer a float is, if it is one. */
  ghost function IntOf(bits: FloatBits): (n: Option<Int32>)
    ensures n.Some? ==> Rounded(n.value) == n.value && FloatOf(n.value) == bits
    ensures n.None? ==> forall i: Int32 :: Rounded(i) == i ==> FloatOf(i) != bits
  {
    if i: Int32 :| Rounded(i) == i && FloatOf(i) == bits then
      assert forall j: Int32 :: Rounded(j) == j && FloatOf(j) == bits ==> j == i by {
        OneInteger(bits);
      }
      Some(i)
    else None
  }

  lemma OneInteger(bits: FloatBits)
    ensures forall i: Int32, j: Int32 :: Rounded(i) == i && FloatOf(i) == bits && Rounded(j) == j && FloatOf(j) == bits ==> i == j
  {
    hide Rounded, FloatOf;
    forall i: Int32, j: Int32 | Rounded(i) == i && FloatOf(i) == bits && Rounded(j) == j && FloatOf(j) == bits ensures i == j {
      FloatsInOrder(i, j);
      FloatsInOrder(j, i);
    }
  }

  /** Where rounding leads, the spacing is the same, or twice as large at the end of a binade. */
  lemma SpacingThere(a: nat, r: nat)
    requires a <= 0x8000_0000 && r <= EXACT * Spacing(a) && (Spacing(a) > 1 ==> UNIT * Spacing(a) <= r) && r <= 0x8000_0000
    ensures Spacing(r) == Spacing(a) || (r == EXACT * Spacing(a) && Spacing(r) == 2 * Spacing(a))
  {
  }

  lemma RoundedMagnitudeOnce(a: nat)
    requires a <= 0x8000_0000
    ensures var r := Nearest(a, Spacing(a)); 0 <= r <= 0x8000_0000 && Nearest(r, Spacing(r)) == r
  {
    var u := Spacing(a);
    var k := NearestIsMultiple(a);
    NearestStops(a, u, UNIT);
    NearestStops(a, u, 0);
    Binade(a);
    var r := k * u;
    MagnitudesKeepOrder(a, 0x8000_0000);
    TopIsOwn();
    SpacingThere(a, r);
    hide Spacing, Nearest;
    NearestIs(r, u, k, 0);
    if Spacing(r) != u {
      assert r == UNIT * (2 * u);
      NearestIs(r, 2 * u, UNIT, 0);
    }
  }

  lemma TopIsOwn()
    ensures Nearest(0x8000_0000, Spacing(0x8000_0000)) == 0x8000_0000
  {
  }

  /** A rounded integer is its own float. */
  lemma RoundedOnce(i: Int32)
    requires Rounded(i) < 0x8000_0000
    ensures -0x8000_0000 <= Rounded(i) && Rounded(Rounded(i)) == Rounded(i)
  {
    hide Spacing, Nearest;
    RoundedMagnitudeOnce(Magnitude(i));
  }

  ghost function Conversions(): Casts { Casts(i => FloatOf(i), bits => IntOf(bits)) }

  /** What FloatLiterals asks of conversions, those of binary32 do. */
  lemma ConversionsAreIeee()
    ensures Ieee(Conversions())
  {
    hide Rounded, FloatOf, FloatRank;
    var casts := Conversions();
    forall i: Int32, j: Int32 ensures FloatRank(casts.toFloat(i)) < FloatRank(casts.toFloat(j)) <==> Rounded(i) < Rounded(j) {
      FloatsInOrder(i, j);
    }
    forall i: Int32 {:trigger Rounded(i)} | Rounded(i) < 0x8000_0000 ensures casts.toInt(casts.toFloat(i)) == Some(Rounded(i)) {
      RoundedOnce(i);
      var n: Int32 := Rounded(i);
      SameFloat(n, i);
      OneInteger(casts.toFloat(i));
    }
  }

  lemma SameFloat(i: Int32, j: Int32)
    requires Rounded(i) == Rounded(j)
    ensures FloatOf(i) == FloatOf(j)
  {
    RanksFollow(i, j);
  }
}
