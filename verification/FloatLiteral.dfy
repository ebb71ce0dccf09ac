/** When a float literal compared with an INT column is safe for an index (src/executor/executor.cpp:67-103
    and 138-157), integers being converted to floats as section 5.4.1 of IEEE 754 says. */
module FloatLiterals {
  import opened Keys
  import opened Schemas
  import opened Wrappers
  import opened WhereClauses
  import opened IndexSeeds

  const EXACT := 0x100_0000

  /** The distance between neighbouring floats around a number of this magnitude. */
  function Spacing(a: nat): (u: nat)
    ensures u > 0
  {
    if a < EXACT then 1
    else if a < 0x200_0000 then 2
    else if a < 0x400_0000 then 4
    else if a < 0x800_0000 then 8
    else if a < 0x1000_0000 then 16
    else if a < 0x2000_0000 then 32
    else if a < 0x4000_0000 then 64
    else if a < 0x8000_0000 then 128
    else 256
  }

  /** q * u + r to the nearest multiple of u, a tie to the even one. */
  function NearestOf(q: nat, r: nat, u: nat): (m: int) {
    if 2 * r < u || (2 * r == u && q % 2 == 0) then q * u else q * u + u
  }

  function Nearest(a: nat, u: nat): (m: int)
    requires u > 0
  {
    NearestOf(a / u, a % u, u)
  }

  function Magnitude(i: int): nat { if i < 0 then 0 - i else i }

  /** The integer a 32-bit integer becomes as a float. */
  function Rounded(i: int): int {
    var m := Nearest(Magnitude(i), Spacing(Magnitude(i)));
    if i < 0 then -m else m
  }

  /** The conversions keep the order of the rounded integers, and go back to them.  The largest integers round
      to 2 to the 31st, which is no INT: converting it back is undefined, and nothing is said of it. */
  ghost predicate Ieee(casts: Casts) {
    && (forall i: Int32, j: Int32 :: FloatRank(casts.toFloat(i)) < FloatRank(casts.toFloat(j)) <==> Rounded(i) < Rounded(j))
    && (forall i: Int32 {:trigger Rounded(i)} :: Rounded(i) < 0x8000_0000 ==> casts.toInt(casts.toFloat(i)) == Some(Rounded(i)))
    && (forall bits {:trigger casts.toInt(bits)} :: bits != casts.toFloat(0x7FFF_FFFF) && casts.toInt(bits).Some? ==>
          casts.toFloat(casts.toInt(bits).value) == bits && Rounded(casts.toInt(bits).value) == casts.toInt(bits).value)
  }

  // ------------------------------------------------------------ rounding

  lemma Multiples(x: int, y: int, u: nat)
    requires x <= y
    ensures x * u <= y * u
  {
  }

  lemma Quotient(a: nat, u: nat)
    requires u > 0
    ensures a == (a / u) * u + a % u && 0 <= a % u < u
  {
  }

  /** Rounding does not pass a multiple. */
  lemma NearestStops(a: nat, u: nat, k: nat)
    requires u > 0
    ensures a <= k * u ==> Nearest(a, u) <= k * u
    ensures a >= k * u ==> Nearest(a, u) >= k * u
  {
    Quotient(a, u);
    NearestOfStops(a / u, a % u, u, k);
  }

  lemma NearestOfStops(q: nat, r: nat, u: nat, k: nat)
    requires r < u
    ensures q * u + r <= k * u ==> NearestOf(q, r, u) <= k * u
    ensures q * u + r >= k * u ==> NearestOf(q, r, u) >= k * u
  {
    if q < k {
      NextMultiple(q, k, u);
    } else {
      Multiples(k, q, u);
      if q > k {
        NextMultiple(k, q, u);
      }
    }
  }

  lemma NextMultiple(x: nat, y: nat, u: nat)
    requires x < y
    ensures x * u + u <= y * u
  {
    assert x * u + u == (x + 1) * u;
    Multiples(x + 1, y, u);
  }

  lemma NearestKeepsOrder(a: nat, b: nat, u: nat)
    requires a <= b && u > 0
    ensures Nearest(a, u) <= Nearest(b, u)
  {
    Quotient(a, u);
    Quotient(b, u);
    NearestOfKeepsOrder(a / u, a % u, b / u, b % u, u);
  }

  lemma NearestOfKeepsOrder(q: nat, r: nat, q': nat, r': nat, u: nat)
    requires q * u + r <= q' * u + r' && r < u && r' < u
    ensures NearestOf(q, r, u) <= NearestOf(q', r', u)
  {
    if q' < q {
      NextMultiple(q', q, u);
    } else if q < q' {
      NextMultiple(q, q', u);
    }
  }

  /** Where the spacing is u, numbers lie between u times 2 to the 23rd and u times 2 to the 24th, or below
      the latter if u is 1. */
  lemma Binade(a: nat)
    requires a <= 0x8000_0000
    ensures a <= Spacing(a) * EXACT && (Spacing(a) > 1 ==> Spacing(a) * 0x80_0000 <= a)
    ensures Spacing(a) == 1 || Spacing(a) == 2 || Spacing(a) >= 4
  {
  }

  lemma OtherBinade(a: nat, b: nat)
    requires a <= b <= 0x8000_0000 && Spacing(a) != Spacing(b)
    ensures Spacing(b) > 1 && Spacing(a) * EXACT <= Spacing(b) * 0x80_0000
  {
  }

  lemma MagnitudesKeepOrder(a: nat, b: nat)
    requires a <= b <= 0x8000_0000
    ensures Nearest(a, Spacing(a)) <= Nearest(b, Spacing(b))
  {
    hide Spacing;
    Binade(a);
    Binade(b);
    if Spacing(a) == Spacing(b) {
      NearestKeepsOrder(a, b, Spacing(a));
    } else {
      OtherBinade(a, b);
      NearestStops(a, Spacing(a), EXACT);
      NearestStops(b, Spacing(b), 0x80_0000);
    }
  }

  lemma RoundedKeepsOrder(i: Int32, j: Int32)
    requires i <= j
    ensures Rounded(i) <= Rounded(j)
  {
    hide Nearest, Spacing;
    NearestStops(Magnitude(i), Spacing(Magnitude(i)), 0);
    NearestStops(Magnitude(j), Spacing(Magnitude(j)), 0);
    if i >= 0 {
      MagnitudesKeepOrder(i, j);
    } else if j < 0 {
      MagnitudesKeepOrder(Magnitude(j), Magnitude(i));
    }
  }

  // ------------------------------------------------------------ literals

  /** The float is the image of this integer and of no other that is smaller (or greater). */
  predicate FirstOfItsFloat(n: Int32) { n == -0x8000_0000 || Rounded(n - 1) != n }

  predicate LastOfItsFloat(n: Int32) { n == 0x7FFF_FFFF || Rounded(n + 1) != n }

  lemma ImagesOf(n: Int32)
    requires Rounded(n) == n
    ensures (forall i: Int32 :: Rounded(i) == n ==> i >= n) <==> FirstOfItsFloat(n)
    ensures (forall i: Int32 :: Rounded(i) == n ==> i <= n) <==> LastOfItsFloat(n)
  {
    hide Rounded;
    forall i: Int32 | Rounded(i) == n ensures (i < n ==> !FirstOfItsFloat(n)) && (i > n ==> !LastOfItsFloat(n)) {
      if i < n {
        RoundedKeepsOrder(i, n - 1);
        RoundedKeepsOrder(n - 1, n);
      } else if i > n {
        RoundedKeepsOrder(n, n + 1);
        RoundedKeepsOrder(n + 1, i);
      }
    }
  }

  /** The integer a literal is coerced to is its own float, and floats are compared as the rounded integers. */
  lemma LiteralIs(casts: Casts, bits: FloatBits, n: Int32)
    requires Ieee(casts) && casts.toInt(bits) == Some(n) && bits != casts.toFloat(0x7FFF_FFFF)
    ensures Rounded(n) == n && bits == casts.toFloat(n)
    ensures forall i: Int32 ::
      && (FloatRank(casts.toFloat(i)) < FloatRank(bits) <==> Rounded(i) < n)
      && (FloatRank(casts.toFloat(i)) == FloatRank(bits) <==> Rounded(i) == n)
  {
    hide Rounded, FloatRank;
    forall i: Int32 ensures FloatRank(casts.toFloat(i)) < FloatRank(bits) <==> Rounded(i) < n {
    }
    forall i: Int32 ensures FloatRank(casts.toFloat(i)) == FloatRank(bits) <==> Rounded(i) == n {
      assert FloatRank(casts.toFloat(n)) < FloatRank(casts.toFloat(i)) <==> n < Rounded(i);
    }
  }

  lemma ComparedAsRounded(casts: Casts, bits: FloatBits, op: CompareOp, n: Int32, i: Int32)
    requires Ieee(casts) && casts.toInt(bits) == Some(n) && bits != casts.toFloat(0x7FFF_FFFF)
    ensures CompareValues(casts.toFloat, Int(i), op, Float(bits)) <==> Ordered(op, Rounded(i) < n, Rounded(i) == n)
    ensures Ordered(op, ValueLt(Int(i), Int(n)), Int(i) == Int(n)) <==> Ordered(op, i < n, i == n)
  {
    LiteralIs(casts, bits, n);
    hide Rounded, FloatRank, Ieee, Ordered;
  }

  /** In terms of the rounded integers. */
  lemma AgreesMeans(casts: Casts, bits: FloatBits, op: CompareOp, n: Int32)
    requires Ieee(casts) && casts.toInt(bits) == Some(n) && bits != casts.toFloat(0x7FFF_FFFF)
    ensures Agrees(casts, op, Float(bits)) <==>
      forall i: Int32 :: Ordered(op, Rounded(i) < n, Rounded(i) == n) ==> Ordered(op, i < n, i == n)
  {
    hide Rounded, Ieee, Ordered, CompareValues, ValueLt;
    assert Coerced(casts, Float(bits), ColumnType.INT) == Some(Int(n)) && Alternative(Int(n)) == 1;
    if Agrees(casts, op, Float(bits)) {
      forall i: Int32 | Ordered(op, Rounded(i) < n, Rounded(i) == n) ensures Ordered(op, i < n, i == n) {
        ComparedAsRounded(casts, bits, op, n, i);
        assert CompareValues(casts.toFloat, Int(i), op, Float(bits));
        var image := casts.toFloat(i);
        assert Ordered(op, ValueLt(Int(i), Int(n)), Int(i) == Int(n));
      }
    }
    if forall i: Int32 :: Ordered(op, Rounded(i) < n, Rounded(i) == n) ==> Ordered(op, i < n, i == n) {
      forall i: Int32 | CompareValues(casts.toFloat, Int(i), op, Float(bits)) ensures Ordered(op, ValueLt(Int(i), Int(n)), Int(i) == Int(n)) {
        ComparedAsRounded(casts, bits, op, n, i);
        assert Ordered(op, Rounded(i) < n, Rounded(i) == n);
      }
    }
  }

  lemma OrderedIff(op: CompareOp, n: Int32)
    requires Rounded(n) == n && (op.EQ? || op.GT? || op.GTE? || op.LT? || op.LTE?)
    ensures (forall i: Int32 :: Ordered(op, Rounded(i) < n, Rounded(i) == n) ==> Ordered(op, i < n, i == n)) <==>
      (op.EQ? || op.GTE? ==> FirstOfItsFloat(n)) && (op.EQ? || op.LTE? ==> LastOfItsFloat(n))
  {
    ImagesOf(n);
    hide Rounded, FirstOfItsFloat, LastOfItsFloat;
    forall i: Int32 ensures (i <= n ==> Rounded(i) <= n) && (i >= n ==> Rounded(i) >= n) {
      if i <= n {
        RoundedKeepsOrder(i, n);
      } else {
        RoundedKeepsOrder(n, i);
      }
    }
    match op
    case EQ =>
      assert (forall i: Int32 :: Ordered(op, Rounded(i) < n, Rounded(i) == n) ==> Ordered(op, i < n, i == n))
        <==> (forall i: Int32 :: Rounded(i) == n ==> i == n);
    case GTE =>
      assert (forall i: Int32 :: Ordered(op, Rounded(i) < n, Rounded(i) == n) ==> Ordered(op, i < n, i == n))
        <==> (forall i: Int32 :: Rounded(i) == n ==> i >= n);
    case LTE =>
      assert (forall i: Int32 :: Ordered(op, Rounded(i) < n, Rounded(i) == n) ==> Ordered(op, i < n, i == n))
        <==> (forall i: Int32 :: Rounded(i) == n ==> i <= n);
    case GT =>
    case LT =>
  }

  /** The smallest integer that rounds to 2 to the 31st. */
  const TOP: Int32 := 0x7FFF_FFC0

  lemma TopRounds()
    ensures Rounded(TOP) == 0x8000_0000 == Rounded(0x7FFF_FFFF) && Rounded(TOP - 1) < 0x8000_0000
  {
  }

  lemma AtTop(i: Int32)
    ensures Rounded(i) <= 0x8000_0000 && (Rounded(i) == 0x8000_0000 <==> i >= TOP)
  {
    hide Rounded;
    TopRounds();
    RoundedKeepsOrder(i, 0x7FFF_FFFF);
    if i >= TOP {
      RoundedKeepsOrder(TOP, i);
    } else {
      RoundedKeepsOrder(i, TOP - 1);
    }
  }

  /** The float 2 to the 31st is no INT, but passes the source's test of the range; what the conversion then
      gives is open.  Whatever it is, this is when the literal is safe. */
  predicate SafeAtTop(op: CompareOp, v: Int32) {
    match op
    case GT => true
    case GTE => v <= TOP
    case LT => v >= TOP
    case LTE => v == 0x7FFF_FFFF
    case _ => false
  }

  lemma TopLiteral(casts: Casts, op: CompareOp, v: Int32)
    requires Ieee(casts) && casts.toInt(casts.toFloat(0x7FFF_FFFF)) == Some(v)
    requires op.EQ? || op.GT? || op.GTE? || op.LT? || op.LTE?
    ensures Agrees(casts, op, Float(casts.toFloat(0x7FFF_FFFF))) <==> SafeAtTop(op, v)
  {
    var bits := casts.toFloat(0x7FFF_FFFF);
    hide Rounded, FloatRank, ValueLt;
    TopRounds();
    assert Coerced(casts, Float(bits), ColumnType.INT) == Some(Int(v)) && Alternative(Int(v)) == 1;
    forall i: Int32
      ensures CompareValues(casts.toFloat, Int(i), op, Float(bits)) <==> Ordered(op, i < TOP, i >= TOP)
      ensures Ordered(op, ValueLt(Int(i), Int(v)), Int(i) == Int(v)) <==> Ordered(op, i < v, i == v)
    {
      AtTop(i);
      TopCompares(casts, op, i);
      IntsCompare(op, i, v);
    }
    hide CompareValues, Ieee;
    if Agrees(casts, op, Float(bits)) {
      TopAgrees(casts, op, v, TOP);
      TopAgrees(casts, op, v, TOP - 1);
      TopAgrees(casts, op, v, TOP + 1);
      TopAgrees(casts, op, v, 0x7FFF_FFFF);
    }
  }

  lemma IntsCompare(op: CompareOp, i: Int32, v: Int32)
    ensures Ordered(op, ValueLt(Int(i), Int(v)), Int(i) == Int(v)) <==> Ordered(op, i < v, i == v)
  {
  }

  lemma TopCompares(casts: Casts, op: CompareOp, i: Int32)
    requires Ieee(casts)
    ensures CompareValues(casts.toFloat, Int(i), op, Float(casts.toFloat(0x7FFF_FFFF))) <==> Ordered(op, i < TOP, i >= TOP)
  {
    hide Rounded, FloatRank, Ordered;
    TopRounds();
    AtTop(i);
    assert FloatRank(casts.toFloat(0x7FFF_FFFF)) < FloatRank(casts.toFloat(i)) <==> Rounded(0x7FFF_FFFF) < Rounded(i);
    assert FloatRank(casts.toFloat(i)) < FloatRank(casts.toFloat(0x7FFF_FFFF)) <==> Rounded(i) < Rounded(0x7FFF_FFFF);
  }

  /** One integer that compares so with the literal must compare so with what the literal is coerced to. */
  lemma TopAgrees(casts: Casts, op: CompareOp, v: Int32, i: Int32)
    requires Agrees(casts, op, Float(casts.toFloat(0x7FFF_FFFF))) && casts.toInt(casts.toFloat(0x7FFF_FFFF)) == Some(v)
    requires CompareValues(casts.toFloat, Int(i), op, Float(casts.toFloat(0x7FFF_FFFF))) <==> Ordered(op, i < TOP, i >= TOP)
    ensures Ordered(op, i < TOP, i >= TOP) ==> Ordered(op, i < v, i == v)
  {
    hide CompareValues, Ordered, ValueLt;
    assert Coerced(casts, Float(casts.toFloat(0x7FFF_FFFF)), ColumnType.INT) == Some(Int(v));
    IntsCompare(op, i, v);
    var image := casts.toFloat(i);
  }

  /** For each comparison, exactly when a float literal on an INT column is safe for the index.  A literal that
      is coerced to no integer always is, and so are strict bounds, 2 to the 31st aside. */
  lemma FloatLiteralIsSafeIff(casts: Casts, bits: FloatBits, op: CompareOp)
    requires Ieee(casts) && (op.EQ? || op.GT? || op.GTE? || op.LT? || op.LTE?)
    ensures Agrees(casts, op, Float(bits)) <==>
      (casts.toInt(bits).Some? ==>
         var n := casts.toInt(bits).value;
         if bits == casts.toFloat(0x7FFF_FFFF) then SafeAtTop(op, n)
         else
           && (op.EQ? || op.GTE? ==> FirstOfItsFloat(n))
           && (op.EQ? || op.LTE? ==> LastOfItsFloat(n)))
  {
    if casts.toInt(bits).Some? {
      var n := casts.toInt(bits).value;
      if bits == casts.toFloat(0x7FFF_FFFF) {
        TopLiteral(casts, op, n);
      } else {
        AgreesMeans(casts, bits, op, n);
        LiteralIs(casts, bits, n);
        OrderedIff(op, n);
      }
      hide Rounded, FloatRank, Ieee, Agrees, Ordered, FirstOfItsFloat, LastOfItsFloat, SafeAtTop;
    }
  }

  // ------------------------------------------------------------ in numbers

  lemma OneAside(k: nat, u: nat)
    requires u >= 4
    ensures Nearest(k * u + 1, u) == k * u
    ensures k > 0 ==> k * u >= 1 && Nearest(k * u - 1, u) == k * u
  {
    QuotientIs(k * u + 1, u, k, 1);
    if k > 0 {
      Multiples(1, k, u);
      assert (k - 1) * u == k * u - u;
      QuotientIs(k * u - 1, u, k - 1, u - 1);
    }
  }

  lemma QuotientIs(a: nat, u: nat, q: nat, r: nat)
    requires a == q * u + r && r < u
    ensures a / u == q && a % u == r
  {
    Quotient(a, u);
    if a / u < q {
      Multiples(a / u + 1, q, u);
    } else if q < a / u {
      Multiples(q + 1, a / u, u);
    }
  }

  lemma NearestIs(a: nat, u: nat, q: nat, r: nat)
    requires a == q * u + r && r < u
    ensures Nearest(a, u) == NearestOf(q, r, u)
  {
    QuotientIs(a, u, q, r);
  }

  /** A number that is its own float is a multiple of the spacing. */
  lemma OwnFloat(a: nat, u: nat) returns (k: nat)
    requires u > 0 && Nearest(a, u) == a
    ensures a == k * u
  {
    k := a / u;
    Quotient(a, u);
  }

  lemma HalfParity(k: nat)
    ensures (2 * k) % 4 == 2 <==> k % 2 == 1
  {
  }

  /** Odd numbers in the range of spacing 2 lie between two floats. */
  lemma BetweenTwo(q: nat)
    ensures Nearest(2 * q + 1, 2) == if q % 2 == 0 then 2 * q else 2 * q + 2
  {
    NearestIs(2 * q + 1, 2, q, 1);
  }

  lemma SpacingTwo(a: nat)
    requires EXACT <= a < 2 * EXACT
    ensures Spacing(a) == 2
  {
  }

  lemma SpacingTwoOrFour(a: nat)
    requires EXACT <= a <= 2 * EXACT
    ensures Spacing(a) == if a < 2 * EXACT then 2 else 4
  {
  }

  lemma NextAboveSmall(a: nat)
    requires a < EXACT
    ensures Nearest(a + 1, Spacing(a + 1)) == a + 1
  {
    if a + 1 < EXACT {
      NearestIs(a + 1, 1, a + 1, 0);
    } else {
      NearestIs(EXACT, 2, EXACT / 2, 0);
    }
  }

  lemma NextAboveMiddle(a: nat)
    requires EXACT <= a < 2 * EXACT && Nearest(a, Spacing(a)) == a
    ensures Nearest(a + 1, Spacing(a + 1)) == a <==> a % 4 != 2
  {
    SpacingTwo(a);
    hide Spacing, Nearest;
    var k := OwnFloat(a, 2);
    HalfParity(k);
    SpacingTwo(a + 1);
    BetweenTwo(k);
  }

  lemma NextAboveLarge(a: nat)
    requires 2 * EXACT <= a < 0x8000_0000 - 1 && Nearest(a, Spacing(a)) == a
    ensures Nearest(a + 1, Spacing(a + 1)) == a
  {
    var u := Spacing(a);
    var k := OwnFloat(a, u);
    SpacingStays(a, k);
    hide Spacing, Nearest;
    OneAside(k, u);
  }

  lemma SpacingStays(a: nat, k: nat)
    requires 2 * EXACT <= a < 0x8000_0000 - 1 && a == k * Spacing(a)
    ensures Spacing(a) >= 4 && Spacing(a + 1) == Spacing(a)
  {
  }

  /** Numbers of which the next greater one rounds to them. */
  lemma NextAbove(a: nat)
    requires a < 0x8000_0000 - 1 && Nearest(a, Spacing(a)) == a
    ensures Nearest(a + 1, Spacing(a + 1)) == a <==> a >= EXACT && !(a < 2 * EXACT && a % 4 == 2)
  {
    hide Spacing, Nearest;
    if a < EXACT {
      NextAboveSmall(a);
    } else if a < 2 * EXACT {
      NextAboveMiddle(a);
    } else {
      NextAboveLarge(a);
    }
  }

  lemma NextBelowSmall(a: nat)
    requires 0 < a <= EXACT
    ensures Nearest(a - 1, Spacing(a - 1)) == a - 1
  {
    NearestIs(a - 1, 1, a - 1, 0);
  }

  lemma NextBelowMiddle(a: nat)
    requires EXACT < a <= 2 * EXACT && Nearest(a, if a < 2 * EXACT then 2 else 4) == a
    ensures Nearest(a - 1, Spacing(a - 1)) == a <==> a % 4 != 2
  {
    hide Nearest;
    var k := EXACT;
    if a < 2 * EXACT {
      k := OwnFloat(a, 2);
    }
    assert a == 2 * k;
    HalfParity(k);
    SpacingTwo(a - 1);
    BetweenTwo(k - 1);
  }

  lemma NextBelowLarge(a: nat)
    requires 2 * EXACT < a <= 0x8000_0000 && Nearest(a, Spacing(a)) == a
    ensures Nearest(a - 1, Spacing(a - 1)) == a
  {
    var k := Whole(a);
    hide Spacing, Nearest;
    OneAside(k, Spacing(a - 1));
  }

  /** Numbers of which the next smaller one rounds to them. */
  lemma NextBelow(a: nat)
    requires 0 < a <= 0x8000_0000 && Nearest(a, Spacing(a)) == a
    ensures Nearest(a - 1, Spacing(a - 1)) == a <==> a > EXACT && !(a < 2 * EXACT && a % 4 == 2)
  {
    hide Spacing, Nearest;
    if a <= EXACT {
      NextBelowSmall(a);
    } else if a <= 2 * EXACT {
      SpacingTwoOrFour(a);
      NextBelowMiddle(a);
    } else {
      NextBelowLarge(a);
    }
  }

  /** A float is a multiple of the spacing just below it. */
  lemma Whole(a: nat) returns (k: nat)
    requires 2 * EXACT < a <= 0x8000_0000 && Nearest(a, Spacing(a)) == a
    ensures Spacing(a - 1) >= 4 && a == k * Spacing(a - 1)
  {
    k := OwnFloat(a, Spacing(a));
    SpacingBelow(a);
    if Spacing(a - 1) != Spacing(a) {
      assert k * (2 * Spacing(a - 1)) == (2 * k) * Spacing(a - 1);
      k := 2 * k;
    }
  }

  lemma SpacingBelow(a: nat)
    requires 2 * EXACT < a <= 0x8000_0000
    ensures Spacing(a - 1) >= 4 && (Spacing(a) == Spacing(a - 1) || Spacing(a) == 2 * Spacing(a - 1))
  {
  }

  /** Away from zero the next number rounds back from 2 to the 24th on, and from 2 to the 25th on always. */
  predicate RoundsBack(a: nat) { a >= EXACT && !(a < 2 * EXACT && a % 4 == 2) }

  /** In numbers: when a float is the image of no smaller, and of no greater integer. */
  lemma BoundsInNumbers(n: Int32)
    requires Rounded(n) == n
    ensures FirstOfItsFloat(n) <==> n == -0x8000_0000 || !RoundsBack(Magnitude(n)) || n == EXACT
    ensures LastOfItsFloat(n) <==> !RoundsBack(Magnitude(n)) || n == -EXACT
  {
    var a := Magnitude(n);
    hide Nearest, Spacing;
    if 0 < a {
      NextBelow(a);
    }
    if a < 0x8000_0000 - 1 {
      NextAbove(a);
    }
    LargestIsNoFloat();
    NearestStops(1, Spacing(1), 0);
    SmallAreExact();
  }

  /** An equality is safe below 2 to the 24th, and then up to 2 to the 25th for every other float, the ones with
      an odd significand. */
  lemma LoneInNumbers(n: Int32)
    requires Rounded(n) == n
    ensures FirstOfItsFloat(n) && LastOfItsFloat(n) <==>
      Magnitude(n) < EXACT || (Magnitude(n) < 2 * EXACT && n % 4 == 2)
  {
    hide FirstOfItsFloat, LastOfItsFloat, Rounded;
    BoundsInNumbers(n);
    SmallestHasSecond();
  }

  lemma SmallestHasSecond()
    ensures !LastOfItsFloat(-0x8000_0000)
  {
  }

  lemma LargestIsNoFloat()
    ensures Nearest(0x7FFF_FFFF, Spacing(0x7FFF_FFFF)) != 0x7FFF_FFFF
  {
  }

  lemma SmallAreExact()
    ensures Rounded(1) == 1 && Rounded(-1) == -1 && Rounded(0) == 0
  {
  }

  /** Two integers that are the same float: an equality with that float accepts both, the index is asked for
      one of them. */
  lemma SixteenMillionAndOne()
    ensures Rounded(16777216) == Rounded(16777217) == 16777216 && !LastOfItsFloat(16777216)
    ensures Rounded(16777218) == 16777218 && FirstOfItsFloat(16777218) && LastOfItsFloat(16777218)
  {
  }
}
