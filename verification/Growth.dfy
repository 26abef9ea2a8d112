/** How the capacity of a buffer grows: repeated multiplication in single precision, truncated to an integer. */
module Growth {
  import opened SinglePrecision

  /** The product of a number and a factor, rounded. */
  function Product(n: nat, factor: real): nat
    requires factor >= 0.0
  {
    ProductSign(n, factor);
    Single(n as real * factor)
  }

  /** `newSize *= growFactor`: the integer is converted, multiplied and truncated. */
  function NextSize(size: nat, factor: real): nat
    requires factor >= 0.0
  {
    Whole(Product(FromInt(size), factor))
  }

  /** The factor is itself a number in single precision; below one nothing more need be known of it. */
  predicate IsSingle(factor: real): (b: bool)
    ensures b ==> factor >= 0.0
  {
    factor >= 0.0 && (factor > 1.0 ==> Product(One(), factor) as real == factor * One() as real)
  }

  /** The size makes progress when multiplied. */
  predicate Grows(size: nat, factor: real)
  {
    factor > 1.0 && NextSize(size, factor) > size
  }

  /** What it takes to get to a capacity. */
  predicate Reaches(size: nat, factor: real, capacity: nat)
    requires factor >= 0.0
  {
    Grows(size, factor) || NextSize(size, factor) >= capacity
  }

  function Iterate(size: nat, factor: real, steps: nat): nat
    requires factor >= 0.0
  {
    if steps == 0 then size else NextSize(Iterate(size, factor, steps - 1), factor)
  }

  /** How many multiplications it takes to get to a capacity. */
  predicate FirstReach(size: nat, factor: real, capacity: nat, steps: nat)
    requires factor >= 0.0
  {
    Iterate(size, factor, steps) >= capacity && forall k :: 0 <= k < steps ==> Iterate(size, factor, k) < capacity
  }

  lemma ProductSign(n: nat, factor: real)
    requires factor >= 0.0
    ensures n as real * factor >= 0.0
  {
  }

  lemma ProductIs(n: nat, factor: real)
    requires factor >= 0.0
    ensures n as real * factor >= 0.0 && Product(n, factor) == Single(n as real * factor)
  {
    ProductSign(n, factor);
  }

  lemma ProductMonotone(x: nat, y: nat, factor: real)
    requires x <= y && factor >= 0.0
    ensures Product(x, factor) <= Product(y, factor)
  {
    hide Single;
    ProductSign(x, factor);
    ProductSign(y - x, factor);
    assert y as real * factor == x as real * factor + (y - x) as real * factor;
    SingleMonotone(x as real * factor, y as real * factor);
  }

  lemma NextSizeMonotone(a: nat, b: nat, factor: real)
    requires a <= b && factor >= 0.0
    ensures NextSize(a, factor) <= NextSize(b, factor)
  {
    hide Single, Units, Whole, Product;
    UnitsOrder(a, b);
    SingleMonotone(Units(a) as real, Units(b) as real);
    ProductMonotone(FromInt(a), FromInt(b), factor);
    WholeMonotone(Product(FromInt(a), factor), Product(FromInt(b), factor));
  }

  /** The smallest factor above one. */
  lemma FactorAboveOne(factor: real)
    requires IsSingle(factor) && factor > 1.0
    ensures factor >= 1.0 + 1.0 / 8388608.0
  {
    hide Single, Power, One, Spacing;
    var w := OneTimes(factor);
    var q := SingleParts(w);
    SpacingIsPower(w);
    AboveOne(q, Exponent(w.Floor));
    OneParts();
    FactorFromProduct(factor, One(), Power(1));
  }

  lemma OneTimes(factor: real) returns (w: real)
    requires IsSingle(factor) && factor > 1.0
    ensures w == factor * One() as real == Single(w) as real && w > One() as real
  {
    hide Single, One;
    ProductIs(One(), factor);
    ProductOrder(factor, 1.0, One() as real);
    w := One() as real * factor;
    assert Single(w) == Single(One() as real * factor);
  }

  lemma FactorFromProduct(factor: real, one: nat, u: nat)
    requires one == 8388608 * u && u >= 1 && factor * one as real >= one as real + u as real
    ensures factor >= 1.0 + 1.0 / 8388608.0
  {
    var d := factor - 1.0 - 1.0 / 8388608.0;
    assert d * one as real == factor * one as real - one as real - u as real;
    RealProductSign(d, one as real);
  }

  /** Such a factor takes a number at least to the next one. */
  lemma ProductStep(q: nat, e: nat, factor: real)
    requires TOP / 2 <= q <= TOP && factor >= 1.0 + 1.0 / 8388608.0
    ensures Product(q * Power(e), factor) >= q * Power(e) + Power(e)
  {
    hide Single, Power;
    var (a, u) := (q * Power(e), Power(e));
    OrderTimes(8388608, q, u);
    StepOver(a, u, factor);
    if q < TOP {
      assert (q + 1) * u == a + u;
      SignificandIsSingle(q + 1, e);
    } else {
      assert Power(e + 1) == 2 * u by {
        SmallPowers();
        PowerAdds(1, e);
      }
      SignificandIsSingle(8388608 + 1, e + 1);
      assert (8388608 + 1) * (2 * u) == a + 2 * u;
      StepOver(a, 2 * u, factor);
    }
  }

  /** If the exact product reaches `a + u`, and that is a number, so does the rounded one. */
  lemma StepOver(a: nat, u: nat, factor: real)
    requires a >= 8388608 * u && factor >= 1.0 + 1.0 / 8388608.0
    ensures Single((a + u) as real) == a + u ==> Product(a, factor) >= a + u
  {
    hide Single;
    ProductSign(a, factor);
    ProductSign(a, factor - 1.0 - 1.0 / 8388608.0);
    assert a as real * factor >= a as real + a as real / 8388608.0;
    SingleMonotone((a + u) as real, a as real * factor);
  }

  /** An integer from 2^23 on and what it is rounded to. */
  lemma LargeParts(y: nat) returns (q: nat, e: nat)
    requires y >= TOP / 2
    ensures TOP / 2 <= q <= TOP && FromInt(y) == q * Power(e)
    ensures Power(e) == One() ==> FromInt(y) == Units(y)
    ensures Power(e) != One() ==> Power(e) >= 2 * One() && 2 * FromInt(y) >= 2 * Units(y) - Power(e)
  {
    hide Single, Power, Exponent, One, Units;
    var w := Units(y);
    e := Exponent(w);
    ExponentBounds(w);
    assert (w as real).Floor == w;
    UnitsOrder(TOP / 2, y);
    UnitsOfHalfTop();
    OneParts();
    if e < 24 {
      PowerMonotone(e, 23);
    }
    q := SingleParts(w as real);
    if e == 24 {
      UnitsIs(y);
      MultipleIsSingle(w, y);
    } else {
      PowerMonotone(24, e);
    }
  }

  /** From 2^23 on the rounding cannot eat up the progress. */
  lemma LargeGrows(y: nat, factor: real)
    requires y >= TOP / 2 && factor >= 1.0 + 1.0 / 8388608.0
    ensures NextSize(y, factor) > y
  {
    hide Power, Product, One, FromInt, Units, Whole;
    var q, e := LargeParts(y);
    ProductStep(q, e, factor);
    UnitsNext(y);
    WholeReaches(Product(FromInt(y), factor), y + 1);
  }

  /** Below, whatever is enough for an integer is enough for a larger one. */
  lemma SmallGrows(x: nat, y: nat, factor: real)
    requires x <= y < TOP / 2 && factor >= 1.0 && NextSize(x, factor) > x
    ensures NextSize(y, factor) > y
  {
    hide Single, One, Units, Whole, FromInt;
    SmallIsExact(x);
    SmallIsExact(y);
    WholeReaches(Product(Units(x), factor), x + 1);
    WholeReaches(Product(Units(y), factor), y + 1);
    UnitsOrder(x, y);
    StepsOnward(Units(x), Units(y), factor);
    UnitsNext(x);
    UnitsNext(y);
    ReachesFurther(Units(x) as real * factor, Units(y) as real * factor, x + 1, y + 1);
  }

  lemma StepsOnward(a: nat, b: nat, factor: real)
    requires a <= b && factor >= 1.0
    ensures b as real * factor >= a as real * factor + b as real - a as real && a as real * factor >= 0.0
  {
    ProductSign(a, factor);
    ProductSign(b - a, factor - 1.0);
    assert b as real * factor == a as real * factor + (b - a) as real + (b - a) as real * (factor - 1.0);
  }

  /** A factor that makes a size larger makes every larger one larger, in spite of the rounding. */
  lemma LargerGrowsToo(size: nat, larger: nat, factor: real)
    requires IsSingle(factor) && Grows(size, factor) && size <= larger
    ensures Grows(larger, factor)
  {
    hide NextSize, IsSingle;
    FactorAboveOne(factor);
    if larger >= TOP / 2 {
      LargeGrows(larger, factor);
    } else {
      SmallGrows(size, larger, factor);
    }
  }

  /** A factor of at most one makes no integer larger that is a number, which every product is. */
  lemma NextSizeStalls(size: nat, factor: real)
    requires 0.0 <= factor <= 1.0
    ensures NextSize(NextSize(size, factor), factor) <= NextSize(size, factor)
  {
    hide Single, One, Units, Whole, FromInt;
    ProductIs(FromInt(size), factor);
    WholeIsExact(FromInt(size) as real * factor);
    var y := NextSize(size, factor);
    var a := Units(y);
    ProductSign(a, factor);
    ProductSign(a, 1.0 - factor);
    var w := a as real * factor;
    assert w == a as real - a as real * (1.0 - factor);
    SingleMonotone(w, a as real);
    ProductIs(a, factor);
    assert Single(w) == Single(a as real * factor);
    FromIntIs(y);
    WholeMonotone(Product(a, factor), a);
    WholeOfUnits(y);
  }

  lemma {:induction false} IterateGrows(size: nat, factor: real, steps: nat)
    requires IsSingle(factor) && Grows(size, factor)
    ensures Iterate(size, factor, steps) >= size + steps
  {
    hide NextSize, IsSingle;
    if steps > 0 {
      IterateGrows(size, factor, steps - 1);
      LargerGrowsToo(size, Iterate(size, factor, steps - 1), factor);
    }
  }

  /** If the first product does not grow, or the factor is at most one, no later one exceeds both. */
  lemma {:induction false} IterateStalls(size: nat, factor: real, steps: nat)
    requires factor >= 0.0 && !Grows(size, factor)
    ensures Iterate(size, factor, steps) <= size || Iterate(size, factor, steps) <= NextSize(size, factor)
  {
    hide NextSize;
    if steps > 0 {
      IterateStalls(size, factor, steps - 1);
      var x := Iterate(size, factor, steps - 1);
      var y := NextSize(size, factor);
      NextSizeMonotone(x, if x <= size then size else y, factor);
      if factor <= 1.0 {
        NextSizeStalls(size, factor);
      }
    }
  }

  /** The growth loop ends exactly when the first multiplication already makes progress with a factor above one, or
      reaches the capacity at once; the latter alone can only happen by rounding an integer beyond 2^24 up. */
  lemma GrowthTerminatesIff(size: nat, factor: real, capacity: nat)
    requires IsSingle(factor) && size < capacity
    ensures Reaches(size, factor, capacity) <==> exists steps: nat :: Iterate(size, factor, steps) >= capacity
  {
    hide NextSize, IsSingle;
    if Grows(size, factor) {
      IterateGrows(size, factor, capacity - size);
    } else if NextSize(size, factor) >= capacity {
      assert Iterate(size, factor, 0) == size;
      assert Iterate(size, factor, 1) >= capacity;
    } else {
      forall steps: nat
        ensures Iterate(size, factor, steps) < capacity
      {
        IterateStalls(size, factor, steps);
      }
    }
  }

  lemma HalfMore(n: nat, k: nat)
    requires 3 * n <= TOP
    ensures Product(2 * n * Power(k), 1.5) == 3 * n * Power(k)
  {
    hide Power, Single;
    SignificandIsSingle(3 * n, k);
    assert (2 * n * Power(k)) as real * 1.5 == (3 * n * Power(k)) as real;
  }

  /** With the default factor a buffer of one byte never grows; any larger one does. */
  lemma DefaultFactorNeedsTwo(size: nat)
    ensures IsSingle(1.5) && NextSize(1, 1.5) == 1
    ensures Grows(size, 1.5) <==> size >= 2
  {
    hide Power, Single, Whole, Units, FromInt, One, Product;
    OneParts();
    forall n: nat | n <= 3 ensures FromInt(n) == Units(n) == n * One() {
      SmallIsExact(n);
      UnitsIs(n);
    }
    HalfMore(0, 23);
    HalfMore(1, 23);
    HalfMore(2, 23);
    WholeReaches(3 * Power(23), 1);
    WholeReaches(3 * Power(23), 2);
    WholeReaches(3 * One(), 3);
    WholeReaches(0, 1);
    if size >= 2 {
      LargerGrowsToo(2, size, 1.5);
    }
  }

  /** With it, sizes from two bytes up to 2^30 meet all the conditions of growth. */
  lemma DefaultFactorIsSafe(size: nat)
    requires size <= 0x4000_0000
    ensures NextSize(size, 1.5) <= 0x6000_0000
  {
    hide Power, Single, Whole, Units, FromInt, One, Product;
    var n := 3 * Power(29);
    SmallPowers();
    assert Power(5) == 32 && Power(6) == 64 by { FewPowers(); }
    PowerAdds(24, 5);
    PowerAdds(24, 6);
    UnitsOfMultiple(1, 54);
    UnitsOfMultiple(3, 53);
    PowerAdds(1, 53);
    SignificandIsSingle(1, 54);
    FromIntIs(Power(30));
    HalfMore(1, 53);
    WholeOfUnits(n);
    NextSizeMonotone(size, Power(30), 1.5);
  }

  lemma FewPowers()
    ensures Power(5) == 32 && Power(6) == 64
  {
  }
}
