/** Rounding to single precision (the `binary32` format of IEEE 754), to the nearest number, ties to even. Numbers are
    not negative and counted in units of 2^-24, the distance of neighbouring numbers right below one. Below one half
    the format is finer than that, which makes no difference to the integer part; the largest exponent is left out. */
module SinglePrecision {

  function Power(n: nat): (p: nat)
    ensures p >= 1
  {
    if n == 0 then 1 else 2 * Power(n - 1)
  }

  /** The significands are below this. */
  const TOP: nat := 0x100_0000

  /** By which power of two a number has to be divided to be below `TOP`. */
  function Exponent(m: nat): nat
  {
    if m < TOP then 0 else 1 + Exponent(m / 2)
  }

  /** The nearest integer, the even one of two. */
  function Nearest(v: real): int
  {
    var n := v.Floor;
    if v - n as real < 0.5 || (v - n as real == 0.5 && n % 2 == 0) then n else n + 1
  }

  /** The distance of neighbouring numbers around `w`. */
  function Spacing(w: real): (u: nat)
    requires w >= 0.0
    ensures u >= 1
  {
    Power(Exponent(w.Floor))
  }

  /** The nearest number in single precision. */
  function Single(w: real): (s: nat)
    requires w >= 0.0
  {
    NearestIsNatural(w / Spacing(w) as real);
    Nearest(w / Spacing(w) as real) * Spacing(w)
  }

  lemma NearestIsNatural(v: real)
    requires v >= 0.0
    ensures Nearest(v) >= 0
  {
  }

  lemma {:induction false} PowerAdds(a: nat, b: nat)
    ensures Power(a + b) == Power(a) * Power(b)
  {
    if a > 0 {
      PowerAdds(a - 1, b);
    }
  }

  lemma PowerMonotone(a: nat, b: nat)
    requires a <= b
    ensures Power(a) <= Power(b) && (a < b ==> 2 * Power(a) <= Power(b))
  {
    PowerAdds(a, b - a);
    if a < b {
      assert Power(b - a) >= 2;
    }
  }

  lemma {:induction false} ExponentBounds(m: nat)
    ensures m < TOP * Power(Exponent(m))
    ensures Exponent(m) > 0 ==> TOP / 2 * Power(Exponent(m)) <= m
  {
    if m >= TOP {
      ExponentBounds(m / 2);
    }
  }

  lemma {:induction false} ExponentMonotone(m: nat, n: nat)
    requires m <= n
    ensures Exponent(m) <= Exponent(n)
  {
    if m >= TOP {
      ExponentMonotone(m / 2, n / 2);
    }
  }

  lemma NearestMonotone(v: real, w: real)
    requires v <= w
    ensures Nearest(v) <= Nearest(w)
  {
  }

  lemma NearestOfInt(n: int)
    ensures Nearest(n as real) == n
  {
  }

  /** Halfway below an even number already counts as that number. */
  lemma NearestReaches(v: real, m: int)
    requires m % 2 == 0
    ensures Nearest(v) >= m <==> v >= m as real - 0.5
  {
  }

  lemma Quotient(w: real, u: nat, q: real)
    requires u >= 1
    ensures w <= q * u as real <==> w / u as real <= q
    ensures w >= q * u as real <==> w / u as real >= q
  {
    var x := w / u as real;
    assert x * u as real == w;
    ProductOrder(x, q, u as real);
    ProductOrder(q, x, u as real);
  }

  lemma QuotientMonotone(v: real, w: real, u: nat)
    requires v <= w && u >= 1
    ensures v / u as real <= w / u as real
  {
    var q := w / u as real;
    assert q * u as real == w;
    Quotient(v, u, q);
  }

  lemma ProductOrder(x: real, y: real, u: real)
    requires u > 0.0
    ensures x <= y <==> x * u <= y * u
  {
    assert (y - x) * u == y * u - x * u;
    RealProductSign(y - x, u);
  }

  lemma RealProductSign(x: real, u: real)
    requires u > 0.0
    ensures x * u >= 0.0 <==> x >= 0.0
  {
  }

  /** A multiple of the spacing around it is a number itself. */
  lemma MultipleIsSingle(w: nat, q: nat)
    requires w == q * Spacing(w as real)
    ensures Single(w as real) == w
  {
    hide Nearest, Spacing;
    var u := Spacing(w as real);
    assert w as real == q as real * u as real;
    Quotient(w as real, u, q as real);
    NearestOfInt(q);
  }

  /** So is any significand up to the limit, with any exponent. */
  lemma SignificandIsSingle(q: nat, k: nat)
    requires q <= TOP
    ensures Single((q * Power(k)) as real) == q * Power(k)
  {
    hide Power, Exponent, Single;
    var w := q * Power(k);
    var e := Exponent(w);
    ExponentBounds(w);
    assert (w as real).Floor == w;
    if e <= k {
      PowerAdds(e, k - e);
      assert w == (q * Power(k - e)) * Power(e) by {
        Regroup(q, Power(e), Power(k - e));
      }
      MultipleIsSingle(w, q * Power(k - e));
    } else {
      PowerMonotone(k + 1, e);
      PowerMonotone(k, k + 1);
      SignificandAtTop(q, k, e);
      MultipleIsSingle(w, TOP / 2);
    }
  }

  lemma Regroup(a: nat, b: nat, c: nat)
    ensures a * (b * c) == (a * c) * b
  {
  }

  lemma SignificandAtTop(q: nat, k: nat, e: nat)
    requires q <= TOP && e > k && TOP / 2 * Power(e) <= q * Power(k)
    ensures q * Power(k) == TOP / 2 * Power(e)
  {
    hide Power;
    PowerMonotone(k, e);
    OrderTimes(q, TOP, Power(k));
  }

  lemma OrderTimes(a: int, b: int, c: nat)
    requires a <= b
    ensures a * c <= b * c
  {
  }

  /** A rounded number is a significand times the spacing, and at most half the spacing away. */
  lemma SingleParts(w: real) returns (q: nat)
    requires w >= 0.0
    ensures Single(w) == q * Spacing(w) && q <= TOP && (Exponent(w.Floor) > 0 ==> q >= TOP / 2)
    ensures w - Spacing(w) as real / 2.0 <= Single(w) as real <= w + Spacing(w) as real / 2.0
    ensures Exponent(w.Floor) > 0 ==> w >= (TOP / 2 * Spacing(w)) as real
  {
    hide Exponent, Power;
    var u := Spacing(w);
    var v := w / u as real;
    ExponentBounds(w.Floor);
    assert w < (TOP * u) as real;
    Quotient(w, u, TOP as real);
    Quotient(w, u, (TOP / 2) as real);
    NearestMonotone(v, TOP as real);
    NearestOfInt(TOP);
    if Exponent(w.Floor) > 0 {
      NearestMonotone((TOP / 2) as real, v);
      NearestOfInt(TOP / 2);
    }
    NearestIsNatural(v);
    q := Nearest(v);
    assert q as real - 0.5 <= v <= q as real + 0.5;
    Halves(w, u, q);
  }

  lemma Halves(w: real, u: nat, q: nat)
    requires u >= 1 && q as real - 0.5 <= w / u as real <= q as real + 0.5
    ensures w - u as real / 2.0 <= (q * u) as real <= w + u as real / 2.0
  {
    Quotient(w, u, q as real - 0.5);
    Quotient(w, u, q as real + 0.5);
    assert (q * u) as real == q as real * u as real;
    assert (q as real - 0.5) * u as real == q as real * u as real - u as real / 2.0;
    assert (q as real + 0.5) * u as real == q as real * u as real + u as real / 2.0;
  }

  /** Of two numbers at the same distance it is the one with the even significand. */
  lemma TieIsEven(w: real, q: nat)
    requires w >= 0.0 && Single(w) == q * Spacing(w)
    requires w == Single(w) as real + Spacing(w) as real / 2.0 || w == Single(w) as real - Spacing(w) as real / 2.0
    ensures q % 2 == 0
  {
    hide Spacing, Nearest;
    var u := Spacing(w);
    var v := w / u as real;
    NearestIsNatural(v);
    SameFactor(q, Nearest(v), u);
    HalfwayQuotient(w, u, q);
    HalfwayIsEven(v, q);
  }

  lemma SameFactor(a: nat, b: nat, c: nat)
    requires a * c == b * c && c > 0
    ensures a == b
  {
  }

  lemma HalfwayQuotient(w: real, u: nat, q: nat)
    requires u >= 1 && (w == (q * u) as real + u as real / 2.0 || w == (q * u) as real - u as real / 2.0)
    ensures w / u as real == q as real + 0.5 || w / u as real == q as real - 0.5
  {
    assert (q * u) as real == q as real * u as real;
    Quotient(w, u, q as real + 0.5);
    Quotient(w, u, q as real - 0.5);
  }

  lemma HalfwayIsEven(v: real, q: nat)
    requires (v == q as real + 0.5 || v == q as real - 0.5) && Nearest(v) == q
    ensures q % 2 == 0
  {
  }

  lemma SameSpacing(v: real, w: real)
    requires 0.0 <= v <= w && Spacing(v) == Spacing(w)
    ensures Single(v) <= Single(w)
  {
    hide Spacing, Nearest;
    var u := Spacing(v);
    QuotientMonotone(v, w, u);
    NearestMonotone(v / u as real, w / u as real);
    OrderTimes(Nearest(v / u as real), Nearest(w / u as real), u);
  }

  lemma SingleMonotone(v: real, w: real)
    requires 0.0 <= v <= w
    ensures Single(v) <= Single(w)
  {
    hide Exponent, Power, Single;
    var e, f := Exponent(v.Floor), Exponent(w.Floor);
    ExponentMonotone(v.Floor, w.Floor);
    if e == f {
      SameSpacing(v, w);
    } else {
      var q := SingleParts(v);
      var r := SingleParts(w);
      PowerMonotone(e, f);
      OrderTimes(q, TOP, Spacing(v));
      OrderTimes(TOP / 2, r, Spacing(w));
    }
  }

  /** Rounding a rounded number changes nothing. */
  lemma SingleIsSingle(w: real)
    requires w >= 0.0
    ensures Single(Single(w) as real) == Single(w)
  {
    hide Single, Power, Exponent;
    var q := SingleParts(w);
    SignificandIsSingle(q, Exponent(w.Floor));
  }

  /** The number one, in these units. */
  function One(): (n: nat)
    ensures n >= 1
  {
    Power(24)
  }

  /** An integer, in these units. */
  function Units(n: nat): nat
  {
    hide One;
    n * One()
  }

  /** The integer part. */
  function Whole(w: nat): nat
  {
    hide One;
    w / One()
  }

  lemma WholeReaches(w: nat, n: nat)
    ensures Whole(w) >= n <==> w >= Units(n)
  {
    hide One;
    DivideBound(w, One(), n);
  }

  lemma WholeOfUnits(n: nat)
    ensures Whole(Units(n)) == n
  {
    hide Units, Whole;
    WholeReaches(Units(n), n);
    WholeReaches(Units(n), n + 1);
    UnitsOrder(n, n);
    UnitsNext(n);
  }

  lemma DivideBound(a: nat, c: nat, n: int)
    requires c >= 1
    ensures a / c >= n <==> a >= n * c
  {
    var q := a / c;
    assert a == q * c + a % c;
    if n <= q {
      OrderTimes(n, q, c);
    } else {
      OrderTimes(q + 1, n, c);
    }
  }

  lemma WholeMonotone(v: nat, w: nat)
    requires v <= w
    ensures Whole(v) <= Whole(w)
  {
    hide Whole, Units;
    WholeReaches(v, Whole(v));
    WholeReaches(w, Whole(v));
  }

  lemma UnitsOrder(a: nat, b: nat)
    requires a <= b
    ensures Units(a) <= Units(b)
  {
    hide One;
    OrderTimes(a, b, One());
  }

  lemma UnitsNext(n: nat)
    ensures Units(n + 1) == Units(n) + One()
  {
    hide One;
  }

  lemma SmallPowers()
    ensures Power(1) == 2 && Power(23) == 8388608 && Power(24) == TOP
  {
    assert Power(3) == 8;
    PowerAdds(3, 3);
    PowerAdds(6, 6);
    PowerAdds(12, 12);
    assert Power(24) == 2 * Power(23);
  }

  lemma OneParts()
    ensures One() == Power(24) == TOP / 2 * Power(1) == TOP * Power(0) == 2 * Power(23)
  {
    hide Power;
    SmallPowers();
    PowerAdds(23, 1);
    PowerAdds(24, 0);
    PowerAdds(1, 23);
  }

  /** 2^23, of which the integers on are all multiples of the spacing. */
  lemma UnitsOfHalfTop()
    ensures Units(TOP / 2) == TOP / 2 * Power(24) == TOP * Power(23)
  {
    hide Power, One, Units;
    OneParts();
    UnitsIs(TOP / 2);
  }

  lemma UnitsIs(n: nat)
    ensures Units(n) == n * One()
  {
    hide One;
  }

  /** An integer as a number in single precision. */
  function FromInt(n: nat): nat
  {
    Single(Units(n) as real)
  }

  lemma SmallIsExact(n: nat)
    requires n <= TOP
    ensures FromInt(n) == Units(n)
  {
    hide Single, Power;
    SignificandIsSingle(n, 24);
  }

  /** The integer part of a number is a number. */
  lemma WholeIsExact(w: real)
    requires w >= 0.0
    ensures FromInt(Whole(Single(w))) == Units(Whole(Single(w)))
  {
    hide Single, Power, Exponent, Units, Whole, FromInt;
    var y := Whole(Single(w));
    var q := SingleParts(w);
    var e := Exponent(w.Floor);
    SpacingIsPower(w);
    if e >= 24 {
      UnitsOfMultiple(q, e);
      WholeOfUnits(q * Power(e - 24));
      SingleIsSingle(w);
      FromIntIs(y);
    } else {
      PowerMonotone(e, 23);
      ProductBound(q, Power(e), TOP, Power(23));
      UnitsOfHalfTop();
      UnitsNext(TOP / 2);
      WholeReaches(Single(w), TOP / 2 + 1);
      SmallIsExact(y);
    }
  }

  lemma FromIntIs(n: nat)
    ensures FromInt(n) == Single(Units(n) as real)
  {
  }

  lemma UnitsOfMultiple(q: nat, e: nat)
    requires e >= 24
    ensures q * Power(e) == Units(q * Power(e - 24))
  {
    hide Power;
    PowerAdds(24, e - 24);
    Regroup(q, Power(24), Power(e - 24));
  }

  lemma SpacingIsPower(w: real)
    requires w >= 0.0
    ensures Spacing(w) == Power(Exponent(w.Floor))
  {
  }

  lemma ProductBound(a: nat, b: nat, c: nat, d: nat)
    requires a <= c && b <= d
    ensures a * b <= c * d
  {
    OrderTimes(a, c, b);
    OrderTimes(b, d, c);
  }

  /** What is a number and above one is at least this much above. */
  lemma AboveOne(q: nat, e: nat)
    requires q <= TOP && q * Power(e) > One()
    ensures q * Power(e) >= One() + Power(1)
  {
    hide Power, One;
    OneParts();
    if e < 1 {
      PowerMonotone(e, 0);
      ProductBound(q, Power(e), TOP, Power(0));
      assert false;
    }
    PowerAdds(1, e - 1);
    Regroup(q, Power(1), Power(e - 1));
    var r := q * Power(e - 1);
    if r <= 8388608 {
      OrderTimes(r, 8388608, Power(1));
    }
    OrderTimes(8388608 + 1, r, Power(1));
  }

  lemma SpacingMonotone(v: real, w: real)
    requires 0.0 <= v <= w
    ensures Spacing(v) <= Spacing(w)
  {
    hide Power, Exponent;
    ExponentMonotone(v.Floor, w.Floor);
    PowerMonotone(Exponent(v.Floor), Exponent(w.Floor));
  }

  /** Below 2^23 an integer is an even multiple of the spacing right below it. */
  lemma EvenMultiple(v: real, n: nat) returns (m: nat)
    requires 0.0 <= v < Units(n) as real && n <= TOP / 2
    ensures m % 2 == 0 && m * Spacing(v) == Units(n)
  {
    hide Power, Exponent, Units, One;
    var e := Exponent(v.Floor);
    ExponentBounds(v.Floor);
    SpacingIsPower(v);
    UnitsOrder(n, TOP / 2);
    UnitsOfHalfTop();
    if e >= 24 {
      PowerMonotone(24, e);
      assert false;
    }
    m := n * Power(24 - e);
    SplitUnits(n, e);
    EvenPower(n, 24 - e);
  }

  lemma SplitUnits(n: nat, e: nat)
    requires e <= 24
    ensures n * Power(24 - e) * Power(e) == Units(n)
  {
    hide Power;
    PowerAdds(e, 24 - e);
    Regroup(n, Power(e), Power(24 - e));
  }

  lemma EvenPower(n: nat, e: nat)
    requires e > 0
    ensures n * Power(e) % 2 == 0
  {
    assert n * (2 * Power(e - 1)) == 2 * (n * Power(e - 1));
  }

  /** So a tie goes up to it. */
  lemma ReachesIff(v: real, n: nat)
    requires 0.0 <= v < Units(n) as real && n <= TOP / 2
    ensures Single(v) >= Units(n) <==> v >= Units(n) as real - Spacing(v) as real / 2.0
  {
    hide Spacing, Nearest, Units;
    var m := EvenMultiple(v, n);
    var u := Spacing(v);
    NearestReaches(v / u as real, m);
    Quotient(v, u, m as real - 0.5);
    assert (m as real - 0.5) * u as real == (m * u) as real - u as real / 2.0;
    CompareTimes(Nearest(v / u as real), m, u);
  }

  lemma CompareTimes(a: int, b: int, c: nat)
    requires c >= 1
    ensures a >= b <==> a * c >= b * c
  {
    if a < b {
      OrderTimes(a + 1, b, c);
    } else {
      OrderTimes(b, a, c);
    }
  }

  /** What rounds up to an integer still does so together with further whole steps. */
  lemma ReachesFurther(v: real, w: real, n: nat, m: nat)
    requires 0.0 <= v <= w && n <= m <= TOP / 2 && Single(v) >= Units(n)
    requires w >= v + Units(m) as real - Units(n) as real
    ensures Single(w) >= Units(m)
  {
    hide Single, Spacing, Units;
    if w >= Units(m) as real {
      SingleMonotone(Units(m) as real, w);
      SmallIsExact(m);
    } else {
      ReachesIff(v, n);
      ReachesIff(w, m);
      SpacingMonotone(v, w);
    }
  }
}
