/** Machine numbers: bitwise "and", truncation to 32 bits and powers of two. */
module Bits {

  const TWO_TO_THE_31 := 0x8000_0000
  const TWO_TO_THE_32 := 0x1_0000_0000
  const TWO_TO_THE_64 := 0x1_0000_0000_0000_0000

  const INT_MAX := 0x7FFF_FFFF

  /** A `size_t` or `uint64_t` value. */
  type Word = x: int | 0 <= x < TWO_TO_THE_64

  function Min(a: int, b: int): int
  {
    if a < b then a else b
  }

  /** Bitwise "and" of two unsigned numbers, bit by bit from the lowest. */
  function And(a: nat, b: nat): nat
  {
    if a == 0 || b == 0 then 0
    else 2 * And(a / 2, b / 2) + (if a % 2 == 1 && b % 2 == 1 then 1 else 0)
  }

  /** Conversion of an unsigned number to `unsigned int`. */
  function Trunc32(x: nat): nat
  {
    x % TWO_TO_THE_32
  }

  predicate IsPow2(n: nat)
  {
    n == 1 || (n > 1 && n % 2 == 0 && IsPow2(n / 2))
  }

  predicate Bit(x: nat, i: nat)
    decreases i
  {
    if i == 0 then x % 2 == 1 else Bit(x / 2, i - 1)
  }

  /** `And` is the bitwise operation: bit `i` of the result is set when both operands have it. */
  lemma {:induction false} AndBit(a: nat, b: nat, i: nat)
    ensures Bit(And(a, b), i) <==> Bit(a, i) && Bit(b, i)
    decreases i
  {
    if a == 0 || b == 0 {
      ZeroBit(i);
    } else if i > 0 {
      AndBit(a / 2, b / 2, i - 1);
    }
  }

  lemma {:induction false} ZeroBit(i: nat)
    ensures !Bit(0, i)
    decreases i
  {
    if i > 0 {
      ZeroBit(i - 1);
    }
  }

  /** Masking with `size - 1` is the remainder by `size`. */
  lemma {:induction false} MaskIsRemainder(h: nat, size: nat)
    requires IsPow2(size)
    ensures And(h, size - 1) == h % size
    decreases size
  {
    if size > 1 {
      var half := size / 2;
      assert size == 2 * half;
      if h == 0 {
      } else {
        MaskIsRemainder(h / 2, half);
        assert (size - 1) / 2 == half - 1;
        HalfRemainder(h, half);
        if half == 1 {
          assert And(h / 2, 0) == 0;
        }
      }
    }
  }

  lemma HalfRemainder(h: nat, half: nat)
    requires half > 0
    ensures h % (2 * half) == 2 * ((h / 2) % half) + h % 2
  {
    var q, r := (h / 2) / half, (h / 2) % half;
    assert h / 2 == q * half + r;
    var low := 2 * r + h % 2;
    assert h == q * (2 * half) + low;
    RemainderUnique(h, 2 * half, q, low);
  }

  /** A remainder is determined by any way of writing the number as a multiple plus a small rest. */
  lemma RemainderUnique(h: nat, n: nat, q: nat, low: nat)
    requires n > 0 && low < n && h == q * n + low
    ensures h % n == low
  {
    var p, r := h / n, h % n;
    assert p * n + r == q * n + low;
    MultiplesApart(p, q, n);
    MultiplesApart(q, p, n);
  }

  lemma {:induction false} MultiplesApart(p: nat, q: nat, n: nat)
    ensures p < q ==> p * n + n <= q * n
    decreases q
  {
    if p < q {
      assert q * n == (q - 1) * n + n;
      MultiplesApart(p, q - 1, n);
    }
  }

  /** The smaller of two powers of two divides the larger. */
  lemma {:induction false} Pow2Divides(a: nat, b: nat)
    requires IsPow2(a) && IsPow2(b) && a <= b
    ensures b % a == 0
    decreases a
  {
    if a > 1 {
      Pow2Divides(a / 2, b / 2);
      var q := (b / 2) / (a / 2);
      assert b / 2 == q * (a / 2);
      assert b == q * a + 0;
      RemainderUnique(b, a, q, 0);
    }
  }

  /** Between a power of two and its double there is no other. */
  lemma {:induction false} Pow2Gap(a: nat, b: nat)
    requires IsPow2(a) && IsPow2(b) && a < b
    ensures 2 * a <= b
    decreases a
  {
    if a > 1 {
      Pow2Gap(a / 2, b / 2);
    }
  }

  lemma RegroupProduct(q: nat, c: nat, p: nat, d: nat)
    ensures q * (c * d) + p * d == (q * c + p) * d
  {
    assert q * (c * d) == (q * c) * d;
  }

  lemma RemainderOfRemainder(h: nat, n: nat, d: nat)
    requires d > 0 && n > 0 && n % d == 0
    ensures (h % n) % d == h % d
  {
    var c := n / d;
    assert n == c * d;
    var q, r := h / n, h % n;
    var p, s := r / d, r % d;
    assert h == q * (c * d) + (p * d + s);
    RegroupProduct(q, c, p, d);
    RemainderUnique(h, d, q * c + p, s);
  }

  lemma DoubleIsPow2(n: nat)
    requires IsPow2(n)
    ensures IsPow2(2 * n)
  {
    var d := 2 * n;
    assert d % 2 == 0 && d / 2 == n && d > 1;
  }

  lemma SixteenfoldIsPow2(n: nat)
    requires IsPow2(n)
    ensures IsPow2(16 * n)
  {
    hide IsPow2;
    DoubleIsPow2(n);
    DoubleIsPow2(2 * n);
    DoubleIsPow2(4 * n);
    DoubleIsPow2(8 * n);
  }

  lemma TwoTo31IsPow2()
    ensures IsPow2(TWO_TO_THE_31)
  {
    assert IsPow2(1);
    SixteenfoldIsPow2(0x1);
    SixteenfoldIsPow2(0x10);
    SixteenfoldIsPow2(0x100);
    SixteenfoldIsPow2(0x1000);
    SixteenfoldIsPow2(0x1_0000);
    SixteenfoldIsPow2(0x10_0000);
    SixteenfoldIsPow2(0x100_0000);
    DoubleIsPow2(0x1000_0000);
    DoubleIsPow2(0x2000_0000);
    DoubleIsPow2(0x4000_0000);
  }

  lemma TwoTo32IsPow2()
    ensures IsPow2(TWO_TO_THE_32)
  {
    TwoTo31IsPow2();
    DoubleIsPow2(TWO_TO_THE_31);
  }

  /** The index that a lookup computes (truncate the hash, then mask) and the index that
      a migration computes (mask, then truncate) are both the remainder by the table size. */
  lemma IndexAgreement(h: nat, size: nat)
    requires IsPow2(size) && size <= TWO_TO_THE_32
    ensures And(Trunc32(h), size - 1) == h % size
    ensures Trunc32(And(h, size - 1)) == h % size
  {
    hide And;
    MaskIsRemainder(h, size);
    MaskIsRemainder(Trunc32(h), size);
    TwoTo32IsPow2();
    Pow2Divides(size, TWO_TO_THE_32);
    RemainderOfRemainder(h, TWO_TO_THE_32, size);
  }
}
