/** Table sizes of the hash table and the choice of the next size. */
module TableSizes {
  import opened Bits

  const HASHTABLE_INIT_SIZE := 4
  const LONG_MAX := 0x7FFF_FFFF_FFFF_FFFF
  /** `maxLoadFactor`, the default template argument. */
  const MAX_LOAD_FACTOR := 5

  /** `i` is the smallest 4 * 2^j that is not below `size`. */
  ghost predicate IsNextPower(size: nat, i: nat)
  {
    && IsPow2(i) && HASHTABLE_INIT_SIZE <= i && size <= i
    && forall p: nat :: IsPow2(p) && HASHTABLE_INIT_SIZE <= p && size <= p ==> i <= p
  }

  /** The smallest 4 * 2^j that is not below `size`; the doubling never wraps around. */
  method NextPower(size: Word) returns (i: Word)
    ensures size >= LONG_MAX ==> i == LONG_MAX
    ensures size < LONG_MAX ==> IsNextPower(size, i)
  {
    i := HASHTABLE_INIT_SIZE;
    assert IsPow2(i);
    if size >= LONG_MAX {
      return LONG_MAX;
    }
    while true
      invariant IsPow2(i) && HASHTABLE_INIT_SIZE <= i
      invariant i == HASHTABLE_INIT_SIZE || i < 2 * size
      invariant forall p: nat :: IsPow2(p) && HASHTABLE_INIT_SIZE <= p && size <= p ==> i <= p
      decreases 2 * size - i
    {
      if i >= size {
        return;
      }
      forall p: nat | IsPow2(p) && HASHTABLE_INIT_SIZE <= p && size <= p
        ensures 2 * i <= p
      {
        Pow2Gap(i, p);
      }
      var doubled := (i * 2) % TWO_TO_THE_64;
      assert doubled == 2 * i;
      i := doubled;
    }
  }

  /** The sizes 4 * 16^k. */
  predicate IsTableSize(n: nat)
  {
    n == HASHTABLE_INIT_SIZE || (n > HASHTABLE_INIT_SIZE && n % 16 == 0 && IsTableSize(n / 16))
  }

  lemma {:induction false} TableSizeIsPow2(n: nat)
    requires IsTableSize(n)
    ensures IsPow2(n)
  {
    if n == HASHTABLE_INIT_SIZE {
      assert IsPow2(2);
    } else {
      TableSizeIsPow2(n / 16);
      assert n / 2 / 2 / 2 / 2 == n / 16;
      assert n % 2 == 0 && (n / 2) % 2 == 0 && (n / 4) % 2 == 0 && (n / 8) % 2 == 0;
      assert IsPow2(n / 8);
      assert IsPow2(n / 4);
      assert IsPow2(n / 2);
    }
  }

  lemma {:induction false} TableSizeGap(a: nat, b: nat)
    requires IsTableSize(a) && IsTableSize(b) && a < b
    ensures 16 * a <= b
    decreases a
  {
    if a > HASHTABLE_INIT_SIZE {
      TableSizeGap(a / 16, b / 16);
    }
  }

  /** While the number of entries fits in an `int`, growing from a full table reaches at most 2^30 buckets. */
  lemma FullTableIsSmall(size: nat)
    requires IsTableSize(size) && 6 * size <= INT_MAX
    ensures 16 * size <= 0x4000_0000
  {
    assert IsTableSize(0x4000);
    assert IsTableSize(0x400_0000);
    assert IsTableSize(0x4000_0000);
    if 16 * size > 0x4000_0000 {
      TableSizeGap(0x400_0000, size);
    }
  }

  /** Doubling the contents of a table filled to its load limit asks for exactly 16 times its size. */
  lemma GrowthIsSixteenfold(size: nat, i: nat)
    requires IsTableSize(size) && IsNextPower(12 * size, i)
    ensures i == 16 * size && IsTableSize(i)
  {
    TableSizeIsPow2(size);
    SixteenfoldIsPow2(size);
    if i < 16 * size {
      Pow2Gap(i, 16 * size);
    }
  }

  /** The first allocation has the initial size. */
  lemma InitialSize(i: nat)
    requires IsNextPower(HASHTABLE_INIT_SIZE, i)
    ensures i == HASHTABLE_INIT_SIZE && IsTableSize(i)
  {
    assert IsPow2(2);
    assert IsPow2(4);
  }

  lemma NextPowerIsBounded(size: nat, i: nat)
    requires IsNextPower(size, i) && size <= TWO_TO_THE_31
    ensures i <= TWO_TO_THE_31
  {
    TwoTo31IsPow2();
  }

  lemma NextPowerExists(size: nat) returns (i: nat)
    ensures IsNextPower(size, i)
  {
    i := HASHTABLE_INIT_SIZE;
    assert IsPow2(2);
    while i < size
      invariant IsPow2(i) && HASHTABLE_INIT_SIZE <= i
      invariant forall p: nat :: IsPow2(p) && HASHTABLE_INIT_SIZE <= p && size <= p ==> i <= p
    {
      forall p: nat | IsPow2(p) && HASHTABLE_INIT_SIZE <= p && size <= p
        ensures 2 * i <= p
      {
        Pow2Gap(i, p);
      }
      i := 2 * i;
    }
  }

  lemma LoadFactor(used: nat, size: nat)
    requires size > 0
    ensures used / size > MAX_LOAD_FACTOR <==> used >= 6 * size
  {
    var q, r := used / size, used % size;
    assert used == q * size + r;
    if q >= 6 {
      assert q * size >= 6 * size;
    } else {
      assert q * size <= 5 * size;
    }
  }
}
