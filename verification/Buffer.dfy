/** The growing ring buffer. */
module Buffers {
  import opened Bits
  import opened Decimal
  import opened Framing
  import opened Growth

  /** The `count` bytes of a ring that start at `begin`. */
  function Ring(s: Bytes, begin: nat, count: nat): (r: Bytes)
    requires count <= |s| && (begin < |s| || (begin == 0 && s == []))
    ensures |r| == count
  {
    if begin + count <= |s| then s[begin..begin + count] else s[begin..] + s[..begin + count - |s|]
  }

  /** A position up to twice around the ring, brought back into it. */
  function Wrap(i: nat, size: nat): nat
    requires i < 2 * size || i == size == 0
  {
    if i < size then i else i - size
  }

  lemma WrapIsModulo(i: nat, size: nat)
    requires i < 2 * size
    ensures i % size == Wrap(i, size)
  {
    RemainderUnique(i, size, if i < size then 0 else 1, Wrap(i, size));
  }

  lemma RingAt(s: Bytes, begin: nat, count: nat, i: nat)
    requires i < count <= |s| && begin < |s|
    ensures Ring(s, begin, count)[i] == s[Wrap(begin + i, |s|)]
  {
  }

  lemma RingFromStart(s: Bytes, count: nat)
    requires count <= |s| && 0 < |s|
    ensures Ring(s, 0, count) == s[..count]
  {
  }

  lemma RingDrops(s: Bytes, begin: nat, count: nat, n: nat)
    requires n <= count <= |s| && (begin < |s| || begin == |s| == 0)
    ensures Ring(s, Wrap(begin + n, |s|), count - n) == Ring(s, begin, count)[n..]
  {
  }

  lemma RingTakesOne(s: Bytes, begin: nat, count: nat, c: byte)
    requires count < |s| && begin < |s|
    ensures var end := Wrap(begin + count, |s|);
      Ring(s[end := c], begin, count + 1) == Ring(s, begin, count) + [c]
        && Wrap(end + 1, |s|) == Wrap(begin + count + 1, |s|)
  {
  }

  /** The size that a buffer grows to: enough multiplications to reach `capacity`, but at most `maxSize`. */
  method GrownSize(size: nat, capacity: nat, maxSize: nat, factor: real) returns (newSize: nat, ghost steps: nat)
    requires IsSingle(factor) && Reaches(size, factor, capacity) && size < capacity && size < maxSize
    requires NextSize(capacity, factor) <= INT_MAX
    ensures size < newSize && Min(capacity, maxSize) <= newSize <= maxSize
    ensures FirstReach(size, factor, capacity, steps) && newSize == Min(Iterate(size, factor, steps), maxSize)
    ensures Grows(size, factor) ==> Grows(newSize, factor)
  {
    hide IsSingle, NextSize;
    newSize, steps := size, 0;
    while newSize < capacity
      invariant size <= newSize && (size < newSize || newSize < capacity)
      invariant newSize < capacity ==> Reaches(newSize, factor, capacity)
      invariant Grows(size, factor) ==> Grows(newSize, factor)
      invariant newSize < capacity || newSize <= INT_MAX
      invariant newSize == Iterate(size, factor, steps)
      invariant forall k :: 0 <= k < steps ==> Iterate(size, factor, k) < capacity
      decreases capacity - newSize
    {
      NextSizeMonotone(newSize, capacity, factor);
      if Grows(newSize, factor) {
        LargerGrowsToo(newSize, NextSize(newSize, factor), factor);
      }
      newSize, steps := NextSize(newSize, factor), steps + 1;
    }
    if newSize > maxSize {
      newSize := maxSize;
    }
    if Grows(size, factor) {
      LargerGrowsToo(size, newSize, factor);
    }
  }

  class Buffer {
    var data: array<byte>
    var currentSize: nat
    const maxSize: nat
    const growFactor: real
    var begin: nat
    var end: nat
    var count: nat

    ghost predicate Valid()
      reads this, data
    {
      && data.Length == currentSize <= maxSize <= INT_MAX
      && count <= currentSize
      && (begin < currentSize || begin == currentSize == 0)
      && end == Wrap(begin + count, currentSize)
      && IsSingle(growFactor)
    }

    /** As long as the buffer can grow, a multiplication makes it larger. */
    predicate GrowthWorks()
      reads this
    {
      currentSize < maxSize ==> Grows(currentSize, growFactor)
    }

    /** The bytes in the buffer, oldest first. */
    ghost function Contents(): (s: Bytes)
      requires Valid()
      reads this, data
      ensures |s| == count
    {
      Ring(data[..], begin, count)
    }

    constructor (initSize: nat, maxSize: nat, growFactor: real)
      requires initSize <= maxSize <= INT_MAX && IsSingle(growFactor)
      ensures Valid() && Contents() == [] && fresh(data)
      ensures currentSize == initSize && this.maxSize == maxSize && this.growFactor == growFactor
    {
      currentSize, this.maxSize, this.growFactor := initSize, maxSize, growFactor;
      begin, end, count := 0, 0, 0;
      data := new byte[initSize](_ => 0);
    }

    function GetSize(): nat
      reads this
    {
      count
    }

    function GetSpace(): int
      reads this
    {
      currentSize - count
    }

    function GetMaxSpace(): int
      reads this
    {
      maxSize - count
    }

    predicate CanGrow()
      reads this
    {
      currentSize < maxSize
    }

    predicate NeedGrow(n: nat)
      reads this
    {
      count + n > currentSize
    }

    /** Asking for `n` more bytes keeps all the arithmetic within `int`. */
    predicate IntSized(n: nat)
      reads this
    {
      growFactor >= 0.0 && count + n <= INT_MAX && NextSize(count + n, growFactor) <= INT_MAX
    }

    method Clear()
      requires Valid()
      modifies this`begin, this`end, this`count
      ensures Valid() && Contents() == []
    {
      begin, end, count := 0, 0, 0;
    }

    /** Takes up to `n` bytes from the front. */
    method Read(dst: array<byte>, n: nat) returns (k: nat)
      requires Valid() && dst != data && Min(n, count) <= dst.Length
      modifies this`begin, this`count, dst
      ensures Valid() && k == Min(n, old(count))
      ensures dst[..k] == old(Contents())[..k] && dst[k..] == old(dst[k..])
      ensures Contents() == old(Contents())[k..]
    {
      hide Grows, Reaches, NextSize, IsSingle, Ring, FirstReach, Iterate;
      k := if n > count then count else n;
      ghost var (b, c, s) := (begin, count, data[..]);
      for i := 0 to k
        invariant count == c - i && begin == Wrap(b + i, currentSize)
        invariant dst[..i] == Ring(s, b, c)[..i] && dst[k..] == old(dst[k..])
      {
        WrapIsModulo(begin + 1, currentSize);
        RingAt(s, b, c, i);
        dst[i] := data[begin];
        begin := (begin + 1) % currentSize;
        count := count - 1;
      }
      RingDrops(s, b, c, k);
    }

    /** Copies up to `n` bytes from the front, leaving them in place. */
    method Copy(dst: array<byte>, n: nat) returns (k: nat)
      requires Valid() && dst != data && Min(n, count) <= dst.Length
      modifies dst
      ensures k == Min(n, count)
      ensures dst[..k] == Contents()[..k] && dst[k..] == old(dst[k..])
    {
      hide IsSingle, Ring;
      k := if n > count then count else n;
      var b := begin;
      ghost var s := data[..];
      for i := 0 to k
        invariant b == Wrap(begin + i, currentSize) && data[..] == s
        invariant dst[..i] == Ring(s, begin, count)[..i] && dst[k..] == old(dst[k..])
      {
        WrapIsModulo(b + 1, currentSize);
        RingAt(s, begin, count, i);
        dst[i] := data[b];
        b := (b + 1) % currentSize;
      }
    }

    /** Drops `n` bytes from the front. Without an array to go around, even dropping none divides by zero. */
    method SkipHead(n: nat)
      requires Valid() && n <= count && currentSize > 0
      modifies this`begin, this`count
      ensures Valid() && Contents() == old(Contents())[n..]
    {
      hide IsSingle, Ring;
      RingDrops(data[..], begin, count, n);
      WrapIsModulo(begin + n, currentSize);
      count := count - n;
      begin := (begin + n) % currentSize;
    }

    /** Adds a byte without looking for space. */
    method PutChar(c: byte)
      requires Valid() && count < currentSize
      modifies this`end, this`count, data
      ensures Valid() && Contents() == old(Contents()) + [c]
    {
      hide IsSingle, Ring;
      RingTakesOne(data[..], begin, count, c);
      WrapIsModulo(end + 1, currentSize);
      ghost var s := data[..];
      ghost var e := end;
      data[end] := c;
      assert data[..] == s[e := c];
      end := (end + 1) % currentSize;
      count := count + 1;
    }

    /** The byte at a position from the front. */
    method PeekChar(offset: nat) returns (c: byte)
      requires Valid() && offset < count
      ensures c == Contents()[offset]
    {
      hide IsSingle, Ring;
      WrapIsModulo(begin + offset, currentSize);
      RingAt(data[..], begin, count, offset);
      var index := (begin + offset) % currentSize;
      c := data[index];
    }

    /** The size has been multiplied just until it reached the capacity, and cut to the maximum. */
    ghost predicate HasGrown(was: nat, capacity: nat)
      requires growFactor >= 0.0
      reads this
    {
      exists steps: nat :: FirstReach(was, growFactor, capacity, steps)
        && currentSize == Min(Iterate(was, growFactor, steps), maxSize)
    }

    /** Moves the contents to the start of a larger array. */
    method Grow(capacity: nat)
      requires Valid() && CanGrow() && currentSize < capacity
      requires Reaches(currentSize, growFactor, capacity) && NextSize(capacity, growFactor) <= INT_MAX
      modifies this
      ensures Valid() && Contents() == old(Contents()) && fresh(data) && count == old(count)
      ensures Min(capacity, maxSize) <= currentSize <= maxSize && old(currentSize) < currentSize
      ensures old(GrowthWorks()) ==> GrowthWorks()
      ensures HasGrown(old(currentSize), capacity)
    {
      hide Grows, Reaches, NextSize, IsSingle, Ring, FirstReach, Iterate;
      ghost var was := currentSize;
      var newSize, steps := GrownSize(currentSize, capacity, maxSize, growFactor);
      var temp := new byte[newSize](_ => 0);
      var saved := count;
      var k := Read(temp, saved);
      RingFromStart(temp[..], saved);
      count := saved;
      begin := 0;
      end := count;
      currentSize := newSize;
      data := temp;
      assert FirstReach(was, growFactor, capacity, steps);
    }

    /** Appends the first `n` bytes, for which there is space. */
    method PutAll(src: Bytes, n: nat)
      requires Valid() && n <= |src| && n <= GetSpace()
      modifies this`end, this`count, data
      ensures Valid() && Contents() == old(Contents()) + src[..n]
    {
      hide Grows, Reaches, NextSize, IsSingle, Ring, FirstReach, Iterate;
      ghost var was := Contents();
      for i := 0 to n
        invariant Valid() && Contents() == was + src[..i]
      {
        PutChar(src[i]);
      }
    }

    /** Appends as many of the first `n` bytes as the maximal size allows, growing when needed. */
    method Write(src: Bytes, n: nat) returns (k: nat)
      requires Valid() && n <= |src|
      requires NeedGrow(n) && CanGrow() ==> IntSized(n) && Reaches(currentSize, growFactor, count + n)
      modifies this, data
      ensures Valid() && (data == old(data) || fresh(data)) && (old(GrowthWorks()) ==> GrowthWorks())
      ensures k == Min(n, old(GetMaxSpace()))
      ensures Contents() == old(Contents()) + src[..k]
      ensures if old(NeedGrow(n) && CanGrow()) then HasGrown(old(currentSize), old(count) + n)
              else currentSize == old(currentSize)
    {
      hide Grows, Reaches, NextSize, IsSingle, Ring, FirstReach, Iterate;
      if NeedGrow(n) && CanGrow() {
        Grow(count + n);
      }
      var room := GetSpace();
      k := if n > room then room else n;
      PutAll(src, k);
    }

    /** Reads a decimal number at the front, up to a delimiter, without removing anything; `overflow` when the number
        exceeds an `int`. On an empty buffer `ok` is arbitrary, since the character it tests is unset. */
    method PeekIntWithLength(delimiter: byte) returns (ok: bool, res: nat, length: nat, overflow: bool)
      requires Valid()
      ensures overflow <==> LeadingValue(Contents()) > INT_MAX
      ensures !overflow ==> length == DigitRun(Contents()) && res == LeadingValue(Contents())
      ensures !overflow && count > 0 ==>
                (ok <==> Contents()[if length < count then length else count - 1] == delimiter)
    {
      hide IsSingle, Ring;
      ghost var s := Contents();
      var offset := 0;
      ok, res, length, overflow := false, 0, 0, false;
      var currentChar: byte := *;
      while offset + 1 <= count
        invariant offset <= count && AllDigits(s[..offset]) && res == Value(s[..offset]) <= INT_MAX
        invariant offset > 0 ==> currentChar == s[offset - 1]
      {
        currentChar := PeekChar(offset);
        if !IsDigit(currentChar) {
          break;
        }
        assert s[..offset + 1][..offset] == s[..offset];
        res := res * 10 + (currentChar - ZERO);
        offset := offset + 1;
        if res > INT_MAX {
          LeadingDigits(s, offset);
          overflow := true;
          return;
        }
      }
      DigitRunIs(s, offset);
      length := offset;
      ok := currentChar == delimiter;
    }
  }
}
