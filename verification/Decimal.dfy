/** Decimal numbers as bytes: what `%d` prints and what the header parser reads. */
module Decimal {

  type byte = x: int | 0 <= x < 256

  const ZERO: byte := '0' as int
  const SPACE: byte := ' ' as int
  const MINUS: byte := '-' as int
  const NUL: byte := '\0' as int

  /** The bytes of a text of ASCII characters. */
  function Ascii(text: string): (s: seq<byte>)
    requires forall i :: 0 <= i < |text| ==> text[i] as int < 128
    ensures |s| == |text| && forall i :: 0 <= i < |s| ==> s[i] == text[i] as int
  {
    if text == "" then [] else Ascii(text[..|text| - 1]) + [text[|text| - 1] as int]
  }

  predicate IsDigit(c: byte)
  {
    ZERO <= c <= ZERO + 9
  }

  predicate AllDigits(s: seq<byte>)
  {
    forall i :: 0 <= i < |s| ==> IsDigit(s[i])
  }

  /** The decimal digits of a number, most significant first. */
  function Digits(n: nat): (s: seq<byte>)
    ensures AllDigits(s) && |s| >= 1
  {
    if n < 10 then [ZERO + n] else Digits(n / 10) + [ZERO + n % 10]
  }

  /** The number that a run of digits denotes. */
  function Value(s: seq<byte>): nat
    requires AllDigits(s)
  {
    if s == [] then 0 else 10 * Value(s[..|s| - 1]) + (s[|s| - 1] - ZERO)
  }

  /** How many digits a byte sequence starts with. */
  function DigitRun(s: seq<byte>): (n: nat)
    ensures n <= |s| && AllDigits(s[..n]) && (n < |s| ==> !IsDigit(s[n]))
  {
    if s == [] || !IsDigit(s[0]) then 0 else 1 + DigitRun(s[1..])
  }

  /** The number at the start of a byte sequence. */
  function LeadingValue(s: seq<byte>): nat
  {
    Value(s[..DigitRun(s)])
  }

  lemma {:induction false} ValueOfDigits(n: nat)
    ensures Value(Digits(n)) == n
  {
    if n >= 10 {
      ValueOfDigits(n / 10);
      var s := Digits(n);
      assert s[..|s| - 1] == Digits(n / 10);
    }
  }

  lemma DigitRunIs(s: seq<byte>, n: nat)
    requires n <= |s| && AllDigits(s[..n]) && (n < |s| ==> !IsDigit(s[n]))
    ensures DigitRun(s) == n
  {
    var m := DigitRun(s);
    assert forall i :: 0 <= i < n ==> s[..n][i] == s[i];
    assert forall i :: 0 <= i < m ==> s[..m][i] == s[i];
  }

  /** A printed number followed by a space and anything else is read back exactly. */
  lemma HeaderRoundTrip(n: nat, rest: seq<byte>)
    ensures DigitRun(Digits(n) + [SPACE] + rest) == |Digits(n)|
    ensures LeadingValue(Digits(n) + [SPACE] + rest) == n
  {
    var s := Digits(n) + [SPACE] + rest;
    assert s[..|Digits(n)|] == Digits(n);
    DigitRunIs(s, |Digits(n)|);
    ValueOfDigits(n);
  }

  /** A number cut short is no larger. */
  lemma {:induction false} ValueOfPrefix(s: seq<byte>, n: nat)
    requires AllDigits(s) && n <= |s|
    ensures Value(s[..n]) <= Value(s)
  {
    if n < |s| {
      var front := s[..|s| - 1];
      assert front[..n] == s[..n];
      ValueOfPrefix(front, n);
    } else {
      assert s[..n] == s;
    }
  }

  /** The digits seen so far are no more than the number at the front. */
  lemma LeadingDigits(s: seq<byte>, n: nat)
    requires n <= |s| && AllDigits(s[..n])
    ensures Value(s[..n]) <= LeadingValue(s)
  {
    var run := DigitRun(s);
    assert forall i :: 0 <= i < n ==> s[..n][i] == s[i];
    assert s[..run][..n] == s[..n];
    ValueOfPrefix(s[..run], n);
  }
}
