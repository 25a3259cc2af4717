/** Division by 36 with shifts and additions only, and the base-36 digits written with it. */
module Base36 {

  const TWO32: nat := 0x1_0000_0000
  const TWO64: nat := 0x1_0000_0000_0000_0000

  function Wrap32(x: int): (r: nat)
    ensures r < TWO32 && (0 <= x < TWO32 ==> r == x)
  {
    x % TWO32
  }

  function Wrap64(x: int): (r: nat)
    ensures r < TWO64 && (0 <= x < TWO64 ==> r == x)
  {
    x % TWO64
  }

  /** A right shift by the number of bits of which `scale` is the power of two. */
  function Shift(x: nat, scale: nat): (r: nat)
    requires scale > 0
    ensures scale * r <= x < scale * r + scale
  {
    x / scale
  }

  /** What the chain of shifts has computed after each of its additions. */
  datatype Chain = Chain(q0: nat, q1: nat, q2: nat, q3: nat, q4: nat)

  function Estimate(x: nat): Chain {
    var q0 := Wrap64(x - Shift(x, 0x8));
    var q1 := Wrap64(q0 + Shift(q0, 0x40));
    var q2 := Wrap64(q1 + Shift(q1, 0x1000));
    var q3 := Wrap64(q2 + Shift(q2, 0x100_0000));
    Chain(q0, q1, q2, q3, Wrap64(q3 + Shift(q3, 0x1_0000_0000_0000)))
  }

  lemma UpperBound(x: int, q0: int, q1: int, q2: int, q3: int, q4: int)
    requires x >= 0 && 0x8 * q0 <= 7 * x + 7
    requires 0x40 * q1 <= 0x41 * q0
    requires 0x1000 * q2 <= 0x1001 * q1
    requires 0x100_0000 * q3 <= 0x100_0001 * q2
    requires 0x1_0000_0000_0000 * q4 <= 0x1_0000_0000_0001 * q3
    ensures 9 * q4 < 8 * (x + 1)
  {
  }

  lemma LowerBound(x: int, q0: int, q1: int, q2: int, q3: int, q4: int)
    requires 0 <= x < TWO64 && 0x8 * q0 >= 7 * x
    requires 0x40 * q1 >= 0x41 * q0 - 0x3F
    requires 0x1000 * q2 >= 0x1001 * q1 - 0xFFF
    requires 0x100_0000 * q3 >= 0x100_0001 * q2 - 0xFF_FFFF
    requires 0x1_0000_0000_0000 * q4 >= 0x1_0000_0000_0001 * q3 - 0xFFFF_FFFF_FFFF
    ensures 9 * q4 > 8 * x - 37
  {
  }

  /** The same chain in unbounded arithmetic. */
  function Unbounded(x: nat): Chain {
    var q0: nat := x - Shift(x, 0x8);
    var q1 := q0 + Shift(q0, 0x40);
    var q2 := q1 + Shift(q1, 0x1000);
    var q3 := q2 + Shift(q2, 0x100_0000);
    Chain(q0, q1, q2, q3, q3 + Shift(q3, 0x1_0000_0000_0000))
  }

  /** The chain ends just below 8/9 of `x`. */
  lemma ChainBounds(x: nat)
    requires x < TWO64
    ensures 8 * x - 37 < 9 * Unbounded(x).q4 < 8 * (x + 1)
  {
    hide Shift;
    var c := Unbounded(x);
    UpperBound(x, c.q0, c.q1, c.q2, c.q3, c.q4);
    LowerBound(x, c.q0, c.q1, c.q2, c.q3, c.q4);
  }

  /** No step of the chain wraps around. */
  lemma ChainIsExact(x: nat)
    requires x < TWO64
    ensures Estimate(x) == Unbounded(x)
  {
    ChainBounds(x);
    hide Shift, Wrap64;
    var c, e := Unbounded(x), Estimate(x);
    assert c.q0 <= c.q1 <= c.q2 <= c.q3 <= c.q4 < TWO64;
    assert e.q0 == c.q0;
    assert e.q1 == c.q1;
    assert e.q2 == c.q2;
    assert e.q3 == c.q3;
  }

  /** The remainder modulo 2^32 is the remainder itself when it is small. */
  lemma RemainderIn32Bits(x: nat, q: nat)
    requires 0 <= x - 36 * q < TWO32
    ensures Wrap32(Wrap32(x) - Wrap32(Wrap32(q) * 36)) == x - 36 * q
  {
    var r := x - 36 * q;
    var a, b := x / TWO32, q / TWO32;
    var c := Wrap32(q) * 36 / TWO32;
    assert Wrap32(x) - Wrap32(Wrap32(q) * 36) == r + TWO32 * (36 * b - a + c);
  }

  /** An estimate of the quotient by 36 that is at most one too small. */
  method EstimateQuotient(x: nat) returns (q: nat)
    requires x < TWO64
    ensures 0 <= x - 36 * q < 72
  {
    hide Shift, Wrap64;
    q := Wrap64(x - Shift(x, 0x8));
    q := Wrap64(q + Shift(q, 0x40));
    q := Wrap64(q + Shift(q, 0x1000));
    q := Wrap64(q + Shift(q, 0x100_0000));
    q := Wrap64(q + Shift(q, 0x1_0000_0000_0000));
    assert q == Estimate(x).q4;
    hide Estimate, Unbounded;
    ChainIsExact(x);
    ChainBounds(x);
    q := Shift(q, 0x20);
  }

  /** Quotient and remainder by 36: the estimate, and its correction. */
  method DivideBy36(x: nat) returns (quotient: nat, remainder: nat)
    requires x < TWO64
    ensures quotient == x / 36 && remainder == x % 36
  {
    var q := EstimateQuotient(x);
    RemainderIn32Bits(x, q);
    hide Wrap32, Shift;
    var r := Wrap32(Wrap32(x) - Wrap32(Wrap32(q) * 36));
    var d := Shift(Wrap32(r + 28), 0x40);
    assert r == x - 36 * q < 72 && d == if r < 36 then 0 else 1;
    quotient := q + d;
    remainder := (r - d * 36) % 0x100;
    QuotientIsUnique(x, quotient, remainder);
  }

  lemma QuotientIsUnique(x: nat, q: nat, r: nat)
    requires x == 36 * q + r && r < 36
    ensures q == x / 36 && r == x % 36
  {
  }

  /** The digit for `c`, in the alphabet of ten figures and 26 letters. */
  function Digit(c: nat): char
    requires c < 36
  {
    if c < 10 then '0' + c as char else 'A' + (c - 10) as char
  }

  function Value(d: char): int {
    if '0' <= d <= '9' then d as int - '0' as int else if 'A' <= d <= 'Z' then d as int - 'A' as int + 10 else -1
  }

  function SignedByte(v: int): int {
    if v % 0x100 < 0x80 then v % 0x100 else v % 0x100 - 0x100
  }

  /** The character code of a digit without a branch: the sign of `c - 10` selects the gap between `9` and `A`. */
  function BranchFree(c: nat): int {
    c + 48 + SignedByte(c + 0x80 - 10) / 0x80 % 0x8
  }

  lemma BranchFreeIsDigit(c: nat)
    requires c < 36
    ensures BranchFree(c) == Digit(c) as int && Value(Digit(c)) == c
  {
  }

  /** The last `n` base-36 digits of `x`, the most significant one first. */
  function Digits(x: nat, n: nat): (s: string)
    ensures |s| == n
  {
    if n == 0 then "" else Digits(x / 36, n - 1) + [Digit(x % 36)]
  }

  function Number(s: string): int {
    if s == "" then 0 else 36 * Number(s[..|s| - 1]) + Value(s[|s| - 1])
  }

  function Power36(n: nat): (p: nat) ensures p > 0 { if n == 0 then 1 else 36 * Power36(n - 1) }

  /** `n` digits give the number back exactly when it has at most `n` digits. */
  lemma {:induction false} DigitsRoundTrip(x: nat, n: nat)
    ensures Number(Digits(x, n)) == x <==> x < Power36(n)
    ensures 0 <= Number(Digits(x, n)) < Power36(n)
  {
    if n > 0 {
      DigitsRoundTrip(x / 36, n - 1);
      BranchFreeIsDigit(x % 36);
      var s := Digits(x, n);
      assert s[..n - 1] == Digits(x / 36, n - 1);
      assert x == 36 * (x / 36) + x % 36;
    }
  }
}
