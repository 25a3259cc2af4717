/**
 * The Global State Number and the broadcast key's expiration (section 7.4.7.4 of HAP Specification
 * R14): cyclic arithmetic on 1..65535.
 */
module GlobalStateNumber {
  import opened Bytes

  /** Increments after which a broadcast key is gone. */
  const KEY_LIFETIME: nat := 32767

  /** Number of values that the cycle runs through. */
  const CYCLE: nat := 65535

  function Successor(gsn: u16): u16 {
    if gsn == UINT16_MAX then 1 else gsn + 1
  }

  /** The number that `n` increments after `gsn` lead to. */
  function Advance(gsn: u16, n: nat): (r: u16)
    requires gsn > 0
    ensures r > 0
  {
    if n == 0 then gsn else Successor(Advance(gsn, n - 1))
  }

  /** The last number for which a key that is generated at `gsn` may be used. */
  function ExpirationGSN(gsn: u16): u16 {
    var expiration: int := gsn + 32767 - 1;
    if expiration > UINT16_MAX then expiration - UINT16_MAX else expiration
  }

  lemma {:induction false} AdvanceIsCyclic(gsn: u16, n: nat)
    requires gsn > 0
    ensures Advance(gsn, n) == (gsn - 1 + n) % CYCLE + 1
  {
    if n > 0 {
      AdvanceIsCyclic(gsn, n - 1);
      var before := gsn - 1 + (n - 1);
      if before % CYCLE == CYCLE - 1 {
        assert before + 1 == (before / CYCLE + 1) * CYCLE;
        assert (before + 1) % CYCLE == 0;
      } else {
        assert before + 1 == before / CYCLE * CYCLE + (before % CYCLE + 1);
        assert (before + 1) % CYCLE == before % CYCLE + 1;
      }
    }
  }

  /** Within one cycle, every number of increments leads to a different number. */
  lemma AdvanceInjective(gsn: u16, a: nat, b: nat)
    requires gsn > 0 && a < CYCLE && b < CYCLE
    requires Advance(gsn, a) == Advance(gsn, b)
    ensures a == b
  {
    AdvanceIsCyclic(gsn, a);
    AdvanceIsCyclic(gsn, b);
    var x, y := gsn - 1 + a, gsn - 1 + b;
    assert x % CYCLE == y % CYCLE;
    assert x == x / CYCLE * CYCLE + x % CYCLE && y == y / CYCLE * CYCLE + y % CYCLE;
    assert 0 <= x < 2 * CYCLE && 0 <= y < 2 * CYCLE;
  }

  lemma ExpirationIsAdvance(gsn: u16)
    requires gsn > 0
    ensures ExpirationGSN(gsn) == Advance(gsn, KEY_LIFETIME - 1)
  {
    AdvanceIsCyclic(gsn, KEY_LIFETIME - 1);
    var x := gsn - 1 + (KEY_LIFETIME - 1);
    if x >= CYCLE {
      assert x % CYCLE == x - CYCLE;
    }
  }

  // Increments of the number and their effect on the key.

  /** The current number and the number at which the key expires; 0 means that there is no key. */
  datatype Counter = Counter(gsn: u16, keyExpirationGSN: u16)

  function Incremented(c: Counter): Counter {
    Counter(Successor(c.gsn), if c.gsn == c.keyExpirationGSN then 0 else c.keyExpirationGSN)
  }

  function IncrementedTimes(c: Counter, n: nat): Counter {
    if n == 0 then c else Incremented(IncrementedTimes(c, n - 1))
  }

  /** The counter right after a key was generated. */
  function WithFreshKey(gsn: u16): Counter
    requires gsn > 0
  {
    Counter(gsn, ExpirationGSN(gsn))
  }

  lemma {:induction false} IncrementsAdvance(gsn: u16, n: nat)
    requires gsn > 0
    ensures var c := IncrementedTimes(WithFreshKey(gsn), n);
            && c.gsn == Advance(gsn, n)
            && (n < KEY_LIFETIME ==> c.keyExpirationGSN == ExpirationGSN(gsn))
            && (n >= KEY_LIFETIME ==> c.keyExpirationGSN == 0)
  {
    if n > 0 {
      IncrementsAdvance(gsn, n - 1);
      ExpirationIsAdvance(gsn);
      if n - 1 < KEY_LIFETIME && Advance(gsn, n - 1) == ExpirationGSN(gsn) {
        AdvanceInjective(gsn, n - 1, KEY_LIFETIME - 1);
      }
    }
  }

  /** A key that is generated at any number is discarded by exactly the 32767th increment. */
  lemma KeyExpiresExactly(gsn: u16, n: nat)
    requires gsn > 0
    ensures IncrementedTimes(WithFreshKey(gsn), n).keyExpirationGSN == 0 <==> n >= 32767
  {
    IncrementsAdvance(gsn, n);
    ExpirationIsAdvance(gsn);
  }

  /** Broadcasts are refused from the last increment on that still leaves a key. */
  lemma KeyIsUsableExactly(gsn: u16, n: nat)
    requires gsn > 0
    ensures var c := IncrementedTimes(WithFreshKey(gsn), n);
            c.keyExpirationGSN != 0 && c.keyExpirationGSN != c.gsn <==> n < 32766
  {
    IncrementsAdvance(gsn, n);
    ExpirationIsAdvance(gsn);
    if n < KEY_LIFETIME && Advance(gsn, n) == ExpirationGSN(gsn) {
      AdvanceInjective(gsn, n, KEY_LIFETIME - 1);
    }
  }
}
