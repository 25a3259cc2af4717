/** The stored 32-bit configuration number and the 16-bit and 8-bit numbers that are derived from it. */
module ConfigurationNumber {
  import opened Bytes

  const UINT32_MAX: nat := 0xFFFF_FFFF
  const UINT8_MAX: nat := 0xFF

  type u32 = w: int | 0 <= w < 0x1_0000_0000

  function LittleUInt32(w: u32): (s: seq<byte>)
    ensures |s| == 4
  {
    var n: int := w;
    [n % 0x100, n / 0x100 % 0x100, n / 0x1_0000 % 0x100, n / 0x100_0000]
  }

  function ReadLittleUInt32(s: seq<byte>): u32
    requires |s| == 4
  {
    var a: int, b: int, c: int, d: int := s[0], s[1], s[2], s[3];
    a + 0x100 * b + 0x1_0000 * c + 0x100_0000 * d
  }

  lemma ReadAfterWrite32(w: u32)
    ensures ReadLittleUInt32(LittleUInt32(w)) == w
  {
    var n: int := w;
    var high := n / 0x100;
    assert high / 0x100 == n / 0x1_0000 && high / 0x1_0000 == n / 0x100_0000;
    assert n == n % 0x100 + 0x100 * high && high == high % 0x100 + 0x100 * (high / 0x100);
    assert high / 0x100 == high / 0x100 % 0x100 + 0x100 * (high / 0x1_0000);
  }

  function Next(cn32: u32): u32 {
    if cn32 == UINT32_MAX then 1 else cn32 + 1
  }

  /** The subtraction is one of unsigned 32-bit numbers. */
  function Short(cn32: u32): u16 {
    (cn32 - 1) % 0x1_0000_0000 % UINT16_MAX + 1
  }

  function Tiny(cn16: u16): byte
    requires cn16 > 0
  {
    (cn16 - 1) % UINT8_MAX + 1
  }

  /** One step of a number that counts from 1 to `max` and over to 1. */
  function CyclicStep(n: int, max: int): int {
    if n == max then 1 else n + 1
  }

  lemma CountsCyclically(n: nat, max: nat)
    requires n > 0 && max > 1
    ensures n % max + 1 == CyclicStep((n - 1) % max + 1, max)
  {
    var q, r := (n - 1) / max, (n - 1) % max;
    assert n - 1 == q * max + r;
    if r == max - 1 {
      assert n == (q + 1) * max;
      RemainderOf(n, q + 1, 0, max);
    } else {
      RemainderOf(n, q, r + 1, max);
    }
  }

  lemma RemainderOf(n: nat, q: nat, r: nat, max: nat)
    requires max > 0 && r < max && n == q * max + r
    ensures n % max == r
  {
    var k := n / max - q;
    assert k * max == r - n % max;
    assert k >= 1 ==> k * max >= max;
    assert k <= -1 ==> k * max + max <= 0;
  }

  /** A short number below its maximum determines the tiny one, since 255 divides 65535. */
  lemma TinyOfShort(n: nat)
    ensures n % UINT16_MAX % UINT8_MAX == n % UINT8_MAX
  {
    var q, r := n / UINT16_MAX, n % UINT16_MAX;
    var p, s := r / UINT8_MAX, r % UINT8_MAX;
    assert n == q * UINT16_MAX + r && r == p * UINT8_MAX + s;
    RemainderOf(n, 257 * q + p, s, UINT8_MAX);
  }

  lemma DerivedNumbers(cn32: u32)
    ensures Short(cn32) > 0
    ensures cn32 > 0 ==> Short(cn32) as int == (cn32 - 1) % UINT16_MAX + 1
    ensures cn32 > 0 ==> Tiny(Short(cn32)) as int == (cn32 - 1) % UINT8_MAX + 1
  {
    if cn32 > 0 {
      TinyOfShort(cn32 - 1);
    }
  }

  predicate Steps(cn32: u32)
    requires Short(cn32) > 0 && Short(Next(cn32)) > 0
  {
    && Short(Next(cn32)) == CyclicStep(Short(cn32), UINT16_MAX)
    && Tiny(Short(Next(cn32))) == CyclicStep(Tiny(Short(cn32)), UINT8_MAX)
  }

  /** An increment is one cyclic step of both derived numbers, unless the stored number is zero. */
  lemma IncrementStepsIff(cn32: u32)
    ensures Short(cn32) > 0 && Short(Next(cn32)) > 0
    ensures Steps(cn32) <==> cn32 != 0
  {
    DerivedNumbers(cn32);
    DerivedNumbers(Next(cn32));
    var n: int := cn32;
    if n == 0 {
      assert Short(0) == 1 && Short(1) == 1;
    } else if n == UINT32_MAX {
      assert (n - 1) % UINT16_MAX == UINT16_MAX - 1 && (n - 1) % UINT8_MAX == UINT8_MAX - 1;
    } else {
      hide Short, Tiny;
      CountsCyclically(n, UINT16_MAX);
      CountsCyclically(n, UINT8_MAX);
    }
  }

  /** The stored number after `n` increments of a new one. */
  function After(n: nat): (cn32: u32)
    ensures cn32 > 0
  {
    if n == 0 then 1 else Next(After(n - 1))
  }

  /** However often it was incremented, and across every overflow, each derived number counts the increments. */
  lemma {:induction false} DerivedNumbersCount(n: nat)
    ensures Short(After(n)) as int == n % UINT16_MAX + 1
    ensures Tiny(Short(After(n))) as int == n % UINT8_MAX + 1
  {
    if n > 0 {
      DerivedNumbersCount(n - 1);
      IncrementStepsIff(After(n - 1));
      CountsCyclically(n, UINT16_MAX);
      CountsCyclically(n, UINT8_MAX);
    }
  }

  /** The entry of the key-value store that holds the number. */
  class Store {
    var entry: Option<seq<byte>>

    constructor ()
      ensures entry == None
    {
      entry := None;
    }

    /** The number in effect: a missing entry stands for 1, and what is longer than four bytes is cut off. */
    function Number(): u32
      requires entry.Some? ==> |entry.value| >= 4
      reads this
    {
      if entry.None? then 1 else ReadLittleUInt32(entry.value[..4])
    }

    /** A new number is stored if there is none. The flags tell whether reading and writing the store succeeds. */
    method GetCN(readable: bool, writable: bool) returns (r: Result<u16>)
      modifies this
      ensures r.Err? <==> !readable || (old(entry).None? && !writable)
                          || (old(entry).Some? && |old(entry).value| < 4)
      ensures r.Err? ==> r.error == Unknown && entry == old(entry)
      ensures r.Ok? ==> entry.Some? && |entry.value| >= 4 && r.value == Short(Number())
      ensures r.Ok? ==> Number() == old(if entry.Some? && |entry.value| < 4 then 1 else Number())
      ensures old(entry).Some? ==> entry == old(entry)
      ensures r.Ok? && old(entry).None? ==> r.value == 1
    {
      if !readable {
        return Err(Unknown);
      }
      if entry.None? {
        if !writable {
          return Err(Unknown);
        }
        ReadAfterWrite32(1);
        entry := Some(LittleUInt32(1));
        assert entry.value[..4] == LittleUInt32(1);
      } else if |entry.value| < 4 {
        return Err(Unknown);
      }
      r := Ok(Short(ReadLittleUInt32(entry.value[..4])));
    }

    /**
     * One increment: both derived numbers make one cyclic step, also when it is the first access. The length of the
     * entry is not checked: bytes that it lacks are those that were in the `buffer` before.
     */
    method IncrementCN(readable: bool, writable: bool, buffer: seq<byte>) returns (r: Result<()>)
      requires |buffer| == 4
      modifies this
      ensures r.Ok? <==> readable && writable
      ensures r.Err? ==> r.error == Unknown && entry == old(entry)
      ensures r.Ok? ==> entry.Some? && |entry.value| == 4 && Number() == Next(ReadLittleUInt32(
                old(if entry.None? then LittleUInt32(1) else Loaded(entry.value, buffer))))
      ensures r.Ok? && old(entry).None? ==> Number() == 2
      ensures r.Ok? && (old(entry).Some? ==> |old(entry).value| >= 4) ==>
                Number() == Next(old(if entry.Some? && |entry.value| < 4 then 1 else Number()))
    {
      if !readable {
        return Err(Unknown);
      }
      ReadAfterWrite32(1);
      var bytes := if entry.Some? then Loaded(entry.value, buffer) else LittleUInt32(1);
      var cn32 := ReadLittleUInt32(bytes);
      if cn32 == UINT32_MAX {
        cn32 := 1;
      } else {
        cn32 := cn32 + 1;
      }
      if !writable {
        return Err(Unknown);
      }
      ReadAfterWrite32(cn32);
      entry := Some(LittleUInt32(cn32));
      assert entry.value[..4] == LittleUInt32(cn32);
      r := Ok(());
    }
  }

  /** A buffer of four bytes after `value` was read into it. */
  function Loaded(value: seq<byte>, buffer: seq<byte>): (r: seq<byte>)
    requires |buffer| == 4
    ensures |r| == 4 && (|value| >= 4 ==> r == value[..4])
  {
    if |value| >= 4 then value[..4] else value + buffer[|value|..]
  }
}
