/** The payload that a controller scans: category, flags and setup code in nine base-36 digits, and the setup ID. */
module SetupPayload {
  import opened Bytes
  import opened Base36
  import SetupCode

  const PREFIX := "X-HM://"
  const NUM_DIGITS: nat := 9
  const PAYLOAD_SIZE: nat := 21

  function Power2(n: nat): (p: nat) ensures p > 0 { if n == 0 then 1 else 2 * Power2(n - 1) }

  /** The bitwise disjunction of two numbers. */
  function Or(a: nat, b: nat): nat
    decreases a + b
  {
    if a == 0 && b == 0 then 0
    else 2 * Or(a / 2, b / 2) + if a % 2 == 1 || b % 2 == 1 then 1 else 0
  }

  /** Fields that share no bit are added by their disjunction. */
  lemma {:induction false} OrDisjoint(high: nat, low: nat, n: nat)
    requires low < Power2(n)
    ensures Or(high * Power2(n), low) == high * Power2(n) + low
  {
    if n == 0 {
      OrZero(high);
    } else {
      assert high * Power2(n) == 2 * (high * Power2(n - 1));
      OrDisjoint(high, low / 2, n - 1);
    }
  }

  lemma {:induction false} OrZero(a: nat)
    ensures Or(a, 0) == a
  {
    if a > 0 {
      OrZero(a / 2);
    }
  }

  datatype Flags = Flags(isPaired: bool, ipSupported: bool, bleSupported: bool)

  function Bit(b: bool): (n: nat)
    ensures n < 2 && (n == 1 <==> b)
  {
    if b then 1 else 0
  }

  function ShiftLeft(v: nat, n: nat): nat { v * Power2(n) % TWO64 }

  /** The eight digits of a setup code as one number. */
  function CodeNumber(s: string): int
    requires |s| == SetupCode.LENGTH
  {
    var d := SetupCode.Figures(s);
    d[0] * 10000000 + d[1] * 1000000 + d[2] * 100000 + d[3] * 10000 + d[4] * 1000 + d[5] * 100 + d[6] * 10 + d[7]
  }

  /** The fields as numbers, disjoined bit by bit after shifting each to its place. */
  function Pack(category: nat, ble: nat, ip: nat, paired: nat, setupCode: nat): nat {
    Or(Or(Or(Or(Or(Or(ShiftLeft(0, 43), ShiftLeft(0, 39)), ShiftLeft(category % 0x100, 31)), ShiftLeft(ble, 29)),
             ShiftLeft(ip, 28)),
          ShiftLeft(paired, 27)),
       setupCode)
  }

  function Packed(category: byte, flags: Flags, setupCode: nat): nat {
    Pack(category, Bit(flags.bleSupported), Bit(flags.ipSupported), Bit(flags.isPaired), setupCode)
  }

  lemma Powers()
    ensures Power2(27) == 0x800_0000 && Power2(28) == 0x1000_0000 && Power2(29) == 0x2000_0000
    ensures Power2(31) == 0x8000_0000 && Power2(39) == 0x80_0000_0000
  {
    assert Power2(9) == 0x200 && Power2(18) == 0x4_0000;
  }

  lemma OrAdds(a: nat, high: nat, low: nat, n: nat, p: nat)
    requires p == Power2(n) && a == high * p && low < p
    ensures Or(a, low) == a + low
  {
    OrDisjoint(high, low, n);
  }

  lemma ShiftExact(v: nat, n: nat, p: nat)
    requires p == Power2(n) && v * p < TWO64
    ensures ShiftLeft(v, n) == v * p
  {
  }

  lemma OrChain(c: nat, ble: nat, ip: nat, paired: nat, setupCode: nat)
    requires c < 0x100 && ble < 2 && ip < 2 && paired < 2 && setupCode < 0x800_0000
    ensures Or(Or(Or(Or(Or(Or(0, 0), c * 0x8000_0000), ble * 0x2000_0000), ip * 0x1000_0000), paired * 0x800_0000),
               setupCode)
         == c * 0x8000_0000 + ble * 0x2000_0000 + ip * 0x1000_0000 + paired * 0x800_0000 + setupCode
  {
    Powers();
    hide Power2, Or;
    OrAdds(0, 0, 0, 39, 0x80_0000_0000);
    OrAdds(0, 0, c * 0x8000_0000, 39, 0x80_0000_0000);
    var x := c * 0x8000_0000;
    OrAdds(x, c, ble * 0x2000_0000, 31, 0x8000_0000);
    var y := x + ble * 0x2000_0000;
    OrAdds(y, 4 * c + ble, ip * 0x1000_0000, 29, 0x2000_0000);
    var z := y + ip * 0x1000_0000;
    OrAdds(z, 8 * c + 2 * ble + ip, paired * 0x800_0000, 28, 0x1000_0000);
    OrAdds(z + paired * 0x800_0000, 16 * c + 4 * ble + 2 * ip + paired, setupCode, 27, 0x800_0000);
  }

  lemma Shifts(c: nat, ble: nat, ip: nat, paired: nat)
    requires c < 0x100 && ble < 2 && ip < 2 && paired < 2
    ensures ShiftLeft(0, 43) == 0 && ShiftLeft(0, 39) == 0
    ensures ShiftLeft(c, 31) == c * 0x8000_0000 && ShiftLeft(ble, 29) == ble * 0x2000_0000
    ensures ShiftLeft(ip, 28) == ip * 0x1000_0000 && ShiftLeft(paired, 27) == paired * 0x800_0000
  {
    Powers();
    hide ShiftLeft, Power2;
    ShiftExact(0, 43, Power2(43));
    ShiftExact(0, 39, 0x80_0000_0000);
    ShiftExact(c, 31, 0x8000_0000);
    ShiftExact(ble, 29, 0x2000_0000);
    ShiftExact(ip, 28, 0x1000_0000);
    ShiftExact(paired, 27, 0x800_0000);
  }

  /** The packed fields never overlap. */
  lemma PackedIsSum(category: byte, flags: Flags, setupCode: nat)
    requires setupCode < 0x800_0000
    ensures Packed(category, flags, setupCode) == Sum(category, flags, setupCode)
  {
    hide Or, ShiftLeft;
    var c: nat, ble, ip, paired := category, Bit(flags.bleSupported), Bit(flags.ipSupported), Bit(flags.isPaired);
    Shifts(c, ble, ip, paired);
    OrChain(c, ble, ip, paired, setupCode);
  }

  function Sum(category: byte, flags: Flags, setupCode: nat): nat {
    var c: int := category;
    c * 0x8000_0000 + Bit(flags.bleSupported) * 0x2000_0000 + Bit(flags.ipSupported) * 0x1000_0000
    + Bit(flags.isPaired) * 0x800_0000 + setupCode
  }

  /** What a reader of the payload gets from its first 16 characters. */
  datatype Contents = Contents(category: nat, flags: Flags, setupCode: nat)

  function Unpack(x: nat): Contents {
    Contents(Shift(x, 0x8000_0000) % 0x100,
             Flags(Shift(x, 0x800_0000) % 2 == 1, Shift(x, 0x1000_0000) % 2 == 1, Shift(x, 0x2000_0000) % 2 == 1),
             x - 0x800_0000 * Shift(x, 0x800_0000))
  }

  function Payload(setupCode: Option<string>, setupId: Option<string>, flags: Flags, category: byte): (s: string)
    requires setupCode.Some? ==> SetupCode.WellFormed(setupCode.value)
    requires setupId.Some? ==> |setupId.value| == 4
    ensures |s| == PAYLOAD_SIZE - 1
  {
    var number := if setupCode.Some? then CodeNumber(setupCode.value) else 0;
    PREFIX + Digits(Packed(category, flags, number), NUM_DIGITS) + if setupId.Some? then setupId.value else "0000"
  }

  function ReadPayload(s: string): Option<Contents>
    requires |s| == PAYLOAD_SIZE - 1
  {
    var x := Number(s[|PREFIX|..|PREFIX| + NUM_DIGITS]);
    if x < 0 then None else Some(Unpack(x))
  }

  lemma CodeNumberBounds(s: string)
    requires SetupCode.WellFormed(s)
    ensures 0 <= CodeNumber(s) < 100000000
  {
    var d := SetupCode.Figures(s);
    assert forall i :: 0 <= i < 10 && !SetupCode.IsSeparator(i) ==> 0 <= SetupCode.Figure(s[i]) <= 9;
    assert forall k :: 0 <= k < 8 ==> 0 <= d[k] <= 9;
  }

  /** Nine digits always suffice. */
  lemma PackedHasNineDigits(category: byte, flags: Flags, setupCode: nat)
    requires setupCode < 0x800_0000
    ensures Packed(category, flags, setupCode) < 0x80_0000_0000 < Power36(NUM_DIGITS)
  {
    PackedIsSum(category, flags, setupCode);
    assert Power36(3) == 46656 && Power36(6) == 46656 * 46656;
  }

  lemma Shifted(x: nat, high: nat, low: nat, p: nat)
    requires p > 0 && low < p && x == p * high + low
    ensures Shift(x, p) == high
  {
    var k := Shift(x, p) - high;
    assert k >= 1 ==> p * k >= p;
    assert k <= -1 ==> p * k + p <= 0;
    assert p * Shift(x, p) == p * k + p * high;
  }

  lemma Parities(c: nat, ble: nat, ip: nat, paired: nat)
    requires c < 0x100 && ble < 2 && ip < 2 && paired < 2
    ensures c % 0x100 == c && (4 * c + ble) % 2 == ble
    ensures (8 * c + 2 * ble + ip) % 2 == ip && (16 * c + 4 * ble + 2 * ip + paired) % 2 == paired
  {
  }

  lemma UnpackSum(category: byte, flags: Flags, setupCode: nat)
    requires setupCode < 0x800_0000
    ensures Unpack(Sum(category, flags, setupCode)) == Contents(category, flags, setupCode)
  {
    hide Shift, Bit;
    var x := Sum(category, flags, setupCode);
    var c: nat, ble, ip, paired := category, Bit(flags.bleSupported), Bit(flags.ipSupported), Bit(flags.isPaired);
    Parities(c, ble, ip, paired);
    Shifted(x, 16 * c + 4 * ble + 2 * ip + paired, setupCode, 0x800_0000);
    Shifted(x, 8 * c + 2 * ble + ip, 0x800_0000 * paired + setupCode, 0x1000_0000);
    Shifted(x, 4 * c + ble, 0x1000_0000 * ip + 0x800_0000 * paired + setupCode, 0x2000_0000);
    Shifted(x, c, 0x2000_0000 * ble + 0x1000_0000 * ip + 0x800_0000 * paired + setupCode, 0x8000_0000);
  }

  lemma Slices(a: string, b: string, c: string)
    ensures (a + b + c)[|a|..|a| + |b|] == b && (a + b + c)[|a| + |b|..] == c
  {
  }

  /** A scanned payload gives back the category, the flags and the setup code. */
  lemma PayloadRoundTrip(setupCode: Option<string>, setupId: Option<string>, flags: Flags, category: byte)
    requires setupCode.Some? ==> SetupCode.WellFormed(setupCode.value)
    requires setupId.Some? ==> |setupId.value| == 4
    ensures ReadPayload(Payload(setupCode, setupId, flags, category))
         == Some(Contents(category, flags, if setupCode.Some? then CodeNumber(setupCode.value) else 0))
    ensures setupId.Some? ==> Payload(setupCode, setupId, flags, category)[16..] == setupId.value
  {
    if setupCode.Some? {
      CodeNumberBounds(setupCode.value);
    }
    hide CodeNumber, SetupCode.WellFormed;
    var number := if setupCode.Some? then CodeNumber(setupCode.value) else 0;
    var x := Packed(category, flags, number);
    PackedIsSum(category, flags, number);
    PackedHasNineDigits(category, flags, number);
    UnpackSum(category, flags, number);
    DigitsRoundTrip(x, NUM_DIGITS);
    Slices(PREFIX, Digits(x, NUM_DIGITS), if setupId.Some? then setupId.value else "0000");
    hide Packed, Power36, Number, Digits, Sum, Unpack;
  }

  /** The `k`-th decimal digit of `n`, counted from the last one. */
  function Decimal(n: nat, k: nat): (d: nat)
    ensures d < 10
  {
    if k == 0 then n % 10 else Decimal(n / 10, k - 1)
  }

  function Horner(d: seq<int>): int {
    if d == [] then 0 else 10 * Horner(d[..|d| - 1]) + d[|d| - 1]
  }

  lemma {:induction false} DecimalOfHorner(d: seq<int>, k: nat)
    requires k < |d| && forall i :: 0 <= i < |d| ==> 0 <= d[i] <= 9
    ensures Horner(d) >= 0 && Decimal(Horner(d), k) == d[|d| - 1 - k]
  {
    var front := d[..|d| - 1];
    if front != [] {
      DecimalOfHorner(front, if k > 0 then k - 1 else 0);
    }
  }

  /** The setup code that a number stands for. */
  function FormatCode(n: nat): string {
    [Digit(Decimal(n, 7)), Digit(Decimal(n, 6)), Digit(Decimal(n, 5)), '-',
     Digit(Decimal(n, 4)), Digit(Decimal(n, 3)), '-',
     Digit(Decimal(n, 2)), Digit(Decimal(n, 1)), Digit(Decimal(n, 0))]
  }

  lemma FiguresAreDecimal(s: string)
    requires SetupCode.WellFormed(s)
    ensures var d := SetupCode.Figures(s);
            forall k :: 0 <= k < 8 ==> 0 <= d[k] <= 9
  {
    assert forall i :: 0 <= i < 10 && !SetupCode.IsSeparator(i) ==> 0 <= SetupCode.Figure(s[i]) <= 9;
  }

  lemma CodeNumberIsHorner(s: string)
    requires |s| == SetupCode.LENGTH
    ensures CodeNumber(s) == Horner(SetupCode.Figures(s))
  {
    var d := SetupCode.Figures(s);
    HornerLast(d[..1], [], d[0]);
    HornerLast(d[..2], d[..1], d[1]);
    HornerLast(d[..3], d[..2], d[2]);
    HornerLast(d[..4], d[..3], d[3]);
    HornerLast(d[..5], d[..4], d[4]);
    HornerLast(d[..6], d[..5], d[5]);
    HornerLast(d[..7], d[..6], d[6]);
    HornerLast(d, d[..7], d[7]);
  }

  lemma HornerLast(d: seq<int>, front: seq<int>, last: int)
    requires d == front + [last]
    ensures Horner(d) == 10 * Horner(front) + last
  {
    assert d[..|d| - 1] == front;
  }

  /** The number in the payload determines the setup code. */
  lemma CodeRoundTrip(s: string)
    requires SetupCode.WellFormed(s)
    ensures CodeNumber(s) >= 0 && FormatCode(CodeNumber(s)) == s
  {
    var d := SetupCode.Figures(s);
    FiguresAreDecimal(s);
    CodeNumberIsHorner(s);
    hide CodeNumber, Horner, Decimal;
    forall k | 0 <= k < 8 ensures Horner(d) >= 0 && Decimal(Horner(d), k) == d[7 - k] {
      DecimalOfHorner(d, k);
    }
    var f := FormatCode(Horner(d));
    forall i | 0 <= i < SetupCode.LENGTH ensures f[i] == s[i] {
      if !SetupCode.IsSeparator(i) {
        SetupCode.FigureAt(s, i);
        var k := 7 - SetupCode.Rank(i);
        assert Decimal(Horner(d), k) == SetupCode.Figure(s[i]);
      }
    }
  }

  method GetSetupPayload(payload: array<char>, setupCode: Option<string>, setupId: Option<string>, flags: Flags,
      category: byte)
    requires payload.Length == PAYLOAD_SIZE
    requires setupCode.Some? || setupId.Some? ==> !flags.isPaired
    requires setupCode.Some? <==> setupId.Some?
    requires setupCode.Some? ==> SetupCode.WellFormed(setupCode.value) && |setupId.value| == 4
    requires flags.ipSupported || flags.bleSupported
    requires category > 0
    modifies payload
    ensures payload[..] == Payload(setupCode, setupId, flags, category) + ['\0']
  {
    if setupCode.Some? {
      CodeNumberBounds(setupCode.value);
    }
    var number := if setupCode.Some? then CodeNumber(setupCode.value) else 0;
    PackedHasNineDigits(category, flags, number);
    var code := Packed(category, flags, number);
    var id := if setupId.Some? then setupId.value else "0000";
    assert Payload(setupCode, setupId, flags, category) == PREFIX + Digits(code, NUM_DIGITS) + id;
    WriteParts(payload, code, id);
  }

  method WriteParts(payload: array<char>, code: nat, id: string)
    requires payload.Length == PAYLOAD_SIZE && code < TWO64 && |id| == 4
    modifies payload
    ensures payload[..] == PREFIX + Digits(code, NUM_DIGITS) + id + ['\0']
  {
    hide Digits;
    Clear(payload);
    ghost var blank := payload[..];
    CopyText(payload, 0, PREFIX);
    assert payload[..7] == PREFIX && payload[20] == blank[7..][13];
    ghost var first := payload[..];
    WriteDigits(payload, 7, code);
    assert payload[20] == first[16..][4];
    ghost var second := payload[..];
    CopyText(payload, 16, id);
    assert payload[..16] == second[..16] && payload[20] == second[20..][0];
    assert payload[..7] == payload[..16][..7] && payload[7..16] == payload[..16][7..];
    assert payload[..] == payload[..7] + payload[7..16] + payload[16..20] + [payload[20]];
  }

  method Clear(payload: array<char>)
    modifies payload
    ensures forall k :: 0 <= k < payload.Length ==> payload[k] == '\0'
  {
    for i := 0 to payload.Length
      invariant forall k :: 0 <= k < i ==> payload[k] == '\0'
    {
      payload[i] := '\0';
    }
  }

  method CopyText(payload: array<char>, at: nat, text: string)
    requires at + |text| <= payload.Length
    modifies payload
    ensures payload[..at] == old(payload[..at]) && payload[at..at + |text|] == text
    ensures payload[at + |text|..] == old(payload[at + |text|..])
  {
    for i := 0 to |text|
      invariant payload[..at] == old(payload[..at]) && payload[at..at + i] == text[..i]
      invariant payload[at + i..] == old(payload[at + i..])
    {
      payload[at + i] := text[i];
    }
  }

  /** Writes the nine digits of `x`, the last one first. */
  method WriteDigits(payload: array<char>, at: nat, x: nat)
    requires at + NUM_DIGITS <= payload.Length && x < TWO64
    modifies payload
    ensures payload[..at] == old(payload[..at]) && payload[at..at + NUM_DIGITS] == Digits(x, NUM_DIGITS)
    ensures payload[at + NUM_DIGITS..] == old(payload[at + NUM_DIGITS..])
  {
    var code: nat := x;
    for i := 0 to NUM_DIGITS
      invariant code <= x
      invariant Digits(x, NUM_DIGITS) == Digits(code, NUM_DIGITS - i) + payload[at + NUM_DIGITS - i..at + NUM_DIGITS]
      invariant payload[..at] == old(payload[..at])
      invariant payload[at + NUM_DIGITS..] == old(payload[at + NUM_DIGITS..])
    {
      ghost var before, was := code, payload[at + NUM_DIGITS - i..at + NUM_DIGITS];
      var c: nat;
      code, c := DivideBy36(code);
      BranchFreeIsDigit(c);
      payload[at + 8 - i] := BranchFree(c) as char;
      assert payload[at + NUM_DIGITS - i..at + NUM_DIGITS] == was;
      assert payload[at + 8 - i..at + NUM_DIGITS] == [Digit(c)] + was;
      assert Digits(before, NUM_DIGITS - i) == Digits(code, 8 - i) + [Digit(c)];
    }
  }
}
