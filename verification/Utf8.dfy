/**
 * The validation of UTF-8 (Table 3-7 of The Unicode Standard 6.0): a loop over bit patterns that accepts exactly the
 * encodings of sequences of Unicode scalar values.
 */
module Utf8 {
  import opened Bytes

  // Scalar values and their encodings.

  type Scalar = c: int | 0 <= c < 0xD800 || 0xE000 <= c < 0x11_0000

  /** A byte with the lowest six bits of `n`. */
  function Continuation(n: nat): byte {
    0x80 + n % 0x40
  }

  function EncodeScalar(c: Scalar): (s: seq<byte>)
    ensures 1 <= |s| <= 4
  {
    var high := c / 0x40;
    var higher := high / 0x40;
    if c < 0x80 then [c]
    else if c < 0x800 then [0xC0 + high, Continuation(c)]
    else if c < 0x1_0000 then [0xE0 + higher, Continuation(high), Continuation(c)]
    else [0xF0 + higher / 0x40, Continuation(higher), Continuation(high), Continuation(c)]
  }

  function Encode(cs: seq<Scalar>): seq<byte> {
    if cs == [] then [] else EncodeScalar(cs[0]) + Encode(cs[1..])
  }

  // The table, row by row.

  /** The range of the byte that follows a first byte; any further byte is in 0x80..0xBF. */
  datatype Second = Any | FromA0 | To9F | From90 | To8F
  {
    function Low(): byte {
      match this
      case FromA0 => 0xA0
      case From90 => 0x90
      case _ => 0x80
    }

    function High(): byte {
      match this
      case To9F => 0x9F
      case To8F => 0x8F
      case _ => 0xBF
    }
  }

  /** How many bytes are still to come, and the range of the next one. */
  datatype Awaited = Awaited(count: nat, next: Second)

  const BOUNDARY := Awaited(0, Any)

  function First(b: byte): Option<Awaited> {
    if b < 0x80 then Some(BOUNDARY)
    else if b < 0xC2 then None
    else if b < 0xE0 then Some(Awaited(1, Any))
    else if b < 0xF0 then Some(Awaited(2, if b == 0xE0 then FromA0 else if b == 0xED then To9F else Any))
    else if b < 0xF5 then Some(Awaited(3, if b == 0xF0 then From90 else if b == 0xF4 then To8F else Any))
    else None
  }

  function Follow(a: Awaited, b: byte): Option<Awaited> {
    if a.count == 0 then First(b)
    else if a.next.Low() <= b <= a.next.High() then Some(Awaited(a.count - 1, Any))
    else None
  }

  /** Reading `s` leads from `a` to a boundary. */
  predicate Accepts(a: Awaited, s: seq<byte>)
    decreases |s|
  {
    if s == [] then a.count == 0
    else Follow(a, s[0]).Some? && Accepts(Follow(a, s[0]).value, s[1..])
  }

  // The table describes exactly the encodings.

  /** The value of the bytes of one scalar. */
  function ScalarOf(s: seq<byte>): int
    requires 1 <= |s| <= 4
  {
    var a: int := s[0];
    var b: int := if |s| > 1 then s[1] as int - 0x80 else 0;
    var c: int := if |s| > 2 then s[2] as int - 0x80 else 0;
    var d: int := if |s| > 3 then s[3] as int - 0x80 else 0;
    match |s|
    case 1 => a
    case 2 => (a - 0xC0) * 0x40 + b
    case 3 => ((a - 0xE0) * 0x40 + b) * 0x40 + c
    case _ => (((a - 0xF0) * 0x40 + b) * 0x40 + c) * 0x40 + d
  }

  lemma SplitBits(n: nat, high: nat, low: nat)
    requires n == high * 0x40 + low && low < 0x40
    ensures n / 0x40 == high && n % 0x40 == low
  {
  }

  /** Bytes that the table accepts as one sequence are the encoding of their value. */
  lemma SequenceIsEncoded(s: seq<byte>)
    requires 1 <= |s| <= 4 && First(s[0]).Some? && First(s[0]).value.count == |s| - 1
    requires |s| > 1 ==> First(s[0]).value.next.Low() <= s[1] <= First(s[0]).value.next.High()
    requires forall k :: 2 <= k < |s| ==> 0x80 <= s[k] <= 0xBF
    ensures var c := ScalarOf(s); 0 <= c < 0x11_0000 && !(0xD800 <= c < 0xE000) && EncodeScalar(c) == s
  {
    var value := ScalarOf(s);
    var first: int, b: int := s[0], if |s| > 1 then s[1] as int - 0x80 else 0;
    var c: int, d: int := if |s| > 2 then s[2] as int - 0x80 else 0, if |s| > 3 then s[3] as int - 0x80 else 0;
    match |s|
    case 1 =>
    case 2 =>
      SplitBits(value, first - 0xC0, b);
    case 3 =>
      var high := (first - 0xE0) * 0x40 + b;
      SplitBits(high, first - 0xE0, b);
      SplitBits(value, high, c);
    case _ =>
      var higher := (first - 0xF0) * 0x40 + b;
      var high := higher * 0x40 + c;
      SplitBits(higher, first - 0xF0, b);
      SplitBits(high, higher, c);
      SplitBits(value, high, d);
  }

  /** Reading the encoding of a scalar value leads from boundary to boundary. */
  lemma FirstOfEncoded(c: Scalar, rest: seq<byte>)
    ensures Accepts(BOUNDARY, EncodeScalar(c) + rest) <==> Accepts(BOUNDARY, rest)
  {
    var e, s := EncodeScalar(c), EncodeScalar(c) + rest;
    var a := First(e[0]).value;
    assert a.count == |e| - 1;
    assert s[1..] == e[1..] + rest;
    if |e| > 1 {
      assert a.next.Low() <= e[1] <= a.next.High();
      var after := e[2..] + rest;
      assert s[1..][0] == e[1] && s[1..][1..] == after;
      ContinuationsLead(a.count - 1, e[2..], rest);
    }
  }

  lemma {:induction false} ContinuationsLead(count: nat, s: seq<byte>, rest: seq<byte>)
    requires |s| == count && forall k :: 0 <= k < |s| ==> 0x80 <= s[k] <= 0xBF
    ensures Accepts(Awaited(count, Any), s + rest) <==> Accepts(BOUNDARY, rest)
  {
    if s == [] {
      assert s + rest == rest;
    } else {
      assert (s + rest)[1..] == s[1..] + rest;
      ContinuationsLead(count - 1, s[1..], rest);
    }
  }

  lemma {:induction false} EncodedIsAccepted(cs: seq<Scalar>)
    ensures Accepts(BOUNDARY, Encode(cs))
  {
    if cs != [] {
      EncodedIsAccepted(cs[1..]);
      FirstOfEncoded(cs[0], Encode(cs[1..]));
    }
  }

  lemma {:induction false} AcceptedContinuations(count: nat, s: seq<byte>)
    requires Accepts(Awaited(count, Any), s)
    ensures count <= |s| && forall k :: 0 <= k < count ==> 0x80 <= s[k] <= 0xBF
    decreases |s|
  {
    if count > 0 {
      AcceptedContinuations(count - 1, s[1..]);
      assert forall k :: 1 <= k < count ==> s[k] == s[1..][k - 1];
    }
  }

  /** What is accepted starts with the encoding of a scalar value. */
  lemma AcceptedStarts(s: seq<byte>) returns (c: Scalar)
    requires s != [] && Accepts(BOUNDARY, s)
    ensures |EncodeScalar(c)| <= |s| && s[..|EncodeScalar(c)|] == EncodeScalar(c)
  {
    var a := First(s[0]).value;
    if a.count > 0 {
      assert s[1..][0] == s[1];
      AcceptedContinuations(a.count - 1, s[1..][1..]);
      assert forall k :: 2 <= k < a.count + 1 ==> s[k] == s[1..][1..][k - 2];
    }
    SequenceIsEncoded(s[..a.count + 1]);
    c := ScalarOf(s[..a.count + 1]);
  }

  lemma {:induction false} AcceptedIsEncoded(s: seq<byte>) returns (cs: seq<Scalar>)
    requires Accepts(BOUNDARY, s)
    ensures Encode(cs) == s
    decreases |s|
  {
    if s == [] {
      cs := [];
    } else {
      var c := AcceptedStarts(s);
      var n := |EncodeScalar(c)|;
      assert s == EncodeScalar(c) + s[n..];
      FirstOfEncoded(c, s[n..]);
      var rest := AcceptedIsEncoded(s[n..]);
      cs := [c] + rest;
      assert cs[1..] == rest;
    }
  }

  /** The bytes are the encoding of scalar values. */
  ghost predicate IsEncoded(s: seq<byte>) {
    exists cs :: Encode(cs) == s
  }

  lemma AcceptsIff(s: seq<byte>)
    ensures Accepts(BOUNDARY, s) <==> IsEncoded(s)
  {
    if Accepts(BOUNDARY, s) {
      var cs := AcceptedIsEncoded(s);
      assert Encode(cs) == s;
    } else if IsEncoded(s) {
      var cs :| Encode(cs) == s;
      EncodedIsAccepted(cs);
    }
  }

  lemma ScalarOfEncoded(c: Scalar)
    ensures ScalarOf(EncodeScalar(c)) == c
  {
  }

  lemma LengthFromFirst(c: Scalar)
    ensures First(EncodeScalar(c)[0]).Some? && |EncodeScalar(c)| == First(EncodeScalar(c)[0]).value.count + 1
  {
  }

  /** No text has two meanings. */
  lemma {:induction false} EncodeIsInjective(cs: seq<Scalar>, ds: seq<Scalar>)
    requires Encode(cs) == Encode(ds)
    ensures cs == ds
  {
    if cs != [] && ds != [] {
      var s := Encode(cs);
      LengthFromFirst(cs[0]);
      LengthFromFirst(ds[0]);
      assert s[0] == EncodeScalar(cs[0])[0] == EncodeScalar(ds[0])[0];
      var n := |EncodeScalar(cs[0])|;
      assert s[..n] == EncodeScalar(cs[0]) == EncodeScalar(ds[0]);
      assert s[n..] == Encode(cs[1..]) == Encode(ds[1..]);
      ScalarOfEncoded(cs[0]);
      ScalarOfEncoded(ds[0]);
      EncodeIsInjective(cs[1..], ds[1..]);
    }
  }

  /** A null byte stands for the scalar value zero and is part of no other encoding. */
  lemma {:induction false} NullsAreEncoded(cs: seq<Scalar>)
    ensures 0 in Encode(cs) <==> 0 in cs
  {
    if cs != [] {
      NullsAreEncoded(cs[1..]);
      assert cs == [cs[0]] + cs[1..];
      assert 0 in EncodeScalar(cs[0]) <==> cs[0] == 0;
    }
  }

  // The bit patterns. Only bit 0 of an error matters, so that shifting in zeros stands for the arithmetic shift.

  /** Bit 0 is set for values that occur nowhere. */
  function IllegalValue(value: bv32): bv32 {
    ((((value - 0xC0) & 0xFF) - 2) >> 8) | ((0xF4 - value) >> 8)
  }

  /** Bit 0 is set if `prefix` is `b`. */
  function Equals(prefix: bv32, b: bv32): bv32 {
    (((prefix - b) & 0xFF) - 1) >> 8
  }

  /** Bit 0 is set for values that may not follow `prefix`. */
  function IllegalSecond(prefix: bv32, value: bv32): bv32 {
    var bits := value >> 5;
    var more := bits | (value >> 4);
    (Equals(prefix, 0xE0) & !bits) | (Equals(prefix, 0xED) & bits)
    | (Equals(prefix, 0xF0) & !more) | (Equals(prefix, 0xF4) & more)
  }

  /** Bit 0 is set if a continuation is missing or out of place. */
  function IllegalContinuation(state: bv32, value: bv32): bv32 {
    ((value >> 7) & !((value >> 6) & 1)) ^ (state >> 7)
  }

  function NextPrefix(value: bv32): bv32 {
    (0 - ((value >> 7) & ((value >> 6) & 1))) & value
  }

  function NextState(state: bv32, value: bv32): bv32 {
    ((NextPrefix(value) | ((0 - (state >> 7)) & state)) << 1) & 0xFF
  }

  /** The leading ones of `state` count what is awaited, and `prefix` is the first byte if it was read last. */
  predicate Matches(state: bv32, prefix: bv32, a: Awaited) {
    && prefix < 0x100
    && (match a.count
        case 0 => state < 0x80 && prefix == 0
        case 1 => 0x80 <= state < 0xC0
        case 2 => 0xC0 <= state < 0xE0
        case 3 => 0xE0 <= state < 0xF0
        case _ => false)
    && (a.next == FromA0 <==> prefix == 0xE0) && (a.next == To9F <==> prefix == 0xED)
    && (a.next == From90 <==> prefix == 0xF0) && (a.next == To8F <==> prefix == 0xF4)
  }

  function Bits(b: byte): bv32 {
    (b as bv8) as bv32
  }

  /** The comparisons that the table makes, on bits. */
  lemma BitsCompare(b: byte)
    ensures Bits(b) < 0x100
    ensures (b < 0x80 <==> Bits(b) < 0x80) && (b < 0x90 <==> Bits(b) < 0x90) && (b < 0xA0 <==> Bits(b) < 0xA0)
    ensures (b < 0xC0 <==> Bits(b) < 0xC0) && (b < 0xC2 <==> Bits(b) < 0xC2) && (b < 0xE0 <==> Bits(b) < 0xE0)
    ensures (b < 0xF0 <==> Bits(b) < 0xF0) && (b < 0xF5 <==> Bits(b) < 0xF5)
    ensures (b == 0xE0 <==> Bits(b) == 0xE0) && (b == 0xED <==> Bits(b) == 0xED)
    ensures (b == 0xF0 <==> Bits(b) == 0xF0) && (b == 0xF4 <==> Bits(b) == 0xF4)
  {
  }

  lemma ErrorMeans(state: bv32, prefix: bv32, a: Awaited, b: byte)
    requires Matches(state, prefix, a)
    ensures var v := Bits(b);
            (IllegalValue(v) | IllegalSecond(prefix, v) | IllegalContinuation(state, v)) & 1
            == if Follow(a, b).None? then 1 else 0
  {
    BitsCompare(b);
    hide Bits;
  }

  lemma StateFollows(state: bv32, prefix: bv32, a: Awaited, b: byte)
    requires Matches(state, prefix, a) && Follow(a, b).Some?
    ensures Matches(NextState(state, Bits(b)), NextPrefix(Bits(b)), Follow(a, b).value)
  {
    BitsCompare(b);
    hide Bits;
  }

  /** Accepts exactly the encodings of scalar values. */
  method IsValidData(bytes: seq<byte>) returns (valid: bool)
    ensures valid <==> IsEncoded(bytes)
  {
    AcceptsIff(bytes);
    var error: bv32, state: bv32, prefix: bv32 := 0, 0, 0;
    ghost var a := BOUNDARY;
    for i := 0 to |bytes|
      invariant error & 1 == 0 ==> Matches(state, prefix, a) && (Accepts(BOUNDARY, bytes) <==> Accepts(a, bytes[i..]))
      invariant error & 1 != 0 ==> !Accepts(BOUNDARY, bytes)
    {
      var value := Bits(bytes[i]);
      if error & 1 == 0 {
        ErrorMeans(state, prefix, a, bytes[i]);
        assert bytes[i..][0] == bytes[i] && bytes[i..][1..] == bytes[i + 1..];
        if Follow(a, bytes[i]).Some? {
          StateFollows(state, prefix, a, bytes[i]);
          a := Follow(a, bytes[i]).value;
        }
      }
      error := error | IllegalValue(value);
      error := error | IllegalSecond(prefix, value);
      error := error | IllegalContinuation(state, value);
      state := NextState(state, value);
      prefix := NextPrefix(value);
    }
    // Missing continuations.
    error := error | (state >> 7);
    valid := 1 & !error == 1;
  }
}
