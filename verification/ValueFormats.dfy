/** The formats of characteristic values, and which values a write request may carry for them. */
module ValueFormats {
  import opened Bytes
  import Utf8

  datatype Format = Data | Bool | UInt8 | UInt16 | UInt32 | UInt64 | Int | Float | Text | Tlv8

  /** The length of all values of a format, if they have one. */
  function FixedLength(format: Format): Option<nat> {
    match format
    case Bool => Some(1)
    case UInt8 => Some(1)
    case UInt16 => Some(2)
    case UInt32 => Some(4)
    case UInt64 => Some(8)
    case Int => Some(4)
    case Float => Some(4)
    case _ => None
  }

  /** A value of the format: of the right length, a truth value, or a text without null bytes. */
  predicate Conforms(format: Format, value: seq<byte>) {
    && (FixedLength(format).Some? ==> |value| == FixedLength(format).value)
    && (format.Bool? ==> |value| == 1 && value[0] <= 1)
    && (format.Text? ==> 0 !in value && Utf8.Accepts(Utf8.BOUNDARY, value))
  }

  /** The formats without texts, one by one. */
  lemma ConformsIff(value: seq<byte>)
    ensures Conforms(Data, value) && Conforms(Tlv8, value)
    ensures Conforms(Bool, value) <==> value in {[0], [1]}
    ensures Conforms(UInt8, value) <==> |value| == 1
    ensures Conforms(UInt16, value) <==> |value| == 2
    ensures Conforms(UInt32, value) && Conforms(Int, value) && Conforms(Float, value) <==> |value| == 4
    ensures Conforms(UInt32, value) <==> Conforms(Int, value)
    ensures Conforms(Int, value) <==> Conforms(Float, value)
    ensures Conforms(UInt64, value) <==> |value| == 8
  {
    if |value| == 1 {
      assert value == [value[0]];
    }
  }

  /** The number of bytes in front of the first null byte of the terminated `value`. */
  method StringNumBytes(value: seq<byte>) returns (n: nat)
    ensures n <= |value| && 0 !in value[..n] && (n < |value| ==> value[n] == 0)
    ensures n == |value| <==> 0 !in value
  {
    n := 0;
    while n < |value| && value[n] != 0
      invariant n <= |value| && 0 !in value[..n]
    {
      n := n + 1;
    }
    assert value[..|value|] == value;
  }

  method CheckFormat(format: Format, value: seq<byte>) returns (ok: bool)
    ensures ok <==> Conforms(format, value)
  {
    match format {
      case Data =>
        ok := true;
      case Bool =>
        if |value| != 1 {
          return false;
        }
        ok := value[0] == 0 || value[0] == 1;
      case UInt8 =>
        ok := |value| == 1;
      case UInt16 =>
        ok := |value| == 2;
      case UInt32 =>
        ok := |value| == 4;
      case UInt64 =>
        ok := |value| == 8;
      case Int =>
        ok := |value| == 4;
      case Float =>
        ok := |value| == 4;
      case Text =>
        var numBytes := StringNumBytes(value);
        if |value| != numBytes {
          return false;
        }
        Utf8.AcceptsIff(value);
        ok := Utf8.IsValidData(value);
      case Tlv8 =>
        ok := true;
    }
  }

  /** A value of the text format is the encoding of scalar values other than zero, and of only one sequence of them. */
  lemma TextsConformIff(value: seq<byte>)
    ensures Conforms(Text, value) <==> exists cs :: 0 !in cs && Utf8.Encode(cs) == value
  {
    Utf8.AcceptsIff(value);
    if Conforms(Text, value) {
      var cs :| Utf8.Encode(cs) == value;
      Utf8.NullsAreEncoded(cs);
    }
    if cs :| 0 !in cs && Utf8.Encode(cs) == value {
      Utf8.NullsAreEncoded(cs);
      assert Utf8.IsEncoded(value);
    }
  }
}
