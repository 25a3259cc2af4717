/** Bytes, 16-bit little-endian words and the outcome of a fallible operation. */
module Bytes {

  type byte = b: int | 0 <= b < 0x100

  type u16 = w: int | 0 <= w < 0x1_0000

  const UINT16_MAX: u16 := 0xFFFF

  /** The error codes of the platform layer that the modelled functions return. */
  datatype Error = Unknown | InvalidState | InvalidData | OutOfResources | NotAuthorized | Busy

  datatype Option<+T> = None | Some(value: T)

  datatype Result<+T> = Ok(value: T) | Err(error: Error)

  function LittleUInt16(w: u16): (s: seq<byte>)
    ensures |s| == 2
  {
    [w % 0x100, w / 0x100]
  }

  function ReadLittleUInt16(s: seq<byte>, at: nat): u16
    requires at + 2 <= |s|
  {
    var low: int, high: int := s[at], s[at + 1];
    low + 0x100 * high
  }

  /** Writing a word over two bytes and reading it back gives the word. */
  lemma ReadAfterWrite(w: u16, before: seq<byte>, after: seq<byte>)
    ensures ReadLittleUInt16(before + LittleUInt16(w) + after, |before|) == w
  {
    var s := before + LittleUInt16(w) + after;
    assert s[|before|] == w % 0x100 && s[|before| + 1] == w / 0x100;
  }

  /** The two bytes that were read are the encoding of the word. */
  lemma WriteAfterRead(s: seq<byte>, at: nat)
    requires at + 2 <= |s|
    ensures LittleUInt16(ReadLittleUInt16(s, at)) == s[at..at + 2]
  {
  }

  /** All fragments of `parts`, one after the other. */
  function Concat(parts: seq<seq<byte>>): seq<byte> {
    if parts == [] then [] else Concat(parts[..|parts| - 1]) + parts[|parts| - 1]
  }
}
