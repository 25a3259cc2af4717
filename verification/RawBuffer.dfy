/** Copying inside one buffer, where source and destination may overlap. */
module RawBuffer {
  import opened Bytes

  /** `s` with the `n` bytes at `dst` replaced by the `n` bytes that were at `src`. */
  function Moved(s: seq<byte>, dst: nat, src: nat, n: nat): (r: seq<byte>)
    requires dst + n <= |s| && src + n <= |s|
    ensures |r| == |s|
    ensures forall k {:trigger r[k]} :: 0 <= k < |s| ==> r[k] == if dst <= k < dst + n then s[src + (k - dst)] else s[k]
  {
    s[..dst] + s[src..src + n] + s[dst + n..]
  }

  /** `s` with `|source|` bytes at `dst` replaced by `source`. */
  function Overwritten(s: seq<byte>, dst: nat, source: seq<byte>): (r: seq<byte>)
    requires dst + |source| <= |s|
    ensures |r| == |s|
    ensures forall k {:trigger r[k]} :: 0 <= k < |s| ==>
              r[k] == if dst <= k < dst + |source| then source[k - dst] else s[k]
  {
    s[..dst] + source + s[dst + |source|..]
  }

  /**
   * Copies towards lower addresses front to back and towards higher addresses back to front,
   * so every source byte is read before it is overwritten.
   */
  method CopyBytes(mem: array<byte>, dst: nat, src: nat, n: nat)
    requires dst + n <= mem.Length && src + n <= mem.Length
    modifies mem
    ensures mem[..] == Moved(old(mem[..]), dst, src, n)
  {
    ghost var was := mem[..];
    if dst < src {
      for i := 0 to n
        invariant forall k {:trigger mem[k]} :: 0 <= k < mem.Length && !(dst <= k < dst + i) ==> mem[k] == was[k]
        invariant forall k {:trigger mem[k]} :: dst <= k < dst + i ==> mem[k] == was[src + (k - dst)]
      {
        mem[dst + i] := mem[src + i];
      }
    } else if dst > src {
      for i := n downto 0
        invariant forall k {:trigger mem[k]} :: 0 <= k < mem.Length && !(dst + i <= k < dst + n) ==> mem[k] == was[k]
        invariant forall k {:trigger mem[k]} :: dst + i <= k < dst + n ==> mem[k] == was[src + (k - dst)]
      {
        mem[dst + i] := mem[src + i];
      }
    }
    MovedAt(was, mem[..], dst, src, n);
  }

  /** A buffer that agrees with the move position by position is the moved buffer. */
  lemma MovedAt(s: seq<byte>, r: seq<byte>, dst: nat, src: nat, n: nat)
    requires dst + n <= |s| && src + n <= |s| && |r| == |s|
    requires forall k :: 0 <= k < |s| && !(dst <= k < dst + n) ==> r[k] == s[k]
    requires forall k {:trigger r[k]} :: dst <= k < dst + n ==> r[k] == s[src + (k - dst)]
    ensures r == Moved(s, dst, src, n)
  {
    var m := Moved(s, dst, src, n);
    assert forall k :: 0 <= k < |s| ==> r[k] == m[k];
  }

  /** Copies bytes that lie outside the buffer into it. */
  method StoreBytes(mem: array<byte>, dst: nat, source: seq<byte>)
    requires dst + |source| <= mem.Length
    modifies mem
    ensures mem[..] == Overwritten(old(mem[..]), dst, source)
  {
    ghost var was := mem[..];
    for i := 0 to |source|
      invariant mem[..] == Overwritten(was, dst, source[..i])
    {
      mem[dst + i] := source[i];
    }
    assert source[..|source|] == source;
  }

  /** `s` with the `n` bytes at `at` set to zero. */
  function Zeroed(s: seq<byte>, at: nat, n: nat): (r: seq<byte>)
    requires at + n <= |s|
    ensures |r| == |s|
    ensures forall k {:trigger r[k]} :: 0 <= k < |s| ==> r[k] == if at <= k < at + n then 0 else s[k]
  {
    s[..at] + seq(n, _ => 0) + s[at + n..]
  }

  method ZeroBytes(mem: array<byte>, at: nat, n: nat)
    requires at + n <= mem.Length
    modifies mem
    ensures mem[..] == Zeroed(old(mem[..]), at, n)
  {
    ghost var was := mem[..];
    for i := 0 to n
      invariant mem[..] == Zeroed(was, at, i)
    {
      mem[at + i] := 0;
    }
  }
}
