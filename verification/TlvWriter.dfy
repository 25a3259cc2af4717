/** Appending items to a buffer whose free part may already hold the value that is to be written. */
module TlvWriter {
  import opened Bytes
  import opened RawBuffer
  import opened TlvFormat

  /** `text` stands at `at`. */
  ghost predicate Stands(mem: seq<byte>, at: nat, text: seq<byte>) {
    at + |text| <= |mem| && forall k {:trigger text[k]} :: 0 <= k < |text| ==> mem[at + k] == text[k]
  }

  ghost predicate SameBefore(now: seq<byte>, was: seq<byte>, at: nat) {
    |now| == |was| && forall k {:trigger now[k]} :: 0 <= k < at && k < |was| ==> now[k] == was[k]
  }

  /** Where a value is: nowhere (it is empty), at some place of the writer's array, or in other memory. */
  datatype Source = Absent | InBuffer(at: nat, length: nat) | Elsewhere(bytes: seq<byte>)
  {
    predicate FitsIn(size: nat) {
      InBuffer? ==> at + length <= size
    }

    function Length(): nat {
      match this
      case Absent => 0
      case InBuffer(_, length) => length
      case Elsewhere(bytes) => |bytes|
    }

    function Value(mem: seq<byte>): (value: seq<byte>)
      requires FitsIn(|mem|)
      ensures |value| == Length()
    {
      match this
      case Absent => []
      case InBuffer(at, length) => mem[at..at + length]
      case Elsewhere(bytes) => bytes
    }
  }

  /** The array after the value was put at `at`. */
  function Placed(was: seq<byte>, at: nat, source: Source): (now: seq<byte>)
    requires source.FitsIn(|was|) && at + source.Length() <= |was|
    ensures |now| == |was|
  {
    match source
    case Absent => was
    case InBuffer(src, length) => Moved(was, at, src, length)
    case Elsewhere(bytes) => Overwritten(was, at, bytes)
  }

  lemma PlacedFrom(was: seq<byte>, at: nat, source: Source)
    requires source.FitsIn(|was|) && at + source.Length() <= |was|
    ensures source.Absent? ==> Placed(was, at, source) == was
    ensures source.InBuffer? ==>
              && source.at + source.length <= |was| && at + source.length <= |was|
              && Placed(was, at, source) == Moved(was, at, source.at, source.length)
    ensures source.Elsewhere? ==>
              at + |source.bytes| <= |was| && Placed(was, at, source) == Overwritten(was, at, source.bytes)
  {
  }

  lemma PlacedStands(was: seq<byte>, at: nat, source: Source)
    requires source.FitsIn(|was|) && at + source.Length() <= |was|
    ensures Stands(Placed(was, at, source), at, source.Value(was)) && SameBefore(Placed(was, at, source), was, at)
  {
  }

  /** The header of a fragment was put at `at`. */
  ghost predicate HasHeader(now: seq<byte>, was: seq<byte>, at: nat, kind: byte, n: nat) {
    at + 2 <= |was| && n <= MAX_FRAGMENT && now == was[at := kind][at + 1 := n]
  }

  /** A header at `at` was put before the remaining `value`. */
  lemma FragmentStands(was: seq<byte>, moved: seq<byte>, now: seq<byte>, at: nat, value: seq<byte>, kind: byte, n: nat)
    requires n <= |value| && n <= MAX_FRAGMENT && at + 2 + |value| <= |was|
    requires Stands(moved, at + 2, value) && SameBefore(moved, was, at + 2)
    requires HasHeader(now, moved, at, kind, n)
    ensures Stands(now, at, Fragment(kind, value[..n]))
    ensures Stands(now, at + 2 + n, value[n..])
    ensures SameBefore(now, was, at)
  {
    var fragment := Fragment(kind, value[..n]);
    forall k {:trigger fragment[k]} | 0 <= k < |fragment| ensures now[at + k] == fragment[k] {
      if k >= 2 {
        assert fragment[k] == fragment[2..][k - 2] == value[k - 2];
        assert now[at + k] == moved[at + 2 + (k - 2)];
      }
    }
  }

  /** A fragment and the rest of the value were put behind what stood there before. */
  lemma StandsBoth(now: seq<byte>, was: seq<byte>, before: seq<byte>, at: nat, front: seq<byte>, fragment: seq<byte>,
      rest: seq<byte>)
    requires Stands(was, at, front) && SameBefore(now, was, at + |front|)
    requires Stands(now, at + |front|, fragment) && Stands(now, at + |front| + |fragment|, rest)
    requires SameBefore(was, before, at)
    ensures Stands(now, at, front + fragment) && SameBefore(now, before, at)
    ensures var source := InBuffer(at + |front| + |fragment|, |rest|);
            source.FitsIn(|now|) && source.Value(now) == rest
  {
  }

  lemma WrittenMore(now: seq<byte>, was: seq<byte>, start: nat, first: nat, item: seq<byte>)
    requires start <= first && Stands(now, first, item) && SameBefore(now, was, first)
    ensures now[start..first + |item|] == was[start..first] + item
  {
  }

  lemma Regroup(a: seq<byte>, b: seq<byte>, c: seq<byte>)
    ensures a + (b + c) == (a + b) + c
  {
  }

  lemma EncodedLength(kind: byte, value: seq<byte>)
    ensures |EncodeItem(kind, value)| >= |value| + 2
    ensures |value| > MAX_FRAGMENT ==>
              EncodeItem(kind, value)
              == Fragment(kind, value[..MAX_FRAGMENT]) + EncodeItem(kind, value[MAX_FRAGMENT..])
    ensures |value| <= MAX_FRAGMENT ==> EncodeItem(kind, value) == Fragment(kind, value[..|value|])
  {
    assert value[..|value|] == value;
  }

  class Writer {
    const mem: array<byte>
    const start: nat
    const maxBytes: nat
    var numBytes: nat
    var lastType: byte

    constructor (mem: array<byte>, start: nat, maxBytes: nat)
      requires start + maxBytes <= mem.Length
      ensures Valid() && this.mem == mem && this.start == start && this.maxBytes == maxBytes
      ensures Written() == []
    {
      this.mem, this.start, this.maxBytes, numBytes, lastType := mem, start, maxBytes, 0, 0;
    }

    ghost predicate Valid()
      reads this
    {
      start + maxBytes <= mem.Length && numBytes <= maxBytes
    }

    ghost function Written(): seq<byte>
      requires Valid()
      reads this, mem
    {
      mem[start..start + numBytes]
    }

    /** Puts the remaining value behind the place of the next header. */
    method MoveValue(source: Source)
      requires Valid() && numBytes + 2 + source.Length() <= maxBytes && source.FitsIn(mem.Length)
      modifies mem
      ensures mem[..] == Placed(old(mem[..]), start + numBytes + 2, source)
    {
      hide Placed;
      PlacedFrom(mem[..], start + numBytes + 2, source);
      match source {
        case Absent =>
        case InBuffer(src, length) =>
          MoveTo(start + numBytes + 2, src, length);
        case Elsewhere(bytes) =>
          StoreAt(start + numBytes + 2, bytes);
      }
    }

    method MoveTo(at: nat, src: nat, length: nat)
      requires at + length <= mem.Length && src + length <= mem.Length
      modifies mem
      ensures mem[..] == Moved(old(mem[..]), at, src, length)
    {
      hide *;
      CopyBytes(mem, at, src, length);
    }

    method StoreAt(at: nat, bytes: seq<byte>)
      requires at + |bytes| <= mem.Length
      modifies mem
      ensures mem[..] == Overwritten(old(mem[..]), at, bytes)
    {
      hide *;
      StoreBytes(mem, at, bytes);
    }

    method MoveText(source: Source, ghost value: seq<byte>)
      requires Valid() && numBytes + 2 + |value| <= maxBytes
      requires source.FitsIn(mem.Length) && source.Value(mem[..]) == value
      modifies mem
      ensures Stands(mem[..], start + numBytes + 2, value) && SameBefore(mem[..], old(mem[..]), start + numBytes + 2)
    {
      PlacedStands(mem[..], start + numBytes + 2, source);
      hide *;
      MoveValue(source);
    }

    method PutHeader(kind: byte, n: nat)
      requires Valid() && numBytes + 2 <= maxBytes && n <= MAX_FRAGMENT
      modifies mem
      ensures HasHeader(mem[..], old(mem[..]), start + numBytes, kind, n)
    {
      mem[start + numBytes] := kind;
      mem[start + numBytes + 1] := n;
    }

    /** Writes a header with the next `n` bytes of the value behind it; the rest of the value moves along. */
    method WriteFragment(kind: byte, source: Source, n: nat, ghost value: seq<byte>)
      requires Valid() && numBytes + 2 + |value| <= maxBytes
      requires n <= |value| && n <= MAX_FRAGMENT && source.FitsIn(mem.Length) && source.Value(mem[..]) == value
      modifies this, mem
      ensures Valid() && numBytes == old(numBytes) + 2 + n && lastType == old(lastType)
      ensures Stands(mem[..], start + old(numBytes), Fragment(kind, value[..n]))
      ensures Stands(mem[..], start + numBytes, value[n..])
      ensures SameBefore(mem[..], old(mem[..]), start + old(numBytes))
    {
      hide Fragment, Stands, SameBefore, HasHeader, Placed, Moved, Overwritten, Source.Value, Source.FitsIn;
      ghost var was, at := mem[..], start + numBytes;
      MoveText(source, value);
      ghost var moved := mem[..];
      PutHeader(kind, n);
      numBytes := numBytes + 2 + n;
      FragmentStands(was, moved, mem[..], at, value, kind, n);
    }

    /** The same behind `front`, which was written before. */
    method WriteNext(kind: byte, source: Source, n: nat, ghost value: seq<byte>, ghost first: nat,
        ghost front: seq<byte>, ghost before: seq<byte>)
      returns (rest: Source)
      requires Valid() && numBytes + 2 + |value| <= maxBytes
      requires n <= |value| && n <= MAX_FRAGMENT && source.FitsIn(mem.Length) && source.Value(mem[..]) == value
      requires Stands(mem[..], first, front) && first + |front| == start + numBytes
      requires SameBefore(mem[..], before, first)
      modifies this, mem
      ensures Valid() && numBytes == old(numBytes) + 2 + n && lastType == old(lastType)
      ensures Stands(mem[..], first, front + Fragment(kind, value[..n])) && SameBefore(mem[..], before, first)
      ensures rest.FitsIn(mem.Length) && rest.Value(mem[..]) == value[n..]
    {
      hide Fragment, Stands, SameBefore, Source.Value, Source.FitsIn;
      ghost var was := mem[..];
      var left := source.Length() - n;
      WriteFragment(kind, source, n, value);
      StandsBoth(mem[..], was, before, first, front, Fragment(kind, value[..n]), value[n..]);
      rest := InBuffer(start + numBytes, left);
    }

    /** Writes all fragments of an item. */
    method WriteFragments(kind: byte, source: Source) returns (ok: bool)
      requires Valid() && source.FitsIn(mem.Length)
      modifies this, mem
      ensures Valid() && lastType == old(lastType)
      ensures var item := EncodeItem(kind, source.Value(old(mem[..])));
              && (ok <==> |item| <= maxBytes - old(numBytes))
              && (ok ==> numBytes == old(numBytes) + |item| && Stands(mem[..], start + old(numBytes), item))
      ensures SameBefore(mem[..], old(mem[..]), start + old(numBytes))
    {
      ghost var value := source.Value(mem[..]);
      ghost var item, first := EncodeItem(kind, value), start + numBytes;
      ghost var front: seq<byte> := [];
      var from, left := source, source.Length();
      assert front + item == item;
      while true
        invariant Valid() && lastType == old(lastType) && start + numBytes == first + |front| && left == |value|
        invariant from.FitsIn(mem.Length) && from.Value(mem[..]) == value && Stands(mem[..], first, front)
        invariant item == front + EncodeItem(kind, value)
        invariant SameBefore(mem[..], old(mem[..]), first)
        decreases left
      {
        EncodedLength(kind, value);
        hide *;
        var n := if left > MAX_FRAGMENT then MAX_FRAGMENT else left;
        if maxBytes - numBytes < 2 || maxBytes - numBytes - 2 < left {
          return false;
        }
        ghost var fragment := Fragment(kind, value[..n]);
        from := WriteNext(kind, from, n, value, first, front, old(mem[..]));
        left := left - n;
        if left == 0 {
          front := item;
          break;
        }
        Regroup(front, fragment, EncodeItem(kind, value[n..]));
        front, value := front + fragment, value[n..];
      }
      ok := true;
    }

    /** Appends the value, wherever it is, as an item of type `kind`. */
    method Append(kind: byte, source: Source) returns (ok: bool)
      requires Valid() && source.FitsIn(mem.Length)
      requires numBytes > 0 ==> kind != lastType
      modifies this, mem
      ensures Valid()
      ensures var item := EncodeItem(kind, source.Value(old(mem[..])));
              && (ok <==> |item| <= maxBytes - old(numBytes))
              && (ok ==> Written() == old(Written()) + item && lastType == kind)
      ensures SameBefore(mem[..], old(mem[..]), start + old(numBytes))
    {
      ghost var item := EncodeItem(kind, source.Value(mem[..]));
      ok := WriteFragments(kind, source);
      hide EncodeItem, Stands, SameBefore;
      if ok {
        lastType := kind;
        WrittenMore(mem[..], old(mem[..]), start, start + old(numBytes), item);
      }
    }
  }
}
