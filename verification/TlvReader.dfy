/** Reading items from a buffer in place: fragments are merged and terminated inside the buffer they arrived in. */
module TlvReader {
  import opened Bytes
  import opened RawBuffer
  import opened TlvFormat

  /** `length` bytes of the buffer, followed by a terminating zero byte. */
  datatype Region = Region(at: nat, length: nat) {
    ghost predicate Holds(mem: seq<byte>, value: seq<byte>) {
      && length == |value|
      && at + length < |mem|
      && mem[at + length] == 0
      && forall k {:trigger mem[k]} :: at <= k < at + length ==> mem[k] == value[k - at]
    }

    predicate Apart(other: Region) {
      at + length < other.at || other.at + other.length < at
    }
  }

  datatype Fetched = Done | Invalid | Found(kind: byte, region: Region)

  /** The first `used` bytes at `start` were turned into `value` and zero bytes; nothing else changed. */
  ghost predicate Gathered(now: seq<byte>, was: seq<byte>, start: nat, value: seq<byte>, used: nat) {
    && |now| == |was|
    && |value| <= used
    && start + used <= |was|
    && (forall k {:trigger now[k]} :: start <= k < start + |value| ==> now[k] == value[k - start])
    && (forall k {:trigger now[k]} :: start + |value| <= k < start + used ==> now[k] == 0)
    && (forall k {:trigger now[k]} :: 0 <= k < |was| && !(start <= k < start + used) ==> now[k] == was[k])
  }

  lemma Untouched(was: seq<byte>, start: nat)
    requires start <= |was|
    ensures Gathered(was, was, start, [], 0)
  {
  }

  ghost predicate Contains(s: seq<byte>, at: nat, body: seq<byte>) {
    at + |body| <= |s| && forall k {:trigger body[k]} :: 0 <= k < |body| ==> s[at + k] == body[k]
  }

  ghost predicate SameOutside(now: seq<byte>, was: seq<byte>, low: nat, high: nat) {
    |now| == |was| && forall k {:trigger now[k]} :: 0 <= k < |was| && !(low <= k < high) ==> now[k] == was[k]
  }

  lemma SameEverywhere(s: seq<byte>, low: nat, high: nat)
    ensures SameOutside(s, s, low, high)
  {
  }

  lemma SameOutsideBoth(a: seq<byte>, b: seq<byte>, c: seq<byte>, low: nat, middle: nat, high: nat)
    requires SameOutside(b, a, low, high) && SameOutside(c, b, middle, high) && low <= middle
    ensures SameOutside(c, a, low, high)
  {
  }

  /** Gathering stays inside the window `s` and has not reached the bytes from `used` on. */
  lemma NotReached(now: seq<byte>, was: seq<byte>, start: nat, s: seq<byte>, value: seq<byte>, used: nat)
    requires Gathered(now, was, start, value, used) && used <= |s| && Contains(was, start, s)
    ensures SameOutside(now, was, start, start + |s|)
    ensures |now| == |was| && start + |s| <= |was|
    ensures used < |s| ==> now[start + used] == s[used]
    ensures used + 1 < |s| ==> now[start + used + 1] == s[used + 1]
  {
  }

  lemma ContainsPart(was: seq<byte>, start: nat, s: seq<byte>, low: nat, high: nat)
    requires Contains(was, start, s) && low <= high <= |s|
    ensures Contains(was, start + low, s[low..high])
  {
  }

  lemma GatherFragment(now: seq<byte>, was: seq<byte>, start: nat, value: seq<byte>, used: nat,
      body: seq<byte>, to: nat, from: nat, gap: nat)
    requires Gathered(now, was, start, value, used)
    requires to == start + |value| && from == start + used + 2 && gap == used - |value| + 2
    requires Contains(was, from, body) && from + |body| <= |now|
    ensures Gathered(Zeroed(Moved(now, to, from, |body|), from + |body| - gap, gap),
                     was, start, value + body, used + 2 + |body|)
  {
  }

  /** The item at the front of `s`, when `value` was gathered from its first `used` bytes in `n` fragments. */
  ghost function Resume(s: seq<byte>, used: nat, value: seq<byte>, n: nat): Option<Merged>
    requires used <= |s|
  {
    var rest := s[used..];
    if rest == [] || rest[0] != s[0] then Some(Merged(value, used))
    else if |rest| < 2 || |value| != MAX_FRAGMENT * n || rest[1] == 0 || Next(rest).None? then None
    else Some(Merged(value + Next(rest).value.value, used + Next(rest).value.used))
  }

  lemma ResumeFirst(s: seq<byte>, n: nat)
    requires |s| >= 2 && n == s[1]
    ensures Next(s) == if 2 + n > |s| then None else Resume(s, 2 + n, s[2..2 + n], 1)
  {
    hide Next, Header;
    NextIsJoin(s, n);
  }

  lemma ResumeNext(s: seq<byte>, used: nat, value: seq<byte>, fragments: nat, n: nat)
    requires used + 2 <= |s| && s[used] == s[0] && n == s[used + 1]
    requires |value| == MAX_FRAGMENT * fragments && n != 0
    ensures Resume(s, used, value, fragments)
         == if used + 2 + n > |s| then None
            else Resume(s, used + 2 + n, value + s[used + 2..used + 2 + n], fragments + 1)
  {
    hide Next;
    var rest := s[used..];
    ResumeFirst(rest, n);
    if used + 2 + n <= |s| {
      TailOfTail(s, used, 2 + n);
      var body, after := rest[2..2 + n], s[used + 2 + n..];
      if after != [] && after[0] == s[0] && Next(after).Some? {
        var more := Next(after).value.value;
        assert value + (body + more) == (value + body) + more;
      }
    }
  }

  lemma NextTooShort(s: seq<byte>)
    requires s != []
    ensures |s| < 2 || Header(s) > |s| ==> Next(s).None?
    ensures |s| >= 2 ==> Header(s) == 2 + s[1] as int
  {
  }

  lemma ResumeBlocked(s: seq<byte>, used: nat, value: seq<byte>, n: nat)
    requires used < |s| && s[used] == s[0]
    ensures used + 2 > |s| || |value| != MAX_FRAGMENT * n || s[used + 1] == 0 ==> Resume(s, used, value, n).None?
  {
  }

  lemma ResumeEnds(s: seq<byte>, used: nat, value: seq<byte>, n: nat)
    requires used <= |s| && (used < |s| ==> s[used] != s[0])
    ensures Resume(s, used, value, n) == Some(Merged(value, used))
  {
  }

  lemma TailOfTail(s: seq<byte>, used: nat, h: nat)
    requires 2 <= h && used + h <= |s|
    ensures s[used..][h..] == s[used + h..] && s[used..][2..h] == s[used + 2..used + h]
  {
    assert forall k :: 0 <= k < h - 2 ==> s[used..][2..h][k] == s[used + 2..used + h][k];
  }

  /** Every requested item of `items`, and nothing else, was found between `low` and `high`. */
  ghost predicate Located(found: seq<Option<Region>>, kinds: seq<byte>, items: seq<Item>, mem: seq<byte>,
      low: nat, high: nat)
  {
    && |found| == |kinds|
    && (forall k {:trigger found[k]} :: 0 <= k < |found| ==> (found[k].Some? <==> Lookup(items, kinds[k]).Some?))
    && (forall k {:trigger found[k]} :: 0 <= k < |found| && found[k].Some? ==>
          && low <= found[k].value.at
          && found[k].value.at + found[k].value.length < high
          && found[k].value.Holds(mem, Lookup(items, kinds[k]).value))
  }

  predicate AllApart(found: seq<Option<Region>>) {
    forall i, j :: 0 <= i < j < |found| && found[i].Some? && found[j].Some? ==> found[i].value.Apart(found[j].value)
  }

  predicate Distinct(kinds: seq<byte>) {
    forall i, j :: 0 <= i < j < |kinds| ==> kinds[i] != kinds[j]
  }

  lemma NothingBefore(items: Option<seq<Item>>)
    ensures Before([], items) == items
  {
    assert items.Some? ==> [] + items.value == items.value;
  }

  lemma ParseStep(done: seq<Item>, s: seq<byte>)
    ensures Before(done, Parse(s))
         == if s == [] then Some(done)
            else if Next(s).None? then None
            else Before(done + [Item(s[0], Next(s).value.value)], Parse(s[Next(s).value.used..]))
  {
    if s == [] {
      assert done + [] == done;
    } else if Next(s).Some? {
      var item, rest := Item(s[0], Next(s).value.value), Parse(s[Next(s).value.used..]);
      if rest.Some? {
        assert done + ([item] + rest.value) == (done + [item]) + rest.value;
      }
    }
  }

  /** What follows a merged item is still as it arrived. */
  lemma WindowAfter(now: seq<byte>, was: seq<byte>, start: nat, s: seq<byte>, value: seq<byte>, used: nat)
    requires Gathered(now, was, start, value, used)
    requires used <= |s| && start + |s| <= |was| && s == was[start..start + |s|]
    ensures |now| == |was| && now[start + used..start + |s|] == s[used..]
  {
  }

  lemma LocatedElsewhere(found: seq<Option<Region>>, kinds: seq<byte>, items: seq<Item>, was: seq<byte>,
      now: seq<byte>, low: nat, start: nat, item: Item, used: nat)
    requires Located(found, kinds, items, was, low, start)
    requires Gathered(now, was, start, item.value, used) && |item.value| < used
    requires item.kind in kinds ==> Lookup(items, item.kind).Some?
    ensures Located(found, kinds, items + [item], now, low, start + used)
  {
    forall k {:trigger found[k]} | 0 <= k < |found|
      ensures Lookup(items + [item], kinds[k]) == Lookup(items, kinds[k])
    {
      LookupAppended(items, item, kinds[k]);
    }
    forall k {:trigger found[k]} | 0 <= k < |found| && found[k].Some?
      ensures found[k].value.Holds(now, Lookup(items, kinds[k]).value)
    {
    }
  }

  lemma LocatedHere(found: seq<Option<Region>>, kinds: seq<byte>, items: seq<Item>, was: seq<byte>,
      now: seq<byte>, low: nat, start: nat, item: Item, used: nat, i: nat)
    requires Located(found, kinds, items, was, low, start) && AllApart(found) && low <= start
    requires Gathered(now, was, start, item.value, used) && |item.value| < used
    requires i < |kinds| && item.kind == kinds[i] && found[i].None? && Distinct(kinds)
    ensures var more := found[i := Some(Region(start, |item.value|))];
            Located(more, kinds, items + [item], now, low, start + used) && AllApart(more)
  {
    var more := found[i := Some(Region(start, |item.value|))];
    forall k {:trigger more[k]} | 0 <= k < |more|
      ensures Lookup(items + [item], kinds[k]) == if k == i then Some(item.value) else Lookup(items, kinds[k])
    {
      assert k != i ==> kinds[k] != kinds[i];
      LookupAppended(items, item, kinds[k]);
      assert found[k].Some? <==> Lookup(items, kinds[k]).Some?;
    }
    forall k {:trigger more[k]} | 0 <= k < |more| && k != i && more[k].Some?
      ensures more[k].value.Holds(now, Lookup(items, kinds[k]).value)
      ensures low <= more[k].value.at && more[k].value.at + more[k].value.length < start
    {
      assert more[k] == found[k];
    }
  }

  lemma RepeatedAppended(items: seq<Item>, item: Item, kinds: seq<byte>)
    ensures Repeated(items + [item], kinds)
       <==> Repeated(items, kinds) || (item.kind in kinds && Lookup(items, item.kind).Some?)
  {
    var more := items + [item];
    if Repeated(items, kinds) {
      var i, j :| 0 <= i < j < |items| && items[i].kind == items[j].kind && items[j].kind in kinds;
      assert more[i].kind == more[j].kind;
    }
    if item.kind in kinds && Lookup(items, item.kind).Some? {
      var i :| 0 <= i < |items| && items[i].kind == item.kind;
      assert more[i].kind == more[|items|].kind;
    }
  }

  lemma RepeatedBefore(items: seq<Item>, rest: Option<seq<Item>>, kinds: seq<byte>)
    requires Repeated(items, kinds)
    ensures Before(items, rest).Some? ==> Repeated(Before(items, rest).value, kinds)
  {
    if rest.Some? {
      var i, j :| 0 <= i < j < |items| && items[i].kind == items[j].kind && items[j].kind in kinds;
      var more := items + rest.value;
      assert more[i].kind == more[j].kind;
    }
  }

  datatype Round = Finished | Malformed | Continued

  class Reader {
    const mem: array<byte>
    var start: nat
    var numBytes: nat
    var maxBytes: nat

    constructor (mem: array<byte>, start: nat, numBytes: nat, maxBytes: nat)
      requires numBytes <= maxBytes && start + maxBytes <= mem.Length
      ensures Valid() && this.mem == mem
      ensures this.start == start && this.numBytes == numBytes && this.maxBytes == maxBytes
    {
      this.mem, this.start, this.numBytes, this.maxBytes := mem, start, numBytes, maxBytes;
    }

    ghost predicate Valid()
      reads this
    {
      numBytes <= maxBytes && start + maxBytes <= mem.Length
    }

    ghost function Window(): (s: seq<byte>)
      requires Valid()
      reads this, mem
    {
      mem[start..start + numBytes]
    }

    /** Moves a fragment of `n` bytes to the end of what was gathered from `fragments` fragments. */
    method Merge(used: nat, n: nat, fragments: nat, ghost was: seq<byte>, ghost value: seq<byte>, ghost body: seq<byte>)
      requires Valid() && start + used + 2 + n <= mem.Length == |was| && n == |body|
      requires used == |value| + 2 * fragments && Gathered(mem[..], was, start, value, used)
      requires Contains(was, start + used + 2, body)
      modifies mem
      ensures Gathered(mem[..], was, start, value + body, used + 2 + n)
    {
      hide *;
      ghost var now := mem[..];
      var to, from, gap := start + used - 2 * fragments, start + used + 2, 2 * (fragments + 1);
      CopyBytes(mem, to, from, n);
      ZeroBytes(mem, from + n - gap, gap);
      GatherFragment(now, was, start, value, used, body, to, from, gap);
    }

    /** Merges the fragment at `used` into the value gathered so far, unless it is malformed. */
    method MergeNext(used: nat, length: nat, fragments: nat, ghost was: seq<byte>, ghost s: seq<byte>,
        ghost value: seq<byte>)
      returns (ok: bool, n: nat, ghost body: seq<byte>)
      requires Valid() && Contains(was, start, s) && |s| == numBytes && mem.Length == |was|
      requires used < |s| && s[used] == s[0] && length == |value| && used == length + 2 * fragments
      requires Gathered(mem[..], was, start, value, used)
      modifies mem
      ensures ok ==> used + 2 + n <= |s| && n == |body|
      ensures ok ==> Gathered(mem[..], was, start, value + body, used + 2 + n)
      ensures Resume(s, used, value, fragments)
           == if ok then Resume(s, used + 2 + n, value + body, fragments + 1) else None
      ensures !ok ==> mem[..] == old(mem[..])
    {
      NotReached(mem[..], was, start, s, value, used);
      ResumeBlocked(s, used, value, fragments);
      hide Gathered, Resume, Next, Contains, SameOutside;
      if numBytes - used < 2 || length != fragments * MAX_FRAGMENT {
        return false, 0, [];
      }
      n := mem[start + used + 1];
      if n == 0 {
        return false, 0, [];
      }
      ResumeNext(s, used, value, fragments, n);
      if numBytes - used - 2 < n {
        return false, 0, [];
      }
      body := s[used + 2..used + 2 + n];
      ContainsPart(was, start, s, used + 2, used + 2 + n);
      Merge(used, n, fragments, was, value, body);
      ok := true;
    }

    /** Merges the fragments that follow the first one, which announced `n` bytes. */
    method MergeFragments(kind: byte, n: nat, ghost was: seq<byte>, ghost s: seq<byte>)
      returns (ok: bool, length: nat, used: nat)
      requires Valid() && mem[..] == was && Contains(was, start, s) && |s| == numBytes
      requires |s| >= 2 && n == s[1] && 2 + n <= |s| && kind == s[0]
      modifies mem
      ensures ok <==> Next(s).Some?
      ensures ok ==> used == Next(s).value.used && length == |Next(s).value.value|
      ensures ok ==> Gathered(mem[..], was, start, Next(s).value.value, used)
      ensures SameOutside(mem[..], was, start, start + numBytes)
    {
      hide Gathered, Resume, Next, Contains, SameOutside;
      ghost var value := s[2..2 + n];
      ResumeFirst(s, n);
      Untouched(was, start);
      ContainsPart(was, start, s, 2, 2 + n);
      assert [] + value == value;
      Merge(0, n, 0, was, [], value);
      length, used := n, 2 + n;
      var fragments := 1;
      NotReached(mem[..], was, start, s, value, used);
      while used < numBytes && mem[start + used] == kind
        invariant used <= numBytes && length == |value| && used == length + 2 * fragments
        invariant Gathered(mem[..], was, start, value, used)
        invariant SameOutside(mem[..], was, start, start + numBytes)
        invariant used < numBytes ==> mem[start + used] == s[used]
        invariant Next(s) == Resume(s, used, value, fragments)
      {
        ghost var body;
        var m;
        ok, m, body := MergeNext(used, length, fragments, was, s, value);
        if !ok {
          return;
        }
        value := value + body;
        length, used, fragments := length + m, used + m + 2, fragments + 1;
        NotReached(mem[..], was, start, s, value, used);
      }
      ResumeEnds(s, used, value, fragments);
      ok := true;
    }

    /** Moves on behind the `used` bytes that an item took. */
    method Advance(used: nat)
      requires Valid() && used <= numBytes
      modifies `start, `numBytes, `maxBytes
      ensures Valid() && Window() == old(Window())[used..]
      ensures start == old(start) + used && numBytes == old(numBytes) - used && maxBytes == old(maxBytes) - used
    {
      start, numBytes, maxBytes := start + used, numBytes - used, maxBytes - used;
    }

    /** Merges the item at the front of the window, without moving on. */
    method MergeItem(ghost was: seq<byte>, ghost s: seq<byte>)
      returns (ok: bool, kind: byte, length: nat, used: nat)
      requires Valid() && numBytes > 0 && mem[..] == was && s == Window()
      modifies mem
      ensures ok <==> Next(s).Some?
      ensures ok ==> kind == s[0] && used == Next(s).value.used && length == |Next(s).value.value|
      ensures ok ==> Gathered(mem[..], was, start, Next(s).value.value, used) && Window()[used..] == s[used..]
      ensures SameOutside(mem[..], was, start, start + numBytes)
    {
      SameEverywhere(was, start, start + numBytes);
      NextTooShort(s);
      assert Contains(was, start, s) && |s| == numBytes;
      hide Next, Contains, Gathered, SameOutside, Header;
      ok, kind, length, used := false, mem[start], 0, 0;
      if numBytes < 2 {
        return;
      }
      var n: int := mem[start + 1];
      if numBytes - 2 < n {
        return;
      }
      ok, length, used := MergeFragments(kind, n, was, s);
      if ok {
        WindowAfter(mem[..], was, start, s, Next(s).value.value, used);
      }
    }

    method GetNext() returns (r: Fetched)
      requires Valid()
      modifies this, mem
      ensures Valid()
      ensures r.Done? <==> old(numBytes) == 0
      ensures r.Invalid? <==> old(numBytes) > 0 && Next(old(Window())).None?
      ensures !r.Found? ==> start == old(start) && numBytes == old(numBytes) && maxBytes == old(maxBytes)
      ensures r.Done? ==> mem[..] == old(mem[..])
      ensures r.Found? ==>
                var s := old(Window());
                var m := Next(s).value;
                && r == Found(s[0], Region(old(start), |m.value|))
                && start == old(start) + m.used
                && numBytes == old(numBytes) - m.used && maxBytes == old(maxBytes) - m.used
                && Gathered(mem[..], old(mem[..]), old(start), m.value, m.used)
                && Window() == s[m.used..]
      ensures SameOutside(mem[..], old(mem[..]), old(start), old(start + numBytes))
    {
      SameEverywhere(mem[..], start, start + numBytes);
      hide Next, Gathered, SameOutside;
      if numBytes == 0 {
        return Done;
      }
      ghost var was, s := mem[..], Window();
      var ok, kind, length, used := MergeItem(was, s);
      if !ok {
        return Invalid;
      }
      Advance(used);
      r := Found(kind, Region(start - used, length));
    }

    /** One round of fetching: the next item is recorded in `found`, where `done` was recorded before. */
    method FetchInto(found: seq<Option<Region>>, kinds: seq<byte>, ghost done: seq<Item>, ghost low: nat)
      returns (round: Round, more: seq<Option<Region>>, ghost item: Item)
      requires Valid() && Distinct(kinds) && low <= start
      requires Located(found, kinds, done, mem[..], low, start) && AllApart(found) && !Repeated(done, kinds)
      modifies this, mem
      ensures Valid() && old(start) <= start
      ensures start + numBytes == old(start + numBytes) && start + maxBytes == old(start + maxBytes)
      ensures SameOutside(mem[..], old(mem[..]), old(start), start + numBytes)
      ensures round.Finished? ==> old(numBytes) == 0 && mem[..] == old(mem[..]) && more == found && start == old(start)
      ensures round.Malformed? ==>
                var items := Before(done, Parse(old(Window())));
                items.None? || Repeated(items.value, kinds)
      ensures round.Continued? ==>
                && numBytes < old(numBytes)
                && Located(more, kinds, done + [item], mem[..], low, start)
                && AllApart(more)
                && !Repeated(done + [item], kinds)
                && Before(done, Parse(old(Window()))) == Before(done + [item], Parse(Window()))
    {
      ghost var was, s, at := mem[..], Window(), start;
      ParseStep(done, s);
      var next := GetNext();
      hide *;
      item := Item(0, []);
      if next.Invalid? {
        return Malformed, found, item;
      }
      if next.Done? {
        return Finished, found, item;
      }
      ghost var used := Next(s).value.used;
      item := Item(next.kind, Next(s).value.value);
      var ok;
      ok, more := Record(found, kinds, next.kind, next.region, done, item, was, mem[..], low, at, used);
      if ok {
        round := Continued;
      } else {
        RepeatedBefore(done + [item], Parse(s[used..]), kinds);
        round := Malformed;
      }
    }

    /** Fetches the items of the given types; items of other types are skipped. */
    method GetAll(kinds: seq<byte>) returns (r: Result<seq<Option<Region>>>)
      requires Valid() && Distinct(kinds)
      modifies this, mem
      ensures Valid()
      ensures var items := Parse(old(Window()));
              && (r.Err? <==> items.None? || Repeated(items.value, kinds))
              && (r.Ok? ==> Located(r.value, kinds, items.value, mem[..], old(start), start) && AllApart(r.value))
      ensures r.Err? ==> r.error == InvalidData
      ensures r.Ok? ==> start == old(start + numBytes) && numBytes == 0 && maxBytes == old(maxBytes - numBytes)
      ensures SameOutside(mem[..], old(mem[..]), old(start), old(start + numBytes))
    {
      var found: seq<Option<Region>> := seq(|kinds|, _ => None);
      ghost var s, low := Window(), start;
      ghost var done: seq<Item> := [];
      NothingBefore(Parse(s));
      while true
        invariant Valid() && low <= start
        invariant start + numBytes == old(start + numBytes) && start + maxBytes == old(start + maxBytes)
        invariant Parse(s) == Before(done, Parse(Window()))
        invariant Located(found, kinds, done, mem[..], low, start) && AllApart(found)
        invariant !Repeated(done, kinds)
        invariant SameOutside(mem[..], old(mem[..]), low, start + numBytes)
        decreases numBytes
      {
        ParseStep(done, Window());
        hide *;
        ghost var was, at := mem[..], start;
        var round;
        ghost var item;
        round, found, item := FetchInto(found, kinds, done, low);
        SameOutsideBoth(old(mem[..]), was, mem[..], low, at, start + numBytes);
        if round.Malformed? {
          return Err(InvalidData);
        }
        if round.Finished? {
          return Ok(found);
        }
        done := done + [item];
      }
    }

    /** Notes where an item was found, if its type is requested and was not found before. */
    static method Record(found: seq<Option<Region>>, kinds: seq<byte>, kind: byte, region: Region,
        ghost done: seq<Item>, ghost item: Item, ghost was: seq<byte>, ghost now: seq<byte>, ghost low: nat,
        ghost at: nat, ghost used: nat)
      returns (ok: bool, more: seq<Option<Region>>)
      requires Located(found, kinds, done, was, low, at) && AllApart(found) && Distinct(kinds) && low <= at
      requires Gathered(now, was, at, item.value, used) && |item.value| < used
      requires kind == item.kind && region == Region(at, |item.value|) && !Repeated(done, kinds)
      ensures ok <==> !Repeated(done + [item], kinds)
      ensures ok ==> Located(more, kinds, done + [item], now, low, at + used) && AllApart(more)
    {
      var i := IndexOf(kinds, kind);
      RepeatedAppended(done, item, kinds);
      hide AllApart, Gathered, Distinct, Repeated, Lookup;
      ok, more := true, found;
      if i == |kinds| {
        LocatedElsewhere(found, kinds, done, was, now, low, at, item, used);
      } else if found[i].Some? {
        ok := false;
      } else {
        LocatedHere(found, kinds, done, was, now, low, at, item, used, i);
        more := found[i := Some(region)];
      }
    }

    /** The position of `kind` in `kinds`, or the length if it is not there. */
    static method IndexOf(kinds: seq<byte>, kind: byte) returns (i: nat)
      ensures i <= |kinds|
      ensures if i < |kinds| then kinds[i] == kind else kind !in kinds
    {
      i := 0;
      while i < |kinds| && kinds[i] != kind
        invariant i <= |kinds| && kind !in kinds[..i]
      {
        i := i + 1;
      }
    }
  }
}
