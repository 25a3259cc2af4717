/** Parsing the body of a write request, and moving its value to where the most free space follows it. */
module WriteRequest {
  import opened Bytes
  import opened RawBuffer
  import opened TlvFormat
  import opened TlvReader
  import opened WriteFields

  // Where the value and the authorization data are moved.

  datatype Layout = Layout(valueAt: int, authAt: int, capacity: int)

  /** The new places in the `max` free bytes at `base`; the region that comes first stays first. */
  function Arrange(base: nat, max: nat, value: Region, auth: Option<Region>): Layout {
    if auth.None? then Layout(base, base, max)
    else
      var n := auth.value.length + 1;
      if auth.value.at < value.at then Layout(base + n, base, max - n)
      else Layout(base, base + max - n, max - n)
  }

  function SpaceFor(value: Region, auth: Option<Region>): nat {
    value.length + 1 + if auth.Some? then auth.value.length + 1 else 0
  }

  predicate Inside(at: int, length: nat, base: nat, max: nat) {
    base <= at && at + length < base + max
  }

  predicate StaysInside(l: Layout, base: nat, max: nat, value: Region, auth: Option<Region>) {
    && Inside(l.valueAt, value.length, base, max)
    && (auth.Some? ==> Inside(l.authAt, auth.value.length, base, max))
  }

  /** The first move, if there is authorization data. */
  function AuthMoved(mem: seq<byte>, authAt: int, auth: Option<Region>): (r: seq<byte>)
    requires auth.Some? ==>
               0 <= authAt && authAt + auth.value.length < |mem| && auth.value.at + auth.value.length < |mem|
    ensures |r| == |mem|
  {
    if auth.Some? then Moved(mem, authAt, auth.value.at, auth.value.length + 1) else mem
  }

  function Relocated(mem: seq<byte>, l: Layout, base: nat, max: nat, value: Region, auth: Option<Region>)
    : (r: seq<byte>)
    requires base + max <= |mem| && StaysInside(l, base, max, value, auth)
    requires value.at + value.length < |mem| && (auth.Some? ==> auth.value.at + auth.value.length < |mem|)
    ensures |r| == |mem|
  {
    Moved(AuthMoved(mem, l.authAt, auth), l.valueAt, value.at, value.length + 1)
  }

  /** Both texts are at their new places and terminated; the value may grow to `capacity` without reaching the other. */
  ghost predicate WellPlaced(mem: seq<byte>, l: Layout, base: nat, max: nat, value: seq<byte>,
      auth: Option<seq<byte>>)
  {
    && Inside(l.valueAt, |value|, base, max)
    && Region(l.valueAt, |value|).Holds(mem, value)
    && |value| < l.capacity && l.valueAt + l.capacity <= base + max
    && (auth.Some? ==>
          && Inside(l.authAt, |auth.value|, base, max)
          && Region(l.authAt, |auth.value|).Holds(mem, auth.value)
          && (l.authAt + |auth.value| < l.valueAt || l.valueAt + l.capacity <= l.authAt))
  }

  ghost predicate HoldsBoth(mem: seq<byte>, value: Region, auth: Option<Region>, v: seq<byte>, a: Option<seq<byte>>) {
    && value.Holds(mem, v) && value.length == |v| && value.at + |v| < |mem|
    && (auth.Some? <==> a.Some?)
    && (auth.Some? ==>
          && auth.value.Holds(mem, a.value) && auth.value.length == |a.value| && auth.value.at + |a.value| < |mem|
          && value.Apart(auth.value))
  }

  /** Both regions end before the free bytes begin, as they do behind a reader that has fetched every item. */
  predicate BeforeWindow(base: nat, value: Region, auth: Option<Region>) {
    value.at + value.length < base && (auth.Some? ==> auth.value.at + auth.value.length < base)
  }

  predicate InWindow(base: nat, max: nat, value: Region, auth: Option<Region>) {
    Inside(value.at, value.length, base, max) && (auth.Some? ==> Inside(auth.value.at, auth.value.length, base, max))
  }

  lemma OneMove(mem: seq<byte>, to: nat, region: Region, text: seq<byte>)
    requires region.Holds(mem, text) && to + |text| < |mem|
    ensures Region(to, |text|).Holds(Moved(mem, to, region.at, |text| + 1), text)
  {
  }

  lemma KeptByMove(mem: seq<byte>, to: nat, from: nat, n: nat, region: Region, text: seq<byte>)
    requires region.Holds(mem, text) && to + n < |mem| && from + n < |mem| && Region(to, n).Apart(region)
    ensures region.Holds(Moved(mem, to, from, n + 1), text)
  {
  }

  /** Moves of two regions lose nothing if the first neither hits the second region nor its new place. */
  lemma TwoMoves(mem: seq<byte>, toFirst: nat, first: Region, f: seq<byte>, toSecond: nat, second: Region, s: seq<byte>)
    requires first.Holds(mem, f) && second.Holds(mem, s)
    requires toFirst + |f| < |mem| && toSecond + |s| < |mem|
    requires first.at + |f| < |mem| && second.at + |s| < |mem|
    requires Region(toFirst, |f|).Apart(second) && Region(toFirst, |f|).Apart(Region(toSecond, |s|))
    ensures var r := Moved(Moved(mem, toFirst, first.at, |f| + 1), toSecond, second.at, |s| + 1);
            Region(toFirst, |f|).Holds(r, f) && Region(toSecond, |s|).Holds(r, s)
  {
    hide Region.Holds, Moved;
    OneMove(mem, toFirst, first, f);
    KeptByMove(mem, toFirst, first.at, |f|, second, s);
    var moved := Moved(mem, toFirst, first.at, |f| + 1);
    OneMove(moved, toSecond, second, s);
    KeptByMove(moved, toSecond, second.at, |s|, Region(toFirst, |f|), f);
  }

  /** Inside one window the regions always have room, and the two moves lose nothing. */
  lemma RelocatesInWindow(mem: seq<byte>, base: nat, max: nat, value: Region, auth: Option<Region>,
      v: seq<byte>, a: Option<seq<byte>>)
    requires base + max <= |mem| && HoldsBoth(mem, value, auth, v, a) && InWindow(base, max, value, auth)
    ensures var l := Arrange(base, max, value, auth);
            && StaysInside(l, base, max, value, auth)
            && WellPlaced(Relocated(mem, l, base, max, value, auth), l, base, max, v, a)
  {
    hide Region.Holds, Moved;
    var l := Arrange(base, max, value, auth);
    if auth.Some? {
      TwoMoves(mem, l.authAt, auth.value, a.value, l.valueAt, value, v);
    } else {
      OneMove(mem, l.valueAt, value, v);
    }
  }

  /** From before the window, the moves succeed exactly when both texts fit side by side. */
  lemma RelocatesIff(mem: seq<byte>, base: nat, max: nat, value: Region, auth: Option<Region>,
      v: seq<byte>, a: Option<seq<byte>>)
    requires base + max <= |mem| && HoldsBoth(mem, value, auth, v, a) && BeforeWindow(base, value, auth)
    ensures var l := Arrange(base, max, value, auth);
            && (SpaceFor(value, auth) <= max
               <==> StaysInside(l, base, max, value, auth)
                    && WellPlaced(Relocated(mem, l, base, max, value, auth), l, base, max, v, a))
  {
    hide Region.Holds, Moved;
    var l := Arrange(base, max, value, auth);
    if SpaceFor(value, auth) <= max {
      if auth.Some? {
        TwoMoves(mem, l.authAt, auth.value, a.value, l.valueAt, value, v);
      } else {
        OneMove(mem, l.valueAt, value, v);
      }
    }
  }

  datatype Outcome =
    | Refused
    | Escapes
    | Accepted(layout: Layout, numBytes: nat, numAuthDataBytes: Option<nat>, remote: bool, ttl: byte,
               returnResponse: bool)

  /** The outcome has the flags and the lengths of the fields. */
  predicate Describes(r: Outcome, f: Fields) {
    && r.Accepted?
    && r.numBytes == |f.value|
    && r.numAuthDataBytes == (if f.authData.Some? then Some(|f.authData.value|) else None)
    && r.remote == f.remote && r.ttl == f.ttl && r.returnResponse == f.returnResponse
  }

  /** The outcome delivers the fields: it describes them, and both texts are at the places it names. */
  ghost predicate Conveys(r: Outcome, mem: seq<byte>, base: nat, max: nat, f: Fields) {
    && Describes(r, f)
    && WellPlaced(mem, r.layout, base, max, f.value, f.authData)
  }

  lemma ConveysIff(r: Outcome, mem: seq<byte>, base: nat, max: nat, f: Fields)
    requires r.Accepted? && r.numBytes == |f.value|
    requires r.numAuthDataBytes == if f.authData.Some? then Some(|f.authData.value|) else None
    requires r.remote == f.remote && r.ttl == f.ttl && r.returnResponse == f.returnResponse
    ensures Describes(r, f)
    ensures Conveys(r, mem, base, max, f) <==> WellPlaced(mem, r.layout, base, max, f.value, f.authData)
  {
  }

  /** The room that the texts of an outcome take up, terminators included. */
  function SpaceOf(r: Outcome): (space: nat)
    requires r.Accepted?
  {
    r.numBytes + 1 + if r.numAuthDataBytes.Some? then r.numAuthDataBytes.value + 1 else 0
  }

  predicate Readable(r: Outcome, mem: seq<byte>) {
    && r.Accepted? && 0 <= r.layout.valueAt && r.layout.valueAt + r.numBytes <= |mem|
    && (r.numAuthDataBytes.Some? ==> 0 <= r.layout.authAt && r.layout.authAt + r.numAuthDataBytes.value <= |mem|)
  }

  /** The fields as the caller finds them: the texts at the places that the outcome names, and the flags. */
  function Delivered(r: Outcome, mem: seq<byte>): Fields
    requires Readable(r, mem)
  {
    Fields(mem[r.layout.valueAt..r.layout.valueAt + r.numBytes],
           if r.numAuthDataBytes.None? then None
           else Some(mem[r.layout.authAt..r.layout.authAt + r.numAuthDataBytes.value]),
           r.remote, r.ttl, r.returnResponse)
  }

  lemma ConveysFields(r: Outcome, mem: seq<byte>, base: nat, max: nat, f: Fields)
    requires Conveys(r, mem, base, max, f) && base + max <= |mem|
    ensures Readable(r, mem) && Delivered(r, mem) == f
  {
    assert Delivered(r, mem).value == f.value;
    assert f.authData.Some? ==> Delivered(r, mem).authData.value == f.authData.value;
  }

  lemma DescribedSpace(r: Outcome, f: Fields)
    requires Describes(r, f)
    ensures r.Accepted? && SpaceOf(r) == TotalSpace(f)
  {
  }

  lemma NotConveyed(mem: seq<byte>, base: nat, max: nat, f: Fields)
    ensures !Conveys(Escapes, mem, base, max, f) && !Escapes.Accepted?
  {
  }

  /** Moves authorization data and value, unless a move would leave the window. */
  method Relocate(mem: array<byte>, base: nat, max: nat, value: Region, auth: Option<Region>,
      ghost v: seq<byte>, ghost a: Option<seq<byte>>)
    returns (ok: bool, l: Layout)
    requires base + max <= mem.Length && HoldsBoth(mem[..], value, auth, v, a) && BeforeWindow(base, value, auth)
    modifies mem
    ensures SpaceFor(value, auth) <= max <==> ok && WellPlaced(mem[..], l, base, max, v, a)
    ensures SameOutside(mem[..], old(mem[..]), base, base + max)
  {
    RelocatesIff(mem[..], base, max, value, auth, v, a);
    ghost var arranged := Arrange(base, max, value, auth);
    hide HoldsBoth, WellPlaced;
    if auth.Some? {
      var n := auth.value.length + 1;
      if auth.value.at < value.at {
        l := Layout(base + n, base, max - n);
      } else {
        l := Layout(base, base + max - n, max - n);
      }
    } else {
      l := Layout(base, base, max);
    }
    assert l == arranged;
    ok := StaysInside(l, base, max, value, auth);
    if ok {
      Move(mem, l, base, max, value, auth);
    }
  }

  method Move(mem: array<byte>, l: Layout, base: nat, max: nat, value: Region, auth: Option<Region>)
    requires base + max <= mem.Length && StaysInside(l, base, max, value, auth)
    requires value.at + value.length < mem.Length && (auth.Some? ==> auth.value.at + auth.value.length < mem.Length)
    modifies mem
    ensures mem[..] == Relocated(old(mem[..]), l, base, max, value, auth)
    ensures SameOutside(mem[..], old(mem[..]), base, base + max)
  {
    ghost var was := mem[..];
    MoveBounds(was, l, base, max, value, auth);
    RelocatedOutside(was, l, base, max, value, auth);
    hide *;
    MoveAuth(mem, l.authAt, auth);
    CopyBytes(mem, l.valueAt, value.at, value.length + 1);
  }

  method MoveAuth(mem: array<byte>, authAt: int, auth: Option<Region>)
    requires auth.Some? ==>
               0 <= authAt && authAt + auth.value.length < mem.Length && auth.value.at + auth.value.length < mem.Length
    modifies mem
    ensures mem[..] == AuthMoved(old(mem[..]), authAt, auth)
  {
    if auth.Some? {
      CopyBytes(mem, authAt, auth.value.at, auth.value.length + 1);
    }
  }

  lemma MoveBounds(mem: seq<byte>, l: Layout, base: nat, max: nat, value: Region, auth: Option<Region>)
    requires base + max <= |mem| && StaysInside(l, base, max, value, auth)
    requires value.at + value.length < |mem| && (auth.Some? ==> auth.value.at + auth.value.length < |mem|)
    ensures 0 <= l.valueAt && l.valueAt + value.length + 1 <= |mem|
    ensures auth.Some? ==> 0 <= l.authAt && l.authAt + auth.value.length < |mem|
    ensures Relocated(mem, l, base, max, value, auth)
         == Moved(AuthMoved(mem, l.authAt, auth), l.valueAt, value.at, value.length + 1)
  {
  }

  lemma RelocatedOutside(mem: seq<byte>, l: Layout, base: nat, max: nat, value: Region, auth: Option<Region>)
    requires base + max <= |mem| && StaysInside(l, base, max, value, auth)
    requires value.at + value.length < |mem| && (auth.Some? ==> auth.value.at + auth.value.length < |mem|)
    ensures SameOutside(Relocated(mem, l, base, max, value, auth), mem, base, base + max)
  {
  }

  lemma SameOutsideMore(a: seq<byte>, b: seq<byte>, low: nat, high: nat, higher: nat)
    requires SameOutside(b, a, low, high) && high <= higher
    ensures SameOutside(b, a, low, higher)
  {
  }

  lemma FoundText(found: seq<Option<Region>>, items: seq<Item>, mem: seq<byte>, low: nat, high: nat, i: nat)
    requires Located(found, KINDS, items, mem, low, high) && i < |KINDS|
    ensures found[i].Some? <==> Lookup(items, KINDS[i]).Some?
    ensures found[i].Some? ==>
              var text := Lookup(items, KINDS[i]).value;
              && found[i].value.Holds(mem, text) && found[i].value.length == |text|
              && found[i].value.at + |text| < |mem| && found[i].value.at + |text| < high
  {
  }

  /** The reader's regions hold the texts of the accepted fields. */
  lemma BothHeld(found: seq<Option<Region>>, s: seq<byte>, mem: seq<byte>, low: nat, high: nat, supportsAuthData: bool)
    requires ParseFields(s, supportsAuthData).Some?
    requires Located(found, KINDS, Parse(s).value, mem, low, high) && AllApart(found)
    ensures found[0].Some?
    ensures var f := ParseFields(s, supportsAuthData).value;
            var auth := if supportsAuthData then found[1] else None;
            && HoldsBoth(mem, found[0].value, auth, f.value, f.authData)
            && BeforeWindow(high, found[0].value, auth)
            && SpaceFor(found[0].value, auth) == TotalSpace(f)
            && found[0].value.length == |f.value|
            && (auth.Some? <==> f.authData.Some?) && (auth.Some? ==> auth.value.length == |f.authData.value|)
  {
    TextsOfFields(s, supportsAuthData);
    hide ParseFields;
    FoundText(found, Parse(s).value, mem, low, high, 0);
    FoundText(found, Parse(s).value, mem, low, high, 1);
    hide Located, Lookup, Parse, Region.Holds;
    assert found[0].Some? && found[1].Some? ==> found[0].value.Apart(found[1].value);
  }

  /** The single byte of an optional item, once its length and range were checked. */
  lemma ByteFound(found: seq<Option<Region>>, items: seq<Item>, mem: seq<byte>, low: nat, high: nat, i: nat)
    requires Located(found, KINDS, items, mem, low, high) && i < |KINDS|
    ensures found[i].Some? <==> Lookup(items, KINDS[i]).Some?
    ensures found[i].Some? ==> found[i].value.length == |Lookup(items, KINDS[i]).value|
    ensures found[i].Some? && found[i].value.length == 1 ==>
              found[i].value.at < |mem| && mem[found[i].value.at] == Lookup(items, KINDS[i]).value[0]
  {
  }

  /** Checks the optional items other than the value and the authorization data. */
  method CheckOptions(mem: array<byte>, found: seq<Option<Region>>, supportsAuthData: bool,
      ghost items: seq<Item>, ghost low: nat, ghost high: nat)
    returns (ok: bool, remote: bool, ttl: byte, returnResponse: bool)
    requires Located(found, KINDS, items, mem[..], low, high)
    ensures var f := Validate(Lookup(items, VALUE), Lookup(items, AUTHORIZATION_DATA), Lookup(items, ORIGIN),
                              Lookup(items, TTL), Lookup(items, RETURN_RESPONSE), supportsAuthData);
            && (ok <==> f.Some?)
            && (ok ==> f.value.remote == remote && f.value.ttl == ttl && f.value.returnResponse == returnResponse)
            && (ok ==> found[0].Some?)
  {
    ByteFound(found, items, mem[..], low, high, 0);
    ByteFound(found, items, mem[..], low, high, 1);
    ByteFound(found, items, mem[..], low, high, 2);
    ByteFound(found, items, mem[..], low, high, 3);
    ByteFound(found, items, mem[..], low, high, 4);
    hide Located, Lookup;
    var origin, timeToLive, response := found[2], found[3], found[4];
    ok, remote, ttl, returnResponse := false, false, 0, false;
    if found[0].None? {
      return;
    }
    if origin.Some? {
      if origin.value.length != 1 {
        return;
      }
      if mem[origin.value.at] > 1 {
        return;
      }
      remote := mem[origin.value.at] == 1;
    }
    if supportsAuthData && found[1].Some? && origin.None? {
      return;
    }
    if timeToLive.Some? {
      if timeToLive.value.length != 1 {
        return;
      }
      ttl := mem[timeToLive.value.at];
    }
    if response.Some? {
      if response.value.length != 1 {
        return;
      }
      if mem[response.value.at] != 1 {
        return;
      }
      returnResponse := true;
    }
    ok := true;
  }

  /** Moves the texts of an accepted request and reports where they are. */
  method PlaceFields(mem: array<byte>, base: nat, max: nat, found: seq<Option<Region>>, supportsAuthData: bool,
      remote: bool, ttl: byte, returnResponse: bool, ghost s: seq<byte>, ghost low: nat, ghost f: Fields)
    returns (r: Outcome)
    requires base + max <= mem.Length && ParseFields(s, supportsAuthData) == Some(f)
    requires Located(found, KINDS, Parse(s).value, mem[..], low, base) && AllApart(found)
    requires remote == f.remote && ttl == f.ttl && returnResponse == f.returnResponse
    modifies mem
    ensures !r.Refused? && (r.Accepted? ==> Describes(r, f))
    ensures TotalSpace(f) <= max <==> Conveys(r, mem[..], base, max, f)
    ensures SameOutside(mem[..], old(mem[..]), base, base + max)
  {
    BothHeld(found, s, mem[..], low, base, supportsAuthData);
    hide *;
    var value, auth := found[0].value, if supportsAuthData then found[1] else None;
    var moved, l := Relocate(mem, base, max, value, auth, f.value, f.authData);
    if moved {
      r := Accepted(l, value.length, if auth.Some? then Some(auth.value.length) else None, remote, ttl, returnResponse);
      ConveysIff(r, mem[..], base, max, f);
    } else {
      r := Escapes;
      NotConveyed(mem[..], base, max, f);
    }
  }

  /** Fetches the items of a request and checks them. */
  method FetchFields(reader: Reader, supportsAuthData: bool)
    returns (ok: bool, found: seq<Option<Region>>, remote: bool, ttl: byte, returnResponse: bool)
    requires reader.Valid()
    modifies reader, reader.mem
    ensures reader.Valid()
    ensures var s := old(reader.Window());
            var f := ParseFields(s, supportsAuthData);
            && (ok <==> f.Some?)
            && (ok ==>
                  && Located(found, KINDS, Parse(s).value, reader.mem[..], old(reader.start), reader.start)
                  && AllApart(found)
                  && f.value.remote == remote && f.value.ttl == ttl && f.value.returnResponse == returnResponse)
    ensures ok ==> reader.start == old(reader.start + reader.numBytes)
                   && reader.maxBytes == old(reader.maxBytes - reader.numBytes)
    ensures SameOutside(reader.mem[..], old(reader.mem[..]), old(reader.start), old(reader.start + reader.numBytes))
  {
    ghost var s, low := reader.Window(), reader.start;
    FieldsOfItems(s, supportsAuthData);
    assert Distinct(KINDS);
    hide *;
    ok, found, remote, ttl, returnResponse := false, [], false, 0, false;
    var got := reader.GetAll(KINDS);
    if got.Ok? {
      found := got.value;
      ok, remote, ttl, returnResponse :=
        CheckOptions(reader.mem, found, supportsAuthData, Parse(s).value, low, reader.start);
    }
  }

  /**
   * Parses a request body and moves its texts into the free part of the buffer. The fields are delivered exactly
   * when the body is well-formed and the free part has room for both texts.
   */
  method ParseRequest(reader: Reader, supportsAuthData: bool) returns (r: Outcome)
    requires reader.Valid()
    modifies reader, reader.mem
    ensures reader.Valid()
    ensures var f := ParseFields(old(reader.Window()), supportsAuthData);
            && (r.Refused? <==> f.None?)
            && (r.Accepted? ==> Describes(r, f.value))
            && (f.Some? ==>
                 var base, max := old(reader.start + reader.numBytes), old(reader.maxBytes - reader.numBytes);
                 TotalSpace(f.value) <= max <==> Conveys(r, reader.mem[..], base, max, f.value))
    ensures SameOutside(reader.mem[..], old(reader.mem[..]), old(reader.start), old(reader.start + reader.maxBytes))
  {
    assert reader.numBytes <= reader.maxBytes && reader.start + reader.maxBytes <= reader.mem.Length;
    hide *;
    ghost var before, s, low := reader.mem[..], reader.Window(), reader.start;
    var ok, found, remote, ttl, returnResponse := FetchFields(reader, supportsAuthData);
    ghost var was, base, max := reader.mem[..], reader.start, reader.maxBytes;
    SameOutsideMore(before, was, low, old(reader.start + reader.numBytes), old(reader.start + reader.maxBytes));
    if !ok {
      return Refused;
    }
    r := PlaceFields(reader.mem, reader.start, reader.maxBytes, found, supportsAuthData, remote, ttl, returnResponse,
                     s, low, ParseFields(s, supportsAuthData).value);
    SameOutsideBoth(before, was, reader.mem[..], low, base, base + max);
  }

  /** The small request's buffer with two bytes to spare, after the reader has merged and terminated the items. */
  const CRAMPED: seq<byte> := [7, 0, 0, 9, 0, 0, 0, 0, 0, 0, 0]

  /** Both texts of the small request are moved to the same bytes, where the authorization data reads as the value. */
  lemma CrampedWindow()
    ensures ParseFields(SMALL_BODY, true) == Some(SMALL) && |SMALL_BODY| == 9 && TotalSpace(SMALL) > 2
    ensures var value, auth := Region(0, 1), Some(Region(3, 1));
            var l := Arrange(9, 2, value, auth);
            && HoldsBoth(CRAMPED, value, auth, SMALL.value, SMALL.authData) && BeforeWindow(9, value, auth)
            && l.authAt == 9 && StaysInside(l, 9, 2, value, auth)
            && Relocated(CRAMPED, l, 9, 2, value, auth)[9] == 7 != SMALL.authData.value[0]
  {
    SmallBody();
    hide ParseFields, Moved;
    assert Moved(CRAMPED, 9, 3, 2)[0] == 7;
  }
}
