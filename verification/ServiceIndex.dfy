/** Numbering the services of one type across a primary accessory and its bridged accessories. */
module ServiceIndex {
  import opened Bytes

  /** Services and accessories are compared by identity; `kind` is the service's type. */
  datatype Service = Service(id: nat, kind: nat)

  datatype Accessory = Accessory(id: nat, services: Option<seq<Service>>)

  datatype Server = Server(primary: Accessory, bridged: Option<seq<Accessory>>)

  datatype Place = Place(service: Service, accessory: Accessory)

  function Places(a: Accessory): (r: seq<Place>)
    ensures a.services.Some? ==> |r| == |a.services.value|
  {
    if a.services.None? then []
    else
      var services := a.services.value;
      seq(|services|, i requires 0 <= i < |services| => Place(services[i], a))
  }

  function Bridged(s: Server): seq<Accessory> {
    if s.bridged.Some? then s.bridged.value else []
  }

  /** The services of the primary accessory and the first `n` bridged ones, in the order in which they are visited. */
  function Visited(s: Server, n: nat): seq<Place>
    requires n <= |Bridged(s)|
  {
    if n == 0 then Places(s.primary) else Visited(s, n - 1) + Places(Bridged(s)[n - 1])
  }

  function Database(s: Server): seq<Place> {
    Visited(s, |Bridged(s)|)
  }

  // The specification, on the list of all services.

  function Count(p: seq<Place>, kind: nat): (n: nat)
    ensures n <= |p|
  {
    if p == [] then 0 else Count(p[..|p| - 1], kind) + if p[|p| - 1].service.kind == kind then 1 else 0
  }

  /** How many services of its type come before the first occurrence of `place`. */
  function IndexOf(p: seq<Place>, place: Place): (r: Option<nat>)
    ensures r.Some? <==> place in p
  {
    if p == [] then None
    else
      var front := p[..|p| - 1];
      assert p == front + [p[|p| - 1]];
      if place in front then IndexOf(front, place)
      else if p[|p| - 1] == place then Some(Count(front, place.service.kind))
      else None
  }

  /** The service of type `kind` that has `n` services of that type before it. */
  function Nth(p: seq<Place>, kind: nat, n: nat): Option<Place> {
    if p == [] then None
    else
      var front, last := p[..|p| - 1], p[|p| - 1];
      if Nth(front, kind, n).Some? then Nth(front, kind, n)
      else if last.service.kind == kind && Count(front, kind) == n then Some(last)
      else None
  }

  /** An index resolves exactly if it is below the number of services of that type, and to one of them. */
  lemma {:induction false} ResolvesIff(p: seq<Place>, kind: nat, n: nat)
    ensures Nth(p, kind, n).Some? <==> n < Count(p, kind)
    ensures Nth(p, kind, n).Some? ==> Nth(p, kind, n).value in p && Nth(p, kind, n).value.service.kind == kind
  {
    if p != [] {
      ResolvesIff(p[..|p| - 1], kind, n);
    }
  }

  /** Looking up the index of a service finds that service, in that accessory. */
  lemma {:induction false} IndexResolves(p: seq<Place>, place: Place)
    requires place in p
    ensures Nth(p, place.service.kind, IndexOf(p, place).value) == Some(place)
    ensures IndexOf(p, place).value < Count(p, place.service.kind)
  {
    var front := p[..|p| - 1];
    assert p == front + [p[|p| - 1]];
    if place in front {
      IndexResolves(front, place);
    } else {
      ResolvesIff(front, place.service.kind, Count(front, place.service.kind));
    }
  }

  predicate Distinct(p: seq<Place>) {
    forall i, j :: 0 <= i < j < |p| ==> p[i] != p[j]
  }

  /** If no accessory lists a service twice, every index is the index of the service it resolves to. */
  lemma {:induction false} ResolvedHasIndex(p: seq<Place>, kind: nat, n: nat)
    requires Distinct(p) && n < Count(p, kind)
    ensures Nth(p, kind, n).Some? && IndexOf(p, Nth(p, kind, n).value) == Some(n)
  {
    var front, last := p[..|p| - 1], p[|p| - 1];
    ResolvesIff(front, kind, n);
    if n < Count(front, kind) {
      ResolvedHasIndex(front, kind, n);
    } else {
      assert last !in front;
    }
  }

  // Lists that go on.

  lemma {:induction false} CountAcross(a: seq<Place>, b: seq<Place>, kind: nat)
    ensures Count(a + b, kind) == Count(a, kind) + Count(b, kind)
    decreases |b|
  {
    if b == [] {
      assert a + b == a;
    } else {
      assert (a + b)[..|a + b| - 1] == a + b[..|b| - 1];
      CountAcross(a, b[..|b| - 1], kind);
    }
  }

  lemma {:induction false} IndexAcross(a: seq<Place>, b: seq<Place>, place: Place)
    ensures place in a ==> IndexOf(a + b, place) == IndexOf(a, place)
    ensures place !in a && place in b ==>
              IndexOf(a + b, place) == Some(Count(a, place.service.kind) + IndexOf(b, place).value)
    decreases |b|
  {
    if b == [] {
      assert a + b == a;
    } else {
      var front := b[..|b| - 1];
      assert b == front + [b[|b| - 1]];
      assert (a + b)[..|a + b| - 1] == a + front;
      IndexAcross(a, front, place);
      CountAcross(a, front, place.service.kind);
    }
  }

  lemma {:induction false} NthAcross(a: seq<Place>, b: seq<Place>, kind: nat, n: nat)
    requires Nth(a, kind, n).Some?
    ensures Nth(a + b, kind, n) == Nth(a, kind, n)
    decreases |b|
  {
    if b == [] {
      assert a + b == a;
    } else {
      assert (a + b)[..|a + b| - 1] == a + b[..|b| - 1];
      NthAcross(a, b[..|b| - 1], kind, n);
    }
  }

  /** The list after one more service of accessory `a` was visited. */
  lemma VisitService(seen: seq<Place>, a: Accessory, i: nat)
    requires a.services.Some? && i < |a.services.value|
    ensures seen + Places(a)[..i + 1] == (seen + Places(a)[..i]) + [Place(a.services.value[i], a)]
  {
  }

  lemma AppendPlace(p: seq<Place>, last: Place, kind: nat, n: nat)
    ensures Count(p + [last], kind) == Count(p, kind) + if last.service.kind == kind then 1 else 0
    ensures last !in p ==> IndexOf(p + [last], last) == Some(Count(p, last.service.kind))
    ensures Nth(p + [last], kind, n)
         == if Nth(p, kind, n).Some? then Nth(p, kind, n)
            else if last.service.kind == kind && Count(p, kind) == n then Some(last)
            else None
  {
    assert (p + [last])[..|p + [last]| - 1] == p;
  }

  lemma {:induction false} VisitedFirst(s: Server, m: nat, n: nat)
    requires m <= n <= |Bridged(s)|
    ensures Visited(s, m) <= Visited(s, n)
    decreases n
  {
    if m < n {
      VisitedFirst(s, m, n - 1);
    }
  }

  lemma VisitPrimary(s: Server, kind: nat)
    ensures [] + Places(s.primary) == Visited(s, 0) && Count([], kind) == 0
  {
  }

  lemma VisitNext(s: Server, j: nat)
    requires j < |Bridged(s)|
    ensures Visited(s, j + 1) == Visited(s, j) + Places(Bridged(s)[j])
  {
  }

  lemma VisitedInDatabase(s: Server, j: nat)
    requires j <= |Bridged(s)|
    ensures Visited(s, j) <= Database(s) && (j == |Bridged(s)| ==> Visited(s, j) == Database(s))
  {
    VisitedFirst(s, j, |Bridged(s)|);
  }

  lemma CountFirst(a: seq<Place>, b: seq<Place>, kind: nat)
    requires a <= b
    ensures Count(a, kind) <= Count(b, kind)
  {
    CountAcross(a, b[|a|..], kind);
    assert a + b[|a|..] == b;
  }

  lemma IndexFirst(a: seq<Place>, b: seq<Place>, place: Place)
    requires a <= b
    ensures place in a ==> IndexOf(b, place) == IndexOf(a, place)
    ensures place !in a && place in b ==> IndexOf(b, place).value >= Count(a, place.service.kind)
  {
    IndexAcross(a, b[|a|..], place);
    assert a + b[|a|..] == b;
  }

  lemma NthFirst(a: seq<Place>, b: seq<Place>, kind: nat, n: nat)
    requires a <= b && Nth(a, kind, n).Some?
    ensures Nth(b, kind, n) == Nth(a, kind, n)
  {
    NthAcross(a, b[|a|..], kind, n);
    assert a + b[|a|..] == b;
  }

  // The loops. A result of `None` stands for a failed assertion or a fatal error.

  /** Counts on over the services of one accessory. */
  method CountIn(a: Accessory, kind: nat, count: nat, ghost seen: seq<Place>) returns (r: Option<nat>)
    requires count == Count(seen, kind) <= UINT16_MAX
    ensures var n := Count(seen + Places(a), kind);
            r == if n <= UINT16_MAX then Some(n) else None
  {
    assert seen + [] == seen;
    if a.services.None? {
      return Some(count);
    }
    var n := count;
    for i := 0 to |a.services.value|
      invariant n == Count(seen + Places(a)[..i], kind) <= UINT16_MAX
    {
      VisitService(seen, a, i);
      AppendPlace(seen + Places(a)[..i], Place(a.services.value[i], a), kind, 0);
      if a.services.value[i].kind == kind {
        n := n + 1;
        if n > UINT16_MAX {
          CountFirst(seen + Places(a)[..i + 1], seen + Places(a), kind);
          return None;
        }
      }
    }
    assert Places(a)[..|a.services.value|] == Places(a);
    r := Some(n);
  }

  method GetNumServiceInstances(s: Server, kind: nat) returns (r: Option<nat>)
    ensures var n := Count(Database(s), kind);
            r == if n <= UINT16_MAX then Some(n) else None
  {
    VisitPrimary(s, kind);
    hide *;
    r := CountIn(s.primary, kind, 0, []);
    var j := 0;
    while r.Some? && j < |Bridged(s)|
      invariant j <= |Bridged(s)|
      invariant r == if Count(Visited(s, j), kind) <= UINT16_MAX then Some(Count(Visited(s, j), kind)) else None
    {
      VisitNext(s, j);
      r := CountIn(Bridged(s)[j], kind, r.value, Visited(s, j));
      j := j + 1;
    }
    VisitedInDatabase(s, j);
    CountFirst(Visited(s, j), Database(s), kind);
  }

  datatype Search = Found(index: nat) | Missing(count: nat) | Overflow

  /** What searching for `place` means once `seen` was searched. */
  ghost predicate Searched(r: Search, seen: seq<Place>, place: Place) {
    match r
    case Found(index) => IndexOf(seen, place) == Some(index) && index <= UINT16_MAX
    case Missing(count) => place !in seen && count == Count(seen, place.service.kind) <= UINT16_MAX
    case Overflow =>
      exists n: nat :: n <= |seen| && place !in seen[..n] && Count(seen[..n], place.service.kind) > UINT16_MAX
  }

  lemma SearchedFirst(r: Search, a: seq<Place>, b: seq<Place>, place: Place)
    requires Searched(r, a, place) && a <= b && !r.Missing?
    ensures Searched(r, b, place)
  {
    if r.Found? {
      IndexFirst(a, b, place);
    } else {
      var n: nat :| n <= |a| && place !in a[..n] && Count(a[..n], place.service.kind) > UINT16_MAX;
      assert b[..n] == a[..n];
    }
  }

  method SearchIn(a: Accessory, place: Place, count: nat, ghost seen: seq<Place>) returns (r: Search)
    requires place !in seen && count == Count(seen, place.service.kind) <= UINT16_MAX
    ensures Searched(r, seen + Places(a), place)
  {
    assert seen + [] == seen;
    if a.services.None? {
      return Missing(count);
    }
    var n := count;
    for i := 0 to |a.services.value|
      invariant place !in seen + Places(a)[..i]
      invariant n == Count(seen + Places(a)[..i], place.service.kind) <= UINT16_MAX
    {
      ghost var before, after := seen + Places(a)[..i], seen + Places(a)[..i + 1];
      var service := a.services.value[i];
      VisitService(seen, a, i);
      AppendPlace(before, Place(service, a), place.service.kind, 0);
      if service == place.service && a == place.accessory {
        SearchedFirst(Found(n), after, seen + Places(a), place);
        return Found(n);
      }
      if service.kind == place.service.kind {
        n := n + 1;
        if n > UINT16_MAX {
          assert after[..|after|] == after;
          SearchedFirst(Overflow, after, seen + Places(a), place);
          return Overflow;
        }
      }
    }
    assert Places(a)[..|a.services.value|] == Places(a);
    r := Missing(n);
  }

  method GetServiceTypeIndex(s: Server, service: Service, accessory: Accessory) returns (r: Option<nat>)
    ensures var index := IndexOf(Database(s), Place(service, accessory));
            r == if index.Some? && index.value <= UINT16_MAX then index else None
  {
    ghost var place := Place(service, accessory);
    assert [] + Places(s.primary) == Places(s.primary);
    var search := SearchIn(s.primary, Place(service, accessory), 0, []);
    assert Visited(s, 0) == Places(s.primary);
    hide Count, Visited, Database, IndexOf;
    var j := 0;
    while search.Missing? && j < |Bridged(s)|
      invariant j <= |Bridged(s)| && Searched(search, Visited(s, j), place)
    {
      VisitNext(s, j);
      search := SearchIn(Bridged(s)[j], Place(service, accessory), search.count, Visited(s, j));
      j := j + 1;
    }
    if search.Missing? {
      return None;
    }
    VisitedInDatabase(s, j);
    SearchedFirst(search, Visited(s, j), Database(s), place);
    if search.Overflow? {
      ghost var n: nat :| n <= |Database(s)| && place !in Database(s)[..n]
                          && Count(Database(s)[..n], place.service.kind) > UINT16_MAX;
      IndexFirst(Database(s)[..n], Database(s), place);
      return None;
    }
    r := Some(search.index);
  }

  /** The service that is `left` services of type `kind` further on, or how many are still left. */
  method ResolveIn(a: Accessory, kind: nat, left: nat, ghost n: nat, ghost seen: seq<Place>)
    returns (r: Option<Place>, still: nat)
    requires n == Count(seen, kind) + left && Nth(seen, kind, n).None?
    ensures r == Nth(seen + Places(a), kind, n)
    ensures r.None? ==> n == Count(seen + Places(a), kind) + still
  {
    still := left;
    assert seen + [] == seen;
    if a.services.None? {
      return None, still;
    }
    for i := 0 to |a.services.value|
      invariant n == Count(seen + Places(a)[..i], kind) + still
      invariant Nth(seen + Places(a)[..i], kind, n).None?
    {
      ghost var before, after := seen + Places(a)[..i], seen + Places(a)[..i + 1];
      var service := a.services.value[i];
      VisitService(seen, a, i);
      AppendPlace(before, Place(service, a), kind, n);
      if service.kind == kind {
        if still == 0 {
          NthFirst(after, seen + Places(a), kind, n);
          return Some(Place(service, a)), still;
        }
        still := still - 1;
      }
    }
    assert Places(a)[..|a.services.value|] == Places(a);
    r := None;
  }

  method GetServiceFromServiceTypeIndex(s: Server, kind: nat, index: u16) returns (r: Option<Place>)
    ensures r == Nth(Database(s), kind, index)
    ensures r.Some? <==> index < Count(Database(s), kind)
  {
    ResolvesIff(Database(s), kind, index);
    assert [] + Places(s.primary) == Places(s.primary);
    var left: nat;
    r, left := ResolveIn(s.primary, kind, index, index, []);
    assert Visited(s, 0) == Places(s.primary);
    hide Count, Visited, Database, Nth;
    var j := 0;
    while r.None? && j < |Bridged(s)|
      invariant j <= |Bridged(s)| && r == Nth(Visited(s, j), kind, index)
      invariant r.None? ==> index as int == Count(Visited(s, j), kind) + left
    {
      VisitNext(s, j);
      r, left := ResolveIn(Bridged(s)[j], kind, left, index, Visited(s, j));
      j := j + 1;
    }
    VisitedInDatabase(s, j);
    if r.Some? {
      NthFirst(Visited(s, j), Database(s), kind, index);
    }
  }
}
