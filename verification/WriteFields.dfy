/** The fields of a write request's body: how they are parsed and what a controller sends. */
module WriteFields {
  import opened Bytes
  import opened TlvFormat

  const VALUE: byte := 0x01
  const AUTHORIZATION_DATA: byte := 0x02
  const ORIGIN: byte := 0x03
  const TTL: byte := 0x08
  const RETURN_RESPONSE: byte := 0x09

  const KINDS: seq<byte> := [VALUE, AUTHORIZATION_DATA, ORIGIN, TTL, RETURN_RESPONSE]

  datatype Fields = Fields(
    value: seq<byte>, authData: Option<seq<byte>>, remote: bool, ttl: byte, returnResponse: bool)

  function Validate(value: Option<seq<byte>>, authData: Option<seq<byte>>, origin: Option<seq<byte>>,
      ttl: Option<seq<byte>>, returnResponse: Option<seq<byte>>, supportsAuthData: bool): Option<Fields>
  {
    if value.None? then None
    else if origin.Some? && (|origin.value| != 1 || origin.value[0] > 1) then None
    else if supportsAuthData && authData.Some? && origin.None? then None
    else if ttl.Some? && |ttl.value| != 1 then None
    else if returnResponse.Some? && (|returnResponse.value| != 1 || returnResponse.value[0] != 1) then None
    else Some(Fields(value.value,
                     if supportsAuthData then authData else None,
                     origin.Some? && origin.value[0] == 1,
                     if ttl.Some? then ttl.value[0] else 0,
                     returnResponse.Some?))
  }

  /** The fields of the request body `s`, or nothing if it is malformed. */
  function ParseFields(s: seq<byte>, supportsAuthData: bool): Option<Fields> {
    match Parse(s)
    case None => None
    case Some(items) =>
      if Repeated(items, KINDS) then None
      else Validate(Lookup(items, VALUE), Lookup(items, AUTHORIZATION_DATA), Lookup(items, ORIGIN),
                    Lookup(items, TTL), Lookup(items, RETURN_RESPONSE), supportsAuthData)
  }

  lemma FieldsOfItems(s: seq<byte>, supportsAuthData: bool)
    ensures ParseFields(s, supportsAuthData)
         == if Parse(s).None? || Repeated(Parse(s).value, KINDS) then None
            else var items := Parse(s).value;
                 Validate(Lookup(items, VALUE), Lookup(items, AUTHORIZATION_DATA), Lookup(items, ORIGIN),
                          Lookup(items, TTL), Lookup(items, RETURN_RESPONSE), supportsAuthData)
  {
  }

  lemma TextsOfFields(s: seq<byte>, supportsAuthData: bool)
    requires ParseFields(s, supportsAuthData).Some?
    ensures Parse(s).Some?
    ensures var f, items := ParseFields(s, supportsAuthData).value, Parse(s).value;
            && Lookup(items, VALUE) == Some(f.value)
            && f.authData == if supportsAuthData then Lookup(items, AUTHORIZATION_DATA) else None
  {
    hide Lookup, Parse, Repeated;
  }

  /**
   * A body is accepted exactly if it has a value, authorization data only with an origin, an origin that is local or
   * remote, a time to live of one byte and a response flag that is 1; unsupported authorization data is ignored.
   */
  lemma FieldsIff(s: seq<byte>, supportsAuthData: bool)
    ensures ParseFields(s, supportsAuthData).Some? <==>
              && Parse(s).Some? && !Repeated(Parse(s).value, [0x01, 0x02, 0x03, 0x08, 0x09])
              && var items := Parse(s).value;
                 && Lookup(items, 0x01).Some?
                 && Lookup(items, 0x03) in {None, Some([0]), Some([1])}
                 && (supportsAuthData && Lookup(items, 0x02).Some? ==> Lookup(items, 0x03).Some?)
                 && (Lookup(items, 0x08).Some? ==> |Lookup(items, 0x08).value| == 1)
                 && Lookup(items, 0x09) in {None, Some([1])}
    ensures ParseFields(s, supportsAuthData).Some? ==>
              var f, items := ParseFields(s, supportsAuthData).value, Parse(s).value;
              && Lookup(items, 0x01) == Some(f.value)
              && f.authData == (if supportsAuthData then Lookup(items, 0x02) else None)
              && (f.remote <==> Lookup(items, 0x03) == Some([1]))
              && f.ttl == (if Lookup(items, 0x08).Some? then Lookup(items, 0x08).value[0] else 0)
              && (f.returnResponse <==> Lookup(items, 0x09).Some?)
  {
    hide Lookup, Parse, Repeated;
    if Parse(s).Some? {
      assert KINDS == [0x01, 0x02, 0x03, 0x08, 0x09];
      var items := Parse(s).value;
      var origin, response := Lookup(items, 0x03), Lookup(items, 0x09);
      assert origin.Some? && |origin.value| == 1 ==> origin.value == [origin.value[0]];
      assert response.Some? && |response.value| == 1 ==> response.value == [response.value[0]];
    }
  }

  // What a controller sends.

  function Optionally(present: bool, kind: byte, value: seq<byte>): (items: seq<Item>)
    ensures items == if present then [Item(kind, value)] else []
  {
    if present then [Item(kind, value)] else []
  }

  function FieldItems(f: Fields): seq<Item> {
    [Item(VALUE, f.value)]
    + Optionally(f.authData.Some?, AUTHORIZATION_DATA, if f.authData.Some? then f.authData.value else [])
    + [Item(ORIGIN, [if f.remote then 1 else 0])]
    + Optionally(f.ttl != 0, TTL, [f.ttl])
    + Optionally(f.returnResponse, RETURN_RESPONSE, [1])
  }

  predicate Ascending(items: seq<Item>) {
    forall i, j :: 0 <= i < j < |items| ==> items[i].kind < items[j].kind
  }

  lemma AscendingDiffer(items: seq<Item>, kinds: seq<byte>)
    requires Ascending(items)
    ensures Separated(items) && !Repeated(items, kinds)
  {
  }

  lemma AppendAscending(items: seq<Item>, more: seq<Item>)
    requires Ascending(items) && |more| <= 1
    requires more != [] && items != [] ==> items[|items| - 1].kind < more[0].kind
    ensures Ascending(items + more)
  {
  }

  lemma {:induction false} LookupAcross(items: seq<Item>, more: seq<Item>, kind: byte)
    ensures Lookup(items + more, kind) == if Lookup(items, kind).Some? then Lookup(items, kind) else Lookup(more, kind)
    decreases |items|
  {
    if items == [] {
      assert items + more == more;
    } else {
      assert (items + more)[1..] == items[1..] + more;
      LookupAcross(items[1..], more, kind);
    }
  }

  lemma AscendingFields(f: Fields)
    ensures Ascending(FieldItems(f))
  {
    var authData := Optionally(f.authData.Some?, AUTHORIZATION_DATA, if f.authData.Some? then f.authData.value else []);
    var origin := [Item(ORIGIN, [if f.remote then 1 else 0])];
    var ttl := Optionally(f.ttl != 0, TTL, [f.ttl]);
    var value := [Item(VALUE, f.value)];
    AppendAscending(value, authData);
    AppendAscending(value + authData, origin);
    AppendAscending(value + authData + origin, ttl);
    AppendAscending(value + authData + origin + ttl, Optionally(f.returnResponse, RETURN_RESPONSE, [1]));
  }

  lemma LookupOptionally(present: bool, itemKind: byte, value: seq<byte>, kind: byte)
    ensures Lookup(Optionally(present, itemKind, value), kind)
         == if present && kind == itemKind then Some(value) else None
  {
  }

  lemma LookupFields(f: Fields, kind: byte)
    ensures Lookup(FieldItems(f), kind)
         == if kind == VALUE then Some(f.value)
            else if kind == AUTHORIZATION_DATA then f.authData
            else if kind == ORIGIN then Some([if f.remote then 1 else 0])
            else if kind == TTL && f.ttl != 0 then Some([f.ttl])
            else if kind == RETURN_RESPONSE && f.returnResponse then Some([1])
            else None
  {
    var value := [Item(VALUE, f.value)];
    var authData := Optionally(f.authData.Some?, AUTHORIZATION_DATA, if f.authData.Some? then f.authData.value else []);
    var origin := [Item(ORIGIN, [if f.remote then 1 else 0])];
    var ttl := Optionally(f.ttl != 0, TTL, [f.ttl]);
    LookupAcross(value + authData + origin + ttl, Optionally(f.returnResponse, RETURN_RESPONSE, [1]), kind);
    LookupAcross(value + authData + origin, ttl, kind);
    LookupAcross(value + authData, origin, kind);
    LookupAcross(value, authData, kind);
    LookupOptionally(f.returnResponse, RETURN_RESPONSE, [1], kind);
    LookupOptionally(f.ttl != 0, TTL, [f.ttl], kind);
    LookupOptionally(true, ORIGIN, origin[0].value, kind);
    LookupOptionally(f.authData.Some?, AUTHORIZATION_DATA, if f.authData.Some? then f.authData.value else [], kind);
    LookupOptionally(true, VALUE, f.value, kind);
    hide Lookup;
  }

  /** Validation accepts the items of any fields, if authorization data is allowed where it is present. */
  lemma ValidateFields(f: Fields, supportsAuthData: bool)
    requires f.authData.Some? ==> supportsAuthData
    ensures var items := FieldItems(f);
            Validate(Lookup(items, VALUE), Lookup(items, AUTHORIZATION_DATA), Lookup(items, ORIGIN),
                     Lookup(items, TTL), Lookup(items, RETURN_RESPONSE), supportsAuthData) == Some(f)
  {
    hide FieldItems, Lookup;
    LookupFields(f, VALUE);
    LookupFields(f, AUTHORIZATION_DATA);
    LookupFields(f, ORIGIN);
    LookupFields(f, TTL);
    LookupFields(f, RETURN_RESPONSE);
  }

  /** Every request body that carries the fields parses back to them. */
  lemma RequestRoundTrip(f: Fields, supportsAuthData: bool)
    requires f.authData.Some? ==> supportsAuthData
    ensures ParseFields(Encode(FieldItems(f)), supportsAuthData) == Some(f)
  {
    var items := FieldItems(f);
    AscendingFields(f);
    AscendingDiffer(items, KINDS);
    ParseOfEncoded(items);
    ValidateFields(f, supportsAuthData);
    hide Validate, FieldItems, Parse, Encode, Lookup, Repeated;
  }

  /** The free space that the fields need when they are moved behind the request. */
  function TotalSpace(f: Fields): nat {
    |f.value| + 1 + if f.authData.Some? then |f.authData.value| + 1 else 0
  }

  function Size(items: seq<Item>, kind: byte): nat {
    if Lookup(items, kind).Some? then |Lookup(items, kind).value| + 2 else 0
  }

  lemma {:induction false} SizesFit(items: seq<Item>, a: byte, b: byte)
    requires a != b
    ensures Size(items, a) + Size(items, b) <= |Encode(items)|
    decreases |items|
  {
    if items != [] {
      SizesFit(items[1..], a, b);
    }
  }

  /** A request that leaves at least half of its buffer free can always be relocated. */
  lemma HalfFreeSuffices(s: seq<byte>, supportsAuthData: bool)
    requires ParseFields(s, supportsAuthData).Some?
    ensures TotalSpace(ParseFields(s, supportsAuthData).value) < |s|
  {
    EncodedFromParse(s);
    SizesFit(Parse(s).value, VALUE, AUTHORIZATION_DATA);
  }

  /** A value, authorization data and the origin that goes with it, one byte each. */
  const SMALL := Fields([7], Some([9]), false, 0, false)

  const SMALL_BODY: seq<byte> := [VALUE, 1, 7, AUTHORIZATION_DATA, 1, 9, ORIGIN, 1, 0]

  lemma EncodeByte(kind: byte, value: byte)
    ensures EncodeItem(kind, [value]) == [kind, 1, value]
  {
  }

  lemma SmallBody()
    ensures ParseFields(SMALL_BODY, true) == Some(SMALL) && TotalSpace(SMALL) == 4
  {
    EncodedSmallBody();
    RequestRoundTrip(SMALL, true);
  }

  lemma EncodedSmallBody()
    ensures Encode(FieldItems(SMALL)) == SMALL_BODY
  {
    var value, auth, origin := Item(VALUE, [7]), Item(AUTHORIZATION_DATA, [9]), Item(ORIGIN, [0]);
    assert FieldItems(SMALL) == [value, auth, origin];
    hide EncodeItem;
    EncodeByte(VALUE, 7);
    EncodeByte(AUTHORIZATION_DATA, 9);
    EncodeByte(ORIGIN, 0);
    assert [value, auth, origin][1..] == [auth, origin] && [auth, origin][1..] == [origin] && [origin][1..] == [];
    assert Encode([origin]) == [ORIGIN, 1, 0] + Encode([]);
    assert Encode([auth, origin]) == [AUTHORIZATION_DATA, 1, 9] + Encode([origin]);
    assert Encode([value, auth, origin]) == [VALUE, 1, 7] + Encode([auth, origin]);
  }
}
