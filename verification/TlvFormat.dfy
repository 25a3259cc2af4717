/** The fragmented type-length-value format of request and response bodies: a parser and a printer on byte strings. */
module TlvFormat {
  import opened Bytes

  const MAX_FRAGMENT: nat := 255

  datatype Item = Item(kind: byte, value: seq<byte>)

  /** A value put together from its fragments, and the number of bytes the fragments took. */
  datatype Merged = Merged(value: seq<byte>, used: nat)

  /** The item at the front of `s`. Only the last fragment of a value may be shorter than 255 bytes. */
  function Next(s: seq<byte>): (r: Option<Merged>)
    requires s != []
    ensures r.Some? ==> |r.value.value| + 2 <= r.value.used <= |s|
  {
    if |s| < 2 || |s| < Header(s) then None
    else
      var body, rest := s[2..Header(s)], s[Header(s)..];
      Join(s[0], body, rest, if rest == [] then None else Next(rest))
  }

  /** A fragment with what follows it, given the value that `rest` starts with. */
  function Join(kind: byte, body: seq<byte>, rest: seq<byte>, more: Option<Merged>): Option<Merged> {
    if rest == [] || rest[0] != kind then Some(Merged(body, 2 + |body|))
    else if |rest| < 2 || |body| != MAX_FRAGMENT || rest[1] == 0 || more.None? then None
    else Some(Merged(body + more.value.value, 2 + |body| + more.value.used))
  }

  /** The length that a fragment's header announces, the header included. */
  function Header(s: seq<byte>): (n: nat)
    requires |s| >= 2
    ensures n >= 2
  {
    var length: int := s[1];
    2 + length
  }

  /** All items of `s`, or nothing if any of them is malformed. */
  function Parse(s: seq<byte>): Option<seq<Item>> {
    if s == [] then Some([])
    else
      match Next(s)
      case None => None
      case Some(merged) => Before([Item(s[0], merged.value)], Parse(s[merged.used..]))
  }

  function Before(items: seq<Item>, rest: Option<seq<Item>>): Option<seq<Item>> {
    match rest
    case None => None
    case Some(more) => Some(items + more)
  }

  function EncodeItem(kind: byte, value: seq<byte>): (s: seq<byte>)
    ensures |s| >= |value| + 2 && s[0] == kind
    ensures value != [] ==> s[1] != 0
  {
    if |value| <= MAX_FRAGMENT then Fragment(kind, value)
    else Fragment(kind, value[..MAX_FRAGMENT]) + EncodeItem(kind, value[MAX_FRAGMENT..])
  }

  function Encode(items: seq<Item>): (s: seq<byte>)
    ensures items != [] ==> s != [] && s[0] == items[0].kind
    ensures items == [] ==> s == []
  {
    if items == [] then [] else EncodeItem(items[0].kind, items[0].value) + Encode(items[1..])
  }

  /** Two neighbouring items of one type would be taken for one fragmented item. */
  predicate Separated(items: seq<Item>) {
    forall k :: 0 < k < |items| ==> items[k - 1].kind != items[k].kind
  }

  lemma NextIsJoin(s: seq<byte>, n: nat)
    requires |s| >= 2 && n == s[1]
    ensures Next(s) == if |s| < 2 + n then None
                       else Join(s[0], s[2..2 + n], s[2 + n..], if |s| == 2 + n then None else Next(s[2 + n..]))
  {
    assert Header(s) == 2 + n;
    hide Header, Join;
  }

  function Fragment(kind: byte, body: seq<byte>): (s: seq<byte>)
    requires |body| <= MAX_FRAGMENT
    ensures |s| == 2 + |body| && s[0] == kind && s[1] == |body| && s[2..] == body
  {
    [kind, |body|] + body
  }

  lemma FragmentCut(kind: byte, body: seq<byte>, rest: seq<byte>)
    requires |body| <= MAX_FRAGMENT
    ensures var s := Fragment(kind, body) + rest;
            && s[0] == kind && s[1] == |body| && Header(s) == 2 + |body|
            && s[2..Header(s)] == body && s[Header(s)..] == rest
  {
    var s := Fragment(kind, body) + rest;
    assert s[2..2 + |body|] == Fragment(kind, body)[2..];
  }

  /** What the parser does with a fragment that is followed by `rest`. */
  lemma NextOfFragment(kind: byte, body: seq<byte>, rest: seq<byte>)
    requires |body| <= MAX_FRAGMENT
    ensures Next(Fragment(kind, body) + rest) == Join(kind, body, rest, if rest == [] then None else Next(rest))
  {
    hide Fragment, Header, Join;
    FragmentCut(kind, body, rest);
  }

  lemma {:induction false} NextOfEncoded(kind: byte, value: seq<byte>, tail: seq<byte>)
    requires tail == [] || tail[0] != kind
    ensures Next(EncodeItem(kind, value) + tail) == Some(Merged(value, |EncodeItem(kind, value)|))
    decreases |value|
  {
    hide Next, Fragment;
    if |value| <= MAX_FRAGMENT {
      NextOfFragment(kind, value, tail);
    } else {
      NextOfLongValue(kind, value, tail);
    }
  }

  lemma {:induction false} NextOfLongValue(kind: byte, value: seq<byte>, tail: seq<byte>)
    requires |value| > MAX_FRAGMENT
    requires tail == [] || tail[0] != kind
    ensures Next(EncodeItem(kind, value) + tail) == Some(Merged(value, |EncodeItem(kind, value)|))
    decreases |value|, 0
  {
    hide Next, Fragment;
    var body, end := value[..MAX_FRAGMENT], value[MAX_FRAGMENT..];
    var more := EncodeItem(kind, end);
    assert EncodeItem(kind, value) == Fragment(kind, body) + more;
    hide EncodeItem;
    NextOfEncoded(kind, end, tail);
    NextOfFragment(kind, body, more + tail);
    assert (Fragment(kind, body) + more) + tail == Fragment(kind, body) + (more + tail);
    assert body + end == value;
  }

  lemma {:induction false} EncodedFromNext(s: seq<byte>)
    requires s != [] && Next(s).Some?
    ensures var m := Next(s).value;
            && s[..m.used] == EncodeItem(s[0], m.value)
            && (m.used == |s| || s[m.used] != s[0])
    ensures |s| >= 2 && s[1] != 0 ==> Next(s).value.value != []
    decreases |s|
  {
    var body, rest := s[2..Header(s)], s[Header(s)..];
    var m := Next(s).value;
    assert s[..Header(s)] == Fragment(s[0], body);
    if rest != [] && rest[0] == s[0] {
      EncodedFromNext(rest);
      hide Fragment, Next;
      var more := Next(rest).value;
      assert m.value[..MAX_FRAGMENT] == body && m.value[MAX_FRAGMENT..] == more.value;
      assert s[..m.used] == s[..Header(s)] + rest[..more.used];
    }
  }

  /** Parsing undoes printing, and nothing but a printed list of separated items is accepted. */
  lemma {:induction false} ParseIffEncoded(s: seq<byte>, items: seq<Item>)
    ensures Parse(s) == Some(items) <==> Separated(items) && s == Encode(items)
  {
    if Parse(s) == Some(items) {
      EncodedFromParse(s);
    }
    if Separated(items) && s == Encode(items) {
      ParseOfEncoded(items);
    }
  }

  lemma {:induction false} ParseOfEncoded(items: seq<Item>)
    requires Separated(items)
    ensures Parse(Encode(items)) == Some(items)
    decreases |items|
  {
    if items != [] {
      hide Next, EncodeItem;
      var kind, value, tail := items[0].kind, items[0].value, Encode(items[1..]);
      ParseOfEncoded(items[1..]);
      NextOfEncoded(kind, value, tail);
      var s := EncodeItem(kind, value) + tail;
      assert s[|EncodeItem(kind, value)|..] == tail;
      assert [Item(kind, value)] + items[1..] == items;
    }
  }

  lemma {:induction false} EncodedFromParse(s: seq<byte>)
    requires Parse(s).Some?
    ensures Separated(Parse(s).value) && s == Encode(Parse(s).value)
    decreases |s|
  {
    if s != [] {
      var m := Next(s).value;
      EncodedFromParse(s[m.used..]);
      EncodedFromNext(s);
      PrependEncoded(s, m.used, Item(s[0], m.value), Parse(s[m.used..]).value);
    }
  }

  /** A string that starts with a printed item and goes on with a printed list is a printed list. */
  lemma PrependEncoded(s: seq<byte>, used: nat, item: Item, more: seq<Item>)
    requires used <= |s| && s[..used] == EncodeItem(item.kind, item.value)
    requires s[used..] == Encode(more) && Separated(more)
    requires used == |s| || s[used] != item.kind
    ensures Separated([item] + more) && s == Encode([item] + more)
  {
    hide EncodeItem;
    var items := [item] + more;
    assert items[1..] == more && s == s[..used] + s[used..];
    assert Encode(items) == EncodeItem(item.kind, item.value) + Encode(more);
    hide Encode;
    forall k | 0 < k < |items| ensures items[k - 1].kind != items[k].kind {
      if k == 1 {
        assert s[used] == s[used..][0];
      } else {
        assert more[k - 2].kind != more[k - 1].kind;
      }
    }
  }

  /** Appending one printed item to a printed list appends that item to the parsed list. */
  lemma {:induction false} AppendedIsParsed(items: seq<Item>, item: Item)
    requires Separated(items + [item])
    ensures Parse(Encode(items) + EncodeItem(item.kind, item.value)) == Some(items + [item])
  {
    EncodeAppended(items, item);
    ParseOfEncoded(items + [item]);
  }

  lemma {:induction false} EncodeAppended(items: seq<Item>, item: Item)
    ensures Encode(items + [item]) == Encode(items) + EncodeItem(item.kind, item.value)
    decreases |items|
  {
    hide EncodeItem;
    if items == [] {
      assert [] + [item] == [item] && [item][1..] == [];
      assert Encode([item]) == EncodeItem(item.kind, item.value) + Encode([]);
    } else {
      EncodeAppended(items[1..], item);
      assert (items + [item])[1..] == items[1..] + [item];
    }
  }

  /** The value of the first item of type `kind`. */
  function Lookup(items: seq<Item>, kind: byte): (r: Option<seq<byte>>)
    ensures r.Some? <==> exists k :: 0 <= k < |items| && items[k].kind == kind
    ensures r.Some? ==> Item(kind, r.value) in items
  {
    if items == [] then None
    else if items[0].kind == kind then
      assert items[0] == Item(kind, items[0].value);
      Some(items[0].value)
    else
      assert forall k :: 0 < k < |items| ==> items[k] == items[1..][k - 1];
      Lookup(items[1..], kind)
  }

  /** Some requested type occurs more than once. */
  predicate Repeated(items: seq<Item>, kinds: seq<byte>) {
    exists i, j :: 0 <= i < j < |items| && items[i].kind == items[j].kind && items[j].kind in kinds
  }

  /** How many items have the type. */
  function Occurrences(items: seq<Item>, kind: byte): (n: nat)
    ensures n > 0 <==> exists k :: 0 <= k < |items| && items[k].kind == kind
  {
    if items == [] then 0
    else
      assert forall k :: 0 < k < |items| ==> items[k] == items[1..][k - 1];
      (if items[0].kind == kind then 1 else 0) + Occurrences(items[1..], kind)
  }

  lemma {:induction false} OccursTwiceIff(items: seq<Item>, kind: byte)
    ensures Occurrences(items, kind) >= 2 <==>
              exists i, j :: 0 <= i < j < |items| && items[i].kind == kind && items[j].kind == kind
  {
    if items != [] {
      var rest := items[1..];
      assert forall k :: 0 < k < |items| ==> items[k] == rest[k - 1];
      OccursTwiceIff(rest, kind);
      if i, j :| 0 <= i < j < |rest| && rest[i].kind == kind && rest[j].kind == kind {
        assert items[i + 1].kind == kind && items[j + 1].kind == kind;
      }
      if items[0].kind == kind && Occurrences(rest, kind) > 0 {
        var k :| 0 <= k < |rest| && rest[k].kind == kind;
        assert items[k + 1].kind == kind;
      }
      if i, j :| 0 <= i < j < |items| && items[i].kind == kind && items[j].kind == kind {
        assert rest[j - 1].kind == kind;
        assert i > 0 ==> rest[i - 1].kind == kind;
      }
    }
  }

  /** Repetition means that one of the requested types occurs at least twice; other types may. */
  lemma RepeatedIff(items: seq<Item>, kinds: seq<byte>)
    ensures Repeated(items, kinds) <==> exists k :: 0 <= k < |kinds| && Occurrences(items, kinds[k]) >= 2
  {
    if Repeated(items, kinds) {
      var i, j :| 0 <= i < j < |items| && items[i].kind == items[j].kind && items[j].kind in kinds;
      var k :| 0 <= k < |kinds| && kinds[k] == items[j].kind;
      OccursTwiceIff(items, kinds[k]);
    }
    if k :| 0 <= k < |kinds| && Occurrences(items, kinds[k]) >= 2 {
      OccursTwiceIff(items, kinds[k]);
      var i, j :| 0 <= i < j < |items| && items[i].kind == kinds[k] && items[j].kind == kinds[k];
    }
  }

  lemma {:induction false} LookupAppended(items: seq<Item>, item: Item, kind: byte)
    ensures Lookup(items + [item], kind)
         == if Lookup(items, kind).None? && item.kind == kind then Some(item.value) else Lookup(items, kind)
    decreases |items|
  {
    if items == [] {
      assert items + [item] == [item];
    } else {
      assert (items + [item])[1..] == items[1..] + [item];
      LookupAppended(items[1..], item, kind);
    }
  }
}
