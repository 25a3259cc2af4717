/**
 * The stored broadcast configurations: a two-byte accessory ID and three-byte entries in ascending order
 * of the characteristic's instance ID. They represent a finite map from instance IDs to intervals.
 */
module BroadcastTable {
  import opened Bytes
  import opened RawBuffer

  const AID: u16 := 1

  /** Size of the buffer that configurations are worked on in. */
  const CAPACITY: nat := 2 + 3 * 42 + 1

  const MAX_ENTRIES: nat := 41

  datatype Entry = Entry(cid: u16, interval: byte)

  predicate IsValidInterval(interval: byte) {
    1 <= interval <= 3
  }

  // Tables as sequences of entries.

  predicate Ascending(table: seq<Entry>) {
    forall i, j :: 0 <= i < j < |table| ==> table[i].cid < table[j].cid
  }

  function AsMap(table: seq<Entry>): map<u16, byte> {
    if table == [] then map[]
    else
      var last := table[|table| - 1];
      AsMap(table[..|table| - 1])[last.cid := last.interval]
  }

  /** `k` is where an entry for `cid` is, or where it would have to be inserted. */
  predicate IsPosition(table: seq<Entry>, cid: u16, k: nat) {
    && k <= |table|
    && (forall i :: 0 <= i < k ==> table[i].cid < cid)
    && (k < |table| ==> cid <= table[k].cid)
  }

  lemma {:induction false} EntryIsMapped(table: seq<Entry>, k: nat)
    requires Ascending(table) && k < |table|
    ensures table[k].cid in AsMap(table) && AsMap(table)[table[k].cid] == table[k].interval
  {
    if k < |table| - 1 {
      EntryIsMapped(table[..|table| - 1], k);
    }
  }

  lemma {:induction false} OthersAreNotMapped(table: seq<Entry>, cid: u16)
    requires forall i :: 0 <= i < |table| ==> table[i].cid != cid
    ensures cid !in AsMap(table)
  {
    if table != [] {
      OthersAreNotMapped(table[..|table| - 1], cid);
    }
  }

  /** The search for a position decides whether the map has the identifier. */
  lemma Lookup(table: seq<Entry>, cid: u16, k: nat)
    requires Ascending(table) && IsPosition(table, cid, k)
    ensures cid in AsMap(table) <==> k < |table| && table[k].cid == cid
    ensures cid in AsMap(table) ==> AsMap(table)[cid] == table[k].interval
  {
    if k < |table| && table[k].cid == cid {
      EntryIsMapped(table, k);
    } else {
      OthersAreNotMapped(table, cid);
    }
  }

  lemma {:induction false} Cardinality(table: seq<Entry>)
    requires Ascending(table)
    ensures |AsMap(table)| == |table|
  {
    if table != [] {
      var n := |table| - 1;
      Cardinality(table[..n]);
      OthersAreNotMapped(table[..n], table[n].cid);
    }
  }

  function Inserted(table: seq<Entry>, k: nat, e: Entry): seq<Entry>
    requires k <= |table|
  {
    table[..k] + [e] + table[k..]
  }

  function Deleted(table: seq<Entry>, k: nat): seq<Entry>
    requires k < |table|
  {
    table[..k] + table[k + 1..]
  }

  lemma InsertedAscends(table: seq<Entry>, k: nat, e: Entry)
    requires Ascending(table) && IsPosition(table, e.cid, k) && (k < |table| ==> table[k].cid != e.cid)
    ensures Ascending(Inserted(table, k, e))
  {
    var bigger := Inserted(table, k, e);
    assert forall i :: 0 <= i < |bigger| ==>
      bigger[i] == if i < k then table[i] else if i == k then e else table[i - 1];
  }

  lemma DeletedAscends(table: seq<Entry>, k: nat)
    requires Ascending(table) && k < |table|
    ensures Ascending(Deleted(table, k))
  {
    var smaller := Deleted(table, k);
    assert forall i :: 0 <= i < |smaller| ==> smaller[i] == if i < k then table[i] else table[i + 1];
  }

  lemma {:induction false} Insert(table: seq<Entry>, k: nat, e: Entry)
    requires Ascending(table) && IsPosition(table, e.cid, k) && (k < |table| ==> table[k].cid != e.cid)
    ensures AsMap(Inserted(table, k, e)) == AsMap(table)[e.cid := e.interval]
  {
    if k == |table| {
      assert Inserted(table, k, e) == table + [e];
      AppendIsMapped(table, e);
    } else {
      var front, last := table[..|table| - 1], table[|table| - 1];
      Insert(front, k, e);
      InsertBeforeLast(table, k, e);
    }
  }

  lemma InsertBeforeLast(table: seq<Entry>, k: nat, e: Entry)
    requires k < |table| && table[|table| - 1].cid != e.cid
    requires AsMap(Inserted(table[..|table| - 1], k, e)) == AsMap(table[..|table| - 1])[e.cid := e.interval]
    ensures AsMap(Inserted(table, k, e)) == AsMap(table)[e.cid := e.interval]
  {
    hide AsMap, Inserted;
    var front, last := table[..|table| - 1], table[|table| - 1];
    InsertedInFront(table, k, e);
    AppendIsMapped(Inserted(front, k, e), last);
    assert table == front + [last];
    AppendIsMapped(front, last);
  }

  lemma AppendIsMapped(table: seq<Entry>, e: Entry)
    ensures AsMap(table + [e]) == AsMap(table)[e.cid := e.interval]
  {
    assert (table + [e])[..|table|] == table;
  }

  lemma InsertedInFront(table: seq<Entry>, k: nat, e: Entry)
    requires k < |table|
    ensures Inserted(table, k, e) == Inserted(table[..|table| - 1], k, e) + [table[|table| - 1]]
  {
  }

  lemma DeletedInFront(table: seq<Entry>, k: nat)
    requires k < |table| - 1
    ensures Deleted(table, k) == Deleted(table[..|table| - 1], k) + [table[|table| - 1]]
  {
  }

  lemma {:induction false} Replace(table: seq<Entry>, k: nat, e: Entry)
    requires Ascending(table) && k < |table| && table[k].cid == e.cid
    ensures AsMap(table[k := e]) == AsMap(table)[e.cid := e.interval]
  {
    var n := |table| - 1;
    if k == n {
      assert table[k := e][..n] == table[..n];
    } else {
      Replace(table[..n], k, e);
      assert table[k := e][..n] == table[..n][k := e];
    }
  }

  lemma {:induction false} Delete(table: seq<Entry>, k: nat)
    requires Ascending(table) && k < |table|
    ensures AsMap(Deleted(table, k)) == AsMap(table) - {table[k].cid}
  {
    var front, last := table[..|table| - 1], table[|table| - 1];
    if k == |table| - 1 {
      assert Deleted(table, k) == front;
      OthersAreNotMapped(front, last.cid);
    } else {
      Delete(front, k);
      DeleteBeforeLast(table, k);
    }
  }

  lemma DeleteBeforeLast(table: seq<Entry>, k: nat)
    requires k < |table| - 1 && table[|table| - 1].cid != table[k].cid
    requires AsMap(Deleted(table[..|table| - 1], k)) == AsMap(table[..|table| - 1]) - {table[k].cid}
    ensures AsMap(Deleted(table, k)) == AsMap(table) - {table[k].cid}
  {
    hide AsMap, Deleted;
    var front, last := table[..|table| - 1], table[|table| - 1];
    DeletedInFront(table, k);
    AppendIsMapped(Deleted(front, k), last);
    assert table == front + [last];
    AppendIsMapped(front, last);
  }

  /** Tables in ascending order that represent the same map are equal. */
  lemma {:induction false} TablesAreCanonical(a: seq<Entry>, b: seq<Entry>)
    requires Ascending(a) && Ascending(b) && AsMap(a) == AsMap(b)
    ensures a == b
  {
    Cardinality(a);
    Cardinality(b);
    if a != [] {
      var n := |a| - 1;
      EntryIsMapped(a, n);
      EntryIsMapped(b, n);
      if a[n].cid < b[n].cid {
        OthersAreNotMapped(a, b[n].cid);
      } else if b[n].cid < a[n].cid {
        OthersAreNotMapped(b, a[n].cid);
      }
      Delete(a, n);
      Delete(b, n);
      assert Deleted(a, n) == a[..n] && Deleted(b, n) == b[..n];
      TablesAreCanonical(a[..n], b[..n]);
      assert a == a[..n] + [a[n]] && b == b[..n] + [b[n]];
    }
  }

  // Tables as bytes.

  function EntryAt(bytes: seq<byte>, k: nat): Entry
    requires 2 + 3 * k + 3 <= |bytes|
  {
    Entry(ReadLittleUInt16(bytes, 2 + 3 * k), bytes[2 + 3 * k + 2])
  }

  /** The first `n` entries. */
  function Entries(bytes: seq<byte>, n: nat): (table: seq<Entry>)
    requires 2 + 3 * n <= |bytes|
    ensures |table| == n
    ensures forall k {:trigger table[k]} :: 0 <= k < n ==> table[k] == EntryAt(bytes, k)
  {
    seq(n, k requires 0 <= k < n => EntryAt(bytes, k))
  }

  /** The bytes of an entry. */
  function EntryBytes(e: Entry): seq<byte> {
    LittleUInt16(e.cid) + [e.interval]
  }

  /** Moving the entries from `k` on up by one and writing `e` in the gap inserts it into the table. */
  lemma InsertInPlace(bytes: seq<byte>, n: nat, k: nat, e: Entry)
    requires k <= n && 2 + 3 * n + 3 <= |bytes|
    ensures var moved := Moved(bytes, 2 + 3 * k + 3, 2 + 3 * k, 3 * (n - k));
            Entries(Overwritten(moved, 2 + 3 * k, EntryBytes(e)), n + 1)
            == Inserted(Entries(bytes, n), k, e)
  {
    var now := Overwritten(Moved(bytes, 2 + 3 * k + 3, 2 + 3 * k, 3 * (n - k)), 2 + 3 * k, EntryBytes(e));
    var want := Inserted(Entries(bytes, n), k, e);
    forall i | 0 <= i < n + 1 ensures Entries(now, n + 1)[i] == want[i] {
      var at := 2 + 3 * i;
      if i == k {
        assert now[at] == EntryBytes(e)[0] && now[at + 1] == EntryBytes(e)[1] && now[at + 2] == EntryBytes(e)[2];
        ReadAfterWrite(e.cid, [], []);
      } else if i < k {
        assert now[at] == bytes[at] && now[at + 1] == bytes[at + 1] && now[at + 2] == bytes[at + 2];
      } else {
        assert now[at] == bytes[at - 3] && now[at + 1] == bytes[at - 2] && now[at + 2] == bytes[at - 1];
        assert want[i] == Entries(bytes, n)[i - 1];
      }
    }
  }

  /** Moving the entries behind `k` down by one removes entry `k`. */
  lemma DeleteInPlace(bytes: seq<byte>, n: nat, k: nat)
    requires k < n && 2 + 3 * n <= |bytes|
    ensures var moved := Moved(bytes, 2 + 3 * k, 2 + 3 * k + 3, 3 * (n - 1 - k));
            Entries(moved, n - 1) == Deleted(Entries(bytes, n), k)
  {
    var now := Moved(bytes, 2 + 3 * k, 2 + 3 * k + 3, 3 * (n - 1 - k));
    var want := Deleted(Entries(bytes, n), k);
    forall i | 0 <= i < n - 1 ensures Entries(now, n - 1)[i] == want[i] {
      var at := 2 + 3 * i;
      if i < k {
        assert now[at] == bytes[at] && now[at + 1] == bytes[at + 1] && now[at + 2] == bytes[at + 2];
      } else {
        assert now[at] == bytes[at + 3] && now[at + 1] == bytes[at + 4] && now[at + 2] == bytes[at + 5];
        assert want[i] == Entries(bytes, n)[i + 1];
      }
    }
  }

  lemma ReplaceInPlace(bytes: seq<byte>, n: nat, k: nat, interval: byte)
    requires k < n && 2 + 3 * n <= |bytes|
    ensures Entries(bytes[2 + 3 * k + 2 := interval], n)
            == Entries(bytes, n)[k := Entries(bytes, n)[k].(interval := interval)]
  {
    var now := bytes[2 + 3 * k + 2 := interval];
    forall i | 0 <= i < n
      ensures Entries(now, n)[i] == Entries(bytes, n)[k := Entries(bytes, n)[k].(interval := interval)][i]
    {
      assert now[2 + 3 * i] == bytes[2 + 3 * i] && now[2 + 3 * i + 1] == bytes[2 + 3 * i + 1];
    }
  }
}
