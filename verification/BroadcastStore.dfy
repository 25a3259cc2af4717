/** Broadcast configurations of characteristics, kept as one value in the key-value store. */
module BroadcastStore {
  import opened Bytes
  import opened RawBuffer
  import opened BroadcastTable

  class Store {
    /** The value for the accessory in the key-value store, if there is one. */
    var stored: Option<seq<byte>>

    /** A value that is not rejected as malformed. */
    static predicate WellFormed(value: seq<byte>) {
      2 <= |value| < CAPACITY && (|value| - 2) % 3 == 0
    }

    static function TableOf(value: seq<byte>): seq<Entry>
      requires WellFormed(value)
    {
      Entries(value, (|value| - 2) / 3)
    }

    /** Values that are not malformed belong to the accessory and are in order. */
    ghost predicate Valid()
      reads this
    {
      stored.Some? && WellFormed(stored.value) ==>
        ReadLittleUInt16(stored.value, 0) == AID && Ascending(TableOf(stored.value))
    }

    ghost predicate Malformed()
      reads this
    {
      stored.Some? && !WellFormed(stored.value)
    }

    /** The interval per characteristic for which broadcasts are enabled. */
    ghost function Contents(): map<u16, byte>
      requires Valid() && !Malformed()
      reads this
    {
      if stored.None? then map[] else AsMap(TableOf(stored.value))
    }

    constructor ()
      ensures Valid() && !Malformed() && Contents() == map[]
    {
      stored := None;
    }

    /** Fetches the stored value into `bytes`, or an empty table if there is none. */
    method GetBroadcastConfiguration(bytes: array<byte>) returns (r: Result<(bool, nat)>)
      requires Valid() && bytes.Length == CAPACITY
      modifies bytes
      ensures r.Err? <==> Malformed()
      ensures r.Err? ==> r.error == Unknown
      ensures r.Ok? ==>
                var (found, numBytes) := r.value;
                && found == stored.Some? && 2 <= numBytes < CAPACITY && (numBytes - 2) % 3 == 0
                && bytes[..numBytes] == if found then stored.value else LittleUInt16(AID)
    {
      if stored.None? {
        StoreBytes(bytes, 0, LittleUInt16(AID));
        return Ok((false, 2));
      }
      var numBytes := |stored.value|;
      if numBytes < 2 || numBytes >= bytes.Length || (numBytes - 2) % 3 != 0 {
        return Err(Unknown);
      }
      StoreBytes(bytes, 0, stored.value);
      return Ok((true, numBytes));
    }

    /** Searches `bytes` up to the first entry that is not below `cid` and returns its offset. */
    method FindPosition(bytes: array<byte>, numBytes: nat, cid: u16) returns (i: nat, found: bool)
      requires 2 <= numBytes <= bytes.Length && (numBytes - 2) % 3 == 0
      requires Ascending(Entries(bytes[..], (numBytes - 2) / 3))
      ensures 2 <= i <= numBytes && (i - 2) % 3 == 0
      ensures var table := Entries(bytes[..], (numBytes - 2) / 3);
              && IsPosition(table, cid, (i - 2) / 3)
              && (found <==> i < numBytes && table[(i - 2) / 3].cid == cid)
    {
      ghost var table := Entries(bytes[..], (numBytes - 2) / 3);
      i, found := 2, false;
      while i < numBytes
        invariant 2 <= i <= numBytes && (i - 2) % 3 == 0
        invariant forall k :: 0 <= k < (i - 2) / 3 ==> table[k].cid < cid
      {
        assert table[(i - 2) / 3] == EntryAt(bytes[..], (i - 2) / 3);
        var itemCid := ReadLittleUInt16(bytes[..], i);
        if itemCid < cid {
          i := i + 3;
          continue;
        }
        found := itemCid == cid;
        break;
      }
    }

    /** Whether broadcasts are enabled for `cid`, and with which interval. */
    method GetConfiguration(cid: u16) returns (r: Result<Option<byte>>)
      requires Valid()
      ensures r.Err? <==> Malformed() || (cid in Contents() && Contents()[cid] !in {0x01, 0x02, 0x03})
      ensures r.Err? ==> r.error == Unknown
      ensures r.Ok? ==> r.value == if cid in Contents() then Some(Contents()[cid]) else None
    {
      var bytes := new byte[CAPACITY];
      var got := GetBroadcastConfiguration(bytes);
      if got.Err? {
        return Err(Unknown);
      }
      var (available, numBytes) := got.value;
      if !available {
        return Ok(None);
      }
      ghost var n := (numBytes - 2) / 3;
      EntriesOfPrefix(bytes[..], numBytes);
      var i, found := FindPosition(bytes, numBytes, cid);
      Lookup(Entries(bytes[..], n), cid, (i - 2) / 3);
      if !found {
        return Ok(None);
      }
      assert Entries(bytes[..], n)[(i - 2) / 3] == EntryAt(bytes[..], (i - 2) / 3);
      var broadcastConfiguration := bytes[i + 2];
      if !IsValidInterval(broadcastConfiguration) {
        return Err(Unknown);
      }
      return Ok(Some(broadcastConfiguration));
    }

    /** Enables broadcasts for `cid`; `saves` tells whether the key-value store accepts a new value. */
    method Enable(cid: u16, interval: byte, saves: bool) returns (ok: bool)
      requires Valid() && IsValidInterval(interval)
      modifies this
      ensures Valid() && Malformed() == old(Malformed())
      ensures old(Malformed()) ==> !ok && stored == old(stored)
      ensures !old(Malformed()) ==>
                var m := old(Contents());
                var refused := if cid in m then m[cid] !in {0x01, 0x02, 0x03} else |m| >= 41;
                var upToDate := cid in m && m[cid] == interval;
                && ok == (!refused && (upToDate || saves))
                && (ok ==> Contents() == m[cid := interval])
                && (!ok ==> stored == old(stored))
    {
      hide AsMap, Entries, Ascending;
      var bytes := new byte[CAPACITY];
      var got := GetBroadcastConfiguration(bytes);
      if got.Err? {
        return false;
      }
      var (available, numBytes) := got.value;
      ghost var table := Entries(bytes[..], (numBytes - 2) / 3);
      LoadedTable(bytes, available, numBytes);
      Cardinality(table);
      var i, found := FindPosition(bytes, numBytes, cid);
      Lookup(table, cid, (i - 2) / 3);
      if found {
        assert table[(i - 2) / 3] == EntryAt(bytes[..], (i - 2) / 3);
        if !IsValidInterval(bytes[i + 2]) {
          return false;
        }
        if bytes[i + 2] == interval {
          assert Contents() == Contents()[cid := interval];
          return true;
        }
        UpdateEntry(bytes, numBytes, i, cid, interval);
        ok := Save(bytes, numBytes, saves);
        return;
      }
      // Add configuration.
      if numBytes >= bytes.Length - 1 - 3 {
        return false;
      }
      AddEntry(bytes, numBytes, i, cid, interval, (numBytes - 2) / 3, (i - 2) / 3);
      ok := Save(bytes, numBytes + 3, saves);
    }

    /** What was fetched is in order and represents the contents. */
    lemma LoadedTable(bytes: array<byte>, available: bool, numBytes: nat)
      requires Valid() && !Malformed() && bytes.Length == CAPACITY
      requires available == stored.Some? && 2 <= numBytes < CAPACITY && (numBytes - 2) % 3 == 0
      requires bytes[..numBytes] == if available then stored.value else LittleUInt16(AID)
      ensures bytes[..2] == LittleUInt16(AID)
      ensures Ascending(Entries(bytes[..], (numBytes - 2) / 3))
      ensures AsMap(Entries(bytes[..], (numBytes - 2) / 3)) == Contents()
    {
      EntriesOfPrefix(bytes[..], numBytes);
      assert bytes[..][..numBytes] == bytes[..numBytes];
      assert bytes[..2] == bytes[..numBytes][..2];
      if available {
        WriteAfterRead(stored.value, 0);
      }
    }

    /** Overwrites the interval of the entry at offset `i`. */
    static method UpdateEntry(bytes: array<byte>, numBytes: nat, i: nat, cid: u16, interval: byte)
      requires 2 <= i < numBytes <= bytes.Length && (numBytes - 2) % 3 == 0 && (i - 2) % 3 == 0
      requires var table := Entries(bytes[..], (numBytes - 2) / 3);
               Ascending(table) && table[(i - 2) / 3].cid == cid
      modifies bytes
      ensures bytes[..2] == old(bytes[..2])
      ensures var was, now := Entries(old(bytes[..]), (numBytes - 2) / 3), Entries(bytes[..], (numBytes - 2) / 3);
              Ascending(now) && AsMap(now) == AsMap(was)[cid := interval]
    {
      ghost var n, k, was := (numBytes - 2) / 3, (i - 2) / 3, bytes[..];
      bytes[i + 2] := interval;
      assert bytes[..] == was[2 + 3 * k + 2 := interval];
      ReplaceInPlace(was, n, k, interval);
      Replace(Entries(was, n), k, Entry(cid, interval));
    }

    /** Makes room at offset `i` and writes a new entry there. */
    static method AddEntry(bytes: array<byte>, numBytes: nat, i: nat, cid: u16, interval: byte,
        ghost n: nat, ghost k: nat)
      requires i == 2 + 3 * k && numBytes == 2 + 3 * n && k <= n && numBytes + 3 <= bytes.Length
      requires var table := Entries(bytes[..], n);
               Ascending(table) && IsPosition(table, cid, k) && (k < n ==> table[k].cid != cid)
      modifies bytes
      ensures bytes[..2] == old(bytes[..2])
      ensures Ascending(Entries(bytes[..], n + 1))
      ensures AsMap(Entries(bytes[..], n + 1)) == AsMap(Entries(old(bytes[..]), n))[cid := interval]
    {
      hide AsMap, Ascending, IsPosition, Inserted, Entries, Moved, Overwritten;
      ghost var was := bytes[..];
      CopyBytes(bytes, i + 3, i, numBytes - i);
      StoreBytes(bytes, i, EntryBytes(Entry(cid, interval)));
      InsertInPlace(was, n, k, Entry(cid, interval));
      Insert(Entries(was, n), k, Entry(cid, interval));
      InsertedAscends(Entries(was, n), k, Entry(cid, interval));
      assert bytes[..][0] == was[0] && bytes[..][1] == was[1];
    }

    /** Closes the gap that removing the entry at offset `i` leaves. */
    static method RemoveEntry(bytes: array<byte>, numBytes: nat, i: nat, ghost n: nat, ghost k: nat)
      requires i == 2 + 3 * k && numBytes == 2 + 3 * n && k < n && numBytes <= bytes.Length
      requires Ascending(Entries(bytes[..], n))
      modifies bytes
      ensures bytes[..2] == old(bytes[..2])
      ensures Ascending(Entries(bytes[..], n - 1))
      ensures var was := Entries(old(bytes[..]), n); AsMap(Entries(bytes[..], n - 1)) == AsMap(was) - {was[k].cid}
    {
      hide AsMap, Ascending, Deleted, Entries, Moved;
      ghost var was := bytes[..];
      CopyBytes(bytes, i, i + 3, numBytes - 3 - i);
      DeleteInPlace(was, n, k);
      Delete(Entries(was, n), k);
      DeletedAscends(Entries(was, n), k);
      assert bytes[..][0] == was[0] && bytes[..][1] == was[1];
    }

    /** Disables broadcasts for `cid`. */
    method Disable(cid: u16, saves: bool) returns (ok: bool)
      requires Valid()
      modifies this
      ensures Valid() && Malformed() == old(Malformed())
      ensures old(Malformed()) ==> !ok && stored == old(stored)
      ensures !old(Malformed()) ==>
                var m := old(Contents());
                && ok == (cid !in m || (IsValidInterval(m[cid]) && saves))
                && (ok ==> Contents() == m - {cid})
                && (!ok ==> stored == old(stored))
    {
      hide AsMap, Entries, Ascending;
      var bytes := new byte[CAPACITY];
      var got := GetBroadcastConfiguration(bytes);
      if got.Err? {
        return false;
      }
      var (available, numBytes) := got.value;
      LoadedTable(bytes, available, numBytes);
      if !available {
        EmptyContents();
        return true;
      }
      ghost var table := Entries(bytes[..], (numBytes - 2) / 3);
      var i, found := FindPosition(bytes, numBytes, cid);
      Lookup(table, cid, (i - 2) / 3);
      if !found {
        assert Contents() == Contents() - {cid};
        return true;
      }
      assert table[(i - 2) / 3] == EntryAt(bytes[..], (i - 2) / 3);
      if !IsValidInterval(bytes[i + 2]) {
        return false;
      }
      RemoveEntry(bytes, numBytes, i, (numBytes - 2) / 3, (i - 2) / 3);
      numBytes := numBytes - 3;
      if numBytes == 2 {
        ok := Remove(bytes, saves);
      } else {
        ok := Save(bytes, numBytes, saves);
      }
    }

    lemma EmptyContents()
      requires Valid() && stored.None?
      ensures Contents() == map[]
    {
    }

    /** Removes the value from the key-value store after its last entry is gone. */
    method Remove(ghost bytes: array<byte>, saves: bool) returns (ok: bool)
      requires bytes.Length == CAPACITY
      modifies this
      ensures ok == saves
      ensures !ok ==> stored == old(stored)
      ensures ok ==> Valid() && !Malformed() && Contents() == AsMap(Entries(bytes[..], 0))
    {
      if saves {
        stored := None;
      }
      ok := saves;
    }

    method Save(bytes: array<byte>, numBytes: nat, saves: bool) returns (ok: bool)
      requires 2 <= numBytes < CAPACITY == bytes.Length && (numBytes - 2) % 3 == 0
      requires bytes[..2] == LittleUInt16(AID) && Ascending(Entries(bytes[..], (numBytes - 2) / 3))
      modifies this
      ensures ok == saves
      ensures !ok ==> stored == old(stored)
      ensures ok ==> Valid() && !Malformed() && Contents() == AsMap(Entries(bytes[..], (numBytes - 2) / 3))
    {
      if saves {
        stored := Some(bytes[..numBytes]);
        EntriesOfPrefix(bytes[..], numBytes);
        assert bytes[..][..numBytes] == bytes[..numBytes];
        assert bytes[0] == bytes[..2][0] && bytes[1] == bytes[..2][1];
      }
      ok := saves;
    }
  }

  lemma EntriesOfPrefix(bytes: seq<byte>, numBytes: nat)
    requires 2 <= numBytes <= |bytes| && (numBytes - 2) % 3 == 0
    ensures Entries(bytes, (numBytes - 2) / 3) == Entries(bytes[..numBytes], (numBytes - 2) / 3)
  {
    var n := (numBytes - 2) / 3;
    forall k | 0 <= k < n ensures Entries(bytes, n)[k] == Entries(bytes[..numBytes], n)[k] {
      assert EntryAt(bytes, k) == EntryAt(bytes[..numBytes], k);
    }
  }
}
