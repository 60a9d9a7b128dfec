/**
 * The memtable (go-kv/server/engine/memtable.go): the in-memory map that
 * takes every write, and its flush to an open segment file.
 */
module MemTables {
  import opened KeyOrder
  import opened Segments

  /**
   * An open segment file, as os.Create returns it. The device behind it
   * accepts records until the file holds `room` lines; a write beyond
   * that fails, and Sync succeeds exactly when `syncOk`.
   */
  class SegmentFile {
    var lines: seq<Line>
    const room: nat
    const syncOk: bool

    constructor (room: nat, syncOk: bool)
      ensures lines == [] && this.room == room && this.syncOk == syncOk
    {
      lines := [];
      this.room := room;
      this.syncOk := syncOk;
    }

    /** Appends one line, unless the device is full. */
    method Write(line: Line) returns (ok: bool)
      modifies this
      ensures ok <==> |old(lines)| < room
      ensures lines == if ok then old(lines) + [line] else old(lines)
    {
      ok := |lines| < room;
      if ok {
        lines := lines + [line];
      }
    }

    /** file.Sync() */
    method Sync() returns (ok: bool)
      ensures ok == syncOk
    {
      ok := syncOk;
    }
  }

  /** `count` more records fit in a file that holds `held` lines and has room for `room`. */
  predicate Fits(held: nat, count: nat, room: nat) {
    count == 0 || held + count <= room
  }

  /** How many more lines a file holding `held` lines accepts before a write fails. */
  function Writable(held: nat, room: nat): (n: nat) {
    if held < room then room - held else 0
  }

  /**
   * The write loop of persist: one record per key of `keys`, in order,
   * each with its value in `m`; stops at the first failed write.
   */
  method WriteRecords(file: SegmentFile, m: map<string, string>, keys: seq<string>) returns (ok: bool)
    requires forall k :: k in keys ==> k in m
    requires StrictlySorted(keys)
    modifies file
    ensures ok <==> Fits(|old(file.lines)|, |keys|, file.room)
    ensures |file.lines| >= |old(file.lines)| && file.lines[..|old(file.lines)|] == old(file.lines)
    ensures RecordsOf(file.lines[|old(file.lines)|..], m)
    ensures ok ==> file.lines[|old(file.lines)|..] == RecordLines(m, keys)
    ensures !ok ==> Writable(|old(file.lines)|, file.room) < |keys|
    ensures !ok ==> file.lines[|old(file.lines)|..] == RecordLines(m, keys[..Writable(|old(file.lines)|, file.room)])
  {
    ghost var before := file.lines;
    var i := 0;
    while i < |keys|
      invariant 0 <= i <= |keys|
      invariant file.lines == before + RecordLines(m, keys[..i])
      invariant i == 0 || |before| + i <= file.room
    {
      var k := keys[i];
      var written := file.Write(Encode(LogEntry(k, m[k])));
      if !written {
        RecordLinesAscending(m, keys[..i]);
        assert file.lines[|before|..] == RecordLines(m, keys[..i]);
        return false;
      }
      assert RecordLines(m, keys[..i + 1]) == RecordLines(m, keys[..i]) + [Encode(LogEntry(k, m[k]))];
      i := i + 1;
    }
    assert keys[..i] == keys;
    assert file.lines[|before|..] == RecordLines(m, keys);
    RecordLinesAscending(m, keys);
    ok := true;
  }

  class MemTable {
    var store: map<string, string>

    /** newMemTable: an empty table. */
    constructor ()
      ensures store == map[]
      ensures Size() == 0 && forall k :: !Get(k).1
    {
      store := map[];
    }

    /** The number of distinct keys held. */
    function Size(): (n: nat)
      reads this
    {
      |store|
    }

    /** The value stored for `key` and whether there is one; "" (Go's zero value) on a miss. */
    function Get(key: string): (r: (string, bool))
      reads this
    {
      if key in store then (store[key], true) else ("", false)
    }

    /** Inserts or overwrites. */
    method Put(key: string, value: string)
      modifies this
      ensures store == old(store)[key := value]
      ensures Get(key) == (value, true)
      ensures forall k :: k != key ==> Get(k) == old(Get(k))
      ensures Size() == if key in old(store) then old(Size()) else old(Size()) + 1
    {
      store := store[key := value];
    }

    /** The `for k := range store` loop of persist: every key once, in the map's own order. */
    method CollectKeys() returns (keys: seq<string>)
      ensures multiset(keys) == multiset(store.Keys)
    {
      keys := [];
      var rest := store.Keys;
      while rest != {}
        invariant rest <= store.Keys
        invariant multiset(keys) == multiset(store.Keys - rest)
        decreases |rest|
      {
        var k :| k in rest;
        assert store.Keys - (rest - {k}) == (store.Keys - rest) + {k};
        keys := keys + [k];
        rest := rest - {k};
      }
      assert store.Keys - rest == store.Keys;
    }

    /** The keys of persist after `sort.Strings`: every key once, strictly ascending. */
    method SortedKeys() returns (keys: seq<string>)
      ensures StrictlySorted(keys)
      ensures forall k :: k in keys <==> k in store
      ensures |keys| == |store|
    {
      keys := CollectKeys();
      keys := SortKeys(keys);
      SortedDistinctIsStrict(keys, store.Keys);
      assert forall k :: k in keys <==> k in multiset(store.Keys);
      assert |keys| == |multiset(store.Keys)| == |store|;
    }

    /**
     * persist: writes one record per key, in ascending key order, to
     * `file`, syncs it, and only then empties the table. A failed write or
     * sync returns false at once and leaves the table as it was.
     */
    method Persist(file: SegmentFile) returns (ok: bool)
      modifies this, file
      ensures |file.lines| >= |old(file.lines)| && file.lines[..|old(file.lines)|] == old(file.lines)
      ensures ok <==> Fits(|old(file.lines)|, |old(store)|, file.room) && file.syncOk
      ensures ok ==> store == map[] && IsSegmentOf(file.lines[|old(file.lines)|..], old(store))
      ensures !ok ==> store == old(store) && IsSegmentPrefixOf(file.lines[|old(file.lines)|..], old(store))
      ensures !ok ==> |file.lines| - |old(file.lines)|
                      == if Fits(|old(file.lines)|, |old(store)|, file.room) then |old(store)|
                         else Writable(|old(file.lines)|, file.room)
      ensures !ok && Fits(|old(file.lines)|, |old(store)|, file.room) ==>
                IsSegmentOf(file.lines[|old(file.lines)|..], old(store))
    {
      var keys := SortedKeys();
      ghost var before := file.lines;
      ok := WriteRecords(file, store, keys);
      if !ok {
        RecordLinesPrefix(store, keys, Writable(|before|, file.room));
        return false;
      }
      ghost var written := file.lines[|before|..];
      assert written == RecordLines(store, keys);
      RecordLinesComplete(store, keys);
      assert keys[..|keys|] == keys;
      RecordLinesPrefix(store, keys, |keys|);
      assert IsSegmentOf(written, store) && IsSegmentPrefixOf(written, store);
      ok := file.Sync();
      if !ok {
        return false;
      }
      store := map[];
    }
  }
}
