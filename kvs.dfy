/** The in-memory store of the Rust crate (kvs/src/lib.rs). */
module Kvs {
  import opened Failures

  class KvStore {
    var memtable: map<string, string>

    /** KvStore::new: nothing stored. */
    constructor ()
      ensures memtable == map[]
      ensures forall k :: Get(k) == None
    {
      memtable := map[];
    }

    /** <KvStore as Default>::default, which is KvStore::new. */
    static method Default() returns (s: KvStore)
      ensures fresh(s) && s.memtable == map[]
      ensures forall k :: s.Get(k) == None
    {
      s := new KvStore();
    }

    /** A copy of the value stored for `key`, if any. */
    function Get(key: string): (r: Option<string>)
      reads this
    {
      if key in memtable then Some(memtable[key]) else None
    }

    /** Inserts or overwrites. */
    method Set(key: string, value: string)
      modifies this
      ensures memtable == old(memtable)[key := value]
      ensures Get(key) == Some(value)
      ensures forall k :: k != key ==> Get(k) == old(Get(k))
    {
      memtable := memtable[key := value];
    }

    /** Removes the key; nothing happens when it is absent. */
    method Remove(key: string)
      modifies this
      ensures memtable == old(memtable) - {key}
      ensures Get(key) == None
      ensures forall k :: k != key ==> Get(k) == old(Get(k))
    {
      memtable := memtable - {key};
    }
  }
}
