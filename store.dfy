/**
 * src/protocol/store.rs: the key-value store, a map from keys to values and
 * a map from keys to expiry timestamps, both updated in place. The lock
 * around the value map is left out; the maps are plain fields.
 */
module Stores {
  import opened Wrappers
  import opened Constants
  import opened Values

  /** A Rust `u128`, the type of an expiry timestamp. */
  type u128 = x: int | 0 <= x < 0x1_0000_0000_0000_0000_0000_0000_0000_0000

  class Store {
    /** `map`: key to value. */
    var valueMap: map<Bytes, Value>
    /** `expiry_map`: key to expiry timestamp. */
    var expiryMap: map<Bytes, u128>

    /** `Store::new`: both maps empty. */
    constructor ()
      ensures valueMap == map[] && expiryMap == map[]
    {
      valueMap := map[];
      expiryMap := map[];
    }

    /** `put`: insert or overwrite `key`; nothing else changes. */
    method Put(key: Bytes, value: Value)
      modifies this
      ensures valueMap == old(valueMap)[key := value]
      ensures expiryMap == old(expiryMap)
    {
      valueMap := valueMap[key := value];
    }

    /** `get`: the value stored under `key`, if any; the store is left as it was. */
    method Get(key: Bytes) returns (r: Option<Value>)
      ensures key in valueMap ==> r == Some(valueMap[key])
      ensures key !in valueMap ==> r == None
    {
      if key in valueMap {
        r := Some(valueMap[key]);
      } else {
        r := None;
      }
    }

    /** `set_expiry`: record `expiry` for `key`; the value map is untouched. */
    method SetExpiry(key: Bytes, expiry: u128)
      modifies this
      ensures expiryMap == old(expiryMap)[key := expiry]
      ensures valueMap == old(valueMap)
    {
      expiryMap := expiryMap[key := expiry];
    }

    /** `get_expiry`: the timestamp recorded for `key`, if any. */
    function GetExpiry(key: Bytes): (r: Option<u128>)
      reads this
      ensures key in expiryMap <==> r.Some?
      ensures r.Some? ==> r.value == expiryMap[key]
    {
      if key in expiryMap then Some(expiryMap[key]) else None
    }
  }

  /**
   * The test `read_write`: an integer and a string read back as written,
   * and a key never written reads as absent.
   */
  method ReadWrite() returns (int24: Option<Value>, abc: Option<Value>, zya: Option<Value>)
    ensures int24 == Some(Int(24))
    ensures abc == Some(String(FromString("abc")))
    ensures zya == None
  {
    var store := new Store();
    store.Put(FromString("abc"), Int(24));
    int24 := store.Get(FromString("abc"));
    store.Put(FromString("s"), String(FromString("abc")));
    abc := store.Get(FromString("s"));
    assert FromString("zya") != FromString("abc") && FromString("zya") != FromString("s") by {
      assert FromString("zya")[0] != FromString("abc")[0];
      assert |FromString("zya")| != |FromString("s")|;
    }
    zya := store.Get(FromString("zya"));
  }

  /** After `set_expiry`, `get_expiry` returns the timestamp. */
  method ExpiryReadBack(store: Store, key: Bytes, expiry: u128) returns (r: Option<u128>)
    modifies store
    ensures r == Some(expiry)
    ensures store.valueMap == old(store.valueMap)
  {
    store.SetExpiry(key, expiry);
    r := store.GetExpiry(key);
  }
}
