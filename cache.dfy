/** The in-memory cache of teslamind/cache.py. The module-level dictionary
    `_CACHE` is the `entries` field of one `Cache` object; `get` and `set`
    are its methods. */
module Caching {
  import opened Results

  class Cache {
    /** The dictionary's contents. */
    var entries: map<string, string>

    /** The module starts with an empty dictionary. */
    constructor()
      ensures entries == map[]
    {
      entries := map[];
    }

    /** `get`: the cached value, or `None` for a key never set. */
    method Get(key: string) returns (r: Option<string>)
      ensures r.Some? <==> key in entries
      ensures r.Some? ==> r.value == entries[key]
    {
      if key in entries {
        r := Some(entries[key]);
      } else {
        r := None;
      }
    }

    /** `set`: store `value` under `key`, replacing any earlier value and
        leaving every other key as it was. */
    method Set(key: string, value: string)
      modifies this
      ensures entries == old(entries)[key := value]
      ensures key in entries && entries[key] == value
      ensures forall k :: k != key ==> (k in entries <==> k in old(entries))
      ensures forall k :: k != key && k in entries ==> entries[k] == old(entries)[k]
    {
      entries := entries[key := value];
    }
  }

  /** A value read back after `set` is the one stored last, whatever was
      stored under that key or under other keys before. */
  method LastWriteWins(cache: Cache, key: string, other: string, first: string, second: string)
    returns (r: Option<string>, s: Option<string>)
    modifies cache
    ensures r == Some(second)
    ensures s == (if other == key then Some(second) else if other in old(cache.entries) then Some(old(cache.entries)[other]) else None)
  {
    cache.Set(key, first);
    cache.Set(key, second);
    r := cache.Get(key);
    s := cache.Get(other);
  }
}
