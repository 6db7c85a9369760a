/** The `Map<string, string[]>` both release caches use (registry.ts `CACHE`,
    versioned.ts `GR_CACHE`): a key names a repository, the value is the list
    of its releases as first fetched. */
module Cache {
  import opened Wrappers

  class ReleaseCache {
    var entries: map<string, seq<string>>

    /** `new Map()`. */
    constructor()
      ensures entries == map[]
    {
      entries := map[];
    }

    /** `cache.has(key) ? cache.get(key) : undefined`. */
    method Get(key: string) returns (r: Option<seq<string>>)
      ensures r.Some? <==> key in entries
      ensures r.Some? ==> r.value == entries[key]
    {
      if key in entries {
        r := Some(entries[key]);
      } else {
        r := None;
      }
    }

    /** `cache.set(key, value)`. */
    method Set(key: string, value: seq<string>)
      modifies this
      ensures entries == old(entries)[key := value]
    {
      entries := entries[key := value];
    }
  }
}
