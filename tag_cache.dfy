/**
 * The tag-aware cache the book list goes through: a map from key to a stored
 * payload with the set of tags the computing callback attached to it.
 * `Get` returns the stored payload on a hit and otherwise computes, stores
 * and returns a new one; `InvalidateTags` drops every entry carrying one of
 * the given tags. A key that is empty or holds a reserved character is
 * rejected with an `InvalidArgumentException`. Expiry, the backing pool and
 * concurrent misses are not modelled.
 */
module TagCache {
  import opened Wrappers

  datatype CacheItem = CacheItem(value: string, tags: set<string>)

  /** The exception the cache throws for a key it does not accept. */
  datatype CacheError = InvalidArgument

  /** The characters PSR-6 reserves in cache keys: `{}()/\@:`. */
  const ReservedCharacters: string := "{}()/\\@:"

  /** A key the cache accepts: non-empty and free of reserved characters. */
  predicate ValidKey(key: string) {
    key != [] && forall k :: 0 <= k < |key| ==> key[k] !in ReservedCharacters
  }

  /** The entries left after invalidating `tags`: those that carry none of them, unchanged. */
  function Invalidated(items: map<string, CacheItem>, tags: set<string>): (r: map<string, CacheItem>)
    ensures forall k :: k in r <==> k in items && items[k].tags !! tags
    ensures forall k :: k in r ==> r[k] == items[k]
  {
    map k | k in items && items[k].tags !! tags :: items[k]
  }

  /** Invalidating the same tags twice is invalidating them once. */
  lemma InvalidatedIdempotent(items: map<string, CacheItem>, tags: set<string>)
    ensures Invalidated(Invalidated(items, tags), tags) == Invalidated(items, tags)
  {
  }

  /** Invalidating two tag sets one after the other is invalidating their union. */
  lemma InvalidatedUnion(items: map<string, CacheItem>, a: set<string>, b: set<string>)
    ensures Invalidated(Invalidated(items, a), b) == Invalidated(items, a + b)
  {
  }

  /** Invalidating no tag changes nothing. */
  lemma InvalidatedNothing(items: map<string, CacheItem>)
    ensures Invalidated(items, {}) == items
  {
  }

  /** After invalidation no entry carries an invalidated tag. */
  lemma InvalidatedClean(items: map<string, CacheItem>, tags: set<string>, k: string, t: string)
    requires k in Invalidated(items, tags) && t in tags
    ensures t !in Invalidated(items, tags)[k].tags
  {
  }

  class TagAwareCache {
    var items: map<string, CacheItem>

    /** A new cache is empty. */
    constructor ()
      ensures items == map[]
    {
      items := map[];
    }

    /**
     * `get(key, callback)`: an invalid key throws before anything is looked
     * up. Otherwise, on a hit the stored payload, with the cache unchanged and
     * `compute` not consulted; on a miss `compute()`, stored under `key` with
     * the tags the callback attaches.
     */
    method Get(key: string, tags: set<string>, compute: () -> string) returns (value: Result<string, CacheError>)
      modifies this
      ensures !ValidKey(key) ==> value == Failure(InvalidArgument) && items == old(items)
      ensures ValidKey(key) && key in old(items) ==> value == Success(old(items)[key].value) && items == old(items)
      ensures ValidKey(key) && key !in old(items) ==>
                value == Success(compute()) && items == old(items)[key := CacheItem(compute(), tags)]
    {
      if !ValidKey(key) {
        value := Failure(InvalidArgument);
      } else if key in items {
        value := Success(items[key].value);
      } else {
        var computed := compute();
        items := items[key := CacheItem(computed, tags)];
        value := Success(computed);
      }
    }

    /** `invalidateTags(tags)`: every entry carrying one of `tags` is dropped, the rest kept. */
    method InvalidateTags(tags: set<string>)
      modifies this
      ensures items == Invalidated(old(items), tags)
    {
      items := Invalidated(items, tags);
    }
  }
}
