/** `needle.Search`, the earlier variant: the same walk, parser and `get`,
    with `find` and a `create` factory, but no prefix and no narrowing by
    depth or subtree. `create` overwrites the cache after construction, so
    the cache is a mutable field here. */
module NeedleLegacy {
  import opened Values
  import opened Keys
  import opened Access
  import opened Flattening
  import opened Filters

  class Search {
    const obj: Tree
    var cache: seq<string>

    /** Every cached key resolves in the tree. */
    ghost predicate Consistent()
      reads this
    {
      forall k :: k in cache ==> Resolve(obj, k).Ok?
    }

    /** `Search(obj, cache)`: without a cache the keys are those of `flatten()`. */
    constructor (obj: Tree, cache: Option<seq<string>>)
      ensures this.obj == obj
      ensures this.cache == (if cache.None? then Flatten(obj) else cache.value)
      ensures cache.None? && WellFormed(obj) && Addressable(obj) ==> Consistent()
    {
      this.obj := obj;
      var keys: seq<string>;
      if cache.None? {
        keys := FlattenTree(obj);
      } else {
        keys := cache.value;
      }
      this.cache := keys;
      if cache.None? && WellFormed(obj) && Addressable(obj) {
        FlattenRoundTrip(obj);
      }
    }

    /** `flat_keys`: a copy of the cache, equal to it; reading it changes nothing. */
    function FlatKeys(): (r: seq<string>)
      reads this
      ensures r == cache
      ensures Consistent() ==> forall k :: k in r ==> Resolve(obj, k).Ok?
    {
      cache
    }

    /** `create(obj, cache)`: a search built without a cache, whose cache is
        then overwritten by the given one, or by `flatten()` again. */
    static method Create(obj: Tree, cache: Option<seq<string>>) returns (s: Search)
      ensures fresh(s)
      ensures s.obj == obj
      ensures s.cache == (if cache.None? then Flatten(obj) else cache.value)
      ensures cache.None? && WellFormed(obj) && Addressable(obj) ==> s.Consistent()
    {
      s := new Search(obj, None);
      var keys: seq<string>;
      if cache.None? {
        keys := FlattenTree(s.obj);
      } else {
        keys := cache.value;
      }
      s.cache := keys;
    }

    /** `find(part)`: exactly the cached keys in which `part` occurs, each as
        often as in the cache, in cache order. */
    function Find(part: string): (r: seq<string>)
      reads this
      ensures IsSubsequence(r, cache)
      ensures forall k :: k in r ==> k in cache && Contains(k, part)
      ensures forall k :: Contains(k, part) ==> multiset(r)[k] == multiset(cache)[k]
    {
      FilterExact(cache, Containing(part));
      Filter(cache, Containing(part))
    }
  }
}
