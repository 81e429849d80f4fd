/** `needle.search.Search`: a tree together with the cached list of its flat
    keys, and the queries that narrow that list. The fields are set once, in
    the constructor; every query builds a new `Search`. */
module Needle {
  import opened Values
  import opened Keys
  import opened Access
  import opened Flattening
  import opened Filters

  class Search {
    const obj: Tree
    const cache: seq<string>
    /** `_prefix`: the prefix this search was narrowed to, if any. */
    const prefixSlot: Option<string>

    /** Every cached key resolves in the tree. */
    ghost predicate Consistent() {
      forall k :: k in cache ==> Resolve(obj, k).Ok?
    }

    /** `Search(obj, cache, prefix)`: without a cache the keys are those of
        `flatten()`, and those all resolve when the tree's mappings have
        distinct, simple names. */
    constructor (obj: Tree, cache: Option<seq<string>>, prefix: Option<string>)
      ensures this.obj == obj
      ensures this.cache == (if cache.None? then Flatten(obj) else cache.value)
      ensures this.prefixSlot == prefix
      ensures cache.None? && WellFormed(obj) && Addressable(obj) ==> Consistent()
    {
      this.obj := obj;
      var keys: seq<string>;
      if cache.None? {
        keys := FlattenTree(obj);
      } else {
        keys := cache.value;
      }
      this.cache := keys;
      this.prefixSlot := prefix;
      if cache.None? && WellFormed(obj) && Addressable(obj) {
        FlattenRoundTrip(obj);
      }
    }

    /** `flat_keys`: a copy of the cache, equal to it. */
    function FlatKeys(): (r: seq<string>)
      ensures r == cache
      ensures Consistent() ==> forall k :: k in r ==> Resolve(obj, k).Ok?
    {
      cache
    }

    /** `prefix`: the recorded prefix, or the empty string when there is none. */
    function Prefix(): (r: string)
      ensures prefixSlot.Some? ==> r == prefixSlot.value
      ensures prefixSlot.None? ==> r == ""
    {
      if prefixSlot.Some? then prefixSlot.value else ""
    }

    /** `__getitem__`: `get`, with a missing key or an index out of range both
        reported as a missing key; other failures pass through unchanged. */
    method GetItem(key: string) returns (r: Result<Tree>)
      ensures r.Ok? <==> Resolve(obj, key).Ok?
      ensures r.Ok? ==> r.value == Resolve(obj, key).value
      ensures r.Err? ==> r.error != IndexError
      ensures r.Err? ==> (r.error == KeyError <==> Resolve(obj, key).error in {KeyError, IndexError})
      ensures r.Err? && r.error != KeyError ==> r.error == Resolve(obj, key).error
    {
      r := Get(obj, key);
      if r.Err? && (r.error == KeyError || r.error == IndexError) {
        r := Err(KeyError);
      }
    }

    /** `find(part)`: exactly the cached keys in which `part` occurs, each as
        often as in the cache, in cache order. */
    function Find(part: string): (r: seq<string>)
      ensures IsSubsequence(r, cache)
      ensures forall k :: k in r ==> k in cache && Contains(k, part)
      ensures forall k :: Contains(k, part) ==> multiset(r)[k] == multiset(cache)[k]
    {
      FilterExact(cache, Containing(part));
      Filter(cache, Containing(part))
    }

    /** `subsearch(prefix)`: fails as `get(prefix)` fails; otherwise re-roots
        on the subtree at `prefix`, records the prefix, and keeps the cached
        keys that start with `prefix` as text, cut down to their subkeys. A
        consistent search narrowed to a settled prefix stays consistent when
        no cached key merely shares the prefix's text. */
    method Subsearch(prefix: string) returns (r: Result<Search>)
      ensures r.Err? <==> Resolve(obj, prefix).Err?
      ensures r.Err? ==> r.error == Resolve(obj, prefix).error
      ensures r.Ok? ==>
        fresh(r.value) && r.value.obj == Resolve(obj, prefix).value &&
        r.value.cache == Rekey(cache, prefix) && r.value.prefixSlot == Some(prefix)
      ensures r.Ok? && Consistent() && SettledKey(prefix) &&
              (forall k :: k in cache && prefix <= k ==> Under(k, prefix)) ==>
                r.value.Consistent()
    {
      var node := Get(obj, prefix);
      if node.Err? {
        return Err(node.error);
      }
      var narrowed := new Search(node.value, Some(Rekey(cache, prefix)), Some(prefix));
      if Consistent() && SettledKey(prefix) && (forall k :: k in cache && prefix <= k ==> Under(k, prefix)) {
        RekeyAgreesWhenBounded(cache, prefix);
        RekeyUnderKeepsConsistent(obj, prefix, cache);
      }
      return Ok(narrowed);
    }

    /** `max_depth(depth)`: the same tree with the cached keys of at most
        `depth` dots; the prefix is not carried over. */
    method MaxDepth(depth: int) returns (r: Search)
      ensures fresh(r) && r.obj == obj && r.cache == AtMostDepth(cache, depth) && r.prefixSlot == None
      ensures Consistent() ==> r.Consistent()
    {
      r := new Search(obj, Some(AtMostDepth(cache, depth)), None);
      FilterExact(cache, DepthAtMost(depth));
    }

    /** `fixed_depth(depth)`: the same tree with the cached keys of exactly
        `depth` dots; the prefix is not carried over. */
    method FixedDepth(depth: int) returns (r: Search)
      ensures fresh(r) && r.obj == obj && r.cache == AtDepth(cache, depth) && r.prefixSlot == None
      ensures Consistent() ==> r.Consistent()
    {
      r := new Search(obj, Some(AtDepth(cache, depth)), None);
      FilterExact(cache, DepthIs(depth));
    }
  }
}
