/** The list comprehensions over the cached keys: `find`, `max_depth`,
    `fixed_depth` and the re-keying of `subsearch`. */
module Filters {
  import opened Values
  import opened Keys
  import opened Access
  import opened Flattening

  // ------------------------------------------------- order-preserving filter

  /** `[x for x in s if keep(x)]`. */
  function Filter<T>(s: seq<T>, keep: T -> bool): seq<T>
    decreases |s|
  {
    if s == [] then [] else (if keep(s[0]) then [s[0]] else []) + Filter(s[1..], keep)
  }

  /** `a` is `b` with some elements left out, the rest in their order. */
  ghost predicate IsSubsequence<T>(a: seq<T>, b: seq<T>)
    decreases |b|
  {
    a == [] || (b != [] && ((a[0] == b[0] && IsSubsequence(a[1..], b[1..])) || IsSubsequence(a, b[1..])))
  }

  /** A filter keeps exactly the elements that pass, each as often as it
      occurs, in their original order. */
  lemma {:induction false} FilterExact<T>(s: seq<T>, keep: T -> bool)
    ensures IsSubsequence(Filter(s, keep), s)
    ensures forall x :: x in Filter(s, keep) ==> x in s && keep(x)
    ensures forall x :: keep(x) ==> multiset(Filter(s, keep))[x] == multiset(s)[x]
    decreases |s|
  {
    if s != [] {
      FilterExact(s[1..], keep);
      assert s == [s[0]] + s[1..];
      var head := if keep(s[0]) then [s[0]] else [];
      assert multiset(s) == multiset([s[0]]) + multiset(s[1..]);
      assert multiset(Filter(s, keep)) == multiset(head) + multiset(Filter(s[1..], keep));
      var r := Filter(s, keep);
      if keep(s[0]) {
        assert r[0] == s[0] && r[1..] == Filter(s[1..], keep);
        assert IsSubsequence(r[1..], s[1..]);
      } else {
        assert r == Filter(s[1..], keep);
      }
      assert IsSubsequence(r, s);
    }
  }

  /** A filter with a weaker test keeps everything a stricter one keeps, in order. */
  lemma {:induction false} FilterMonotone<T>(s: seq<T>, strict: T -> bool, loose: T -> bool)
    requires forall x :: strict(x) ==> loose(x)
    ensures IsSubsequence(Filter(s, strict), Filter(s, loose))
    decreases |s|
  {
    if s != [] {
      FilterMonotone(s[1..], strict, loose);
      var a, b := Filter(s, strict), Filter(s, loose);
      if strict(s[0]) {
        assert a[0] == b[0] && a[1..] == Filter(s[1..], strict) && b[1..] == Filter(s[1..], loose);
        assert IsSubsequence(a[1..], b[1..]);
      } else if loose(s[0]) {
        assert a == Filter(s[1..], strict) && b[1..] == Filter(s[1..], loose);
        assert IsSubsequence(a, b[1..]);
      } else {
        assert a == Filter(s[1..], strict) && b == Filter(s[1..], loose);
      }
      assert IsSubsequence(a, b);
    }
  }

  /** A filter every element passes changes nothing. */
  lemma {:induction false} FilterAll<T>(s: seq<T>, keep: T -> bool)
    requires forall j :: 0 <= j < |s| ==> keep(s[j])
    ensures Filter(s, keep) == s
    decreases |s|
  {
    if s != [] {
      FilterAll(s[1..], keep);
    }
  }

  // ------------------------------------------------------------------ find

  /** Python's `part in key`: `part` occurs contiguously somewhere in `key`. */
  predicate Contains(key: string, part: string) {
    exists i :: 0 <= i <= |key| && part <= key[i..]
  }

  /** The test of `find(part)`. */
  function Containing(part: string): string -> bool {
    (k: string) => Contains(k, part)
  }

  // ----------------------------------------------------------------- depth

  /** `key.count(".")`: the depth the filters use. */
  function Depth(key: string): nat {
    multiset(key)['.']
  }

  /** The number of field steps in a path. */
  function FieldCount(p: Path): nat
    decreases |p|
  {
    if p == [] then 0 else (if p[0].Field? then 1 else 0) + FieldCount(p[1..])
  }

  /** A dotted segment adds one dot, a bracketed one none. */
  lemma {:induction false} SegsDepth(p: Path)
    requires SimplePath(p)
    ensures Depth(Segs(p)) == FieldCount(p)
    decreases |p|
  {
    if p != [] {
      SimpleTail(p);
      SegsDepth(p[1..]);
      assert multiset(Segs(p)) == multiset(Seg(p[0])) + multiset(Segs(p[1..]));
      match p[0]
      case Field(n) =>
        assert multiset("." + n) == multiset(".") + multiset(n);
        assert '.' !in multiset(n);
      case Index(i) =>
        var d := Decimal(i);
        assert multiset("[" + d + "]") == multiset("[") + multiset(d) + multiset("]");
        assert !IsDigit('.');
        assert '.' !in multiset(d);
    }
  }

  /** The rendering of a non-empty simple path never ends in a dot. */
  lemma {:induction false} SegsLast(p: Path)
    requires p != [] && SimplePath(p)
    ensures Segs(p) != [] && Segs(p)[|Segs(p)| - 1] != '.'
    decreases |p|
  {
    var head, tail := Seg(p[0]), Segs(p[1..]);
    assert Segs(p) == head + tail;
    if |p| == 1 {
      assert tail == [];
      match p[0]
      case Field(n) =>
        assert SimpleName(n) && head == "." + n && head[|head| - 1] == n[|n| - 1];
        assert n[|n| - 1] in n;
      case Index(_) =>
    } else {
      SimpleTail(p);
      SegsLast(p[1..]);
    }
  }

  /** `strip(".")` of a string with exactly one outer dot, at its front. */
  lemma StripOneDot(s: string)
    requires |s| >= 2 && s[0] == '.' && s[1] != '.' && s[|s| - 1] != '.'
    ensures StripDots(s) == s[1..]
  {
    assert TrimLeft(s[1..]) == s[1..];
    assert TrimRight(s[1..]) == s[1..];
  }

  /** `strip(".")` of a string with no outer dot. */
  lemma StripNoDot(s: string)
    requires s != [] && s[0] != '.' && s[|s| - 1] != '.'
    ensures StripDots(s) == s
  {
  }

  /** A plain key behind one dot: the strip removes exactly that dot. */
  lemma DottedFront(body: string)
    requires body != [] && body[0] != '.' && body[|body| - 1] != '.'
    ensures StripDots("." + body) == body
    ensures Depth("." + body) == Depth(body) + 1
  {
    assert ("." + body)[1..] == body;
    StripOneDot("." + body);
    assert multiset("." + body) == multiset(".") + multiset(body);
  }

  /** What `key.count(".")` measures on a key the walk writes: the path's
      field steps, less one when the key starts with a field name (whose
      leading dot the strip removes). So `[0][1]` has depth 0 and `a.b[0]`
      depth 1. */
  lemma RenderDepth(p: Path)
    requires SimplePath(p)
    ensures Depth(Render(p)) == FieldCount(p) - (if p != [] && p[0].Field? then 1 else 0)
  {
    SegsDepth(p);
    if p != [] {
      SegsLast(p);
      var rest := Segs(p[1..]);
      assert Segs(p) == Seg(p[0]) + rest;
      if p[0].Field? {
        var n := p[0].name;
        assert SimpleName(n) && n[0] in n;
        AppendAssoc(".", n, rest);
        assert Segs(p) == "." + (n + rest);
        assert (n + rest)[0] == n[0];
        DottedFront(n + rest);
      } else {
        assert Segs(p)[0] == '[';
        StripNoDot(Segs(p));
      }
    }
  }

  /** `max_depth` and `fixed_depth` on the keys of `flatten()`: a key's depth
      counts the field steps on its leaf's path, less a leading one. */
  lemma FlattenDepth(t: Tree)
    requires Addressable(t)
    ensures |Flatten(t)| == |LeafPaths(t)|
    ensures forall i :: 0 <= i < |Flatten(t)| ==>
      var p := LeafPaths(t)[i];
      Depth(Flatten(t)[i]) == FieldCount(p) - (if p != [] && p[0].Field? then 1 else 0)
  {
    FlattenRendersLeafPaths(t);
    LeafPathsSimple(t);
    forall i | 0 <= i < |Flatten(t)|
      ensures var p := LeafPaths(t)[i];
        Depth(Flatten(t)[i]) == FieldCount(p) - (if p != [] && p[0].Field? then 1 else 0)
    {
      assert LeafPaths(t)[i] in LeafPaths(t);
      RenderDepth(LeafPaths(t)[i]);
    }
  }

  /** The test of `max_depth(depth)`. */
  function DepthAtMost(depth: int): string -> bool {
    (k: string) => Depth(k) <= depth
  }

  /** The test of `fixed_depth(depth)`. */
  function DepthIs(depth: int): string -> bool {
    (k: string) => Depth(k) == depth
  }

  /** `[key for key in cache if key.count(".") <= depth]`. */
  function AtMostDepth(cache: seq<string>, depth: int): seq<string> {
    Filter(cache, DepthAtMost(depth))
  }

  /** `[key for key in cache if key.count(".") == depth]`. */
  function AtDepth(cache: seq<string>, depth: int): seq<string> {
    Filter(cache, DepthIs(depth))
  }

  /** `fixed_depth` splits the cache: each key lands at its own depth and at
      no other, and every key it keeps comes from the cache. */
  lemma FixedDepthPartition(cache: seq<string>)
    ensures forall k :: k in cache <==> k in AtDepth(cache, Depth(k))
    ensures forall k, d :: k in AtDepth(cache, d) ==> k in cache && Depth(k) == d
  {
    forall k, d | k in AtDepth(cache, d) ensures k in cache && Depth(k) == d {
      FilterExact(cache, DepthIs(d));
    }
    forall k | k in cache ensures k in AtDepth(cache, Depth(k)) {
      FilterExact(cache, DepthIs(Depth(k)));
      assert multiset(cache)[k] > 0;
    }
  }

  /** `max_depth(d)` keeps, in order, what `max_depth(e)` keeps for every
      `e >= d`, and with a depth no key exceeds it keeps the whole cache. */
  lemma MaxDepthMonotone(cache: seq<string>, d: int, e: int)
    requires d <= e
    ensures IsSubsequence(AtMostDepth(cache, d), AtMostDepth(cache, e))
    ensures (forall k :: k in cache ==> Depth(k) <= d) ==> AtMostDepth(cache, d) == cache
  {
    FilterMonotone(cache, DepthAtMost(d), DepthAtMost(e));
    if forall k :: k in cache ==> Depth(k) <= d {
      FilterAll(cache, DepthAtMost(d));
    }
  }

  /** `max_depth(d)` is `max_depth(d - 1)` together with `fixed_depth(d)`. */
  lemma {:induction false} MaxDepthSplits(cache: seq<string>, d: int)
    ensures multiset(AtMostDepth(cache, d)) == multiset(AtMostDepth(cache, d - 1)) + multiset(AtDepth(cache, d))
    decreases |cache|
  {
    if cache != [] {
      MaxDepthSplits(cache[1..], d);
      assert AtMostDepth(cache, d) == (if Depth(cache[0]) <= d then [cache[0]] else []) + AtMostDepth(cache[1..], d);
      assert AtMostDepth(cache, d - 1) == (if Depth(cache[0]) <= d - 1 then [cache[0]] else []) + AtMostDepth(cache[1..], d - 1);
      assert AtDepth(cache, d) == (if Depth(cache[0]) == d then [cache[0]] else []) + AtDepth(cache[1..], d);
    }
  }

  // ------------------------------------------------------------- subsearch

  /** `key.removeprefix(prefix).strip(".")`: the tail of `key` after the prefix, without outer dots. */
  function Subkey(key: string, prefix: string): string
    requires prefix <= key
  {
    StripDots(key[|prefix|..])
  }

  /** `[key.removeprefix(prefix).strip(".") for key in cache if key.startswith(prefix)]`,
      as written: a plain textual prefix test. */
  function Rekey(cache: seq<string>, prefix: string): seq<string>
    decreases |cache|
  {
    if cache == [] then []
    else
      (if prefix <= cache[0] then [Subkey(cache[0], prefix)] else []) + Rekey(cache[1..], prefix)
  }

  /** `key` lies in the subtree that `prefix` names: the prefix closes a
      segment, or is followed by the end of the key or by a new segment. */
  predicate Under(key: string, prefix: string) {
    prefix <= key &&
    (BetweenSegments(prefix) || |key| == |prefix| || key[|prefix|] == '.' || key[|prefix|] == '[')
  }

  /** `startswith(prefix)`, as a filter. */
  function StartingWith(prefix: string): string -> bool {
    (k: string) => prefix <= k
  }

  /** `Under(_, prefix)`, as a filter. */
  function Below(prefix: string): string -> bool {
    (k: string) => Under(k, prefix)
  }

  /** The re-keying `subsearch` evidently intends: only keys below the prefix. */
  function RekeyUnder(cache: seq<string>, prefix: string): seq<string>
    decreases |cache|
  {
    if cache == [] then []
    else
      (if Under(cache[0], prefix) then [Subkey(cache[0], prefix)] else []) + RekeyUnder(cache[1..], prefix)
  }

  /** One key below a settled prefix resolves, relative to the prefix's
      subtree, to what it resolves to from the root. */
  lemma SubkeyResolves(t: Tree, prefix: string, key: string)
    requires SettledKey(prefix) && Resolve(t, prefix).Ok? && Under(key, prefix)
    ensures Resolve(Resolve(t, prefix).value, Subkey(key, prefix)) == Resolve(t, key)
  {
    if BetweenSegments(prefix) {
      NoPendingName(prefix);
    }
    assert key == prefix + key[|prefix|..];
    ResolveBelow(t, prefix, key[|prefix|..]);
  }

  /** `subsearch` as written keeps, in order, exactly the cached keys that
      start with the prefix, each cut down to its subkey. */
  lemma {:induction false} RekeyKeepsPrefixed(cache: seq<string>, prefix: string)
    ensures var kept := Filter(cache, StartingWith(prefix));
      |Rekey(cache, prefix)| == |kept| &&
      forall i :: 0 <= i < |kept| ==> prefix <= kept[i] && Rekey(cache, prefix)[i] == Subkey(kept[i], prefix)
    decreases |cache|
  {
    if cache != [] {
      RekeyKeepsPrefixed(cache[1..], prefix);
      var kept, tail := Filter(cache, StartingWith(prefix)), Filter(cache[1..], StartingWith(prefix));
      var keys, rest := Rekey(cache, prefix), Rekey(cache[1..], prefix);
      assert StartingWith(prefix)(cache[0]) == (prefix <= cache[0]);
      if prefix <= cache[0] {
        assert kept == [cache[0]] + tail && keys == [Subkey(cache[0], prefix)] + rest;
        forall i | 0 < i < |kept| ensures prefix <= kept[i] && keys[i] == Subkey(kept[i], prefix) {
          assert kept[i] == tail[i - 1] && keys[i] == rest[i - 1];
        }
      } else {
        assert kept == tail && keys == rest;
      }
    }
  }

  /** The corrected re-keying keeps, in order, exactly the cached keys below
      the prefix, each cut down to its subkey. */
  lemma {:induction false} RekeyUnderKeepsBelow(cache: seq<string>, prefix: string)
    ensures var below := Filter(cache, Below(prefix));
      |RekeyUnder(cache, prefix)| == |below| &&
      forall i :: 0 <= i < |below| ==> Under(below[i], prefix) && RekeyUnder(cache, prefix)[i] == Subkey(below[i], prefix)
    decreases |cache|
  {
    if cache != [] {
      RekeyUnderKeepsBelow(cache[1..], prefix);
      var below, tail := Filter(cache, Below(prefix)), Filter(cache[1..], Below(prefix));
      var keys, rest := RekeyUnder(cache, prefix), RekeyUnder(cache[1..], prefix);
      assert Below(prefix)(cache[0]) == Under(cache[0], prefix);
      if Under(cache[0], prefix) {
        assert below == [cache[0]] + tail && keys == [Subkey(cache[0], prefix)] + rest;
        forall i | 0 < i < |below| ensures Under(below[i], prefix) && keys[i] == Subkey(below[i], prefix) {
          assert below[i] == tail[i - 1] && keys[i] == rest[i - 1];
        }
      } else {
        assert below == tail && keys == rest;
      }
    }
  }

  /** Corrected subsearch: the re-keyed cache lists the keys below the prefix
      in order, and each resolves in the subtree to the value its original
      key resolves to in the whole tree. */
  lemma RekeyUnderResolves(t: Tree, prefix: string, cache: seq<string>)
    requires SettledKey(prefix) && Resolve(t, prefix).Ok?
    ensures var below := Filter(cache, Below(prefix));
      |RekeyUnder(cache, prefix)| == |below| &&
      forall i :: 0 <= i < |below| ==>
        Resolve(Resolve(t, prefix).value, RekeyUnder(cache, prefix)[i]) == Resolve(t, below[i])
  {
    var below := Filter(cache, Below(prefix));
    RekeyUnderKeepsBelow(cache, prefix);
    forall i | 0 <= i < |below|
      ensures Resolve(Resolve(t, prefix).value, RekeyUnder(cache, prefix)[i]) == Resolve(t, below[i])
    {
      SubkeyResolves(t, prefix, below[i]);
    }
  }

  /** The corrected subsearch keeps the cache invariant: if every cached key
      resolves in `t`, every re-keyed key resolves in the subtree. */
  lemma RekeyUnderKeepsConsistent(t: Tree, prefix: string, cache: seq<string>)
    requires SettledKey(prefix) && Resolve(t, prefix).Ok?
    requires forall k :: k in cache ==> Resolve(t, k).Ok?
    ensures forall k :: k in RekeyUnder(cache, prefix) ==> Resolve(Resolve(t, prefix).value, k).Ok?
  {
    var below := Filter(cache, Below(prefix));
    RekeyUnderResolves(t, prefix, cache);
    FilterExact(cache, Below(prefix));
    forall k | k in RekeyUnder(cache, prefix) ensures Resolve(Resolve(t, prefix).value, k).Ok? {
      var i :| 0 <= i < |RekeyUnder(cache, prefix)| && RekeyUnder(cache, prefix)[i] == k;
      assert below[i] in below;
    }
  }

  /** The as-written re-keying agrees with the corrected one whenever no
      cached key merely shares the prefix's text without being below it. */
  lemma {:induction false} RekeyAgreesWhenBounded(cache: seq<string>, prefix: string)
    requires forall k :: k in cache && prefix <= k ==> Under(k, prefix)
    ensures Rekey(cache, prefix) == RekeyUnder(cache, prefix)
    decreases |cache|
  {
    if cache != [] {
      assert cache[0] in cache;
      RekeyAgreesWhenBounded(cache[1..], prefix);
    }
  }
}
