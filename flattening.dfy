/** `Search.flatten`: the depth-first, pre-order walk that gives every atomic
    leaf a key, and what the keys mean. */
module Flattening {
  import opened Values
  import opened Keys
  import opened Access

  // ------------------------------------------------------------ the walk

  /** `_flatten(node, parent)`: the keys collected below `t`. */
  function Walk(t: Tree, parent: string): seq<string>
    decreases t, 1
  {
    match t
    case Leaf(_) => []
    case Obj(fields) => WalkFields(t, |fields|, parent)
    case Arr(items) => WalkItems(t, |items|, parent)
  }

  /** What the loop over `node.items()` has collected after its first `m` entries. */
  function WalkFields(t: Tree, m: nat, parent: string): seq<string>
    requires t.Obj? && m <= |t.fields|
    decreases t, 0, m
  {
    if m == 0 then []
    else
      var child := t.fields[m - 1].1;
      assert child < t by { assert t.fields[m - 1] in t.fields; }
      var key := parent + "." + t.fields[m - 1].0;
      WalkFields(t, m - 1, parent) + (if Atomic(child) then [key] else []) + Walk(child, key)
  }

  /** What the loop over `enumerate(node)` has collected after its first `m` items. */
  function WalkItems(t: Tree, m: nat, parent: string): seq<string>
    requires t.Arr? && m <= |t.items|
    decreases t, 0, m
  {
    if m == 0 then []
    else
      var child := t.items[m - 1];
      var key := parent + "[" + Decimal(m - 1) + "]";
      WalkItems(t, m - 1, parent) + (if Atomic(child) then [key] else []) + Walk(child, key)
  }

  /** `_flatten` as written: `collected` grows by `append` and `extend`
      inside the loops, around the recursive calls. */
  method FlattenFrom(node: Tree, parent: string) returns (collected: seq<string>)
    ensures collected == Walk(node, parent)
    decreases node
  {
    if Atomic(node) {
      return [];
    }
    collected := [];
    if node.Obj? {
      var fields := node.fields;
      for i := 0 to |fields|
        invariant collected == WalkFields(node, i, parent)
      {
        var name, child := fields[i].0, fields[i].1;
        assert child < node by { assert fields[i] in fields; }
        var newKey := parent + "." + name;
        if Atomic(child) {
          collected := collected + [newKey];
        }
        var sub := FlattenFrom(child, newKey);
        collected := collected + sub;
      }
    } else {
      var items := node.items;
      for index := 0 to |items|
        invariant collected == WalkItems(node, index, parent)
      {
        var child := items[index];
        var newKey := parent + "[" + Decimal(index) + "]";
        if Atomic(child) {
          collected := collected + [newKey];
        }
        var sub := FlattenFrom(child, newKey);
        collected := collected + sub;
      }
    }
  }

  /** `[k.strip(".") for k in keys]`. */
  function StripAll(keys: seq<string>): (r: seq<string>)
    ensures |r| == |keys|
    ensures forall i :: 0 <= i < |keys| ==> r[i] == StripDots(keys[i])
  {
    seq(|keys|, i requires 0 <= i < |keys| => StripDots(keys[i]))
  }

  /** `flatten()`: the key list of a tree. */
  function Flatten(t: Tree): seq<string> {
    StripAll(Walk(t, ""))
  }

  /** `flatten()` as written: the walk from the root, then the strip. */
  method FlattenTree(t: Tree) returns (keys: seq<string>)
    ensures keys == Flatten(t)
  {
    var collected := FlattenFrom(t, "");
    keys := StripAll(collected);
  }

  // ------------------------------------------------- the leaves, as paths

  /** Every path from `t` to an atomic leaf below it, in pre-order. */
  function LeafPaths(t: Tree): seq<Path>
    decreases t, 1
  {
    match t
    case Leaf(_) => []
    case Obj(fields) => FieldPaths(t, |fields|)
    case Arr(items) => ItemPaths(t, |items|)
  }

  function Prepend(s: Step, ps: seq<Path>): (r: seq<Path>)
    ensures |r| == |ps|
    ensures forall i :: 0 <= i < |ps| ==> r[i] == [s] + ps[i]
  {
    seq(|ps|, i requires 0 <= i < |ps| => [s] + ps[i])
  }

  function FieldPaths(t: Tree, m: nat): seq<Path>
    requires t.Obj? && m <= |t.fields|
    decreases t, 0, m
  {
    if m == 0 then []
    else
      var child := t.fields[m - 1].1;
      assert child < t by { assert t.fields[m - 1] in t.fields; }
      var s := Field(t.fields[m - 1].0);
      FieldPaths(t, m - 1) + (if Atomic(child) then [[s]] else []) + Prepend(s, LeafPaths(child))
  }

  function ItemPaths(t: Tree, m: nat): seq<Path>
    requires t.Arr? && m <= |t.items|
    decreases t, 0, m
  {
    if m == 0 then []
    else
      var child := t.items[m - 1];
      var s := Index(m - 1);
      ItemPaths(t, m - 1) + (if Atomic(child) then [[s]] else []) + Prepend(s, LeafPaths(child))
  }

  // ------------------------------------------------------ the key shape

  /** Key shape: the walk writes, for each leaf path, the parent key followed
      by `.name` for every mapping step and `[i]` for every index step. */
  lemma {:induction false} WalkKeys(t: Tree, parent: string)
    ensures |Walk(t, parent)| == |LeafPaths(t)|
    ensures forall i :: 0 <= i < |LeafPaths(t)| ==> Walk(t, parent)[i] == parent + Segs(LeafPaths(t)[i])
    decreases t, 1
  {
    match t
    case Leaf(_) =>
    case Obj(fields) => WalkFieldsKeys(t, |fields|, parent);
    case Arr(items) => WalkItemsKeys(t, |items|, parent);
  }

  /** The segments of a path that starts with `s`. */
  lemma SegsCons(s: Step, q: Path)
    ensures Segs([s] + q) == Seg(s) + Segs(q)
  {
    assert ([s] + q)[1..] == q;
  }

  /** One child's share of the walk: its own key if atomic, then the keys
      `w` of its subtree, which match the subtree's leaf paths `ps`. */
  lemma ChildKeys(atomic: bool, s: Step, parent: string, w: seq<string>, ps: seq<Path>, keys: seq<string>, paths: seq<Path>)
    requires atomic ==> w == [] && ps == []
    requires keys == (if atomic then [parent + Seg(s)] else []) + w
    requires paths == (if atomic then [[s]] else []) + Prepend(s, ps)
    requires |w| == |ps| && forall i :: 0 <= i < |ps| ==> w[i] == parent + Seg(s) + Segs(ps[i])
    ensures |keys| == |paths|
    ensures forall i :: 0 <= i < |paths| ==> keys[i] == parent + Segs(paths[i])
  {
    if atomic {
      assert keys == [parent + Seg(s)] && paths == [[s]];
      assert Segs([s]) == Seg(s) + Segs([]);
    } else {
      assert keys == w && paths == Prepend(s, ps);
      forall i | 0 <= i < |paths| ensures keys[i] == parent + Segs(paths[i]) {
        assert paths[i] == [s] + ps[i];
        SegsCons(s, ps[i]);
        AppendAssoc(parent, Seg(s), Segs(ps[i]));
      }
    }
  }

  /** Key lists that match their path lists index by index still do once concatenated. */
  lemma KeysAppend(parent: string, k1: seq<string>, p1: seq<Path>, k2: seq<string>, p2: seq<Path>)
    requires |k1| == |p1| && forall i :: 0 <= i < |p1| ==> k1[i] == parent + Segs(p1[i])
    requires |k2| == |p2| && forall i :: 0 <= i < |p2| ==> k2[i] == parent + Segs(p2[i])
    ensures |k1 + k2| == |p1 + p2|
    ensures forall i :: 0 <= i < |p1 + p2| ==> (k1 + k2)[i] == parent + Segs((p1 + p2)[i])
  {
  }

  /** The last entry's share of the mapping loop, for keys and for paths. */
  lemma FieldStep(t: Tree, m: nat, parent: string)
    requires t.Obj? && 0 < m <= |t.fields|
    ensures var child, s := t.fields[m - 1].1, Field(t.fields[m - 1].0);
      child < t &&
      WalkFields(t, m, parent) == WalkFields(t, m - 1, parent) +
        ((if Atomic(child) then [parent + Seg(s)] else []) + Walk(child, parent + Seg(s))) &&
      FieldPaths(t, m) == FieldPaths(t, m - 1) +
        ((if Atomic(child) then [[s]] else []) + Prepend(s, LeafPaths(child)))
  {
    var child, s := t.fields[m - 1].1, Field(t.fields[m - 1].0);
    assert child < t by { assert t.fields[m - 1] in t.fields; }
    assert parent + "." + t.fields[m - 1].0 == parent + Seg(s);
  }

  /** The last item's share of the sequence loop, for keys and for paths. */
  lemma ItemStep(t: Tree, m: nat, parent: string)
    requires t.Arr? && 0 < m <= |t.items|
    ensures var child, s := t.items[m - 1], Index(m - 1);
      child < t &&
      WalkItems(t, m, parent) == WalkItems(t, m - 1, parent) +
        ((if Atomic(child) then [parent + Seg(s)] else []) + Walk(child, parent + Seg(s))) &&
      ItemPaths(t, m) == ItemPaths(t, m - 1) +
        ((if Atomic(child) then [[s]] else []) + Prepend(s, LeafPaths(child)))
  {
    var s := Index(m - 1);
    assert parent + "[" + Decimal(m - 1) + "]" == parent + Seg(s);
  }

  lemma {:induction false} WalkFieldsKeys(t: Tree, m: nat, parent: string)
    requires t.Obj? && m <= |t.fields|
    ensures |WalkFields(t, m, parent)| == |FieldPaths(t, m)|
    ensures forall i :: 0 <= i < |FieldPaths(t, m)| ==>
      WalkFields(t, m, parent)[i] == parent + Segs(FieldPaths(t, m)[i])
    decreases t, 0, m
  {
    if m > 0 {
      var child, s := t.fields[m - 1].1, Field(t.fields[m - 1].0);
      FieldStep(t, m, parent);
      WalkFieldsKeys(t, m - 1, parent);
      WalkKeys(child, parent + Seg(s));
      var keys := (if Atomic(child) then [parent + Seg(s)] else []) + Walk(child, parent + Seg(s));
      var paths := (if Atomic(child) then [[s]] else []) + Prepend(s, LeafPaths(child));
      ChildKeys(Atomic(child), s, parent, Walk(child, parent + Seg(s)), LeafPaths(child), keys, paths);
      KeysAppend(parent, WalkFields(t, m - 1, parent), FieldPaths(t, m - 1), keys, paths);
    }
  }

  lemma {:induction false} WalkItemsKeys(t: Tree, m: nat, parent: string)
    requires t.Arr? && m <= |t.items|
    ensures |WalkItems(t, m, parent)| == |ItemPaths(t, m)|
    ensures forall i :: 0 <= i < |ItemPaths(t, m)| ==>
      WalkItems(t, m, parent)[i] == parent + Segs(ItemPaths(t, m)[i])
    decreases t, 0, m
  {
    if m > 0 {
      var child, s := t.items[m - 1], Index(m - 1);
      ItemStep(t, m, parent);
      WalkItemsKeys(t, m - 1, parent);
      WalkKeys(child, parent + Seg(s));
      var keys := (if Atomic(child) then [parent + Seg(s)] else []) + Walk(child, parent + Seg(s));
      var paths := (if Atomic(child) then [[s]] else []) + Prepend(s, LeafPaths(child));
      ChildKeys(Atomic(child), s, parent, Walk(child, parent + Seg(s)), LeafPaths(child), keys, paths);
      KeysAppend(parent, WalkItems(t, m - 1, parent), ItemPaths(t, m - 1), keys, paths);
    }
  }

  /** `flatten()` emits one key per leaf path, in walk order: the rendered path. */
  lemma FlattenRendersLeafPaths(t: Tree)
    ensures |Flatten(t)| == |LeafPaths(t)|
    ensures forall i :: 0 <= i < |LeafPaths(t)| ==> Flatten(t)[i] == Render(LeafPaths(t)[i])
  {
    WalkKeys(t, "");
    forall i | 0 <= i < |LeafPaths(t)| ensures Flatten(t)[i] == Render(LeafPaths(t)[i]) {
      assert "" + Segs(LeafPaths(t)[i]) == Segs(LeafPaths(t)[i]);
    }
  }

  // ------------------------------------------- the leaves, and only them

  /** Following `p` from `t` ends on an atomic leaf. */
  predicate ReachesLeaf(t: Tree, p: Path) {
    Follow(t, p).Ok? && Atomic(Follow(t, p).value)
  }

  /** In a mapping with distinct names, looking a name up finds its entry. */
  lemma {:induction false} LookupDistinct(fields: seq<(string, Tree)>, j: nat)
    requires j < |fields|
    requires forall a, b :: 0 <= a < b < |fields| ==> fields[a].0 != fields[b].0
    ensures Lookup(fields, fields[j].0) == Ok(fields[j].1)
  {
    if j > 0 {
      assert fields[0].0 != fields[j].0;
      var rest := fields[1..];
      assert rest[j - 1] == fields[j];
      assert forall a, b :: 0 <= a < b < |rest| ==> rest[a].0 != rest[b].0 by {
        forall a, b | 0 <= a < b < |rest| ensures rest[a].0 != rest[b].0 {
          assert rest[a] == fields[a + 1] && rest[b] == fields[b + 1];
        }
      }
      LookupDistinct(rest, j - 1);
    }
  }

  /** One step down to `child`, then a path that reaches a leaf of `child`. */
  lemma StepThenReach(t: Tree, s: Step, child: Tree, ps: seq<Path>)
    requires Child(t, s) == Ok(child)
    requires forall q :: q in ps ==> ReachesLeaf(child, q)
    ensures forall p :: p in (if Atomic(child) then [[s]] else []) + Prepend(s, ps) ==> p != [] && ReachesLeaf(t, p)
  {
    var own := if Atomic(child) then [[s]] else [];
    forall p | p in own + Prepend(s, ps) ensures p != [] && ReachesLeaf(t, p) {
      if p in Prepend(s, ps) {
        var i :| 0 <= i < |ps| && Prepend(s, ps)[i] == p;
        assert p[0] == s && p[1..] == ps[i];
        assert ps[i] in ps;
      } else {
        assert p == [s] && p[1..] == [];
      }
    }
  }

  /** Soundness: in a tree whose mappings have distinct names, every leaf
      path leads to an atomic leaf, so no key is made for an empty container. */
  lemma {:induction false} LeafPathsReachLeaves(t: Tree)
    requires WellFormed(t)
    ensures forall p :: p in LeafPaths(t) ==> p != [] && ReachesLeaf(t, p)
    decreases t, 1
  {
    match t
    case Leaf(_) =>
    case Obj(fields) => FieldPathsReachLeaves(t, |fields|);
    case Arr(items) => ItemPathsReachLeaves(t, |items|);
  }

  lemma {:induction false} FieldPathsReachLeaves(t: Tree, m: nat)
    requires t.Obj? && m <= |t.fields| && WellFormed(t)
    ensures forall p :: p in FieldPaths(t, m) ==> p != [] && ReachesLeaf(t, p)
    decreases t, 0, m
  {
    if m > 0 {
      FieldPathsReachLeaves(t, m - 1);
      var child := t.fields[m - 1].1;
      assert child < t by { assert t.fields[m - 1] in t.fields; }
      var s := Field(t.fields[m - 1].0);
      assert WellFormed(child);
      LeafPathsReachLeaves(child);
      LookupDistinct(t.fields, m - 1);
      assert Child(t, s) == Ok(child);
      StepThenReach(t, s, child, LeafPaths(child));
      var prev, own, below := FieldPaths(t, m - 1), (if Atomic(child) then [[s]] else []), Prepend(s, LeafPaths(child));
      assert FieldPaths(t, m) == prev + own + below;
      AppendAssoc(prev, own, below);
      forall p | p in FieldPaths(t, m) ensures p != [] && ReachesLeaf(t, p) {
        if p !in prev {
          assert p in own + below;
        }
      }
    }
  }

  lemma {:induction false} ItemPathsReachLeaves(t: Tree, m: nat)
    requires t.Arr? && m <= |t.items| && WellFormed(t)
    ensures forall p :: p in ItemPaths(t, m) ==> p != [] && ReachesLeaf(t, p)
    decreases t, 0, m
  {
    if m > 0 {
      ItemPathsReachLeaves(t, m - 1);
      var child := t.items[m - 1];
      LeafPathsReachLeaves(child);
      StepThenReach(t, Index(m - 1), child, LeafPaths(child));
    }
  }

  lemma {:induction false} FieldPathsGrow(t: Tree, m: nat, n: nat)
    requires t.Obj? && m <= n <= |t.fields|
    ensures forall p :: p in FieldPaths(t, m) ==> p in FieldPaths(t, n)
    decreases n - m
  {
    if m < n {
      FieldPathsGrow(t, m, n - 1);
    }
  }

  lemma {:induction false} ItemPathsGrow(t: Tree, m: nat, n: nat)
    requires t.Arr? && m <= n <= |t.items|
    ensures forall p :: p in ItemPaths(t, m) ==> p in ItemPaths(t, n)
    decreases n - m
  {
    if m < n {
      ItemPathsGrow(t, m, n - 1);
    }
  }

  /** The leaf paths through entry `j` of a mapping are among its leaf paths. */
  lemma FieldPathsIn(t: Tree, j: nat)
    requires t.Obj? && j < |t.fields|
    ensures var c, s := t.fields[j].1, Field(t.fields[j].0);
      forall x :: x in (if Atomic(c) then [[s]] else []) + Prepend(s, LeafPaths(c)) ==> x in LeafPaths(t)
  {
    var c, s := t.fields[j].1, Field(t.fields[j].0);
    var own, below := (if Atomic(c) then [[s]] else []), Prepend(s, LeafPaths(c));
    var before := FieldPaths(t, j);
    AppendAssoc(before, own, below);
    assert FieldPaths(t, j + 1) == before + (own + below);
    FieldPathsGrow(t, j + 1, |t.fields|);
    forall x | x in own + below ensures x in LeafPaths(t) {
      assert x in before + (own + below);
    }
  }

  /** The leaf paths through item `i` of a list are among its leaf paths. */
  lemma ItemPathsIn(t: Tree, i: nat)
    requires t.Arr? && i < |t.items|
    ensures var c, s := t.items[i], Index(i);
      forall x :: x in (if Atomic(c) then [[s]] else []) + Prepend(s, LeafPaths(c)) ==> x in LeafPaths(t)
  {
    var c, s := t.items[i], Index(i);
    var own, below := (if Atomic(c) then [[s]] else []), Prepend(s, LeafPaths(c));
    var before := ItemPaths(t, i);
    AppendAssoc(before, own, below);
    assert ItemPaths(t, i + 1) == before + (own + below);
    ItemPathsGrow(t, i + 1, |t.items|);
    forall x | x in own + below ensures x in LeafPaths(t) {
      assert x in before + (own + below);
    }
  }

  /** The leaf paths through one step of `t` are among the leaf paths of `t`. */
  lemma StepPathsIn(t: Tree, s: Step, c: Tree)
    requires Child(t, s) == Ok(c)
    ensures c < t
    ensures forall x :: x in (if Atomic(c) then [[s]] else []) + Prepend(s, LeafPaths(c)) ==> x in LeafPaths(t)
  {
    match t
    case Obj(fields) =>
      var j :| 0 <= j < |fields| && fields[j].0 == s.name && fields[j].1 == c;
      assert fields[j] in fields;
      assert s == Field(fields[j].0);
      FieldPathsIn(t, j);
    case Arr(items) =>
      ItemPathsIn(t, s.i);
  }

  /** Completeness: every non-empty path that reaches an atomic leaf is a
      leaf path, so the walk misses no leaf. */
  lemma {:induction false} LeafPathsComplete(t: Tree, p: Path)
    requires p != [] && ReachesLeaf(t, p)
    ensures p in LeafPaths(t)
    decreases t
  {
    var c := Child(t, p[0]).value;
    var s := p[0];
    var q := p[1..];
    assert p == [s] + q;
    assert Follow(t, p) == Follow(c, q);
    StepPathsIn(t, s, c);
    if q == [] {
      assert Atomic(c) && p == [s];
    } else {
      LeafPathsComplete(c, q);
      var i :| 0 <= i < |LeafPaths(c)| && LeafPaths(c)[i] == q;
      assert Prepend(s, LeafPaths(c))[i] == p;
    }
  }

  /** With simple mapping names, every leaf path is a simple path. */
  lemma {:induction false} LeafPathsSimple(t: Tree)
    requires Addressable(t)
    ensures forall p :: p in LeafPaths(t) ==> SimplePath(p)
    decreases t, 1
  {
    match t
    case Leaf(_) =>
    case Obj(fields) => FieldPathsSimple(t, |fields|);
    case Arr(items) => ItemPathsSimple(t, |items|);
  }

  lemma PrependSimple(s: Step, ps: seq<Path>)
    requires s.Field? ==> SimpleName(s.name)
    requires forall q :: q in ps ==> SimplePath(q)
    ensures forall p :: p in Prepend(s, ps) ==> SimplePath(p)
  {
    forall p: Path | p in Prepend(s, ps) ensures SimplePath(p) {
      var i :| 0 <= i < |ps| && Prepend(s, ps)[i] == p;
      assert SimplePath(ps[i]);
      forall j | 0 <= j < |p| ensures p[j].Field? ==> SimpleName(p[j].name) {
        if j > 0 { assert p[j] == ps[i][j - 1]; }
      }
    }
  }

  lemma {:induction false} FieldPathsSimple(t: Tree, m: nat)
    requires t.Obj? && m <= |t.fields| && Addressable(t)
    ensures forall p :: p in FieldPaths(t, m) ==> SimplePath(p)
    decreases t, 0, m
  {
    if m > 0 {
      FieldPathsSimple(t, m - 1);
      var child := t.fields[m - 1].1;
      assert child < t by { assert t.fields[m - 1] in t.fields; }
      LeafPathsSimple(child);
      PrependSimple(Field(t.fields[m - 1].0), LeafPaths(child));
    }
  }

  lemma {:induction false} ItemPathsSimple(t: Tree, m: nat)
    requires t.Arr? && m <= |t.items| && Addressable(t)
    ensures forall p :: p in ItemPaths(t, m) ==> SimplePath(p)
    decreases t, 0, m
  {
    if m > 0 {
      ItemPathsSimple(t, m - 1);
      var child := t.items[m - 1];
      LeafPathsSimple(child);
      PrependSimple(Index(m - 1), LeafPaths(child));
    }
  }

  // ----------------------------------------------------- the round trip

  /** Round trip: in a tree whose mappings have distinct, simple names, `get`
      of the i-th key of `flatten()` returns the leaf at the i-th leaf path. */
  lemma FlattenRoundTrip(t: Tree)
    requires WellFormed(t) && Addressable(t)
    ensures |Flatten(t)| == |LeafPaths(t)|
    ensures forall i :: 0 <= i < |Flatten(t)| ==>
      Resolve(t, Flatten(t)[i]) == Follow(t, LeafPaths(t)[i]) && ReachesLeaf(t, LeafPaths(t)[i])
  {
    FlattenRendersLeafPaths(t);
    LeafPathsReachLeaves(t);
    LeafPathsSimple(t);
    forall i | 0 <= i < |Flatten(t)|
      ensures Resolve(t, Flatten(t)[i]) == Follow(t, LeafPaths(t)[i])
    {
      assert LeafPaths(t)[i] in LeafPaths(t);
      ParseRender(LeafPaths(t)[i]);
    }
  }

  /** Every leaf of the tree gets a key: the rendering of its path is among
      the keys of `flatten()`. */
  lemma FlattenCoversLeaves(t: Tree, p: Path)
    requires p != [] && ReachesLeaf(t, p)
    ensures Render(p) in Flatten(t)
  {
    LeafPathsComplete(t, p);
    FlattenRendersLeafPaths(t);
    var i :| 0 <= i < |LeafPaths(t)| && LeafPaths(t)[i] == p;
    assert Flatten(t)[i] == Render(p);
  }

  // ------------------------------------------------------ no duplicates

  predicate Distinct<T(==)>(s: seq<T>) {
    forall i, j :: 0 <= i < j < |s| ==> s[i] != s[j]
  }

  lemma DistinctAppend<T>(a: seq<T>, b: seq<T>)
    requires Distinct(a) && Distinct(b)
    requires forall x :: x in a ==> x !in b
    ensures Distinct(a + b)
  {
    forall i, j | 0 <= i < j < |a + b| ensures (a + b)[i] != (a + b)[j] {
      if i < |a| && j >= |a| {
        assert (a + b)[i] in a;
        assert (a + b)[j] == b[j - |a|];
      }
    }
  }

  /** One child's leaf paths: distinct, and every one starts with the step to the child. */
  lemma ChildPathsDistinct(s: Step, child: Tree, ps: seq<Path>)
    requires Distinct(ps)
    requires Atomic(child) ==> ps == []
    ensures var here := (if Atomic(child) then [[s]] else []) + Prepend(s, ps);
      Distinct(here) && forall p: Path :: p in here ==> p != [] && p[0] == s
  {
    var pre := Prepend(s, ps);
    forall i, j | 0 <= i < j < |pre| ensures pre[i] != pre[j] {
      assert pre[i][1..] == ps[i] && pre[j][1..] == ps[j];
    }
  }

  /** The leaf paths of the first items of a list, then those of the next one. */
  lemma JoinItemPaths(prev: seq<Path>, here: seq<Path>, m: nat)
    requires m > 0
    requires Distinct(prev) && forall p: Path :: p in prev ==> p != [] && p[0].Index? && p[0].i < m - 1
    requires Distinct(here) && forall p: Path :: p in here ==> p != [] && p[0] == Index(m - 1)
    ensures Distinct(prev + here)
    ensures forall p: Path :: p in prev + here ==> p != [] && p[0].Index? && p[0].i < m
  {
    DistinctAppend(prev, here);
  }

  /** The leaf paths of the first entries of a mapping, then those of the next one. */
  lemma JoinFieldPaths(prev: seq<Path>, here: seq<Path>, names: set<string>, n: string)
    requires n !in names
    requires Distinct(prev) && forall p: Path :: p in prev ==> p != [] && p[0].Field? && p[0].name in names
    requires Distinct(here) && forall p: Path :: p in here ==> p != [] && p[0] == Field(n)
    ensures Distinct(prev + here)
    ensures forall p: Path :: p in prev + here ==> p != [] && p[0].Field? && p[0].name in names + {n}
  {
    DistinctAppend(prev, here);
  }

  /** The names of the first `m` entries of a mapping. */
  function FieldNames(t: Tree, m: nat): set<string>
    requires t.Obj? && m <= |t.fields|
  {
    set k | 0 <= k < m :: t.fields[k].0
  }

  /** No duplication: in a tree whose mappings have distinct names, the leaf
      paths are pairwise distinct. */
  lemma {:induction false} LeafPathsDistinct(t: Tree)
    requires WellFormed(t)
    ensures Distinct(LeafPaths(t))
    decreases t, 1
  {
    match t
    case Leaf(_) =>
    case Obj(fields) => FieldPathsDistinct(t, |fields|);
    case Arr(items) => ItemPathsDistinct(t, |items|);
  }

  lemma {:induction false} FieldPathsDistinct(t: Tree, m: nat)
    requires t.Obj? && m <= |t.fields| && WellFormed(t)
    ensures Distinct(FieldPaths(t, m))
    ensures forall p: Path :: p in FieldPaths(t, m) ==> p != [] && p[0].Field? && p[0].name in FieldNames(t, m)
    decreases t, 0, m
  {
    if m > 0 {
      FieldPathsDistinct(t, m - 1);
      var child := t.fields[m - 1].1;
      assert child < t by { assert t.fields[m - 1] in t.fields; }
      var s := Field(t.fields[m - 1].0);
      LeafPathsDistinct(child);
      ChildPathsDistinct(s, child, LeafPaths(child));
      var own, below := (if Atomic(child) then [[s]] else []), Prepend(s, LeafPaths(child));
      assert s.name !in FieldNames(t, m - 1);
      assert FieldNames(t, m) == FieldNames(t, m - 1) + {s.name};
      AppendAssoc(FieldPaths(t, m - 1), own, below);
      JoinFieldPaths(FieldPaths(t, m - 1), own + below, FieldNames(t, m - 1), s.name);
    }
  }

  lemma {:induction false} ItemPathsDistinct(t: Tree, m: nat)
    requires t.Arr? && m <= |t.items| && WellFormed(t)
    ensures Distinct(ItemPaths(t, m))
    ensures forall p: Path :: p in ItemPaths(t, m) ==> p != [] && p[0].Index? && p[0].i < m
    decreases t, 0, m
  {
    if m > 0 {
      ItemPathsDistinct(t, m - 1);
      var child := t.items[m - 1];
      var s := Index(m - 1);
      LeafPathsDistinct(child);
      ChildPathsDistinct(s, child, LeafPaths(child));
      var own, below := (if Atomic(child) then [[s]] else []), Prepend(s, LeafPaths(child));
      AppendAssoc(ItemPaths(t, m - 1), own, below);
      JoinItemPaths(ItemPaths(t, m - 1), own + below, m);
    }
  }

  /** No key is emitted twice by `flatten()` of a tree whose mappings have
      distinct, simple names. */
  lemma FlattenKeysDistinct(t: Tree)
    requires WellFormed(t) && Addressable(t)
    ensures Distinct(Flatten(t))
  {
    FlattenRendersLeafPaths(t);
    LeafPathsDistinct(t);
    LeafPathsSimple(t);
    var ps := LeafPaths(t);
    forall i, j | 0 <= i < j < |Flatten(t)| ensures Flatten(t)[i] != Flatten(t)[j] {
      assert ps[i] in ps && ps[j] in ps;
      ParseRender(ps[i]);
      ParseRender(ps[j]);
    }
  }
}
