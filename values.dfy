/** The values needle searches: configuration trees of mappings, sequences and
    scalar leaves, the steps that address a child, and Python's subscription
    (`node[part]`) on them. */
module Values {

  /** The errors the core can raise, named after the Python exceptions. */
  datatype Error =
    | ValueError   // a malformed key (parse_key)
    | KeyError     // a field missing from a mapping, or an index step on a mapping
    | IndexError   // an index beyond the end of a list or tuple
    | TypeError    // a field step on a list, or any step on a scalar

  datatype Result<T> = Ok(value: T) | Err(error: Error)

  datatype Option<T> = None | Some(value: T)

  /** The atomic payloads: int, bool, str and None. */
  datatype Scalar = NoneValue | Bool(b: bool) | Int(i: int) | Str(s: string)

  /** A dict is an ordered sequence of (name, child) entries; a list or tuple
      is a sequence of children. */
  datatype Tree =
    | Leaf(scalar: Scalar)
    | Obj(fields: seq<(string, Tree)>)
    | Arr(items: seq<Tree>)

  /** One parsed piece of a key: a field name or a list index. */
  datatype Step = Field(name: string) | Index(i: nat)

  type Path = seq<Step>

  /** `atomic(obj)`: scalars are the leaves of the walk. */
  predicate Atomic(t: Tree) {
    t.Leaf?
  }

  /** The value stored under `name` in a dict (its first entry with that name). */
  function Lookup(fields: seq<(string, Tree)>, name: string): (r: Result<Tree>)
    ensures r.Ok? <==> exists j :: 0 <= j < |fields| && fields[j].0 == name
    ensures r.Err? ==> r.error == KeyError
    ensures r.Ok? ==> exists j :: 0 <= j < |fields| && fields[j].0 == name && fields[j].1 == r.value
  {
    if fields == [] then Err(KeyError)
    else if fields[0].0 == name then Ok(fields[0].1)
    else
      var r := Lookup(fields[1..], name);
      assert forall j :: 1 <= j < |fields| ==> fields[j] == fields[1..][j - 1];
      r
  }

  /** `node[part]` for one step. */
  function Child(t: Tree, s: Step): Result<Tree> {
    match t
    case Leaf(_) => Err(TypeError)
    case Obj(fields) => if s.Field? then Lookup(fields, s.name) else Err(KeyError)
    case Arr(items) =>
      if s.Field? then Err(TypeError)
      else if s.i < |items| then Ok(items[s.i])
      else Err(IndexError)
  }

  /** Applies the steps of a path one after another, stopping at the first failure. */
  function Follow(t: Tree, p: Path): Result<Tree>
    decreases |p|
  {
    if p == [] then Ok(t)
    else match Child(t, p[0])
      case Err(e) => Err(e)
      case Ok(c) => Follow(c, p[1..])
  }

  /** Following a concatenated path is following its halves in turn. */
  lemma {:induction false} FollowAppend(t: Tree, a: Path, b: Path)
    ensures Follow(t, a + b) == (match Follow(t, a)
                                  case Err(e) => Err(e)
                                  case Ok(n) => Follow(n, b))
    decreases |a|
  {
    if a != [] {
      assert (a + b)[0] == a[0];
      assert (a + b)[1..] == a[1..] + b;
      match Child(t, a[0])
      case Err(e) =>
      case Ok(c) => FollowAppend(c, a[1..], b);
    } else {
      assert a + b == b;
    }
  }

  /** A Python dict has distinct keys: the names of every mapping in the
      tree are pairwise distinct. */
  predicate WellFormed(t: Tree) {
    match t
    case Leaf(_) => true
    case Obj(fields) =>
      (forall i, j :: 0 <= i < j < |fields| ==> fields[i].0 != fields[j].0) &&
      (forall j :: 0 <= j < |fields| ==> WellFormed(fields[j].1))
    case Arr(items) => forall j :: 0 <= j < |items| ==> WellFormed(items[j])
  }

  /** A field name that survives the key grammar unchanged: non-empty and
      without '.', '[' or ']'. */
  predicate SimpleName(n: string) {
    n != [] && '.' !in n && '[' !in n && ']' !in n
  }

  /** Every mapping name in the tree is a simple name. */
  predicate Addressable(t: Tree) {
    match t
    case Leaf(_) => true
    case Obj(fields) =>
      forall j :: 0 <= j < |fields| ==> SimpleName(fields[j].0) && Addressable(fields[j].1)
    case Arr(items) => forall j :: 0 <= j < |items| ==> Addressable(items[j])
  }

  predicate SimplePath(p: Path) {
    forall j :: 0 <= j < |p| ==> p[j].Field? ==> SimpleName(p[j].name)
  }

  /** A simple path stays simple without its first step. */
  lemma SimpleTail(p: Path)
    requires p != [] && SimplePath(p)
    ensures SimplePath(p[1..])
    ensures p[0].Field? ==> SimpleName(p[0].name)
  {
    forall j | 0 <= j < |p[1..]| ensures p[1..][j].Field? ==> SimpleName(p[1..][j].name) {
      assert p[1..][j] == p[j + 1];
    }
  }

  lemma AppendAssoc<T>(a: seq<T>, b: seq<T>, c: seq<T>)
    ensures a + b + c == a + (b + c)
  {
  }
}
