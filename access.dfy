/** `Search.get`: parse a key, then apply its steps to the tree one at a time. */
module Access {
  import opened Values
  import opened Keys

  /** What `get(key)` returns or raises on the tree `t`. */
  function Resolve(t: Tree, key: string): Result<Tree> {
    match Parse(key)
    case Err(e) => Err(e)
    case Ok(p) => Follow(t, p)
  }

  /** `get` as written: the parsed parts drive a loop that reassigns `node`. */
  method Get(root: Tree, key: string) returns (r: Result<Tree>)
    ensures r == Resolve(root, key)
  {
    var parsed := ParseKey(key);
    if parsed.Err? {
      return Err(parsed.error);
    }
    var parts := parsed.value;
    var node := root;
    for i := 0 to |parts|
      invariant Follow(root, parts) == Follow(node, parts[i..])
    {
      var next := Child(node, parts[i]);
      if next.Err? {
        return Err(next.error);
      }
      node := next.value;
    }
    return Ok(node);
  }

  /** The empty key resolves to the tree itself. */
  lemma ResolveEmpty(t: Tree)
    ensures Resolve(t, "") == Ok(t)
  {
    ParseNoEmptyField("");
  }

  /** Outer dots never change what a key resolves to. */
  lemma ResolveIgnoresOuterDots(t: Tree, key: string)
    ensures Resolve(t, StripDots(key)) == Resolve(t, key)
  {
    ParseIgnoresOuterDots(key);
  }

  /** Re-rooting: if `prefix` is a settled key that resolves to `node`, then
      any text `rest` that starts a new segment (or any text at all, when the
      prefix leaves no name pending) resolves in `node`, once its outer dots
      are stripped, to what `prefix + rest` resolves to in `t`. */
  lemma ResolveBelow(t: Tree, prefix: string, rest: string)
    requires SettledKey(prefix) && Resolve(t, prefix).Ok?
    requires rest == "" || rest[0] == '.' || rest[0] == '[' || Scan(prefix, Start).value.name == ""
    ensures Resolve(Resolve(t, prefix).value, StripDots(rest)) == Resolve(t, prefix + rest)
  {
    ParseSplit(prefix, rest);
    ParseIgnoresOuterDots(rest);
    match Parse(rest)
    case Err(e) =>
    case Ok(q) => FollowAppend(t, Parse(prefix).value, q);
  }
}
