# needle's key-path engine, modelled in Dafny

needle turns a nested configuration tree (dicts, lists and tuples with scalar
leaves) into a flat list of path keys such as `pipeline[0].params.layers[2]`.
It parses such a key back into field and index steps, fetches the value a key
names, and narrows the key list by substring, by depth or by subtree. This
project models that engine, in both copies of the code: the `Search` class of
`needle/search.py` and the earlier `Search` class of `needle/__init__.py`. It
proves what the walk, the parser and the filters promise.

Modules:

- `Values` (values.dfy): the tree (`Leaf | Obj(seq<(string, Tree)>) | Arr(seq<Tree>)`), steps (`Field(name) | Index(i)`), Python subscription `node[part]` as `Child`, and the errors `ValueError`, `KeyError`, `IndexError` and `TypeError` as a `Result`.
- `Keys` (keys.dfy): `parse_key` as a state machine over `(parts, str_key, int_key, digit)`. `Feed` is one loop iteration, `Scan` the whole loop and `Parse` the result. The method `ParseKey` is the loop as written. The module also has the segment rendering `.name` / `[i]` that the walk uses.
- `Access` (access.dfy): `get`, as `Resolve` (parse, then follow) and as the loop `Get` that reassigns `node`.
- `Flattening` (flattening.dfy): `_flatten` as the recursive `Walk`, the loop method `FlattenFrom`, and `flatten()` with its final `strip(".")`. It also has an independent reference enumeration of the leaves, `LeafPaths`, and proves that the walk's keys are exactly those leaves' renderings: shape, round trip through `get`, coverage and no duplicates.
- `Filters` (filters.dfy): the list comprehensions behind `find`, `max_depth`, `fixed_depth` and `subsearch`.
- `Needle` (search.dfy): `needle/search.py`'s `Search` as a class whose fields are set once in the constructor.
- `NeedleLegacy` (legacy.dfy): `needle/__init__.py`'s `Search`. Here the cache is a mutable field, because `create` overwrites it after construction.
- `Scenarios` (scenarios.dfy): the expected keys of `tests/test_search.py`; three parser cases: `x[1].y[2].z`, which parses to five steps, and `obj[key]` and `[[1]]`, which raise `ValueError`; and the counterexample behind the finding below.

`parse_key`, `_flatten`, `get`, `atomic` and `find` are textually the same in both files. Each is modelled once, and the table cites both copies.

Behaviour of the code worth knowing:

- Depth is `key.count(".")` (`Filters.Depth`), so `[0][1]` has depth 0. `Filters.RenderDepth` proves what it measures in terms of the steps.
- `max_depth` and `fixed_depth` build a `Search` without a prefix.
- `find` returns the list of matching keys, and matches substrings anywhere in the key.
- `subsearch` keeps every cached key that starts with the prefix as text (see Findings).

Also modelled:

- Dict entries are a sequence of `(name, child)` pairs in mapping order. Lookup takes the first entry with a name. `WellFormed` states that the names of a Python dict are distinct.
- The round trip holds for trees whose field names are non-empty and contain no `.`, `[` or `]` (`Addressable`).
- Python strings are `seq<char>`, and digits are ASCII `0`–`9`.

## Model

| member | source | states |
|---|---|---|
| Values.Lookup | needle/search.py:46 | `node[name]` on a dict succeeds iff the name is present and then returns that entry's value; otherwise it raises `KeyError` |
| Values.FollowAppend | needle/search.py:45-47 | applying the steps of `a + b` is applying `a`, then `b` from where `a` ended, with the first failure propagated |
| Keys.DecimalValue | needle/search.py:35 | `int` of the index text `f"{index}"` that the walk writes is the index itself |
| Keys.StripDots | needle/search.py:41 | `k.strip(".")` is the slice of `k` left once the runs of `.` at both ends are cut off, and it has no `.` at either end |
| Keys.ParseKey | needle/search.py:76-102 | the character loop of `parse_key` (also needle/__init__.py:57-83) returns exactly `Parse(key)`, the fold of one-character steps |
| Keys.ParseNoEmptyField | needle/search.py:80-101 | `parse_key` never emits an empty field name, and `parse_key("")` is `[]` |
| Keys.ParseIndexPerCloser | needle/search.py:90-93 | every successful parse has exactly one index step per `]` in the key |
| Keys.ParseBracketDigits | needle/search.py:85-97 | after a settled key, `[ds]` with non-empty digits `ds` parses to the index `int(ds)` (leading zeros included, so `a[007]` gives 7), and the text after it parses independently |
| Keys.ParseFailsIff | needle/search.py:90-97 | `parse_key` fails only with `ValueError`, and fails iff some prefix of the key leaves a state that rejects the next character: a non-digit inside brackets, or `]` with no digits (`int("")`) |
| Keys.ParseIgnoresOuterDots | needle/search.py:81-84 | leading and trailing dots never change what a key parses to |
| Keys.ParseRender | needle/search.py:29-41 | a path with simple names, written with `.name` and `[i]` segments and stripped of outer dots, parses back to itself |
| Keys.ParseSplit | needle/search.py:80-93 | a settled key followed by a new segment (or by anything, once no name is pending) parses to the key's steps followed by the rest's steps |
| Keys.NoPendingName | needle/search.py:81-93 | after a `.` or a `]` the name buffer is empty |
| Access.Get | needle/search.py:43-47 | the `get` loop (also needle/__init__.py:43-47) returns exactly `Resolve(root, key)`: the parse error, or the first failing subscription, or the value reached |
| Access.ResolveEmpty | needle/search.py:43-47 | `get("")` returns the whole tree: the loop runs no subscription |
| Access.ResolveIgnoresOuterDots | needle/search.py:43-47 | `get(key)` and `get(key.strip("."))` give the same result, value or error |
| Access.ResolveBelow | needle/search.py:58-61 | the subtree at a settled prefix resolves the rest of a longer key to what the whole key resolves to from the root |
| Flattening.FlattenFrom | needle/search.py:23-39 | the `_flatten` loops with `append`/`extend` (also needle/__init__.py:23-39) collect exactly `Walk(node, parent)` |
| Flattening.FlattenTree | needle/search.py:21-41 | `flatten()` is the walk from the root with each key stripped of outer dots |
| Flattening.StripAll | needle/search.py:41 | the strip keeps the number and order of keys and strips each one |
| Flattening.WalkKeys | needle/search.py:28-38 | the walk emits one key per leaf path, in pre-order (dict entries in mapping order, items in index order), each the parent key followed by `.name` / `[i]` per step |
| Flattening.FlattenRendersLeafPaths | needle/search.py:21-41 | the i-th key of `flatten()` is the rendering of the i-th leaf path, stripped of outer dots |
| Flattening.LeafPathsReachLeaves | needle/search.py:24-38 | every path the walk records is non-empty and ends on an atomic leaf, so an atomic root and an empty container get no key |
| Flattening.LeafPathsComplete | needle/search.py:24-38 | every non-empty path to an atomic leaf is recorded |
| Flattening.FlattenRoundTrip | needle/search.py:41-47 | for a tree with distinct, simple names, `get` of the i-th flat key returns the leaf that produced it |
| Flattening.FlattenCoversLeaves | needle/search.py:21-41 | every leaf's key is among the flat keys |
| Flattening.FlattenKeysDistinct | needle/search.py:21-41 | no flat key occurs twice when names are distinct and simple |
| Filters.FilterExact | needle/search.py:56 | a comprehension filter keeps, in order, exactly the elements passing its test, each as often as in the input |
| Filters.FilterMonotone | needle/search.py:64 | a weaker test keeps, in order, everything a stricter one keeps |
| Filters.FilterAll | needle/search.py:64 | a test every element passes keeps the whole list |
| Filters.FixedDepthPartition | needle/search.py:67-69 | `fixed_depth` places each cached key at its own dot count and at no other; its keys all come from the cache |
| Filters.MaxDepthMonotone | needle/search.py:63-65 | `max_depth(d)` is a subsequence of `max_depth(e)` for `d <= e`, and is the whole cache once no key is deeper than `d` |
| Filters.MaxDepthSplits | needle/search.py:63-69 | `max_depth(d)` holds the keys of `max_depth(d - 1)` and of `fixed_depth(d)`, as multisets |
| Filters.SegsDepth | needle/search.py:29-35 | each `.name` segment adds one dot to a key and each `[i]` segment none |
| Filters.RenderDepth | needle/search.py:41 | the dot count of a walk-written key is its field steps, less one when it starts with a field name |
| Filters.FlattenDepth | needle/search.py:64 | on the keys of `flatten()`, the depth `max_depth`/`fixed_depth` compare counts the leaf path's field steps after a leading one |
| Filters.RekeyKeepsPrefixed | needle/search.py:60 | the `subsearch` comprehension as written keeps, in order, exactly the keys that start with the prefix, each with the prefix removed and outer dots stripped |
| Filters.RekeyUnderKeepsBelow | needle/search.py:60 | the corrected comprehension keeps, in order, exactly the keys below the prefix, each cut down the same way |
| Filters.SubkeyResolves | needle/search.py:58-61 | a key below a settled prefix, cut down, resolves in the subtree to what it resolved to in the tree |
| Filters.RekeyUnderResolves | needle/search.py:58-61 | every re-keyed entry resolves in the subtree to the value its original key resolves to in the tree |
| Filters.RekeyUnderKeepsConsistent | needle/search.py:58-61 | if every cached key resolves, every re-keyed key resolves in the subtree |
| Filters.RekeyAgreesWhenBounded | needle/search.py:60 | the textual prefix test agrees with the corrected one when no cached key merely shares the prefix's text |
| Needle.Search.constructor | needle/search.py:8-11 | holds `obj`, the given cache or `flatten()` of `obj`, and the given prefix; a flattened cache resolves key by key |
| Needle.Search.FlatKeys | needle/search.py:13-15 | `flat_keys` equals the cache, so each of its keys resolves when the cache does |
| Needle.Search.Prefix | needle/search.py:17-19 | the recorded prefix, or `""` when none was given |
| Needle.Search.GetItem | needle/search.py:49-53 | `__getitem__` succeeds iff `get` does, with the same value; `KeyError` and `IndexError` both become `KeyError`; other errors pass through; `IndexError` never escapes |
| Needle.Search.Find | needle/search.py:55-56 | `find(s)` is exactly the cached keys containing `s` contiguously, in order, with their multiplicities |
| Needle.Search.Subsearch | needle/search.py:58-61 | fails exactly as `get(prefix)` fails; otherwise re-roots on `get(prefix)`, records the prefix, and sets the cache to the `startswith` re-keying `Rekey`; a consistent cache stays consistent when the prefix is settled and every cached key that starts with it lies below it |
| Needle.Search.MaxDepth | needle/search.py:63-65 | same tree, cache of the keys with at most `depth` dots, no prefix; consistency is kept |
| Needle.Search.FixedDepth | needle/search.py:67-69 | same tree, cache of the keys with exactly `depth` dots, no prefix; consistency is kept |
| NeedleLegacy.Search.constructor | needle/__init__.py:7-9 | holds `obj` and the given cache or `flatten()` of `obj` |
| NeedleLegacy.Search.FlatKeys | needle/__init__.py:11-13 | `flat_keys` equals the cache and reading it changes nothing |
| NeedleLegacy.Search.Create | needle/__init__.py:15-19 | `create(obj, cache)` yields a new search holding `obj` and the given cache, or `flatten()` of `obj` when none is given |
| NeedleLegacy.Search.Find | needle/__init__.py:49-50 | `find(s)` is exactly the cached keys containing `s` contiguously, in order, with their multiplicities |
| Scenarios.NestedDict | tests/test_search.py:56-60 | `{"one": {"two": {"three": 1}}}` flattens to `["one.two.three"]` |
| Scenarios.OneLevelList | tests/test_search.py:61-65 | `["one", "two", "three"]` flattens to `["[0]", "[1]", "[2]"]` |
| Scenarios.NestedList | tests/test_search.py:66-70 | `[[["one"]], ["two"], "three", []]` flattens to `["[0][0][0]", "[1][0]", "[2]"]`; the empty list adds nothing |
| Scenarios.NestedTuple | tests/test_search.py:71-75 | `(((1,), (2,), (3, 4)), (5,))` flattens to the five keys the test expects |
| Scenarios.Empty | tests/test_search.py:76-80 | `{}` flattens to no keys |
| Scenarios.ParseExample | needle/__init__.py:57-83 | `parse_key("x[1].y[2].z")` is `["x", 1, "y", 2, "z"]` |
| Scenarios.ParseRejects | needle/search.py:90-96 | `parse_key("obj[key]")` and `parse_key("[[1]]")` raise `ValueError` |
| Scenarios.TextualPrefixStrays | needle/search.py:60 | on `{"train": {"a": 1}, "training": {"x": 2}}` the as-written re-keying for `train` yields `["a", "ing.x"]`, and `ing.x` does not resolve in the subtree; the corrected one yields `["a"]` |

## Left out

- `needle/viewer.py` (rich tables, console output, the interactive prompt loop), `tests/test_viewer.py` and `setup.py`: input/output and packaging around the engine.
- Float scalars: a float is an atomic leaf like any other, so `Scalar` has no separate float case. Payloads are opaque.
- Indexing a string scalar with an int step: Python returns a character, while the model makes every step on a scalar fail with `TypeError`.
- Non-string dict keys: mapping names are strings. Python would render other keys through `str()`.
- Objects that are neither containers nor scalars: `_flatten` gives them no keys, and the model's tree has no such node.
- `str.isdigit` on non-ASCII digits: only `0`–`9` count as digits.
- Exception messages: only the exception class is modelled.
- The heterogeneous test case (tests/test_search.py:17-55): it is not stated as a concrete lemma. It is covered by the general walk lemmas.
- Needle.Search.Subsearch: the consistency guarantee is stated only for settled prefixes whose textual matches in the cache all lie below them. With a key that merely shares the prefix text the program itself produces an unresolvable key (see Findings). A prefix that ends inside an open bracket resolves in Python but names no segment boundary.
- Needle.Search.FlatKeys, NeedleLegacy.Search.FlatKeys: Python returns a fresh copy of the list. On values a copy and the cache are equal, so aliasing is not modelled.

## Findings

| source | as written | input that shows it | evidently intended | confidence | as-written member | corrected member |
|---|---|---|---|---|---|---|
| needle/search.py:60 | `subsearch` keeps every cached key for which `key.startswith(prefix)` holds, a plain text test | `Search({"train": {"a": 1}, "training": {"x": 2}}).subsearch("train")` has cache `["a", "ing.x"]`, and `ing.x` does not resolve in the subtree `{"a": 1}` | keep only keys below the prefix: the prefix ends a segment, or is followed by `.`, `[` or the end of the key. Then every re-keyed key resolves in the subtree to its original value | not executed | Filters.Rekey, Needle.Search.Subsearch, Scenarios.TextualPrefixStrays | Filters.RekeyUnder, Filters.RekeyUnderResolves |
