/** The key grammar of `parse_key`: a character-driven state machine with a
    field-name buffer, a digit buffer and an "inside brackets" flag, and the
    segments (`.name`, `[i]`) that the walk uses to build keys. */
module Keys {
  import opened Values

  // ---------------------------------------------------------------- digits

  predicate IsDigit(ch: char) {
    '0' <= ch <= '9'
  }

  predicate AllDigits(s: string) {
    forall j :: 0 <= j < |s| ==> IsDigit(s[j])
  }

  /** `int(s)` for a string of ASCII digits (leading zeros allowed). */
  function DigitsValue(s: string): nat
    requires AllDigits(s)
    decreases |s|
  {
    if s == [] then 0
    else DigitsValue(s[..|s| - 1]) * 10 + (s[|s| - 1] as int - '0' as int)
  }

  /** The decimal rendering of an index, as `f"{index}"` writes it. */
  function Decimal(n: nat): (s: string)
    ensures s != [] && AllDigits(s)
  {
    if n < 10 then [(n + '0' as int) as char]
    else Decimal(n / 10) + [(n % 10 + '0' as int) as char]
  }

  /** `int(f"{n}") == n`. */
  lemma {:induction false} DecimalValue(n: nat)
    ensures DigitsValue(Decimal(n)) == n
  {
    var s := Decimal(n);
    if n >= 10 {
      DecimalValue(n / 10);
      assert s[..|s| - 1] == Decimal(n / 10);
    }
  }

  // -------------------------------------------------------------- segments

  /** The segment the walk appends for one step: `.name` for a mapping
      child, `[i]` for a list or tuple child. */
  function Seg(s: Step): string {
    match s
    case Field(n) => "." + n
    case Index(i) => "[" + Decimal(i) + "]"
  }

  /** The segments of a whole path, concatenated. */
  function Segs(p: Path): string
    decreases |p|
  {
    if p == [] then "" else Seg(p[0]) + Segs(p[1..])
  }

  function TrimLeft(s: string): (r: string)
    ensures r == [] || r[0] != '.'
    decreases |s|
  {
    if s != [] && s[0] == '.' then TrimLeft(s[1..]) else s
  }

  function TrimRight(s: string): string
    decreases |s|
  {
    if s != [] && s[|s| - 1] == '.' then TrimRight(s[..|s| - 1]) else s
  }

  /** Python's `s.strip(".")`: the middle of `s` left once the runs of dots
      at either end are cut off. */
  function StripDots(s: string): (r: string)
    ensures r == [] || (r[0] != '.' && r[|r| - 1] != '.')
    ensures exists i, j :: 0 <= i <= j <= |s| && r == s[i..j] &&
              (forall k :: 0 <= k < i ==> s[k] == '.') && (forall k :: j <= k < |s| ==> s[k] == '.')
  {
    TrimRightKeepsFront(TrimLeft(s));
    TrimCuts(s);
    TrimRight(TrimLeft(s))
  }

  lemma TrimCuts(s: string)
    ensures exists i, j :: 0 <= i <= j <= |s| && TrimRight(TrimLeft(s)) == s[i..j] &&
              (forall k :: 0 <= k < i ==> s[k] == '.') && (forall k :: j <= k < |s| ==> s[k] == '.')
  {
    var i := TrimLeftCuts(s);
    var j := TrimRightCuts(s[i..]);
    assert TrimRight(TrimLeft(s)) == s[i..][..j] == s[i..i + j];
    assert forall k :: i + j <= k < |s| ==> s[k] == s[i..][k - i];
  }

  /** `TrimLeft` drops a run of leading dots and nothing else. */
  lemma {:induction false} TrimLeftCuts(s: string) returns (i: nat)
    ensures i <= |s| && TrimLeft(s) == s[i..] && forall k :: 0 <= k < i ==> s[k] == '.'
    decreases |s|
  {
    if s != [] && s[0] == '.' {
      var i' := TrimLeftCuts(s[1..]);
      i := i' + 1;
      assert s[1..][i'..] == s[i..];
      forall k | 0 <= k < i ensures s[k] == '.' {
        if k > 0 { assert s[k] == s[1..][k - 1]; }
      }
    } else {
      i := 0;
    }
  }

  /** `TrimRight` drops a run of trailing dots and nothing else. */
  lemma {:induction false} TrimRightCuts(s: string) returns (j: nat)
    ensures j <= |s| && TrimRight(s) == s[..j] && forall k :: j <= k < |s| ==> s[k] == '.'
    decreases |s|
  {
    if s != [] && s[|s| - 1] == '.' {
      var t := s[..|s| - 1];
      j := TrimRightCuts(t);
      assert t[..j] == s[..j];
      forall k | j <= k < |s| ensures s[k] == '.' {
        if k < |s| - 1 { assert s[k] == t[k]; }
      }
    } else {
      j := |s|;
    }
  }

  lemma {:induction false} TrimRightKeepsFront(s: string)
    requires s == [] || s[0] != '.'
    ensures var r := TrimRight(s); r == [] || (r[0] != '.' && r[|r| - 1] != '.' && r <= s)
    decreases |s|
  {
    if s != [] && s[|s| - 1] == '.' {
      var t := s[..|s| - 1];
      TrimRightKeepsFront(t);
    }
  }

  /** The key of a leaf path, as the walk writes it: segments with the outer
      dots stripped. */
  function Render(p: Path): string {
    StripDots(Segs(p))
  }

  // ---------------------------------------------------------------- parser

  /** What `int_key` can hold: it only ever receives digits. */
  type Digits = s: string | AllDigits(s)

  /** The loop variables of `parse_key`: `parts`, `str_key`, `int_key`, `digit`. */
  datatype PState = PState(parts: Path, name: string, digits: Digits, inBracket: bool)

  const Start := PState([], "", "", false)

  /** `if str_key: parts.append(str_key)`. */
  function Flush(parts: Path, name: string): Path {
    if name != "" then parts + [Field(name)] else parts
  }

  /** The parts a state stands for once the input ends. */
  function Finish(st: PState): Path {
    Flush(st.parts, st.name)
  }

  /** One iteration of the loop of `parse_key` on character `ch`. */
  function Feed(st: PState, ch: char): Result<PState> {
    if ch == '.' then
      Ok(PState(Flush(st.parts, st.name), "", st.digits, st.inBracket))
    else if ch == '[' then
      Ok(PState(Flush(st.parts, st.name), "", st.digits, true))
    else if ch == ']' then
      if st.digits == "" then Err(ValueError)   // int("") raises
      else Ok(PState(st.parts + [Index(DigitsValue(st.digits))], st.name, "", false))
    else if st.inBracket then
      if IsDigit(ch) then Ok(st.(digits := st.digits + [ch])) else Err(ValueError)
    else
      Ok(st.(name := st.name + [ch]))
  }

  /** The state after feeding every character of `s`, or the first error. */
  function Scan(s: string, st: PState): Result<PState>
    decreases |s|
  {
    if s == [] then Ok(st)
    else match Feed(st, s[0])
      case Err(e) => Err(e)
      case Ok(next) => Scan(s[1..], next)
  }

  /** `parse_key(key)`. */
  function Parse(key: string): Result<Path> {
    match Scan(key, Start)
    case Err(e) => Err(e)
    case Ok(st) => Ok(Finish(st))
  }

  /** The loop of `parse_key`, as written: one pass over the characters. */
  method ParseKey(key: string) returns (r: Result<Path>)
    ensures r == Parse(key)
  {
    var strKey: string, intKey: Digits := "", "";
    var digit := false;
    var parts: Path := [];
    for i := 0 to |key|
      invariant Scan(key, Start) == Scan(key[i..], PState(parts, strKey, intKey, digit))
    {
      var ch := key[i];
      if ch == '.' {
        if strKey != "" {
          parts := parts + [Field(strKey)];
        }
        strKey := "";
      } else if ch == '[' {
        if strKey != "" {
          parts := parts + [Field(strKey)];
        }
        strKey := "";
        digit := true;
      } else if ch == ']' {
        if intKey == "" {
          return Err(ValueError);
        }
        parts := parts + [Index(DigitsValue(intKey))];
        intKey := "";
        digit := false;
      } else if digit {
        if !IsDigit(ch) {
          return Err(ValueError);
        }
        intKey := intKey + [ch];
      } else {
        strKey := strKey + [ch];
      }
    }
    if strKey != "" {
      parts := parts + [Field(strKey)];
    }
    return Ok(parts);
  }

  // -------------------------------------------------- properties of Parse

  /** Feeding a concatenation is feeding its halves in turn. */
  lemma {:induction false} ScanAppend(a: string, b: string, st: PState)
    ensures Scan(a + b, st) == (match Scan(a, st)
                                 case Err(e) => Err(e)
                                 case Ok(mid) => Scan(b, mid))
    decreases |a|
  {
    if a == [] {
      assert a + b == b;
    } else {
      assert (a + b)[0] == a[0];
      assert (a + b)[1..] == a[1..] + b;
      match Feed(st, a[0])
      case Err(e) =>
      case Ok(next) => ScanAppend(a[1..], b, next);
    }
  }

  predicate NoEmptyField(p: Path) {
    forall j :: 0 <= j < |p| ==> p[j].Field? ==> p[j].name != ""
  }

  lemma {:induction false} ScanKeepsNoEmptyField(s: string, st: PState)
    requires NoEmptyField(st.parts)
    ensures Scan(s, st).Ok? ==> NoEmptyField(Scan(s, st).value.parts)
    decreases |s|
  {
    if s != [] {
      match Feed(st, s[0])
      case Err(e) =>
      case Ok(next) => ScanKeepsNoEmptyField(s[1..], next);
    }
  }

  /** `parse_key` never emits an empty field name, and `parse_key("")` is `[]`. */
  lemma ParseNoEmptyField(key: string)
    ensures Parse(key).Ok? ==> NoEmptyField(Parse(key).value)
    ensures Parse("") == Ok([])
  {
    ScanKeepsNoEmptyField(key, Start);
  }

  function IndexCount(p: Path): nat
    decreases |p|
  {
    if p == [] then 0 else (if p[0].Index? then 1 else 0) + IndexCount(p[1..])
  }

  lemma {:induction false} IndexCountAppend(p: Path, q: Path)
    ensures IndexCount(p + q) == IndexCount(p) + IndexCount(q)
    decreases |p|
  {
    if p == [] {
      assert p + q == q;
    } else {
      assert (p + q)[1..] == p[1..] + q;
      IndexCountAppend(p[1..], q);
    }
  }

  lemma {:induction false} ScanCountsClosers(s: string, st: PState)
    ensures Scan(s, st).Ok? ==>
      IndexCount(Scan(s, st).value.parts) == IndexCount(st.parts) + multiset(s)[']']
    decreases |s|
  {
    if s != [] {
      assert s == [s[0]] + s[1..];
      assert multiset(s) == multiset([s[0]]) + multiset(s[1..]);
      match Feed(st, s[0])
      case Err(e) =>
      case Ok(next) =>
        ScanCountsClosers(s[1..], next);
        IndexCountAppend(st.parts, [Field(st.name)]);
        if s[0] == ']' {
          IndexCountAppend(st.parts, [Index(DigitsValue(st.digits))]);
          assert IndexCount(next.parts) == IndexCount(st.parts) + 1;
        } else {
          assert IndexCount(next.parts) == IndexCount(st.parts);
        }
    }
  }

  /** Index steps come only from `]`: a successful parse has exactly one
      index step per closing bracket of the key. */
  lemma ParseIndexPerCloser(key: string)
    ensures Parse(key).Ok? ==> IndexCount(Parse(key).value) == multiset(key)[']']
  {
    ScanCountsClosers(key, Start);
    if Scan(key, Start).Ok? {
      var st := Scan(key, Start).value;
      IndexCountAppend(st.parts, [Field(st.name)]);
    }
  }

  /** The two ways `parse_key` raises: a `]` while the digit buffer is empty
      (`int("")`), or a character other than `.`, `[`, `]` and a digit
      inside an open bracket. */
  predicate Rejects(st: PState, ch: char) {
    (ch == ']' && st.digits == "") ||
    (ch != '.' && ch != '[' && ch != ']' && st.inBracket && !IsDigit(ch))
  }

  lemma {:induction false} ScanFailsIff(s: string, st: PState)
    ensures Scan(s, st).Err? ==> Scan(s, st).error == ValueError
    ensures Scan(s, st).Err? <==>
      exists i :: 0 <= i < |s| && Scan(s[..i], st).Ok? && Rejects(Scan(s[..i], st).value, s[i])
    decreases |s|
  {
    if s != [] {
      assert s[..0] == [];
      match Feed(st, s[0])
      case Err(e) =>
        assert Rejects(Scan(s[..0], st).value, s[0]);
      case Ok(next) =>
        ScanFailsIff(s[1..], next);
        var t := s[1..];
        forall i | 1 <= i <= |s|
          ensures Scan(s[..i], st) == Scan(t[..i - 1], next)
        {
          assert s[..i] == [s[0]] + t[..i - 1];
          assert s[..i][1..] == t[..i - 1];
        }
        if Scan(s, st).Err? {
          var i' :| 0 <= i' < |t| && Scan(t[..i'], next).Ok? && Rejects(Scan(t[..i'], next).value, t[i']);
          assert Scan(s[..i' + 1], st).Ok? && Rejects(Scan(s[..i' + 1], st).value, s[i' + 1]);
        }
        if exists i :: 0 <= i < |s| && Scan(s[..i], st).Ok? && Rejects(Scan(s[..i], st).value, s[i]) {
          var i :| 0 <= i < |s| && Scan(s[..i], st).Ok? && Rejects(Scan(s[..i], st).value, s[i]);
          assert i != 0;
          assert Scan(t[..i - 1], next).Ok? && Rejects(Scan(t[..i - 1], next).value, t[i - 1]);
        }
    }
  }

  /** `parse_key(key)` raises (a ValueError) exactly when, after some prefix of
      the key, the next character is one of the two rejected cases. */
  lemma ParseFailsIff(key: string)
    ensures Parse(key).Err? ==> Parse(key).error == ValueError
    ensures Parse(key).Err? <==>
      exists i :: 0 <= i < |key| && Scan(key[..i], Start).Ok? && Rejects(Scan(key[..i], Start).value, key[i])
  {
    ScanFailsIff(key, Start);
  }

  /** A leading `.` is a no-op at the start of a key. */
  lemma ParseSkipsLeadingDot(s: string)
    ensures Parse("." + s) == Parse(s)
  {
    assert ("." + s)[0] == '.';
    assert ("." + s)[1..] == s;
  }

  /** A trailing `.` only flushes the pending name, which the end of input does anyway. */
  lemma ParseSkipsTrailingDot(s: string)
    ensures Parse(s + ".") == Parse(s)
  {
    ScanAppend(s, ".", Start);
    if Scan(s, Start).Ok? {
      var st := Scan(s, Start).value;
      assert Scan(".", st) == Ok(PState(Flush(st.parts, st.name), "", st.digits, st.inBracket));
    }
  }

  lemma {:induction false} ParseTrimLeft(s: string)
    ensures Parse(TrimLeft(s)) == Parse(s)
    decreases |s|
  {
    if s != [] && s[0] == '.' {
      ParseTrimLeft(s[1..]);
      assert s == "." + s[1..];
      ParseSkipsLeadingDot(s[1..]);
    }
  }

  lemma {:induction false} ParseTrimRight(s: string)
    ensures Parse(TrimRight(s)) == Parse(s)
    decreases |s|
  {
    if s != [] && s[|s| - 1] == '.' {
      ParseTrimRight(s[..|s| - 1]);
      assert s == s[..|s| - 1] + ".";
      ParseSkipsTrailingDot(s[..|s| - 1]);
    }
  }

  /** Stripping the outer dots of a key never changes what it parses to. */
  lemma ParseIgnoresOuterDots(s: string)
    ensures Parse(StripDots(s)) == Parse(s)
  {
    ParseTrimRight(TrimLeft(s));
    ParseTrimLeft(s);
  }

  /** A state between segments: no open bracket and an empty digit buffer. */
  predicate Settled(st: PState) {
    !st.inBracket && st.digits == ""
  }

  lemma {:induction false} ScanName(w: string, st: PState)
    requires !st.inBracket
    requires '.' !in w && '[' !in w && ']' !in w
    ensures Scan(w, st) == Ok(st.(name := st.name + w))
    decreases |w|
  {
    if w == [] {
      assert st.name + w == st.name;
    } else {
      assert w[0] in w;
      assert forall c :: c in w[1..] ==> c in w;
      ScanName(w[1..], st.(name := st.name + [w[0]]));
      assert st.name + [w[0]] + w[1..] == st.name + w;
    }
  }

  lemma {:induction false} ScanDigits(ds: string, st: PState)
    requires st.inBracket && AllDigits(ds)
    ensures Scan(ds, st) == Ok(st.(digits := st.digits + ds))
    decreases |ds|
  {
    if ds == [] {
      assert st.digits + ds == st.digits;
    } else {
      ScanDigits(ds[1..], st.(digits := st.digits + [ds[0]]));
      assert st.digits + [ds[0]] + ds[1..] == st.digits + ds;
    }
  }

  /** Feeding one segment from a settled state appends its step. */
  lemma ScanSeg(s: Step, st: PState)
    requires Settled(st)
    requires s.Field? ==> SimpleName(s.name)
    ensures Scan(Seg(s), st).Ok?
    ensures var st' := Scan(Seg(s), st).value;
      Settled(st') && Finish(st') == Finish(st) + [s]
  {
    var flushed := PState(Flush(st.parts, st.name), "", "", false);
    match s
    case Field(n) =>
      ScanAppend(".", n, st);
      assert Scan(".", st) == Ok(flushed);
      ScanName(n, flushed);
      assert flushed.name + n == n;
    case Index(i) =>
      var ds := Decimal(i);
      var inside := flushed.(inBracket := true);
      assert Seg(s) == "[" + (ds + "]");
      ScanAppend("[", ds + "]", st);
      assert Scan("[", st) == Ok(inside);
      ScanAppend(ds, "]", inside);
      ScanDigits(ds, inside);
      assert "" + ds == ds;
      DecimalValue(i);
      assert Scan("]", inside.(digits := ds)) == Ok(PState(flushed.parts + [Index(i)], "", "", false));
  }

  lemma {:induction false} ScanSegs(p: Path, st: PState)
    requires Settled(st) && SimplePath(p)
    ensures Scan(Segs(p), st).Ok?
    ensures var st' := Scan(Segs(p), st).value;
      Settled(st') && Finish(st') == Finish(st) + p
    decreases |p|
  {
    if p == [] {
      assert Finish(st) + p == Finish(st);
    } else {
      var head, tail := Seg(p[0]), Segs(p[1..]);
      assert Segs(p) == head + tail;
      SimpleTail(p);
      ScanSeg(p[0], st);
      var mid := Scan(head, st).value;
      ScanAppend(head, tail, st);
      assert Scan(head + tail, st) == Scan(tail, mid);
      ScanSegs(p[1..], mid);
      assert Scan(Segs(p), st) == Scan(tail, mid);
      AppendAssoc(Finish(st), [p[0]], p[1..]);
      assert [p[0]] + p[1..] == p;
    }
  }

  /** The rendered segments of a path with simple names parse back to the path. */
  lemma ParseSegs(p: Path)
    requires SimplePath(p)
    ensures Parse(Segs(p)) == Ok(p)
  {
    ScanSegs(p, Start);
    assert Finish(Start) + p == p;
  }

  /** Round trip of the key grammar: `parse_key(render(p)) == p`. */
  lemma ParseRender(p: Path)
    requires SimplePath(p)
    ensures Parse(Render(p)) == Ok(p)
  {
    ParseSegs(p);
    ParseIgnoresOuterDots(Segs(p));
  }

  /** A key whose scan succeeds and ends between segments. */
  predicate SettledKey(key: string) {
    Scan(key, Start).Ok? && Settled(Scan(key, Start).value)
  }

  lemma {:induction false} ScanShift(s: string, st: PState, pre: Path)
    ensures Scan(s, st.(parts := pre + st.parts)) ==
      (match Scan(s, st)
       case Err(e) => Err(e)
       case Ok(st') => Ok(st'.(parts := pre + st'.parts)))
    decreases |s|
  {
    if s != [] {
      var shifted := st.(parts := pre + st.parts);
      assert pre + st.parts + [Field(st.name)] == pre + (st.parts + [Field(st.name)]);
      assert pre + st.parts + [Index(DigitsValue(st.digits))] == pre + (st.parts + [Index(DigitsValue(st.digits))]);
      match Feed(st, s[0])
      case Err(e) =>
      case Ok(next) =>
        assert Feed(shifted, s[0]) == Ok(next.(parts := pre + next.parts));
        ScanShift(s[1..], next, pre);
    }
  }

  /** What the loop keeps between characters: inside a bracket the name
      buffer is empty, outside one the digit buffer is. */
  predicate Coherent(st: PState) {
    (st.inBracket ==> st.name == "") && (!st.inBracket ==> st.digits == "")
  }

  lemma {:induction false} ScanKeepsCoherent(s: string, st: PState)
    requires Coherent(st)
    ensures Scan(s, st).Ok? ==> Coherent(Scan(s, st).value)
    decreases |s|
  {
    if s != [] {
      match Feed(st, s[0])
      case Err(_) =>
      case Ok(next) => ScanKeepsCoherent(s[1..], next);
    }
  }

  /** The key is empty or its last character closed a segment. */
  predicate BetweenSegments(key: string) {
    key == "" || key[|key| - 1] == '.' || key[|key| - 1] == ']'
  }

  /** After a `.` or a `]` no field name is pending. */
  lemma NoPendingName(key: string)
    requires Scan(key, Start).Ok? && BetweenSegments(key)
    ensures Scan(key, Start).value.name == ""
  {
    if key != "" {
      var q, c := key[..|key| - 1], key[|key| - 1];
      assert key == q + [c];
      ScanAppend(q, [c], Start);
      ScanKeepsCoherent(q, Start);
    }
  }

  /** A settled key followed by text that starts a new segment, or by any
      text once no name is pending, parses to the key's steps followed by the
      text's steps. */
  lemma ParseSplit(key: string, rest: string)
    requires SettledKey(key)
    requires rest == "" || rest[0] == '.' || rest[0] == '[' || Scan(key, Start).value.name == ""
    ensures Parse(key).Ok?
    ensures Parse(key + rest) == (match Parse(rest)
                                   case Err(e) => Err(e)
                                   case Ok(q) => Ok(Parse(key).value + q))
  {
    var st := Scan(key, Start).value;
    ScanAppend(key, rest, Start);
    var fresh0 := Start.(parts := Finish(st) + Start.parts);
    assert Finish(st) + Start.parts == Finish(st);
    if rest != [] {
      // the first character of rest flushes the pending name from either state
      assert Feed(st, rest[0]) == Feed(fresh0, rest[0]);
      assert Scan(rest, st) == Scan(rest, fresh0);
    }
    ScanShift(rest, Start, Finish(st));
    match Scan(rest, Start)
    case Err(e) =>
    case Ok(st') =>
      assert Finish(st'.(parts := Finish(st) + st'.parts)) == Finish(st) + Finish(st');
  }

  /** An index step is built from the digits between its brackets and
      nothing else: after a settled key, `[ds]` parses to the index whose
      decimal digits are `ds` (leading zeros included), and the rest of the
      key parses on its own. */
  lemma ParseBracketDigits(key: string, ds: string, rest: string)
    requires SettledKey(key) && AllDigits(ds) && ds != ""
    ensures Parse(key + ("[" + ds + "]") + rest) ==
      (match Parse(rest)
       case Err(e) => Err(e)
       case Ok(q) => Ok(Parse(key).value + [Index(DigitsValue(ds))] + q))
  {
    var st := Scan(key, Start).value;
    var seg := "[" + ds + "]";
    var inside := PState(Finish(st), "", "", true);
    assert seg == "[" + (ds + "]");
    ScanAppend("[", ds + "]", st);
    assert Scan("[", st) == Ok(inside);
    ScanAppend(ds, "]", inside);
    ScanDigits(ds, inside);
    assert "" + ds == ds;
    var after := PState(Finish(st) + [Index(DigitsValue(ds))], "", "", false);
    assert Scan(seg, st) == Ok(after);
    ScanAppend(key, seg, Start);
    ParseSplit(key + seg, rest);
  }
}
