/** Concrete cases: the expected keys of the flattening tests; three parser
    cases, `x[1].y[2].z` (five steps) and `obj[key]` and `[[1]]` (ValueError);
    and the input that shows `subsearch`'s plain textual prefix test reaching
    into a sibling field. */
module Scenarios {
  import opened Values
  import opened Keys
  import opened Access
  import opened Flattening
  import opened Filters

  lemma StripPlain(s: string)
    requires s != [] && s[0] != '.' && s[|s| - 1] != '.'
    ensures StripDots(s) == s && StripDots("." + s) == s
  {
    assert ("." + s)[1..] == s;
  }

  /** Keys with no outer dot are left as they are by the strip. */
  lemma StripAllPlain(keys: seq<string>)
    requires forall j :: 0 <= j < |keys| ==> keys[j] != [] && keys[j][0] != '.' && keys[j][|keys[j]| - 1] != '.'
    ensures StripAll(keys) == keys
  {
    forall j | 0 <= j < |keys|
      ensures StripAll(keys)[j] == keys[j]
    {
      StripPlain(keys[j]);
    }
  }

  /** Keys made of one leading dot and a plain key lose that dot. */
  lemma StripAllDotted(keys: seq<string>, plain: seq<string>)
    requires |keys| == |plain|
    requires forall j :: 0 <= j < |plain| ==>
      plain[j] != [] && plain[j][0] != '.' && plain[j][|plain[j]| - 1] != '.' && keys[j] == "." + plain[j]
    ensures StripAll(keys) == plain
  {
    forall j | 0 <= j < |keys|
      ensures StripAll(keys)[j] == plain[j]
    {
      StripPlain(plain[j]);
    }
  }

  // ------------------------------------- the walk over small containers

  /** One more entry of a mapping walked, its key given. */
  lemma FieldNext(t: Tree, m: nat, parent: string, key: string)
    requires t.Obj? && 0 < m <= |t.fields| && key == parent + "." + t.fields[m - 1].0
    ensures WalkFields(t, m, parent) == WalkFields(t, m - 1, parent) +
      (if Atomic(t.fields[m - 1].1) then [key] else []) + Walk(t.fields[m - 1].1, key)
  {
  }

  /** One more item of a list walked, its key given. */
  lemma ItemNext(t: Tree, m: nat, parent: string, key: string)
    requires t.Arr? && 0 < m <= |t.items| && key == parent + "[" + Decimal(m - 1) + "]"
    ensures WalkItems(t, m, parent) == WalkItems(t, m - 1, parent) +
      (if Atomic(t.items[m - 1]) then [key] else []) + Walk(t.items[m - 1], key)
  {
  }

  lemma FieldLeaf(t: Tree, parent: string)
    requires t.Obj? && |t.fields| == 1 && Atomic(t.fields[0].1)
    ensures Walk(t, parent) == [parent + "." + t.fields[0].0]
  {
    FieldNext(t, 1, parent, parent + "." + t.fields[0].0);
  }

  lemma FieldOver(t: Tree, parent: string)
    requires t.Obj? && |t.fields| == 1 && !Atomic(t.fields[0].1)
    ensures Walk(t, parent) == Walk(t.fields[0].1, parent + "." + t.fields[0].0)
  {
    FieldNext(t, 1, parent, parent + "." + t.fields[0].0);
  }

  lemma FieldsOver(t: Tree, parent: string)
    requires t.Obj? && |t.fields| == 2 && !Atomic(t.fields[0].1) && !Atomic(t.fields[1].1)
    ensures Walk(t, parent) == Walk(t.fields[0].1, parent + "." + t.fields[0].0) + Walk(t.fields[1].1, parent + "." + t.fields[1].0)
  {
    FieldNext(t, 1, parent, parent + "." + t.fields[0].0);
    FieldNext(t, 2, parent, parent + "." + t.fields[1].0);
  }

  lemma LeafAlone(t: Tree, parent: string)
    requires t.Arr? && |t.items| == 1 && Atomic(t.items[0])
    ensures Walk(t, parent) == [parent + "[0]"]
  {
    assert Decimal(0) == "0";
    ItemNext(t, 1, parent, parent + "[0]");
  }

  lemma LeafPair(t: Tree, parent: string)
    requires t.Arr? && |t.items| == 2 && Atomic(t.items[0]) && Atomic(t.items[1])
    ensures Walk(t, parent) == [parent + "[0]", parent + "[1]"]
  {
    assert Decimal(0) == "0" && Decimal(1) == "1";
    ItemNext(t, 1, parent, parent + "[0]");
    ItemNext(t, 2, parent, parent + "[1]");
  }

  lemma LeafTriple(t: Tree, parent: string)
    requires t.Arr? && |t.items| == 3 && Atomic(t.items[0]) && Atomic(t.items[1]) && Atomic(t.items[2])
    ensures Walk(t, parent) == [parent + "[0]", parent + "[1]", parent + "[2]"]
  {
    assert Decimal(0) == "0" && Decimal(1) == "1" && Decimal(2) == "2";
    ItemNext(t, 1, parent, parent + "[0]");
    ItemNext(t, 2, parent, parent + "[1]");
    ItemNext(t, 3, parent, parent + "[2]");
  }

  lemma ContainerAlone(t: Tree, parent: string)
    requires t.Arr? && |t.items| == 1 && !Atomic(t.items[0])
    ensures Walk(t, parent) == Walk(t.items[0], parent + "[0]")
  {
    assert Decimal(0) == "0";
    ItemNext(t, 1, parent, parent + "[0]");
  }

  lemma ContainerPair(t: Tree, parent: string)
    requires t.Arr? && |t.items| == 2 && !Atomic(t.items[0]) && !Atomic(t.items[1])
    ensures Walk(t, parent) == Walk(t.items[0], parent + "[0]") + Walk(t.items[1], parent + "[1]")
  {
    assert Decimal(0) == "0" && Decimal(1) == "1";
    ItemNext(t, 1, parent, parent + "[0]");
    ItemNext(t, 2, parent, parent + "[1]");
  }

  lemma ContainerTriple(t: Tree, parent: string)
    requires t.Arr? && |t.items| == 3 && !Atomic(t.items[0]) && !Atomic(t.items[1]) && !Atomic(t.items[2])
    ensures Walk(t, parent) == Walk(t.items[0], parent + "[0]") + Walk(t.items[1], parent + "[1]") + Walk(t.items[2], parent + "[2]")
  {
    assert Decimal(0) == "0" && Decimal(1) == "1" && Decimal(2) == "2";
    ItemNext(t, 1, parent, parent + "[0]");
    ItemNext(t, 2, parent, parent + "[1]");
    ItemNext(t, 3, parent, parent + "[2]");
  }

  /** Two containers, a leaf and an empty list, in that order. */
  lemma MixedItems(t: Tree, parent: string)
    requires t.Arr? && |t.items| == 4 && !Atomic(t.items[0]) && !Atomic(t.items[1]) && Atomic(t.items[2]) && t.items[3] == Arr([])
    ensures Walk(t, parent) == Walk(t.items[0], parent + "[0]") + Walk(t.items[1], parent + "[1]") + [parent + "[2]"]
  {
    assert Decimal(0) == "0" && Decimal(1) == "1" && Decimal(2) == "2";
    ItemNext(t, 1, parent, parent + "[0]");
    ItemNext(t, 2, parent, parent + "[1]");
    ItemNext(t, 3, parent, parent + "[2]");
    var k3 := parent + "[" + Decimal(3) + "]";
    ItemNext(t, 4, parent, k3);
    assert Walk(Arr([]), k3) == [];
  }

  // ------------------------------------------------- the flattening tests

  lemma NestedDictWalk()
    ensures Walk(Obj([("one", Obj([("two", Obj([("three", Leaf(Int(1)))]))]))]), "") == [".one.two.three"]
  {
    var c := Obj([("three", Leaf(Int(1)))]);
    var b := Obj([("two", c)]);
    FieldOver(Obj([("one", b)]), "");
    FieldOver(b, "" + "." + "one");
    FieldLeaf(c, "" + "." + "one" + "." + "two");
    assert "" + "." + "one" + "." + "two" + "." + "three" == ".one.two.three";
  }

  lemma NestedDict()
    ensures Flatten(Obj([("one", Obj([("two", Obj([("three", Leaf(Int(1)))]))]))])) == ["one.two.three"]
  {
    NestedDictWalk();
    StripAllDotted([".one.two.three"], ["one.two.three"]);
  }

  lemma OneLevelList()
    ensures Flatten(Arr([Leaf(Str("one")), Leaf(Str("two")), Leaf(Str("three"))])) == ["[0]", "[1]", "[2]"]
  {
    LeafTriple(Arr([Leaf(Str("one")), Leaf(Str("two")), Leaf(Str("three"))]), "");
    assert "" + "[0]" == "[0]" && "" + "[1]" == "[1]" && "" + "[2]" == "[2]";
    StripAllPlain(["[0]", "[1]", "[2]"]);
  }

  lemma Empty()
    ensures Flatten(Obj([])) == []
  {
  }

  lemma NestedListHead()
    ensures Walk(Arr([Arr([Leaf(Str("one"))])]), "[0]") == ["[0][0][0]"]
  {
    var one := Arr([Leaf(Str("one"))]);
    ContainerAlone(Arr([one]), "[0]");
    LeafAlone(one, "[0]" + "[0]");
    assert "[0]" + "[0]" + "[0]" == "[0][0][0]";
  }

  lemma NestedListWalk()
    ensures Walk(Arr([Arr([Arr([Leaf(Str("one"))])]), Arr([Leaf(Str("two"))]), Leaf(Str("three")), Arr([])]), "")
      == ["[0][0][0]", "[1][0]", "[2]"]
  {
    MixedItems(Arr([Arr([Arr([Leaf(Str("one"))])]), Arr([Leaf(Str("two"))]), Leaf(Str("three")), Arr([])]), "");
    assert "" + "[0]" == "[0]" && "" + "[1]" == "[1]" && "" + "[2]" == "[2]";
    NestedListHead();
    LeafAlone(Arr([Leaf(Str("two"))]), "[1]");
    assert "[1]" + "[0]" == "[1][0]";
  }

  lemma NestedList()
    ensures Flatten(Arr([Arr([Arr([Leaf(Str("one"))])]), Arr([Leaf(Str("two"))]), Leaf(Str("three")), Arr([])]))
      == ["[0][0][0]", "[1][0]", "[2]"]
  {
    NestedListWalk();
    StripAllPlain(["[0][0][0]", "[1][0]", "[2]"]);
  }

  lemma NestedTupleHead()
    ensures Walk(Arr([Arr([Leaf(Int(1))]), Arr([Leaf(Int(2))]), Arr([Leaf(Int(3)), Leaf(Int(4))])]), "[0]")
      == ["[0][0][0]", "[0][1][0]", "[0][2][0]", "[0][2][1]"]
  {
    ContainerTriple(Arr([Arr([Leaf(Int(1))]), Arr([Leaf(Int(2))]), Arr([Leaf(Int(3)), Leaf(Int(4))])]), "[0]");
    LeafAlone(Arr([Leaf(Int(1))]), "[0]" + "[0]");
    LeafAlone(Arr([Leaf(Int(2))]), "[0]" + "[1]");
    LeafPair(Arr([Leaf(Int(3)), Leaf(Int(4))]), "[0]" + "[2]");
    assert "[0]" + "[0]" + "[0]" == "[0][0][0]" && "[0]" + "[1]" + "[0]" == "[0][1][0]";
    assert "[0]" + "[2]" + "[0]" == "[0][2][0]" && "[0]" + "[2]" + "[1]" == "[0][2][1]";
  }

  lemma NestedTupleWalk()
    ensures Walk(Arr([Arr([Arr([Leaf(Int(1))]), Arr([Leaf(Int(2))]), Arr([Leaf(Int(3)), Leaf(Int(4))])]), Arr([Leaf(Int(5))])]), "")
      == ["[0][0][0]", "[0][1][0]", "[0][2][0]", "[0][2][1]", "[1][0]"]
  {
    var a0 := Arr([Arr([Leaf(Int(1))]), Arr([Leaf(Int(2))]), Arr([Leaf(Int(3)), Leaf(Int(4))])]);
    ContainerPair(Arr([a0, Arr([Leaf(Int(5))])]), "");
    assert "" + "[0]" == "[0]" && "" + "[1]" == "[1]";
    NestedTupleHead();
    LeafAlone(Arr([Leaf(Int(5))]), "[1]");
    assert "[1]" + "[0]" == "[1][0]";
  }

  lemma NestedTuple()
    ensures Flatten(Arr([Arr([Arr([Leaf(Int(1))]), Arr([Leaf(Int(2))]), Arr([Leaf(Int(3)), Leaf(Int(4))])]), Arr([Leaf(Int(5))])]))
      == ["[0][0][0]", "[0][1][0]", "[0][2][0]", "[0][2][1]", "[1][0]"]
  {
    NestedTupleWalk();
    StripAllPlain(["[0][0][0]", "[0][1][0]", "[0][2][0]", "[0][2][1]", "[1][0]"]);
  }

  /** One segment in front of a rendered path. */
  lemma SegsStep(s: Step, rest: Path, restText: string, segText: string, text: string)
    requires Segs(rest) == restText && Seg(s) == segText && text == segText + restText
    ensures Segs([s] + rest) == text
  {
    SegsCons(s, rest);
  }

  lemma ExampleSegs()
    ensures Segs([Field("x"), Index(1), Field("y"), Index(2), Field("z")]) == "." + "x[1].y[2].z"
  {
    assert Decimal(1) == "1" && Decimal(2) == "2";
    var p4 := [Field("z")];
    SegsStep(Field("z"), [], "", ".z", ".z");
    var p3 := [Index(2)] + p4;
    SegsStep(Index(2), p4, ".z", "[2]", "[2].z");
    var p2 := [Field("y")] + p3;
    SegsStep(Field("y"), p3, "[2].z", ".y", ".y[2].z");
    var p1 := [Index(1)] + p2;
    SegsStep(Index(1), p2, ".y[2].z", "[1]", "[1].y[2].z");
    SegsStep(Field("x"), p1, "[1].y[2].z", ".x", "." + "x[1].y[2].z");
    assert [Field("x")] + p1 == [Field("x"), Index(1), Field("y"), Index(2), Field("z")];
  }

  /** A key made of three names and two indices parses to its five steps. */
  lemma ParseFive(a: string, i: nat, b: string, j: nat, c: string, key: string)
    requires SimpleName(a) && SimpleName(b) && SimpleName(c)
    requires Segs([Field(a), Index(i), Field(b), Index(j), Field(c)]) == "." + key
    requires key != [] && key[0] != '.' && key[|key| - 1] != '.'
    ensures Parse(key) == Ok([Field(a), Index(i), Field(b), Index(j), Field(c)])
  {
    var p := [Field(a), Index(i), Field(b), Index(j), Field(c)];
    assert SimplePath(p) by {
      forall k | 0 <= k < |p| ensures p[k].Field? ==> SimpleName(p[k].name) {
        assert p[k].Field? ==> p[k].name in {a, b, c};
      }
    }
    StripPlain(key);
    ParseRender(p);
  }

  lemma ParseExample()
    ensures Parse("x[1].y[2].z") == Ok([Field("x"), Index(1), Field("y"), Index(2), Field("z")])
  {
    ExampleSegs();
    ParseFive("x", 1, "y", 2, "z", "x[1].y[2].z");
  }

  lemma RejectsNameInBrackets()
    ensures Parse("obj[key]") == Err(ValueError)
  {
    assert Scan("obj[key]", Start) == Err(ValueError);
  }

  lemma RejectsNestedBrackets()
    ensures Parse("[[1]]") == Err(ValueError)
  {
  }

  lemma ParseRejects()
    ensures Parse("obj[key]") == Err(ValueError)
    ensures Parse("[[1]]") == Err(ValueError)
  {
    RejectsNameInBrackets();
    RejectsNestedBrackets();
  }

  // ------------------------------------------- subsearch("train") strays

  /** The tree `{"train": {"a": 1}, "training": {"x": 2}}` and its subtree at `train`. */
  function TrainSub(): Tree {
    Obj([("a", Leaf(Int(1)))])
  }

  function TrainTree(): Tree {
    Obj([("train", TrainSub()), ("training", Obj([("x", Leaf(Int(2)))]))])
  }

  lemma TrainTreeWalk()
    ensures Walk(TrainTree(), "") == [".train.a", ".training.x"]
  {
    FieldsOver(TrainTree(), "");
    FieldLeaf(TrainSub(), "" + "." + "train");
    FieldLeaf(Obj([("x", Leaf(Int(2)))]), "" + "." + "training");
    assert "" + "." + "train" + "." + "a" == ".train.a" && "" + "." + "training" + "." + "x" == ".training.x";
  }

  lemma TrainTreeKeys()
    ensures Flatten(TrainTree()) == ["train.a", "training.x"]
  {
    TrainTreeWalk();
    StripAllDotted([".train.a", ".training.x"], ["train.a", "training.x"]);
  }

  lemma ParseName(a: string)
    requires SimpleName(a)
    ensures Parse(a) == Ok([Field(a)])
  {
    var p := [Field(a)];
    ParseRender(p);
    assert Segs(p) == "." + a;
    StripPlain(a);
  }

  lemma ParseNamePair(a: string, b: string)
    requires SimpleName(a) && SimpleName(b)
    ensures Parse(a + "." + b) == Ok([Field(a), Field(b)])
  {
    var p := [Field(a), Field(b)];
    var key := a + "." + b;
    assert Segs(p[1..]) == "." + b by {
      assert p[1..] == [Field(b)] && p[1..][1..] == [];
    }
    assert Segs(p) == "." + a + ("." + b);
    AppendAssoc(".", a, "." + b);
    AppendAssoc(a, ".", b);
    assert Segs(p) == "." + key;
    assert key[0] == a[0] && key[|key| - 1] == b[|b| - 1];
    StripPlain(key);
    assert SimplePath(p) by {
      forall j | 0 <= j < |p| ensures p[j].Field? ==> SimpleName(p[j].name) {
        assert p[j] == Field(a) || p[j] == Field(b);
      }
    }
    ParseRender(p);
    assert Render(p) == key;
  }

  lemma TrainRekeyed()
    ensures Rekey(["train.a", "training.x"], "train") == ["a", "ing.x"]
    ensures RekeyUnder(["train.a", "training.x"], "train") == ["a"]
  {
    var c := ["train.a", "training.x"];
    assert "train" <= c[0] && c[0][5..] == ".a" && c[0][5] == '.';
    assert "train" <= c[1] && c[1][5..] == "ing.x" && c[1][5] == 'i';
    StripPlain("a");
    StripPlain("ing.x");
    assert c[1..] == ["training.x"];
    assert Rekey(c[1..][1..], "train") == [];
    assert RekeyUnder(c[1..][1..], "train") == [];
  }

  lemma ResolveTrainA()
    ensures Resolve(TrainTree(), "train.a") == Ok(Leaf(Int(1)))
  {
    var a, b := "train", "a";
    ParseNamePair(a, b);
    assert a + "." + b == "train.a";
    assert Child(TrainTree(), Field(a)) == Ok(TrainSub());
    assert Child(TrainSub(), Field(b)) == Ok(Leaf(Int(1)));
    var p := [Field(a), Field(b)];
    assert p[1..] == [Field(b)] && p[1..][1..] == [];
    assert Follow(TrainTree(), p) == Follow(TrainSub(), [Field(b)]) == Ok(Leaf(Int(1)));
  }

  lemma ResolveTrainingX()
    ensures Resolve(TrainTree(), "training.x") == Ok(Leaf(Int(2)))
  {
    var a, b := "training", "x";
    ParseNamePair(a, b);
    assert a + "." + b == "training.x";
    var sub := Obj([("x", Leaf(Int(2)))]);
    assert Child(TrainTree(), Field(a)) == Ok(sub);
    assert Child(sub, Field(b)) == Ok(Leaf(Int(2)));
    var p := [Field(a), Field(b)];
    assert p[1..] == [Field(b)] && p[1..][1..] == [];
    assert Follow(TrainTree(), p) == Follow(sub, [Field(b)]) == Ok(Leaf(Int(2)));
  }

  lemma ResolveTrain()
    ensures Resolve(TrainTree(), "train") == Ok(TrainSub())
  {
    ParseName("train");
  }

  lemma ResolveIngX()
    ensures Resolve(TrainSub(), "ing.x") == Err(KeyError)
  {
    ParseNamePair("ing", "x");
    assert "ing" + "." + "x" == "ing.x";
  }

  lemma ResolveA()
    ensures Resolve(TrainSub(), "a") == Ok(Leaf(Int(1)))
  {
    ParseName("a");
  }

  /** `subsearch("train")` on `{"train": {"a": 1}, "training": {"x": 2}}`:
      every flat key resolves in the tree, but the textual prefix test also
      keeps `training.x`, whose subkey `ing.x` does not resolve in the
      subtree at `train`. The corrected re-keying keeps only `a`, which does. */
  lemma TextualPrefixStrays()
    ensures Flatten(TrainTree()) == ["train.a", "training.x"]
    ensures Resolve(TrainTree(), "train.a").Ok? && Resolve(TrainTree(), "training.x").Ok?
    ensures Resolve(TrainTree(), "train") == Ok(TrainSub())
    ensures Rekey(["train.a", "training.x"], "train") == ["a", "ing.x"]
    ensures Resolve(TrainSub(), "ing.x") == Err(KeyError)
    ensures RekeyUnder(["train.a", "training.x"], "train") == ["a"]
    ensures Resolve(TrainSub(), "a") == Ok(Leaf(Int(1)))
  {
    TrainTreeKeys();
    ResolveTrainA();
    ResolveTrainingX();
    ResolveTrain();
    TrainRekeyed();
    ResolveIngX();
    ResolveA();
  }
}
