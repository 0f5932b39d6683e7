/** Where the compiled check parts from the schema: one concrete input for each
    condition of the main results in `SpecMeaning`. */
module SpecLimits {
  import opened Strings
  import opened SpecDispatch
  import opened SpecPaths
  import opened SpecSchema
  import opened SpecWalker
  import opened SpecMeaning
  import opened Wrappers

  const NO_COMPONENTS := Components(map[], map[])

  function Needs(names: seq<string>): Schema {
    Schema("", [], [], names, [], None)
  }

  function WithProperty(name: string, s: Schema): Schema {
    Schema("", [], [], [], [Property(name, s)], None)
  }

  function ArrayOf(s: Schema): Schema {
    Schema("", [], [], [], [], Some(s))
  }

  lemma TwoSegments(a: string, b: string)
    requires '.' !in a && '.' !in b
    ensures SplitPath(a + "." + b) == [a, b]
  {
    SplitExtend("", a, '.');
    assert "" + a == a;
    SplitAppend(a, b, '.');
    assert a + ['.'] + b == a + "." + b;
  }

  /** `oneOf`: two branches with nothing in common compile to no demand, so a
      document obeying neither branch passes. */
  lemma OneOfIsNotExact()
    ensures var s := Schema("", [Needs(["a"]), Needs(["b"])], [], [], [], None);
            RequiredPaths(NO_COMPONENTS, s, "", 0) == {}
            && !Satisfies(NO_COMPONENTS, s, Object(map[]))
  {
    var a, b := Needs(["a"]), Needs(["b"]);
    var branches := [a, b];
    assert branches[..1] == [a];
    assert NamedPaths(["a"], "") == {"a"};
    assert NamedPaths(["b"], "") == {"b"};
    assert RequiredPaths(NO_COMPONENTS, a, "", 1) == {"a"};
    assert RequiredPaths(NO_COMPONENTS, b, "", 1) == {"b"};
    assert CommonPaths(NO_COMPONENTS, branches, "", 0) == {"a"} * {"b"} == {};
    assert "a" in a.required && "b" in b.required;
    assert !Satisfies(NO_COMPONENTS, a, Object(map[]));
    assert !Satisfies(NO_COMPONENTS, b, Object(map[]));
  }

  /** A required name with a dot in it is read back as two names, and a document
      that carries it is rejected. */
  lemma DottedNameIsNotSound()
    ensures var s, doc := Needs(["a.b"]), Object(map["a.b" := Bool(true), "a" := Object(map[])]);
            RequiredPaths(NO_COMPONENTS, s, "", 0) == {"a.b"}
            && Satisfies(NO_COMPONENTS, s, doc)
            && FindMissing(doc, "a.b") == "a.b"
  {
    var doc := Object(map["a.b" := Bool(true), "a" := Object(map[])]);
    assert NamedPaths(["a.b"], "") == {"a.b"};
    TwoSegments("a", "b");
    assert "a" + "." + "b" == "a.b";
    var segs := ["a", "b"];
    assert SplitPath("a.b") == segs;
    assert Descend(Object(map[]), segs, 1, "a") == "a.b";
  }

  /** An array property `a` whose elements are arrays of objects requiring `b`. */
  const GRID := WithProperty("a", ArrayOf(ArrayOf(Needs(["b"]))))
  const GRID_PATH := "a[][].b"

  lemma NeedsPaths(name: string, prefix: string, depth: nat)
    requires depth <= MAX_DEPTH
    ensures RequiredPaths(NO_COMPONENTS, Needs([name]), prefix, depth) == {JoinPath(prefix, name)}
  {
    assert [name][..0] == [];
    assert NamedPaths([name], prefix) == {JoinPath(prefix, name)};
    assert RequiredPaths(NO_COMPONENTS, Needs([name]), prefix, depth)
        == NodePaths(NO_COMPONENTS, Needs([name]), prefix, depth);
  }

  lemma ArrayPaths(s: Schema, prefix: string, depth: nat)
    requires depth <= MAX_DEPTH
    ensures RequiredPaths(NO_COMPONENTS, ArrayOf(s), prefix, depth)
         == RequiredPaths(NO_COMPONENTS, s, prefix + "[]", depth + 1)
  {
    var inner := RequiredPaths(NO_COMPONENTS, s, prefix + "[]", depth + 1);
    assert ItemPaths(NO_COMPONENTS, Some(s), prefix, depth) == inner;
    assert NodePaths(NO_COMPONENTS, ArrayOf(s), prefix, depth) == {} + {} + {} + {} + inner;
  }

  lemma RootPropertyPaths(name: string, s: Schema)
    ensures RequiredPaths(NO_COMPONENTS, WithProperty(name, s), "", 0) == RequiredPaths(NO_COMPONENTS, s, name, 1)
  {
    var props := [Property(name, s)];
    assert props[..0] == [];
    assert PropertyPaths(NO_COMPONENTS, props, "", 0) == RequiredPaths(NO_COMPONENTS, s, name, 1);
  }

  lemma GridCompiles()
    ensures RequiredPaths(NO_COMPONENTS, GRID, "", 0) == {GRID_PATH}
  {
    var cells := Needs(["b"]);
    RootPropertyPaths("a", ArrayOf(ArrayOf(cells)));
    ArrayPaths(ArrayOf(cells), "a", 1);
    ArrayPaths(cells, "a" + "[]", 2);
    NeedsPaths("b", "a" + "[]" + "[]", 3);
    assert JoinPath("a" + "[]" + "[]", "b") == GRID_PATH;
  }

  lemma GridSegments()
    ensures SplitPath(GRID_PATH) == ["a[][]", "b"]
  {
    TwoSegments("a[][]", "b");
    assert "a[][]" + "." + "b" == GRID_PATH;
  }

  lemma TrimmedGridSegment()
    ensures HasSuffix("a[][]", "[]") && TrimSuffix("a[][]", "[]") == "a[]" && !HasSuffix("b", "[]")
  {
    assert "a[][]"[..3] == "a[]" && "a[][]"[3..] == "[]";
  }

  /** A key that looks like an array segment is mistaken for the inner array of
      an array of arrays: the document obeys the schema and is rejected. */
  lemma ArraySuffixedKeyIsNotSound()
    ensures var doc := Object(map["a[]" := Array([Object(map[])])]);
            RequiredPaths(NO_COMPONENTS, GRID, "", 0) == {GRID_PATH}
            && Satisfies(NO_COMPONENTS, GRID, doc) && FindMissing(doc, GRID_PATH) != ""
  {
    GridCompiles();
    EmptyCellIsMissing();
    var doc := Object(map["a[]" := Array([Object(map[])])]);
    SatisfiesByKeyword(NO_COMPONENTS, GRID, doc);
    hide RequiredPaths, FindMissing;
  }

  lemma EmptyCellIsMissing()
    ensures FindMissing(Object(map["a[]" := Array([Object(map[])])]), GRID_PATH) != ""
  {
    var hole := Object(map[]);
    var segs := ["a[][]", "b"];
    GridSegments();
    TrimmedGridSegment();
    var r := JoinRendered("", "a[]");
    var r' := JoinRendered(r, IndexSegment(0));
    assert Descend(hole, segs, 1, r') == JoinRendered(r', "b") != "";
    assert DescendElems([hole], 0, segs, 0, r) != "";
  }

  /** The same schema misses a hole in a genuine array of arrays. */
  lemma NestedArrayIsNotExact()
    ensures var doc := Object(map["a" := Array([Array([Object(map[])])])]);
            RequiredPaths(NO_COMPONENTS, GRID, "", 0) == {GRID_PATH}
            && PlainDoc(doc) && !Satisfies(NO_COMPONENTS, GRID, doc) && FindMissing(doc, GRID_PATH) == ""
  {
    GridCompiles();
    GridUnsatisfied();
    GridSkipsCells();
    hide RequiredPaths, FindMissing;
  }

  lemma GridSkipsCells()
    ensures FindMissing(Object(map["a" := Array([Array([Object(map[])])])]), GRID_PATH) == ""
  {
    GridSegments();
    TrimmedGridSegment();
  }

  lemma GridUnsatisfied()
    ensures !Satisfies(NO_COMPONENTS, GRID, Object(map["a" := Array([Array([Object(map[])])])]))
  {
    var cells := Needs(["b"]);
    assert "b" in cells.required;
    assert !Satisfies(NO_COMPONENTS, cells, Object(map[]));
    BadElement(cells, Object(map[]));
    BadElement(ArrayOf(cells), Array([Object(map[])]));
    assert GRID.properties[0].name == "a";
  }

  lemma BadElement(s: Schema, v: Json)
    requires !Satisfies(NO_COMPONENTS, s, v)
    ensures !Satisfies(NO_COMPONENTS, ArrayOf(s), Array([v]))
  {
    assert Array([v]).elems[0] == v;
  }

  /** A `$ref` to a node that is itself a `$ref` with a keyword beside it: the
      keyword is enforced although the reference stands for its target. */
  lemma RefWithSiblingsIsNotSound()
    ensures var hop := Schema("#/components/schemas/B", [], [], ["x"], [], None);
            var c := Components(map["A" := hop, "B" := Needs([])], map[]);
            var s := Schema("#/components/schemas/A", [], [], [], [], None);
            RequiredPaths(c, s, "", 0) == {"x"} && Satisfies(c, s, Object(map[]))
            && FindMissing(Object(map[]), "x") == "x"
  {
    var hop := Schema("#/components/schemas/B", [], [], ["x"], [], None);
    var c := Components(map["A" := hop, "B" := Needs([])], map[]);
    assert "#/components/schemas/A"[|SCHEMA_PREFIX|..] == "A";
    assert "#/components/schemas/B"[|SCHEMA_PREFIX|..] == "B";
    assert "#/components/schemas/A"[..|SCHEMA_PREFIX|] == SCHEMA_PREFIX;
    assert "#/components/schemas/B"[..|SCHEMA_PREFIX|] == SCHEMA_PREFIX;
    assert ResolveRef(c, "#/components/schemas/A") == Some(hop);
    assert ResolveRef(c, "#/components/schemas/B") == Some(Needs([]));
    assert NamedPaths(["x"], "") == {"x"};
    assert Satisfies(c, Needs([]), Object(map[]));
    assert Satisfies(c, hop, Object(map[]));
    SplitExtend("", "x", '.');
    assert "" + "x" == "x";
    assert SplitPath("x") == ["x"];
  }

  // ---------- Names and keys the path syntax cannot carry ----------

  lemma OneSegment(a: string)
    requires a != "" && '.' !in a
    ensures SplitPath(a) == [a]
  {
    SplitExtend("", a, '.');
    assert "" + a == a;
  }

  /** A required name ending in `[]` is read as an array property of the shorter
      name, and a document that carries it is rejected. */
  lemma ArraySuffixedNameIsNotSound()
    ensures var s, doc := Needs(["a[]"]), Object(map["a[]" := Bool(true), "a" := Array([Null])]);
            RequiredPaths(NO_COMPONENTS, s, "", 0) == {"a[]"}
            && Satisfies(NO_COMPONENTS, s, doc) && FindMissing(doc, "a[]") != ""
  {
    var s, doc := Needs(["a[]"]), Object(map["a[]" := Bool(true), "a" := Array([Null])]);
    NeedsPaths("a[]", "", 0);
    SatisfiesByKeyword(NO_COMPONENTS, s, doc);
    NullElementIsMissing(doc);
    hide RequiredPaths, FindMissing;
  }

  lemma NullElementIsMissing(doc: Json)
    requires ChildOf(doc, "a") == Array([Null])
    ensures FindMissing(doc, "a[]") != ""
  {
    OneSegment("a[]");
    SuffixTrim("a");
    assert "a" + "[]" == "a[]";
    var r := JoinRendered("", "a");
    assert Descend(Null, ["a[]"], 1, JoinRendered(r, IndexSegment(0))) == JoinRendered(r, IndexSegment(0)) != "";
    assert DescendElems([Null], 0, ["a[]"], 0, r) != "";
  }

  /** An empty property name vanishes from the path: what its value requires is
      asked of the document itself. */
  lemma EmptyNameIsNotSound()
    ensures var s, doc := WithProperty("", Needs(["b"])), Object(map[]);
            RequiredPaths(NO_COMPONENTS, s, "", 0) == {"b"}
            && Satisfies(NO_COMPONENTS, s, doc) && FindMissing(doc, "b") == "b"
  {
    var s, doc := WithProperty("", Needs(["b"])), Object(map[]);
    RootPropertyPaths("", Needs(["b"]));
    NeedsPaths("b", "", 1);
    SatisfiesByKeyword(NO_COMPONENTS, s, doc);
    OneSegment("b");
  }

  const ROWS := ArrayOf(Needs(["b"]))
  const ROWS_PATH := "[].b"

  lemma RowsCompile()
    ensures RequiredPaths(NO_COMPONENTS, ROWS, "", 0) == {ROWS_PATH} && SplitPath(ROWS_PATH) == ["[]", "b"]
  {
    ArrayPaths(Needs(["b"]), "", 0);
    NeedsPaths("b", "" + "[]", 1);
    assert JoinPath("" + "[]", "b") == ROWS_PATH;
    TwoSegments("[]", "b");
    assert "[]" + "." + "b" == ROWS_PATH;
  }

  /** With an array at the root, an empty key is taken for it: a document that is
      no array obeys the schema and is rejected. */
  lemma EmptyKeyIsNotSound()
    ensures var doc := Object(map["" := Array([Object(map[])])]);
            RequiredPaths(NO_COMPONENTS, ROWS, "", 0) == {ROWS_PATH}
            && Satisfies(NO_COMPONENTS, ROWS, doc) && FindMissing(doc, ROWS_PATH) != ""
  {
    var hole := Object(map[]);
    var doc := Object(map["" := Array([hole])]);
    RowsCompile();
    SatisfiesByKeyword(NO_COMPONENTS, ROWS, doc);
    SuffixTrim("");
    assert "" + "[]" == "[]";
    var r := JoinRendered("", "");
    var r' := JoinRendered(r, IndexSegment(0));
    assert Descend(hole, ["[]", "b"], 1, r') == JoinRendered(r', "b") != "";
    assert DescendElems([hole], 0, ["[]", "b"], 0, r) != "";
  }

  /** A genuine array at the root is not looked into. */
  lemma RootArrayIsNotExact()
    ensures var doc := Array([Object(map[])]);
            RequiredPaths(NO_COMPONENTS, ROWS, "", 0) == {ROWS_PATH}
            && PlainDoc(doc) && !Satisfies(NO_COMPONENTS, ROWS, doc) && FindMissing(doc, ROWS_PATH) == ""
  {
    RowsCompile();
    SuffixTrim("");
    assert "" + "[]" == "[]";
    assert "b" in Needs(["b"]).required;
    BadElement(Needs(["b"]), Object(map[]));
  }

  /** A `$ref` to a bare `$ref` asks for nothing: only one hop is followed. */
  lemma RefToRefIsNotExact<E>()
    ensures var hop := Schema("#/components/schemas/B", [], [], [], [], None);
            var c := Components(map["A" := hop, "B" := Needs(["x"])], map[]);
            var s := Schema("#/components/schemas/A", [], [], [], [], None);
            RequiredPaths(c, s, "", 0) == {} && !Satisfies(c, s, Object(map[]))
            && ValidateBody<E>(Ok(Object(map[])), []) == Ok("")
  {
    var hop := Schema("#/components/schemas/B", [], [], [], [], None);
    var c := Components(map["A" := hop, "B" := Needs(["x"])], map[]);
    var s := Schema("#/components/schemas/A", [], [], [], [], None);
    assert "#/components/schemas/A"[|SCHEMA_PREFIX|..] == "A";
    assert "#/components/schemas/B"[|SCHEMA_PREFIX|..] == "B";
    assert "#/components/schemas/A"[..|SCHEMA_PREFIX|] == SCHEMA_PREFIX;
    assert "#/components/schemas/B"[..|SCHEMA_PREFIX|] == SCHEMA_PREFIX;
    assert ResolveRef(c, s.ref) == Some(hop) && ResolveRef(c, hop.ref) == Some(Needs(["x"]));
    assert NodePaths(c, hop, "", 0) == {};
    assert "x" in Needs(["x"]).required;
    assert !Satisfies(c, Needs(["x"]), Object(map[]));
    assert !Satisfies(c, hop, Object(map[]));
  }

  // ---------- The depth cut-off ----------

  /** A schema that requires `x` at every level of an unbounded `a` chain. */
  const LOOP := Schema("", [], [], ["x"], [Property("a", LOOP_REF)], None)
  const LOOP_REF := Schema("#/components/schemas/A", [], [], [], [], None)
  const LOOP_COMPONENTS := Components(map["A" := LOOP], map[])

  /** `k` levels that carry `x`, around one that does not. */
  function Nest(k: nat): Json {
    if k == 0 then Object(map[]) else Object(map["x" := Bool(true), "a" := Nest(k - 1)])
  }

  lemma LoopResolves()
    ensures ResolveRef(LOOP_COMPONENTS, LOOP_REF.ref) == Some(LOOP)
  {
    assert "#/components/schemas/A"[|SCHEMA_PREFIX|..] == "A";
    assert "#/components/schemas/A"[..|SCHEMA_PREFIX|] == SCHEMA_PREFIX;
  }

  lemma {:induction false} NestNeverSatisfies(k: nat)
    ensures !Satisfies(LOOP_COMPONENTS, LOOP, Nest(k))
  {
    LoopResolves();
    if k == 0 {
      assert "x" in LOOP.required;
    } else {
      NestNeverSatisfies(k - 1);
      assert LOOP.properties[0] == Property("a", LOOP_REF);
      assert ChildOf(Nest(k), "a") == Nest(k - 1);
    }
  }

  lemma LoopDemands(depth: nat)
    requires depth <= MAX_DEPTH
    ensures Demands(LOOP_COMPONENTS, LOOP, depth)
         == {[Prop("x")]} + Under(Prop("a"), Demands(LOOP_COMPONENTS, LOOP, depth + 1))
  {
    LoopResolves();
    assert NamedDemands(["x"]) == {[Prop("x")]};
    var props := [Property("a", LOOP_REF)];
    assert PropertyDemands(LOOP_COMPONENTS, props[..0], depth) == {};
    assert Demands(LOOP_COMPONENTS, LOOP_REF, depth + 1) == Demands(LOOP_COMPONENTS, LOOP, depth + 1);
  }

  /** Enough levels meet every demand the walk can reach. */
  lemma {:induction false} NestMeetsDemands(k: nat, depth: nat)
    requires k + depth > MAX_DEPTH
    ensures MeetsAll(Nest(k), Demands(LOOP_COMPONENTS, LOOP, depth))
    ensures forall p: seq<Step> | p in Demands(LOOP_COMPONENTS, LOOP, depth) :: FlatPath(p) && p != [] && p[0].Prop?
    decreases Fuel(depth)
  {
    if depth <= MAX_DEPTH {
      LoopDemands(depth);
      NestMeetsDemands(k - 1, depth + 1);
      var deeper := Demands(LOOP_COMPONENTS, LOOP, depth + 1);
      forall p: seq<Step> | p in Under(Prop("a"), deeper)
        ensures Holds(Nest(k), p) && FlatPath(p) && p != [] && p[0].Prop?
      {
        InUnder(Prop("a"), deeper, p);
        assert p == [Prop("a")] + p[1..];
        HoldsProp(Nest(k), "a", p[1..]);
        assert forall i | 1 <= i < |p| :: p[i] == p[1..][i - 1];
      }
      assert Holds(Nest(k), [Prop("x")]);
    }
  }

  lemma {:induction false} LoopRefIsTame(depth: nat)
    ensures Tame(LOOP_COMPONENTS, LOOP_REF, depth)
    decreases Fuel(depth)
  {
    LoopResolves();
    if depth <= MAX_DEPTH {
      LoopRefIsTame(depth + 1);
    }
  }

  lemma LoopIsTame()
    ensures Tame(LOOP_COMPONENTS, LOOP, 0)
  {
    LoopRefIsTame(1);
  }

  /** The walk stops at depth 12: a hole on the next level of a recursive schema
      goes unreported. */
  lemma DepthCutOffIsNotExact<E>(required: seq<string>)
    requires CompiledFrom(LOOP_COMPONENTS, LOOP, required)
    ensures ValidateBody<E>(Ok(Nest(MAX_DEPTH + 1)), required) == Ok("")
    ensures !Satisfies(LOOP_COMPONENTS, LOOP, Nest(MAX_DEPTH + 1))
  {
    var doc := Nest(MAX_DEPTH + 1);
    NestNeverSatisfies(MAX_DEPTH + 1);
    NestMeetsDemands(MAX_DEPTH + 1, 0);
    LoopIsTame();
    forall i | 0 <= i < |required|
      ensures FindMissing(doc, required[i]) == ""
    {
      var p := CompiledText(LOOP_COMPONENTS, LOOP, required, required[i]);
      FlatPathCheck(doc, p);
    }
    FirstMissingNone(doc, required);
  }
}
