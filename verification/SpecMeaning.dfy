/** What the compiled required-path list means: the presence rules of the
    schema itself, and how far `ValidateBody` on the compiled list decides them. */
module SpecMeaning {
  import opened Strings
  import opened SpecDispatch
  import opened SpecPaths
  import opened SpecSchema
  import opened SpecWalker
  import opened Wrappers

  // ---------- The presence rules of a schema ----------

  /** `v` obeys the presence rules of a schema. A `$ref` stands for its target,
      however long the chain; a node that names required fields wants an object
      carrying each of them with a non-null value; properties bind when present
      and array elements bind when there is an array. Schema graphs may be
      cyclic, so this is the greatest such relation. */
  greatest predicate Satisfies[nat](c: Components, node: Schema, v: Json) {
    if node.ref != "" then
      ResolveRef(c, node.ref).Some? ==> Satisfies(c, ResolveRef(c, node.ref).value, v)
    else
      && (node.combo != [] ==> exists i | 0 <= i < |node.combo| :: Satisfies(c, node.combo[i], v))
      && (forall i | 0 <= i < |node.allOf| :: Satisfies(c, node.allOf[i], v))
      && (forall r | r in node.required :: !ChildOf(v, r).Null?)
      && (forall i | 0 <= i < |node.properties| && !ChildOf(v, node.properties[i].name).Null? ::
            Satisfies(c, node.properties[i].schema, ChildOf(v, node.properties[i].name)))
      && (node.items.Some? && v.Array? ==>
            forall i | 0 <= i < |v.elems| :: Satisfies(c, node.items.value, v.elems[i]))
  }

  // The clauses of `Satisfies` at a node without a `$ref`, one keyword each.

  ghost predicate SomeBranch(c: Components, branches: seq<Schema>, v: Json) {
    branches != [] ==> exists i | 0 <= i < |branches| :: Satisfies(c, branches[i], v)
  }

  ghost predicate EveryBranch(c: Components, branches: seq<Schema>, v: Json) {
    forall i | 0 <= i < |branches| :: Satisfies(c, branches[i], v)
  }

  ghost predicate NamesPresent(names: seq<string>, v: Json) {
    forall r | r in names :: !ChildOf(v, r).Null?
  }

  ghost predicate PropertiesObey(c: Components, props: seq<Property>, v: Json) {
    forall i | 0 <= i < |props| && !ChildOf(v, props[i].name).Null? ::
      Satisfies(c, props[i].schema, ChildOf(v, props[i].name))
  }

  ghost predicate ItemsObey(c: Components, items: Option<Schema>, v: Json) {
    items.Some? && v.Array? ==> forall i | 0 <= i < |v.elems| :: Satisfies(c, items.value, v.elems[i])
  }

  lemma SatisfiesByKeyword(c: Components, n: Schema, v: Json)
    requires n.ref == ""
    ensures Satisfies(c, n, v)
       <==> SomeBranch(c, n.combo, v) && EveryBranch(c, n.allOf, v) && NamesPresent(n.required, v)
            && PropertiesObey(c, n.properties, v) && ItemsObey(c, n.items, v)
  {
  }

  // ---------- The demands of a schema, as paths from the value it describes ----------

  function Under(step: Step, paths: set<seq<Step>>): set<seq<Step>> {
    set p | p in paths :: [step] + p
  }

  function Demands(c: Components, node: Schema, depth: nat): set<seq<Step>>
    decreases Fuel(depth), 1, 0
  {
    if depth > MAX_DEPTH then {}
    else match Resolved(c, node)
      case None => {}
      case Some(n) =>
        CommonDemands(c, n.combo, depth) + UnionDemands(c, n.allOf, depth)
        + NamedDemands(n.required) + PropertyDemands(c, n.properties, depth)
        + ItemDemands(c, n.items, depth)
  }

  function ItemDemands(c: Components, items: Option<Schema>, depth: nat): set<seq<Step>>
    requires depth <= MAX_DEPTH
    decreases Fuel(depth), 0, 0
  {
    if items.Some? then Under(Elem, Demands(c, items.value, depth + 1)) else {}
  }

  function CommonDemands(c: Components, branches: seq<Schema>, depth: nat): set<seq<Step>>
    requires depth <= MAX_DEPTH
    decreases Fuel(depth), 0, |branches|
  {
    if branches == [] then {}
    else
      var last := Demands(c, branches[|branches| - 1], depth + 1);
      if |branches| == 1 then last else CommonDemands(c, branches[..|branches| - 1], depth) * last
  }

  function UnionDemands(c: Components, branches: seq<Schema>, depth: nat): set<seq<Step>>
    requires depth <= MAX_DEPTH
    decreases Fuel(depth), 0, |branches|
  {
    if branches == [] then {}
    else UnionDemands(c, branches[..|branches| - 1], depth) + Demands(c, branches[|branches| - 1], depth + 1)
  }

  function NamedDemands(names: seq<string>): set<seq<Step>> {
    if names == [] then {} else NamedDemands(names[..|names| - 1]) + {[Prop(names[|names| - 1])]}
  }

  function PropertyDemands(c: Components, props: seq<Property>, depth: nat): set<seq<Step>>
    requires depth <= MAX_DEPTH
    decreases Fuel(depth), 0, |props|
  {
    if props == [] then {}
    else
      var last := props[|props| - 1];
      PropertyDemands(c, props[..|props| - 1], depth) + Under(Prop(last.name), Demands(c, last.schema, depth + 1))
  }

  lemma InCommon(c: Components, branches: seq<Schema>, depth: nat, p: seq<Step>)
    requires depth <= MAX_DEPTH
    ensures p in CommonDemands(c, branches, depth)
       <==> branches != [] && forall i | 0 <= i < |branches| :: p in Demands(c, branches[i], depth + 1)
    decreases |branches|
  {
    if |branches| > 1 {
      InCommon(c, branches[..|branches| - 1], depth, p);
      assert forall i | 0 <= i < |branches| - 1 :: branches[..|branches| - 1][i] == branches[i];
    }
  }

  lemma InUnion(c: Components, branches: seq<Schema>, depth: nat, p: seq<Step>)
    requires depth <= MAX_DEPTH
    ensures p in UnionDemands(c, branches, depth)
       <==> exists i :: 0 <= i < |branches| && p in Demands(c, branches[i], depth + 1)
    decreases |branches|
  {
    if branches != [] {
      InUnion(c, branches[..|branches| - 1], depth, p);
      assert forall i | 0 <= i < |branches| - 1 :: branches[..|branches| - 1][i] == branches[i];
    }
  }

  lemma InNamed(names: seq<string>, p: seq<Step>)
    ensures p in NamedDemands(names) <==> |p| == 1 && p[0].Prop? && p[0].name in names
  {
    if names != [] {
      var init, last := names[..|names| - 1], names[|names| - 1];
      InNamed(init, p);
      assert names == init + [last];
      assert |p| == 1 && p[0] == Prop(last) ==> p == [Prop(last)];
    }
  }

  lemma InProperties(c: Components, props: seq<Property>, depth: nat, p: seq<Step>)
    requires depth <= MAX_DEPTH
    ensures p in PropertyDemands(c, props, depth)
       <==> exists i :: 0 <= i < |props| && p in Under(Prop(props[i].name), Demands(c, props[i].schema, depth + 1))
    decreases |props|
  {
    if props != [] {
      InProperties(c, props[..|props| - 1], depth, p);
      assert forall i | 0 <= i < |props| - 1 :: props[..|props| - 1][i] == props[i];
    }
  }

  lemma InUnder(step: Step, paths: set<seq<Step>>, p: seq<Step>)
    ensures p in Under(step, paths) <==> p != [] && p[0] == step && p[1..] in paths
  {
    if p != [] && p[0] == step && p[1..] in paths {
      assert p == [step] + p[1..];
    }
    if p in Under(step, paths) {
      var q :| q in paths && p == [step] + q;
      assert p[1..] == q;
    }
  }

  // ---------- Which schemas the path text can carry ----------

  /** The node asks for nothing by itself. */
  predicate Bare(n: Schema) {
    n.combo == [] && n.allOf == [] && n.required == [] && n.properties == [] && n.items.None?
  }

  /** Down to the depth the walk reaches, every required or property name is
      one the path syntax can carry, and no `$ref` lands on a node that holds
      both a `$ref` of its own and keywords beside it. */
  predicate Tame(c: Components, node: Schema, depth: nat)
    decreases Fuel(depth)
  {
    depth > MAX_DEPTH ||
    match Resolved(c, node)
    case None => true
    case Some(n) =>
      && (node.ref != "" && n.ref != "" ==> Bare(n))
      && (forall r | r in n.required :: PlainName(r))
      && (forall i | 0 <= i < |n.combo| :: Tame(c, n.combo[i], depth + 1))
      && (forall i | 0 <= i < |n.allOf| :: Tame(c, n.allOf[i], depth + 1))
      && (forall i | 0 <= i < |n.properties| ::
            PlainName(n.properties[i].name) && Tame(c, n.properties[i].schema, depth + 1))
      && (n.items.Some? ==> Tame(c, n.items.value, depth + 1))
  }

  /** The walk loses nothing of the schema: a `$ref` lands on a node without a
      `$ref`, the depth cut-off is only ever met by nodes that ask for nothing,
      and every `oneOf`/`anyOf` has a branch that asks for exactly what all of
      its branches ask for. */
  predicate Lossless(c: Components, node: Schema, depth: nat)
    decreases Fuel(depth), 1
  {
    match Resolved(c, node)
    case None => true
    case Some(n) =>
      && n.ref == ""
      && (depth > MAX_DEPTH ==> Bare(n))
      && (depth <= MAX_DEPTH ==>
            && (n.combo != [] ==>
                  exists i | 0 <= i < |n.combo| :: LeanBranch(c, n.combo, i, depth))
            && (forall i | 0 <= i < |n.allOf| :: Lossless(c, n.allOf[i], depth + 1))
            && (forall i | 0 <= i < |n.properties| :: Lossless(c, n.properties[i].schema, depth + 1))
            && (n.items.Some? ==> Lossless(c, n.items.value, depth + 1)))
  }

  predicate LeanBranch(c: Components, branches: seq<Schema>, i: nat, depth: nat)
    requires i < |branches| && depth <= MAX_DEPTH
    decreases Fuel(depth), 0
  {
    Lossless(c, branches[i], depth + 1)
    && Demands(c, branches[i], depth + 1) <= CommonDemands(c, branches, depth)
  }

  // ---------- The compiled texts are the printed demands ----------

  function Printed(pre: seq<Step>, paths: set<seq<Step>>): set<string> {
    set p | p in paths :: Print(pre + p)
  }

  ghost predicate AllPlain(paths: set<seq<Step>>) {
    forall p | p in paths :: p != [] && PlainPath(p)
  }

  lemma PrintedUnion(pre: seq<Step>, a: set<seq<Step>>, b: set<seq<Step>>)
    ensures Printed(pre, a + b) == Printed(pre, a) + Printed(pre, b)
  {
  }

  lemma PrintedOne(pre: seq<Step>, a: set<seq<Step>>, p: seq<Step>)
    ensures Printed(pre, a + {p}) == Printed(pre, a) + {Print(pre + p)}
  {
  }

  lemma PrintedMeet(pre: seq<Step>, a: set<seq<Step>>, b: set<seq<Step>>)
    requires PlainPath(pre) && AllPlain(a) && AllPlain(b)
    ensures Printed(pre, a * b) == Printed(pre, a) * Printed(pre, b)
  {
    forall s | s in Printed(pre, a) * Printed(pre, b)
      ensures s in Printed(pre, a * b)
    {
      var p :| p in a && s == Print(pre + p);
      var q :| q in b && s == Print(pre + q);
      PrintInjective(pre + p, pre + q);
      assert (pre + p)[|pre|..] == p && (pre + q)[|pre|..] == q;
    }
  }

  lemma PrintedUnder(pre: seq<Step>, step: Step, paths: set<seq<Step>>)
    ensures Printed(pre, Under(step, paths)) == Printed(pre + [step], paths)
  {
    assert forall p :: pre + ([step] + p) == (pre + [step]) + p;
    forall s | s in Printed(pre + [step], paths)
      ensures s in Printed(pre, Under(step, paths))
    {
      var p :| p in paths && s == Print((pre + [step]) + p);
      assert [step] + p in Under(step, paths);
      assert s == Print(pre + ([step] + p));
    }
  }

  lemma UnderPlain(step: Step, paths: set<seq<Step>>)
    requires step.Prop? ==> PlainName(step.name)
    requires AllPlain(paths)
    ensures AllPlain(Under(step, paths))
  {
    forall p | p in Under(step, paths)
      ensures PlainPath(p)
    {
      InUnder(step, paths, p);
      assert forall k | 1 <= k < |p| :: p[k] == p[1..][k - 1];
    }
  }

  /** The string-level walk computes exactly the printed demands: `oneOf`
      intersection on texts loses and adds nothing. */
  lemma {:induction false} PathsArePrintedDemands(c: Components, node: Schema, pre: seq<Step>, depth: nat)
    requires PlainPath(pre) && Tame(c, node, depth)
    ensures AllPlain(Demands(c, node, depth))
    ensures RequiredPaths(c, node, Print(pre), depth) == Printed(pre, Demands(c, node, depth))
    decreases Fuel(depth), 1, 0
  {
    if depth <= MAX_DEPTH && Resolved(c, node).Some? {
      var n := Resolved(c, node).value;
      CommonPrinted(c, n.combo, pre, depth);
      UnionPrinted(c, n.allOf, pre, depth);
      NamedPrinted(n.required, pre);
      PropertiesPrinted(c, n.properties, pre, depth);
      ItemsPrinted(c, n.items, pre, depth);
      var d1, d2, d3, d4 := CommonDemands(c, n.combo, depth), UnionDemands(c, n.allOf, depth),
                            NamedDemands(n.required), PropertyDemands(c, n.properties, depth);
      var d5 := ItemDemands(c, n.items, depth);
      PrintedUnion(pre, d1, d2);
      PrintedUnion(pre, d1 + d2, d3);
      PrintedUnion(pre, d1 + d2 + d3, d4);
      PrintedUnion(pre, d1 + d2 + d3 + d4, d5);
    }
  }

  lemma {:induction false} CommonPrinted(c: Components, branches: seq<Schema>, pre: seq<Step>, depth: nat)
    requires PlainPath(pre) && depth <= MAX_DEPTH
    requires forall i | 0 <= i < |branches| :: Tame(c, branches[i], depth + 1)
    ensures AllPlain(CommonDemands(c, branches, depth))
    ensures CommonPaths(c, branches, Print(pre), depth) == Printed(pre, CommonDemands(c, branches, depth))
    decreases Fuel(depth), 0, |branches|
  {
    if branches != [] {
      var init, last := branches[..|branches| - 1], branches[|branches| - 1];
      PathsArePrintedDemands(c, last, pre, depth + 1);
      CommonPrinted(c, init, pre, depth);
      PrintedMeet(pre, CommonDemands(c, init, depth), Demands(c, last, depth + 1));
    }
  }

  lemma {:induction false} UnionPrinted(c: Components, branches: seq<Schema>, pre: seq<Step>, depth: nat)
    requires PlainPath(pre) && depth <= MAX_DEPTH
    requires forall i | 0 <= i < |branches| :: Tame(c, branches[i], depth + 1)
    ensures AllPlain(UnionDemands(c, branches, depth))
    ensures UnionPaths(c, branches, Print(pre), depth) == Printed(pre, UnionDemands(c, branches, depth))
    decreases Fuel(depth), 0, |branches|
  {
    if branches != [] {
      var init, last := branches[..|branches| - 1], branches[|branches| - 1];
      PathsArePrintedDemands(c, last, pre, depth + 1);
      UnionPrinted(c, init, pre, depth);
      PrintedUnion(pre, UnionDemands(c, init, depth), Demands(c, last, depth + 1));
    }
  }

  lemma {:induction false} NamedPrinted(names: seq<string>, pre: seq<Step>)
    requires forall r | r in names :: PlainName(r)
    ensures AllPlain(NamedDemands(names))
    ensures NamedPaths(names, Print(pre)) == Printed(pre, NamedDemands(names))
    decreases |names|
  {
    if names != [] {
      var init, last := names[..|names| - 1], names[|names| - 1];
      NamedPrinted(init, pre);
      PrintedOne(pre, NamedDemands(init), [Prop(last)]);
      PrintStep(pre, Prop(last));
    }
  }

  lemma PrintStep(pre: seq<Step>, step: Step)
    ensures Print(pre + [step]) == if step.Prop? then JoinPath(Print(pre), step.name) else Print(pre) + "[]"
  {
    assert (pre + [step])[..|pre|] == pre;
  }

  lemma {:induction false} PropertiesPrinted(c: Components, props: seq<Property>, pre: seq<Step>, depth: nat)
    requires PlainPath(pre) && depth <= MAX_DEPTH
    requires forall i | 0 <= i < |props| :: PlainName(props[i].name) && Tame(c, props[i].schema, depth + 1)
    ensures AllPlain(PropertyDemands(c, props, depth))
    ensures PropertyPaths(c, props, Print(pre), depth) == Printed(pre, PropertyDemands(c, props, depth))
    decreases Fuel(depth), 0, |props|
  {
    if props != [] {
      var init, last := props[..|props| - 1], props[|props| - 1];
      var step := Prop(last.name);
      PrintStep(pre, step);
      PathsArePrintedDemands(c, last.schema, pre + [step], depth + 1);
      PropertiesPrinted(c, init, pre, depth);
      PrintedUnder(pre, step, Demands(c, last.schema, depth + 1));
      UnderPlain(step, Demands(c, last.schema, depth + 1));
      PrintedUnion(pre, PropertyDemands(c, init, depth), Under(step, Demands(c, last.schema, depth + 1)));
    }
  }

  lemma {:induction false} ItemsPrinted(c: Components, items: Option<Schema>, pre: seq<Step>, depth: nat)
    requires PlainPath(pre) && depth <= MAX_DEPTH
    requires items.Some? ==> Tame(c, items.value, depth + 1)
    ensures AllPlain(ItemDemands(c, items, depth))
    ensures ItemPaths(c, items, Print(pre), depth) == Printed(pre, ItemDemands(c, items, depth))
    decreases Fuel(depth), 0, 0
  {
    hide Demands, RequiredPaths, Tame, Under, Print;
    if items.Some? {
      PrintStep(pre, Elem);
      PathsArePrintedDemands(c, items.value, pre + [Elem], depth + 1);
      PrintedUnder(pre, Elem, Demands(c, items.value, depth + 1));
      UnderPlain(Elem, Demands(c, items.value, depth + 1));
    }
  }

  // ---------- A satisfying document meets every demand ----------

  lemma {:induction false} SatisfyingMeetsDemand(c: Components, node: Schema, v: Json, p: seq<Step>, depth: nat)
    requires Tame(c, node, depth) && Satisfies(c, node, v) && p in Demands(c, node, depth)
    ensures Holds(v, p) && p != []
    decreases Fuel(depth), 2
  {
    var n := Resolved(c, node).value;
    if n.ref == "" {
      SatisfiesByKeyword(c, n, v);
      KeywordsMet(c, n, v, p, depth);
    } else {
      BareDemandsNothing(c, node, depth);
      assert false;
    }
  }

  lemma {:induction false} KeywordsMet(c: Components, n: Schema, v: Json, p: seq<Step>, depth: nat)
    requires depth <= MAX_DEPTH && n.ref == "" && Tame(c, n, depth) && p in Demands(c, n, depth)
    requires SomeBranch(c, n.combo, v) && EveryBranch(c, n.allOf, v) && NamesPresent(n.required, v)
    requires PropertiesObey(c, n.properties, v) && ItemsObey(c, n.items, v)
    ensures Holds(v, p) && p != []
    decreases Fuel(depth), 1
  {
    if p in CommonDemands(c, n.combo, depth) {
      CommonMet(c, n.combo, v, p, depth);
    } else if p in UnionDemands(c, n.allOf, depth) {
      UnionMet(c, n.allOf, v, p, depth);
    } else if p in NamedDemands(n.required) {
      InNamed(n.required, p);
    } else if p in PropertyDemands(c, n.properties, depth) {
      PropertiesMet(c, n.properties, v, p, depth);
    } else {
      ItemsMet(c, n.items, v, p, depth);
    }
  }

  lemma BareDemandsNothing(c: Components, node: Schema, depth: nat)
    requires Resolved(c, node).Some? && Bare(Resolved(c, node).value)
    ensures Demands(c, node, depth) == {}
  {
  }

  lemma {:induction false} CommonMet(c: Components, branches: seq<Schema>, v: Json, p: seq<Step>, depth: nat)
    requires depth <= MAX_DEPTH && p in CommonDemands(c, branches, depth) && SomeBranch(c, branches, v)
    requires forall i | 0 <= i < |branches| :: Tame(c, branches[i], depth + 1)
    ensures Holds(v, p) && p != []
    decreases Fuel(depth), 0
  {
    hide Demands, CommonDemands;
    var i := ObeyedBranch(c, branches, v, p, depth);
    SatisfyingMeetsDemand(c, branches[i], v, p, depth + 1);
  }

  lemma ObeyedBranch(c: Components, branches: seq<Schema>, v: Json, p: seq<Step>, depth: nat) returns (i: nat)
    requires depth <= MAX_DEPTH && p in CommonDemands(c, branches, depth) && SomeBranch(c, branches, v)
    ensures i < |branches| && Satisfies(c, branches[i], v) && p in Demands(c, branches[i], depth + 1)
  {
    InCommon(c, branches, depth, p);
    hide Demands, CommonDemands;
    i :| 0 <= i < |branches| && Satisfies(c, branches[i], v);
  }

  lemma {:induction false} UnionMet(c: Components, branches: seq<Schema>, v: Json, p: seq<Step>, depth: nat)
    requires depth <= MAX_DEPTH && p in UnionDemands(c, branches, depth) && EveryBranch(c, branches, v)
    requires forall i | 0 <= i < |branches| :: Tame(c, branches[i], depth + 1)
    ensures Holds(v, p) && p != []
    decreases Fuel(depth), 0
  {
    hide Demands, UnionDemands, Tame, Holds;
    var i := BranchOf(c, branches, depth, p);
    SatisfyingMeetsDemand(c, branches[i], v, p, depth + 1);
  }

  lemma {:induction false} PropertiesMet(c: Components, props: seq<Property>, v: Json, p: seq<Step>, depth: nat)
    requires depth <= MAX_DEPTH && p in PropertyDemands(c, props, depth) && PropertiesObey(c, props, v)
    requires forall i | 0 <= i < |props| :: Tame(c, props[i].schema, depth + 1)
    ensures Holds(v, p) && p != []
    decreases Fuel(depth), 0, 1
  {
    var i := PropertyOf(c, props, depth, p);
    PropertyMet(c, props[i], v, p, depth);
  }

  lemma {:induction false} PropertyMet(c: Components, e: Property, v: Json, p: seq<Step>, depth: nat)
    requires depth <= MAX_DEPTH && p in Under(Prop(e.name), Demands(c, e.schema, depth + 1))
    requires !ChildOf(v, e.name).Null? ==> Satisfies(c, e.schema, ChildOf(v, e.name))
    requires Tame(c, e.schema, depth + 1)
    ensures Holds(v, p) && p != []
    decreases Fuel(depth), 0, 0
  {
    InUnder(Prop(e.name), Demands(c, e.schema, depth + 1), p);
    DemandsNonEmpty(c, e.schema, depth + 1, p[1..]);
    if !ChildOf(v, e.name).Null? {
      SatisfyingMeetsDemand(c, e.schema, ChildOf(v, e.name), p[1..], depth + 1);
    }
    assert p == [Prop(e.name)] + p[1..];
    HoldsProp(v, e.name, p[1..]);
  }

  lemma PropertyOf(c: Components, props: seq<Property>, depth: nat, p: seq<Step>) returns (i: nat)
    requires depth <= MAX_DEPTH && p in PropertyDemands(c, props, depth)
    ensures i < |props| && p in Under(Prop(props[i].name), Demands(c, props[i].schema, depth + 1))
  {
    InProperties(c, props, depth, p);
    i :| 0 <= i < |props| && p in Under(Prop(props[i].name), Demands(c, props[i].schema, depth + 1));
  }

  lemma {:induction false} ItemsMet(c: Components, items: Option<Schema>, v: Json, p: seq<Step>, depth: nat)
    requires depth <= MAX_DEPTH && p in ItemDemands(c, items, depth) && ItemsObey(c, items, v)
    requires items.Some? ==> Tame(c, items.value, depth + 1)
    ensures Holds(v, p) && p != []
    decreases Fuel(depth), 0
  {
    InUnder(Elem, Demands(c, items.value, depth + 1), p);
    if v.Array? {
      forall i | 0 <= i < |v.elems|
        ensures Holds(v.elems[i], p[1..])
      {
        SatisfyingMeetsDemand(c, items.value, v.elems[i], p[1..], depth + 1);
      }
    }
    assert p == [Elem] + p[1..];
    HoldsElem(v, p[1..]);
  }

  lemma {:induction false} DemandsNonEmpty(c: Components, node: Schema, depth: nat, p: seq<Step>)
    requires p in Demands(c, node, depth)
    ensures p != []
    decreases Fuel(depth)
  {
    var n := DemandedBy(c, node, depth, p);
    hide Demands, CommonDemands, UnionDemands, NamedDemands, PropertyDemands, ItemDemands, Resolved, Under;
    if p in CommonDemands(c, n.combo, depth) + UnionDemands(c, n.allOf, depth) {
      var branch := DemandingBranch(c, n, depth, p);
      DemandsNonEmpty(c, branch, depth + 1, p);
    } else {
      StepsUnder(c, n, depth, p);
    }
  }

  lemma DemandingBranch(c: Components, n: Schema, depth: nat, p: seq<Step>) returns (branch: Schema)
    requires depth <= MAX_DEPTH && p in CommonDemands(c, n.combo, depth) + UnionDemands(c, n.allOf, depth)
    ensures p in Demands(c, branch, depth + 1)
  {
    hide Demands, CommonDemands, UnionDemands;
    if p in CommonDemands(c, n.combo, depth) {
      InCommon(c, n.combo, depth, p);
      branch := n.combo[0];
    } else {
      var i := BranchOf(c, n.allOf, depth, p);
      branch := n.allOf[i];
    }
  }

  lemma StepsUnder(c: Components, n: Schema, depth: nat, p: seq<Step>)
    requires depth <= MAX_DEPTH
    requires p in NamedDemands(n.required) || p in PropertyDemands(c, n.properties, depth) || p in ItemDemands(c, n.items, depth)
    ensures p != []
  {
    hide Demands, NamedDemands, PropertyDemands;
    if p in NamedDemands(n.required) {
      InNamed(n.required, p);
    } else if p in PropertyDemands(c, n.properties, depth) {
      var i := PropertyOf(c, n.properties, depth, p);
    }
  }

  /** The keyword of the resolved node that makes a demand. */
  lemma DemandedBy(c: Components, node: Schema, depth: nat, p: seq<Step>) returns (n: Schema)
    requires p in Demands(c, node, depth)
    ensures depth <= MAX_DEPTH && Resolved(c, node) == Some(n)
    ensures p in CommonDemands(c, n.combo, depth) || p in UnionDemands(c, n.allOf, depth)
            || p in NamedDemands(n.required) || p in PropertyDemands(c, n.properties, depth)
            || p in ItemDemands(c, n.items, depth)
  {
    n := Resolved(c, node).value;
  }

  lemma BranchOf(c: Components, branches: seq<Schema>, depth: nat, p: seq<Step>) returns (i: nat)
    requires depth <= MAX_DEPTH && p in UnionDemands(c, branches, depth)
    ensures i < |branches| && p in Demands(c, branches[i], depth + 1)
  {
    InUnion(c, branches, depth, p);
    i :| 0 <= i < |branches| && p in Demands(c, branches[i], depth + 1);
  }

  // ---------- A document meeting every demand satisfies a lossless schema ----------

  ghost predicate MeetsAll(v: Json, paths: set<seq<Step>>) {
    forall p | p in paths :: Holds(v, p)
  }

  lemma {:induction false} MeetingDemandsSatisfies(c: Components, node: Schema, v: Json, depth: nat)
    requires Lossless(c, node, depth) && MeetsAll(v, Demands(c, node, depth))
    ensures Satisfies(c, node, v)
    decreases Fuel(depth), 1
  {
    if Resolved(c, node).Some? {
      var n := Resolved(c, node).value;
      if depth <= MAX_DEPTH {
        BranchFound(c, n.combo, v, depth);
        BranchesObeyed(c, n.allOf, v, depth);
        NamesFound(n.required, v);
        PropertiesObeyed(c, n.properties, v, depth);
        ItemsObeyed(c, n.items, v, depth);
      }
      SatisfiesByKeyword(c, n, v);
    }
  }

  lemma {:induction false} BranchFound(c: Components, branches: seq<Schema>, v: Json, depth: nat)
    requires depth <= MAX_DEPTH && MeetsAll(v, CommonDemands(c, branches, depth))
    requires branches != [] ==> exists i | 0 <= i < |branches| :: LeanBranch(c, branches, i, depth)
    ensures SomeBranch(c, branches, v)
    decreases Fuel(depth), 0
  {
    hide Demands, CommonDemands, Lossless, Holds;
    if branches != [] {
      var i :| 0 <= i < |branches| && LeanBranch(c, branches, i, depth);
      MeetingDemandsSatisfies(c, branches[i], v, depth + 1);
    }
  }

  lemma {:induction false} BranchesObeyed(c: Components, branches: seq<Schema>, v: Json, depth: nat)
    requires depth <= MAX_DEPTH && MeetsAll(v, UnionDemands(c, branches, depth))
    requires forall i | 0 <= i < |branches| :: Lossless(c, branches[i], depth + 1)
    ensures EveryBranch(c, branches, v)
    decreases Fuel(depth), 0
  {
    forall i | 0 <= i < |branches|
      ensures Satisfies(c, branches[i], v)
    {
      forall p | p in Demands(c, branches[i], depth + 1)
        ensures Holds(v, p)
      {
        InUnion(c, branches, depth, p);
      }
      MeetingDemandsSatisfies(c, branches[i], v, depth + 1);
    }
  }

  lemma NamesFound(names: seq<string>, v: Json)
    requires MeetsAll(v, NamedDemands(names))
    ensures NamesPresent(names, v)
  {
    forall r | r in names
      ensures !ChildOf(v, r).Null?
    {
      InNamed(names, [Prop(r)]);
      assert Holds(v, [Prop(r)]);
    }
  }

  lemma {:induction false} PropertiesObeyed(c: Components, props: seq<Property>, v: Json, depth: nat)
    requires depth <= MAX_DEPTH && MeetsAll(v, PropertyDemands(c, props, depth))
    requires forall i | 0 <= i < |props| :: Lossless(c, props[i].schema, depth + 1)
    ensures PropertiesObey(c, props, v)
    decreases Fuel(depth), 0
  {
    forall i | 0 <= i < |props| && !ChildOf(v, props[i].name).Null?
      ensures Satisfies(c, props[i].schema, ChildOf(v, props[i].name))
    {
      var e := props[i];
      forall p | p in Demands(c, e.schema, depth + 1)
        ensures Holds(ChildOf(v, e.name), p)
      {
        var q := [Prop(e.name)] + p;
        InUnder(Prop(e.name), Demands(c, e.schema, depth + 1), q);
        InProperties(c, props, depth, q);
        assert q[1..] == p && Holds(v, q);
      }
      MeetingDemandsSatisfies(c, e.schema, ChildOf(v, e.name), depth + 1);
    }
  }

  lemma {:induction false} ItemsObeyed(c: Components, items: Option<Schema>, v: Json, depth: nat)
    requires depth <= MAX_DEPTH && MeetsAll(v, ItemDemands(c, items, depth))
    requires items.Some? ==> Lossless(c, items.value, depth + 1)
    ensures ItemsObey(c, items, v)
    decreases Fuel(depth), 0
  {
    if items.Some? && v.Array? {
      forall i | 0 <= i < |v.elems|
        ensures Satisfies(c, items.value, v.elems[i])
      {
        forall p | p in Demands(c, items.value, depth + 1)
          ensures Holds(v.elems[i], p)
        {
          var q := [Elem] + p;
          InUnder(Elem, Demands(c, items.value, depth + 1), q);
          assert q[1..] == p && Holds(v, q);
        }
        MeetingDemandsSatisfies(c, items.value, v.elems[i], depth + 1);
      }
    }
  }

  // ---------- Main results ----------

  /** `required` is what `CompileBody` returns for the schema. */
  ghost predicate CompiledFrom(c: Components, schema: Schema, required: seq<string>) {
    StrictlySorted(required) && Elements(required) == RequiredPaths(c, schema, "", 0)
  }

  lemma {:induction false} FirstMissingNone(doc: Json, required: seq<string>)
    ensures FirstMissing(doc, required) == ""
       <==> forall i | 0 <= i < |required| :: FindMissing(doc, required[i]) == ""
  {
    if required != [] {
      FirstMissingNone(doc, required[1..]);
      assert forall i | 1 <= i < |required| :: required[i] == required[1..][i - 1];
    }
  }

  lemma CompiledText(c: Components, schema: Schema, required: seq<string>, s: string) returns (p: seq<Step>)
    requires CompiledFrom(c, schema, required) && Tame(c, schema, 0) && s in required
    ensures p in Demands(c, schema, 0) && p != [] && PlainPath(p) && s == Print(p)
  {
    assert Print([]) == "";
    hide Tame, Demands, RequiredPaths, PlainPath, Print, StrictlySorted;
    PathsArePrintedDemands(c, schema, [], 0);
    assert s in Elements(required);
    p :| p in Demands(c, schema, 0) && s == Print([] + p);
    assert [] + p == p;
    DemandsNonEmpty(c, schema, 0, p);
  }

  lemma CompiledHas(c: Components, schema: Schema, required: seq<string>, p: seq<Step>)
    requires CompiledFrom(c, schema, required) && Tame(c, schema, 0) && p in Demands(c, schema, 0)
    ensures Print(p) in required && p != [] && PlainPath(p)
  {
    assert Print([]) == "";
    hide Tame, Demands, RequiredPaths, PlainPath, Print, StrictlySorted;
    PathsArePrintedDemands(c, schema, [], 0);
    DemandsNonEmpty(c, schema, 0, p);
    assert [] + p == p;
    assert Print([] + p) in Elements(required);
  }

  /** No `oneOf` or `anyOf`, references that land on a node without a `$ref`,
      and nothing asked for below the depth the walk reaches. */
  predicate Simple(c: Components, node: Schema, depth: nat)
    decreases Fuel(depth)
  {
    match Resolved(c, node)
    case None => true
    case Some(n) =>
      && n.ref == ""
      && (depth > MAX_DEPTH ==> Bare(n))
      && (depth <= MAX_DEPTH ==>
            && n.combo == []
            && (forall i | 0 <= i < |n.allOf| :: Simple(c, n.allOf[i], depth + 1))
            && (forall i | 0 <= i < |n.properties| :: Simple(c, n.properties[i].schema, depth + 1))
            && (n.items.Some? ==> Simple(c, n.items.value, depth + 1)))
  }

  /** Such schemas lose nothing, so the compiled check is exact for them. */
  lemma {:induction false} SimpleIsLossless(c: Components, node: Schema, depth: nat)
    requires Simple(c, node, depth)
    ensures Lossless(c, node, depth)
    decreases Fuel(depth)
  {
    if depth <= MAX_DEPTH && Resolved(c, node).Some? {
      var n := Resolved(c, node).value;
      forall i | 0 <= i < |n.allOf|
        ensures Lossless(c, n.allOf[i], depth + 1)
      {
        SimpleIsLossless(c, n.allOf[i], depth + 1);
      }
      forall i | 0 <= i < |n.properties|
        ensures Lossless(c, n.properties[i].schema, depth + 1)
      {
        SimpleIsLossless(c, n.properties[i].schema, depth + 1);
      }
      if n.items.Some? {
        SimpleIsLossless(c, n.items.value, depth + 1);
      }
    }
  }

  /** What the compiled check decides, for every tame schema, `oneOf`s, cycles
      and cut-offs included: a plain document passes exactly when it meets every
      demand that does not run through an array inside an array. */
  lemma CompiledCheckDecides<E>(c: Components, schema: Schema, required: seq<string>, v: Json)
    requires CompiledFrom(c, schema, required) && Tame(c, schema, 0) && PlainDoc(v)
    ensures ValidateBody<E>(Ok(v), required) == Ok("")
       <==> forall p | p in Demands(c, schema, 0) && FlatPath(p) :: Holds(v, p)
  {
    FirstMissingNone(v, required);
    if ValidateBody<E>(Ok(v), required) == Ok("") {
      forall p | p in Demands(c, schema, 0) && FlatPath(p)
        ensures Holds(v, p)
      {
        CompiledHas(c, schema, required, p);
        FlatPathCheck(v, p);
      }
    }
    if forall p | p in Demands(c, schema, 0) && FlatPath(p) :: Holds(v, p) {
      forall i | 0 <= i < |required|
        ensures FindMissing(v, required[i]) == ""
      {
        var p := CompiledText(c, schema, required, required[i]);
        if FlatPath(p) {
          FlatPathCheck(v, p);
        } else {
          NestedArrayNeverFails(v, p);
        }
      }
    }
  }

  /** Soundness: the compiled check never rejects a document that satisfies the
      schema, whatever cycles, `oneOf`s, `allOf`s and cut-offs the walk met. */
  lemma CompiledCheckIsSound<E>(c: Components, schema: Schema, required: seq<string>, v: Json)
    requires CompiledFrom(c, schema, required) && Tame(c, schema, 0)
    requires PlainDoc(v) || forall p | p in Demands(c, schema, 0) :: FlatPath(p)
    requires Satisfies(c, schema, v)
    ensures ValidateBody<E>(Ok(v), required) == Ok("")
  {
    forall i | 0 <= i < |required|
      ensures FindMissing(v, required[i]) == ""
    {
      var p := CompiledText(c, schema, required, required[i]);
      SatisfyingMeetsDemand(c, schema, v, p, 0);
      if FlatPath(p) {
        FlatPathCheck(v, p);
      } else {
        NestedArrayNeverFails(v, p);
      }
    }
    FirstMissingNone(v, required);
  }

  /** Exactness: when the walk loses nothing and no required path runs through
      an array inside an array, the compiled check accepts exactly the
      documents that satisfy the schema. */
  lemma CompiledCheckIsExact<E>(c: Components, schema: Schema, required: seq<string>, v: Json)
    requires CompiledFrom(c, schema, required) && Tame(c, schema, 0) && Lossless(c, schema, 0)
    requires forall p | p in Demands(c, schema, 0) :: FlatPath(p)
    ensures ValidateBody<E>(Ok(v), required) == Ok("") <==> Satisfies(c, schema, v)
  {
    if Satisfies(c, schema, v) {
      CompiledCheckIsSound<E>(c, schema, required, v);
    }
    if ValidateBody<E>(Ok(v), required) == Ok("") {
      FirstMissingNone(v, required);
      forall p | p in Demands(c, schema, 0)
        ensures Holds(v, p)
      {
        CompiledHas(c, schema, required, p);
        FlatPathCheck(v, p);
      }
      MeetingDemandsSatisfies(c, schema, v, 0);
    }
  }

  /** Witness: a non-empty verdict of a compiled list names a real hole of the
      document, the least one of the first failing demand; when arrays inside
      arrays are demanded the document must be plain, and then the failing demand
      is not one of those. */
  lemma VerdictIsAHole<E>(c: Components, schema: Schema, required: seq<string>, v: Json, verdict: string)
      returns (k: nat, p: seq<Step>, w: seq<Hop>)
    requires CompiledFrom(c, schema, required) && Tame(c, schema, 0)
    requires PlainDoc(v) || forall q | q in Demands(c, schema, 0) :: FlatPath(q)
    requires ValidateBody<E>(Ok(v), required) == Ok(verdict) && verdict != ""
    ensures k < |required| && forall i | 0 <= i < k :: FindMissing(v, required[i]) == ""
    ensures p in Demands(c, schema, 0) && FlatPath(p) && required[k] == Print(p)
    ensures verdict == RenderFrom("", w) && Erase(w) == p && IsHole(v, w)
    ensures forall u: seq<Hop> | Erase(u) == p && IsHole(v, u) :: NoLater(w, u)
  {
    k, w := VerdictIsFirstHole<E>(required, v, verdict);
    p := CompiledText(c, schema, required, required[k]);
    if !FlatPath(p) {
      NestedArrayNeverFails(v, p);
    }
    ReadPrinted(p);
  }
}
