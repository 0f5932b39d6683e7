/** What a schema asks for when its references are followed to every depth, and
    so exactly what the compiled check does not see. */
module SpecUnrolled {
  import opened Strings
  import opened SpecDispatch
  import opened SpecPaths
  import opened SpecSchema
  import opened SpecWalker
  import opened SpecMeaning
  import opened Wrappers

  /** Path `p` is asked for within `n` levels of the node. */
  predicate Asked(c: Components, node: Schema, p: seq<Step>, n: nat)
    decreases n, 0
  {
    && n > 0 && p != [] && Resolved(c, node).Some?
    && var s := Resolved(c, node).value;
       || AskedByBranch(c, s.allOf, p, n - 1)
       || (|p| == 1 && p[0].Prop? && p[0].name in s.required)
       || (p[0].Prop? && AskedByProperty(c, s.properties, p[0].name, p[1..], n - 1))
       || (p[0].Elem? && s.items.Some? && Asked(c, s.items.value, p[1..], n - 1))
  }

  predicate AskedByBranch(c: Components, branches: seq<Schema>, p: seq<Step>, n: nat)
    decreases n, 1
  {
    exists i | 0 <= i < |branches| :: Asked(c, branches[i], p, n)
  }

  predicate AskedByProperty(c: Components, props: seq<Property>, name: string, p: seq<Step>, n: nat)
    decreases n, 1
  {
    exists i | 0 <= i < |props| :: props[i].name == name && Asked(c, props[i].schema, p, n)
  }

  /** For n levels there is no `oneOf` or `anyOf`, and a reference lands on a node
      without a `$ref`. */
  predicate StraightTo(c: Components, node: Schema, n: nat)
    decreases n
  {
    n > 0 && Resolved(c, node).Some? ==>
      var s := Resolved(c, node).value;
      && s.ref == "" && s.combo == []
      && (forall i | 0 <= i < |s.allOf| :: StraightTo(c, s.allOf[i], n - 1))
      && (forall i | 0 <= i < |s.properties| :: StraightTo(c, s.properties[i].schema, n - 1))
      && (s.items.Some? ==> StraightTo(c, s.items.value, n - 1))
  }

  ghost predicate Straight(c: Components, node: Schema) {
    forall n: nat :: StraightTo(c, node, n)
  }

  /** The document holds everything the node asks for, at every depth. */
  ghost predicate HoldsAll(c: Components, node: Schema, v: Json) {
    forall n: nat, p | Asked(c, node, p, n) :: Holds(v, p)
  }

  // ---------- A satisfying document holds all that is asked ----------

  lemma {:induction false} SatisfyingHoldsAsked(c: Components, node: Schema, v: Json, p: seq<Step>, n: nat)
    requires StraightTo(c, node, n) && Satisfies(c, node, v) && Asked(c, node, p, n)
    ensures Holds(v, p)
    decreases n
  {
    var s := Resolved(c, node).value;
    SatisfiesByKeyword(c, s, v);
    if AskedByBranch(c, s.allOf, p, n - 1) {
      var i :| 0 <= i < |s.allOf| && Asked(c, s.allOf[i], p, n - 1);
      SatisfyingHoldsAsked(c, s.allOf[i], v, p, n - 1);
    } else if |p| == 1 && p[0].Prop? && p[0].name in s.required {
    } else if p[0].Prop? {
      var i :| 0 <= i < |s.properties| && s.properties[i].name == p[0].name && Asked(c, s.properties[i].schema, p[1..], n - 1);
      if !ChildOf(v, p[0].name).Null? {
        SatisfyingHoldsAsked(c, s.properties[i].schema, ChildOf(v, p[0].name), p[1..], n - 1);
      }
    } else if v.Array? {
      forall i | 0 <= i < |v.elems|
        ensures Holds(v.elems[i], p[1..])
      {
        SatisfyingHoldsAsked(c, s.items.value, v.elems[i], p[1..], n - 1);
      }
    }
  }

  // ---------- A document that holds all that is asked satisfies ----------

  lemma StraightTarget(c: Components, node: Schema)
    requires Straight(c, node) && Resolved(c, node).Some?
    ensures var s := Resolved(c, node).value;
            && s.ref == "" && s.combo == [] && Resolved(c, s) == Some(s) && Straight(c, s)
            && (forall i | 0 <= i < |s.allOf| :: Straight(c, s.allOf[i]))
            && (forall i | 0 <= i < |s.properties| :: Straight(c, s.properties[i].schema))
            && (s.items.Some? ==> Straight(c, s.items.value))
  {
    var s := Resolved(c, node).value;
    assert StraightTo(c, node, 1);
    forall n: nat
      ensures StraightTo(c, s, n)
    {
      assert StraightTo(c, node, n);
    }
    forall i | 0 <= i < |s.allOf|
      ensures Straight(c, s.allOf[i])
    {
      StraightBelow(c, node, s.allOf[i]);
    }
    forall i | 0 <= i < |s.properties|
      ensures Straight(c, s.properties[i].schema)
    {
      StraightBelow(c, node, s.properties[i].schema);
    }
    if s.items.Some? {
      StraightBelow(c, node, s.items.value);
    }
  }

  lemma StraightBelow(c: Components, node: Schema, child: Schema)
    requires Straight(c, node) && Resolved(c, node).Some?
    requires var s := Resolved(c, node).value;
             child in s.allOf || Some(child) == s.items || exists i :: 0 <= i < |s.properties| && s.properties[i].schema == child
    ensures Straight(c, child)
  {
    forall n: nat
      ensures StraightTo(c, child, n)
    {
      assert StraightTo(c, node, n + 1);
    }
  }

  /** What holds of a value holds of its branches, properties and elements. */
  lemma HoldsAllBelow(c: Components, node: Schema, v: Json)
    requires HoldsAll(c, node, v) && Resolved(c, node).Some?
    ensures var s := Resolved(c, node).value;
            && (forall i | 0 <= i < |s.allOf| :: HoldsAll(c, s.allOf[i], v))
            && NamesPresent(s.required, v)
            && (forall i | 0 <= i < |s.properties| && !ChildOf(v, s.properties[i].name).Null? ::
                  HoldsAll(c, s.properties[i].schema, ChildOf(v, s.properties[i].name)))
            && (s.items.Some? && v.Array? ==> forall i | 0 <= i < |v.elems| :: HoldsAll(c, s.items.value, v.elems[i]))
  {
    var s := Resolved(c, node).value;
    forall i, n: nat, p | 0 <= i < |s.allOf| && Asked(c, s.allOf[i], p, n)
      ensures Holds(v, p)
    {
      assert AskedByBranch(c, s.allOf, p, n);
      assert Asked(c, node, p, n + 1);
    }
    forall r | r in s.required
      ensures !ChildOf(v, r).Null?
    {
      assert Asked(c, node, [Prop(r)], 1);
      assert Holds(v, [Prop(r)]);
    }
    forall i, n: nat, p | 0 <= i < |s.properties| && !ChildOf(v, s.properties[i].name).Null?
                          && Asked(c, s.properties[i].schema, p, n)
      ensures Holds(ChildOf(v, s.properties[i].name), p)
    {
      PropertyAsked(c, node, i, p, n);
      HoldsProp(v, s.properties[i].name, p);
    }
    if s.items.Some? && v.Array? {
      forall n: nat, p | Asked(c, s.items.value, p, n)
        ensures forall i | 0 <= i < |v.elems| :: Holds(v.elems[i], p)
      {
        ItemAsked(c, node, p, n);
        HoldsElem(v, p);
      }
    }
  }

  lemma PropertyAsked(c: Components, node: Schema, i: nat, p: seq<Step>, n: nat)
    requires Resolved(c, node).Some? && i < |Resolved(c, node).value.properties|
    requires Asked(c, Resolved(c, node).value.properties[i].schema, p, n)
    ensures Asked(c, node, [Prop(Resolved(c, node).value.properties[i].name)] + p, n + 1)
  {
    var s := Resolved(c, node).value;
    var q := [Prop(s.properties[i].name)] + p;
    assert q[1..] == p;
    assert AskedByProperty(c, s.properties, q[0].name, q[1..], n);
  }

  lemma ItemAsked(c: Components, node: Schema, p: seq<Step>, n: nat)
    requires Resolved(c, node).Some? && Resolved(c, node).value.items.Some?
    requires Asked(c, Resolved(c, node).value.items.value, p, n)
    ensures Asked(c, node, [Elem] + p, n + 1)
  {
    assert ([Elem] + p)[1..] == p;
  }

  greatest lemma HoldingSatisfies[nat](c: Components, node: Schema, v: Json)
    requires Straight(c, node) && HoldsAll(c, node, v)
    ensures Satisfies(c, node, v)
  {
    hide Holds, StraightTo, Asked;
    if Resolved(c, node).Some? {
      var s := Resolved(c, node).value;
      StraightTarget(c, node);
      HoldsAllBelow(c, node, v);
      if node.ref != "" {
        SameTarget(c, node, v);
        HoldingSatisfies(c, s, v);
      } else {
        forall i | 0 <= i < |s.allOf| {
          HoldingSatisfies(c, s.allOf[i], v);
        }
        forall i | 0 <= i < |s.properties| && !ChildOf(v, s.properties[i].name).Null? {
          HoldingSatisfies(c, s.properties[i].schema, ChildOf(v, s.properties[i].name));
        }
        if s.items.Some? && v.Array? {
          forall i | 0 <= i < |v.elems| {
            HoldingSatisfies(c, s.items.value, v.elems[i]);
          }
        }
      }
    }
  }

  lemma SameTarget(c: Components, node: Schema, v: Json)
    requires HoldsAll(c, node, v) && Resolved(c, node).Some? && Resolved(c, node).value.ref == ""
    ensures HoldsAll(c, Resolved(c, node).value, v)
  {
    forall n: nat, p | Asked(c, Resolved(c, node).value, p, n)
      ensures Holds(v, p)
    {
      assert Asked(c, node, p, n);
    }
  }

  // ---------- The compiled list is a part of what is asked ----------

  lemma {:induction false} DemandsAreAsked(c: Components, node: Schema, depth: nat, p: seq<Step>)
    requires p in Demands(c, node, depth) && StraightTo(c, node, Fuel(depth))
    ensures Asked(c, node, p, Fuel(depth))
    decreases Fuel(depth)
  {
    var s := DemandedBy(c, node, depth, p);
    hide Demands, UnionDemands, NamedDemands, PropertyDemands, ItemDemands, StraightTo;
    DemandsNonEmpty(c, node, depth, p);
    if p in UnionDemands(c, s.allOf, depth) {
      var i := BranchOf(c, s.allOf, depth, p);
      DemandsAreAsked(c, s.allOf[i], depth + 1, p);
    } else if p in NamedDemands(s.required) {
      InNamed(s.required, p);
    } else if p in PropertyDemands(c, s.properties, depth) {
      var i := PropertyOf(c, s.properties, depth, p);
      InUnder(Prop(s.properties[i].name), Demands(c, s.properties[i].schema, depth + 1), p);
      DemandsAreAsked(c, s.properties[i].schema, depth + 1, p[1..]);
    } else {
      InUnder(Elem, Demands(c, s.items.value, depth + 1), p);
      DemandsAreAsked(c, s.items.value, depth + 1, p[1..]);
    }
  }

  // ---------- Main results ----------

  /** Without `oneOf` and `anyOf`, satisfying a schema is holding all it asks for
      when its references are followed to every depth. */
  lemma SatisfiesIff(c: Components, schema: Schema, v: Json)
    requires Straight(c, schema)
    ensures Satisfies(c, schema, v) <==> HoldsAll(c, schema, v)
  {
    if Satisfies(c, schema, v) {
      forall n: nat, p | Asked(c, schema, p, n)
        ensures Holds(v, p)
      {
        assert StraightTo(c, schema, n);
        SatisfyingHoldsAsked(c, schema, v, p, n);
      }
    }
    if HoldsAll(c, schema, v) {
      HoldingSatisfies(c, schema, v);
    }
  }

  /** The compiled list sees the path: it is demanded within depth 12 and runs
      through no array inside an array. */
  ghost predicate Seen(c: Components, schema: Schema, p: seq<Step>) {
    p in Demands(c, schema, 0) && FlatPath(p)
  }

  ghost predicate HoldsSeen(c: Components, schema: Schema, v: Json) {
    forall p | Seen(c, schema, p) :: Holds(v, p)
  }

  ghost predicate HoldsUnseen(c: Components, schema: Schema, v: Json) {
    forall n: nat, p | Asked(c, schema, p, n) && !Seen(c, schema, p) :: Holds(v, p)
  }

  /** So a plain document satisfies the schema exactly when it passes the compiled
      check and holds what the schema asks for and the list does not see. */
  lemma CheckMissesUnseen<E>(c: Components, schema: Schema, required: seq<string>, v: Json)
    requires CompiledFrom(c, schema, required) && Tame(c, schema, 0) && Straight(c, schema) && PlainDoc(v)
    ensures Satisfies(c, schema, v)
       <==> ValidateBody<E>(Ok(v), required) == Ok("")
            && HoldsUnseen(c, schema, v)
  {
    hide Holds, Asked, StraightTo, Tame, Demands, FlatPath, ValidateBody;
    SatisfiesIff(c, schema, v);
    CompiledCheckDecides<E>(c, schema, required, v);
    assert StraightTo(c, schema, Fuel(0));
    forall p | Seen(c, schema, p)
      ensures Asked(c, schema, p, Fuel(0))
    {
      DemandsAreAsked(c, schema, 0, p);
    }
    assert HoldsSeen(c, schema, v) <==> forall p | p in Demands(c, schema, 0) && FlatPath(p) :: Holds(v, p);
    forall n: nat, p | HoldsSeen(c, schema, v) && HoldsUnseen(c, schema, v) && Asked(c, schema, p, n)
      ensures Holds(v, p)
    {
    }
  }

  /** In particular the check is exact when the list sees all the schema asks for. */
  lemma SeenIsExact<E>(c: Components, schema: Schema, required: seq<string>, v: Json)
    requires CompiledFrom(c, schema, required) && Tame(c, schema, 0) && Straight(c, schema) && PlainDoc(v)
    requires forall n: nat, p | Asked(c, schema, p, n) :: Seen(c, schema, p)
    ensures ValidateBody<E>(Ok(v), required) == Ok("") <==> Satisfies(c, schema, v)
  {
    CheckMissesUnseen<E>(c, schema, required, v);
  }

  /** Required `r`, and elements with `x`: no array carries `r`. */
  const MOOT := Schema("", [], [], ["r"], [], Some(Schema("", [], [], ["x"], [], None)))

  /** But not only then: what the list does not see may be moot. */
  lemma UnseenMayBeMoot<E>(c: Components, required: seq<string>, v: Json)
    requires CompiledFrom(c, MOOT, required) && PlainDoc(v)
    ensures Asked(c, MOOT, [Elem, Prop("x")], 2) && !Seen(c, MOOT, [Elem, Prop("x")])
    ensures ValidateBody<E>(Ok(v), required) == Ok("") <==> Satisfies(c, MOOT, v)
  {
    hide Holds, Asked, Tame, Demands, Satisfies, ValidateBody, PlainDoc, Seen, HoldsUnseen;
    MootAsks(c);
    CheckMissesUnseen<E>(c, MOOT, required, v);
    if ValidateBody<E>(Ok(v), required) == Ok("") {
      CompiledCheckDecides<E>(c, MOOT, required, v);
      assert FlatPath([Prop("r")]);
      MootUnseen(c, v);
    }
  }

  lemma MootUnseen(c: Components, v: Json)
    requires Holds(v, [Prop("r")])
    ensures HoldsUnseen(c, MOOT, v)
  {
    assert !v.Array?;
    forall n: nat, p: seq<Step> | Asked(c, MOOT, p, n)
      ensures Holds(v, p)
    {
      assert MOOT.allOf == [] && MOOT.properties == [] && MOOT.required == ["r"];
      assert !AskedByBranch(c, MOOT.allOf, p, n - 1);
      if p[0].Prop? {
        assert !AskedByProperty(c, MOOT.properties, p[0].name, p[1..], n - 1);
        assert p[0] == Prop("r") && p == [Prop("r")];
      }
    }
  }

  lemma MootAsks(c: Components)
    ensures Tame(c, MOOT, 0) && Straight(c, MOOT)
    ensures Asked(c, MOOT, [Elem, Prop("x")], 2) && [Prop("r")] in Demands(c, MOOT, 0)
    ensures !Seen(c, MOOT, [Elem, Prop("x")])
  {
    InNamed(MOOT.required, [Prop("r")]);
    assert PlainName("r") && PlainName("x");
    assert MOOT.properties == [];
    var items := MOOT.items.value;
    ItemsAsk(c, items);
    ItemAsked(c, MOOT, [Prop("x")], 1);
    assert [Elem] + [Prop("x")] == [Elem, Prop("x")];
    forall n: nat
      ensures StraightTo(c, MOOT, n)
    {
      if n > 0 {
        assert StraightTo(c, items, n - 1);
      }
    }
  }

  lemma ItemsAsk(c: Components, items: Schema)
    requires items == MOOT.items.value
    ensures Asked(c, items, [Prop("x")], 1)
    ensures Tame(c, items, 1) && forall n: nat :: StraightTo(c, items, n)
  {
    assert PlainName("x");
  }
}
