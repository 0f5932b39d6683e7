/** internal/spec/walker.go: compiling an OpenAPI schema graph into the list of
    required-field paths of a request body. */
module SpecWalker {
  import opened Strings
  import opened Sorting
  import opened SpecPaths
  import opened SpecSchema
  import opened Wrappers

  const SCHEMA_PREFIX := "#/components/schemas/"
  const REQUEST_BODY_PREFIX := "#/components/requestBodies/"

  function ResolveRef(c: Components, ref: string): Option<Schema> {
    if HasPrefix(ref, SCHEMA_PREFIX) then
      var name := TrimPrefix(ref, SCHEMA_PREFIX);
      if name in c.schemas then Some(c.schemas[name]) else None
    else if HasPrefix(ref, REQUEST_BODY_PREFIX) then
      var name := TrimPrefix(ref, REQUEST_BODY_PREFIX);
      if name in c.requestBodies then Some(c.requestBodies[name]) else None
    else None
  }

  /** `resolveRef` on the tables as parsed. */
  function ResolveNode(tables: Tables, ref: string): (r: Option<Yaml>)
    ensures ResolveRef(ComponentsOf(tables), ref) == if r.Some? then Some(SchemaOf(r.value)) else None
  {
    if HasPrefix(ref, SCHEMA_PREFIX) then
      var name := TrimPrefix(ref, SCHEMA_PREFIX);
      if name in tables.schemas then Some(tables.schemas[name]) else None
    else if HasPrefix(ref, REQUEST_BODY_PREFIX) then
      var name := TrimPrefix(ref, REQUEST_BODY_PREFIX);
      if name in tables.requestBodies then Some(tables.requestBodies[name]) else None
    else None
  }

  /** The node whose keywords count: one `$ref` hop, if there is a `$ref`. */
  function Resolved(c: Components, node: Schema): Option<Schema> {
    if node.ref != "" then ResolveRef(c, node.ref) else Some(node)
  }

  // ---------- What the walk collects ----------

  const MAX_DEPTH: nat := 12

  function Fuel(depth: nat): nat {
    if depth > MAX_DEPTH then 0 else MAX_DEPTH + 1 - depth
  }

  /** The set of paths one call of `collectRequired` contributes. */
  function RequiredPaths(c: Components, node: Schema, prefix: string, depth: nat): set<string>
    decreases Fuel(depth), 2, 0
  {
    if depth > MAX_DEPTH then {}
    else match Resolved(c, node)
      case None => {}
      case Some(n) => NodePaths(c, n, prefix, depth)
  }

  function NodePaths(c: Components, n: Schema, prefix: string, depth: nat): set<string>
    requires depth <= MAX_DEPTH
    decreases Fuel(depth), 1, 0
  {
    CommonPaths(c, n.combo, prefix, depth)
    + UnionPaths(c, n.allOf, prefix, depth)
    + NamedPaths(n.required, prefix)
    + PropertyPaths(c, n.properties, prefix, depth)
    + ItemPaths(c, n.items, prefix, depth)
  }

  function ItemPaths(c: Components, items: Option<Schema>, prefix: string, depth: nat): set<string>
    requires depth <= MAX_DEPTH
    decreases Fuel(depth), 0, 0
  {
    if items.Some? then RequiredPaths(c, items.value, prefix + "[]", depth + 1) else {}
  }

  /** What every branch of a `oneOf`/`anyOf` contributes. */
  function CommonPaths(c: Components, branches: seq<Schema>, prefix: string, depth: nat): set<string>
    requires depth <= MAX_DEPTH
    decreases Fuel(depth), 0, |branches|
  {
    if branches == [] then {}
    else
      var last := RequiredPaths(c, branches[|branches| - 1], prefix, depth + 1);
      if |branches| == 1 then last
      else CommonPaths(c, branches[..|branches| - 1], prefix, depth) * last
  }

  /** What some branch of an `allOf` contributes. */
  function UnionPaths(c: Components, branches: seq<Schema>, prefix: string, depth: nat): set<string>
    requires depth <= MAX_DEPTH
    decreases Fuel(depth), 0, |branches|
  {
    if branches == [] then {}
    else UnionPaths(c, branches[..|branches| - 1], prefix, depth)
         + RequiredPaths(c, branches[|branches| - 1], prefix, depth + 1)
  }

  function NamedPaths(names: seq<string>, prefix: string): set<string> {
    if names == [] then {}
    else NamedPaths(names[..|names| - 1], prefix) + {JoinPath(prefix, names[|names| - 1])}
  }

  function PropertyPaths(c: Components, props: seq<Property>, prefix: string, depth: nat): set<string>
    requires depth <= MAX_DEPTH
    decreases Fuel(depth), 0, |props|
  {
    if props == [] then {}
    else
      var last := props[|props| - 1];
      PropertyPaths(c, props[..|props| - 1], prefix, depth)
      + RequiredPaths(c, last.schema, JoinPath(prefix, last.name), depth + 1)
  }

  method IntersectPaths(a: seq<string>, b: seq<string>) returns (out: seq<string>)
    ensures Elements(out) == Elements(a) * Elements(b)
    ensures NoDup(a) ==> NoDup(out)
  {
    var inB := Elements(b);
    out := [];
    var k := 0;
    while k < |a|
      invariant 0 <= k <= |a|
      invariant Elements(out) == Elements(a[..k]) * inB
      invariant NoDup(a) ==> NoDup(out)
    {
      assert a[..k + 1] == a[..k] + [a[k]];
      ElementsAppend(a[..k], [a[k]]);
      ElementsAppend(out, [a[k]]);
      assert Elements([a[k]]) == {a[k]};
      assert a[k] in Elements(out) <==> a[k] in out;
      assert NoDup(a) ==> a[k] !in Elements(a[..k]);
      if a[k] in inB {
        out := out + [a[k]];
      }
      k := k + 1;
    }
    assert a[..k] == a;
  }

  /** The `*out` slice and the `seen` map threaded through the recursion. */
  class Collector {
    var out: seq<string>
    var seen: set<string>

    ghost predicate Valid()
      reads this
    {
      NoDup(out) && seen == Elements(out)
    }

    constructor ()
      ensures Valid() && out == []
    {
      out, seen := [], {};
    }

    method Add(path: string)
      requires Valid()
      modifies this
      ensures Valid()
      ensures seen == old(seen) + {path}
    {
      if path !in seen {
        assert path in Elements(out) <==> path in out;
        seen := seen + {path};
        out := out + [path];
      }
    }

    /** `collectRequired`: adds to `out` whatever this YAML node requires as a
        schema and is not there yet, and drops nothing. */
    method Collect(tables: Tables, schema: Yaml, prefix: string, depth: nat)
      requires Valid()
      modifies this
      ensures Valid()
      ensures seen == old(seen) + RequiredPaths(ComponentsOf(tables), SchemaOf(schema), prefix, depth)
      decreases Fuel(depth), 2
    {
      if depth > MAX_DEPTH {
        return;
      }
      KeywordsAreFields(schema);
      hide SchemaOf, NodePaths;
      var node := schema;
      var ref := ScalarChild(node, "$ref");
      if ref != "" {
        var target := ResolveNode(tables, ref);
        if target.None? {
          return;
        }
        node := target.value;
      }
      CollectNode(tables, node, prefix, depth);
    }

    /** The keywords of one resolved node, in the order they are read. */
    method CollectNode(tables: Tables, node: Yaml, prefix: string, depth: nat)
      requires Valid() && depth <= MAX_DEPTH
      modifies this
      ensures Valid()
      ensures seen == old(seen) + NodePaths(ComponentsOf(tables), SchemaOf(node), prefix, depth)
      decreases Fuel(depth), 1, 1
    {
      KeywordsAreFields(node);
      hide SchemaOf, ComponentsOf, CommonPaths, UnionPaths, NamedPaths, PropertyPaths, ItemPaths;
      CollectCombo(tables, ComboOf(node), prefix, depth);
      CollectAllOf(tables, Listed(node, "allOf"), prefix, depth);
      AddRequired(Listed(node, "required"), prefix);
      CollectInner(tables, node, prefix, depth);
    }

    /** Property values, and the items of an array. */
    method CollectInner(tables: Tables, node: Yaml, prefix: string, depth: nat)
      requires Valid() && depth <= MAX_DEPTH
      modifies this
      ensures Valid()
      ensures seen == old(seen) + (PropertyPaths(ComponentsOf(tables), PropertiesOf(EntriesOf(node)), prefix, depth)
                                   + ItemPaths(ComponentsOf(tables), SchemaOf(node).items, prefix, depth))
      decreases Fuel(depth), 1, 0
    {
      KeywordsAreFields(node);
      hide SchemaOf, ComponentsOf, PropertyPaths, RequiredPaths;
      CollectProperties(tables, EntriesOf(node), prefix, depth);
      var items := ItemsOf(node);
      if items.Some? {
        Collect(tables, items.value, prefix + "[]", depth + 1);
      }
    }

    /** The `oneOf`/`anyOf` block: each branch is walked with an output and a
        `seen` map of its own, and only the common paths are kept. */
    method CollectCombo(tables: Tables, branches: seq<Yaml>, prefix: string, depth: nat)
      requires Valid() && depth <= MAX_DEPTH
      modifies this
      ensures Valid()
      ensures seen == old(seen) + CommonPaths(ComponentsOf(tables), SchemasOf(branches), prefix, depth)
      decreases Fuel(depth), 0
    {
      hide SchemaOf, ComponentsOf, RequiredPaths;
      ghost var schemas := SchemasOf(branches);
      var inter: seq<string> := [];
      var i := 0;
      while i < |branches|
        invariant 0 <= i <= |branches|
        invariant NoDup(inter)
        invariant Elements(inter) == CommonPaths(ComponentsOf(tables), schemas[..i], prefix, depth)
        invariant unchanged(this)
      {
        assert schemas[..i + 1][..i] == schemas[..i];
        var branch := new Collector();
        branch.Collect(tables, branches[i], prefix, depth + 1);
        if i == 0 {
          inter := branch.out;
        } else {
          inter := IntersectPaths(inter, branch.out);
        }
        i := i + 1;
      }
      assert schemas[..i] == schemas;
      AddAll(inter);
    }

    method AddAll(paths: seq<string>)
      requires Valid()
      modifies this
      ensures Valid()
      ensures seen == old(seen) + Elements(paths)
    {
      var i := 0;
      while i < |paths|
        invariant 0 <= i <= |paths|
        invariant Valid()
        invariant seen == old(seen) + Elements(paths[..i])
      {
        assert paths[..i + 1] == paths[..i] + [paths[i]];
        ElementsAppend(paths[..i], [paths[i]]);
        Add(paths[i]);
        i := i + 1;
      }
      assert paths[..i] == paths;
    }

    method CollectAllOf(tables: Tables, branches: seq<Yaml>, prefix: string, depth: nat)
      requires Valid() && depth <= MAX_DEPTH
      modifies this
      ensures Valid()
      ensures seen == old(seen) + UnionPaths(ComponentsOf(tables), SchemasOf(branches), prefix, depth)
      decreases Fuel(depth), 0
    {
      hide SchemaOf, ComponentsOf, RequiredPaths;
      ghost var schemas := SchemasOf(branches);
      var i := 0;
      while i < |branches|
        invariant 0 <= i <= |branches|
        invariant Valid()
        invariant seen == old(seen) + UnionPaths(ComponentsOf(tables), schemas[..i], prefix, depth)
      {
        assert schemas[..i + 1][..i] == schemas[..i];
        Collect(tables, branches[i], prefix, depth + 1);
        i := i + 1;
      }
      assert schemas[..i] == schemas;
    }

    method AddRequired(content: seq<Yaml>, prefix: string)
      requires Valid()
      modifies this
      ensures Valid()
      ensures seen == old(seen) + NamedPaths(ValuesOf(content), prefix)
    {
      ghost var names := ValuesOf(content);
      var i := 0;
      while i < |content|
        invariant 0 <= i <= |content|
        invariant Valid()
        invariant seen == old(seen) + NamedPaths(names[..i], prefix)
      {
        assert names[..i + 1][..i] == names[..i];
        Add(JoinPath(prefix, ValueOf(content[i])));
        i := i + 1;
      }
      assert names[..i] == names;
    }

    method CollectProperties(tables: Tables, entries: seq<Entry>, prefix: string, depth: nat)
      requires Valid() && depth <= MAX_DEPTH
      modifies this
      ensures Valid()
      ensures seen == old(seen) + PropertyPaths(ComponentsOf(tables), PropertiesOf(entries), prefix, depth)
      decreases Fuel(depth), 0
    {
      hide SchemaOf, ComponentsOf, RequiredPaths;
      ghost var props := PropertiesOf(entries);
      var i := 0;
      while i < |entries|
        invariant 0 <= i <= |entries|
        invariant Valid()
        invariant seen == old(seen) + PropertyPaths(ComponentsOf(tables), props[..i], prefix, depth)
      {
        assert props[..i + 1][..i] == props[..i];
        Collect(tables, entries[i].value, JoinPath(prefix, entries[i].key), depth + 1);
        i := i + 1;
      }
      assert props[..i] == props;
    }
  }

  /** The body half of `parseOperation`: walk from the root with an empty
      prefix, then sort in place. The result is the one strictly sorted listing
      of the collected set. */
  method CompileBody(tables: Tables, schema: Yaml) returns (required: seq<string>)
    ensures StrictlySorted(required)
    ensures Elements(required) == RequiredPaths(ComponentsOf(tables), SchemaOf(schema), "", 0)
  {
    var collector := new Collector();
    collector.Collect(tables, schema, "", 0);
    var found := collector.out;
    var a := new string[|found|](k requires 0 <= k < |found| => found[k]);
    assert a[..] == found;
    StableSort(a);
    required := a[..];
    SameMultiset(found, required);
    SortedWithoutDup(required);
  }
}
