/** internal/spec/walker.go: the keyword lookups that turn a YAML node into the
    schema the walk sees. */
module SpecSchema {
  import opened Wrappers

  // ---------- YAML nodes ----------

  /** A parsed YAML node. Keys are kept by their text. */
  datatype Yaml =
    | Scalar(text: string)
    | Alias(anchor: string)
    | Sequence(children: seq<Yaml>)
    | Mapping(entries: seq<Entry>)
    | Document(content: seq<Yaml>)

  datatype Entry = Entry(key: string, value: Yaml)

  /** yaml.v3's `.Value`: empty for everything but scalars and aliases. */
  function ValueOf(n: Yaml): string {
    match n
    case Scalar(t) => t
    case Alias(a) => a
    case _ => ""
  }

  function FindEntry(entries: seq<Entry>, key: string): (r: Option<Yaml>)
    ensures r.Some? ==> exists i :: 0 <= i < |entries| && entries[i] == Entry(key, r.value)
  {
    if entries == [] then None
    else if entries[0].key == key then Some(entries[0].value)
    else
      var r := FindEntry(entries[1..], key);
      assert forall i | 1 <= i < |entries| :: entries[i] == entries[1..][i - 1];
      r
  }

  function MappingChild(node: Yaml, key: string): (r: Option<Yaml>)
    ensures r.Some? ==> r.value < node
  {
    var n := if node.Document? && |node.content| > 0 then node.content[0] else node;
    if n.Mapping? then FindEntry(n.entries, key) else None
  }

  function ScalarChild(node: Yaml, key: string): string {
    match MappingChild(node, key)
    case Some(Scalar(t)) => t
    case _ => ""
  }

  /** The children of a keyword whose value is a sequence, none otherwise. */
  function Listed(node: Yaml, key: string): (r: seq<Yaml>)
    ensures forall i | 0 <= i < |r| :: r[i] < node
  {
    match MappingChild(node, key)
    case Some(Sequence(children)) => children
    case _ => []
  }

  // ---------- Schemas ----------

  /** What the walk reads off one node. `combo` is the `oneOf` list, or the
      `anyOf` list when there is no `oneOf`; `items` is set only for arrays;
      `ref` is empty when there is no `$ref`. */
  datatype Schema = Schema(
    ref: string,
    combo: seq<Schema>,
    allOf: seq<Schema>,
    required: seq<string>,
    properties: seq<Property>,
    items: Option<Schema>)

  datatype Property = Property(name: string, schema: Schema)

  /** The component tables `$ref`s point into. */
  datatype Components = Components(schemas: map<string, Schema>, requestBodies: map<string, Schema>)

  /** The branches of `oneOf`, or those of `anyOf` when there is no `oneOf`. */
  function ComboOf(node: Yaml): (r: seq<Yaml>)
    ensures forall i | 0 <= i < |r| :: r[i] < node
  {
    if MappingChild(node, "oneOf").Some? then Listed(node, "oneOf") else Listed(node, "anyOf")
  }

  function EntriesOf(node: Yaml): (r: seq<Entry>)
    ensures forall i | 0 <= i < |r| :: r[i].value < node
  {
    match MappingChild(node, "properties")
    case Some(Mapping(entries)) => entries
    case _ => []
  }

  /** `items` counts under `type: array` only. */
  function ItemsOf(node: Yaml): (r: Option<Yaml>)
    ensures r.Some? ==> r.value < node
  {
    if ScalarChild(node, "type") == "array" then MappingChild(node, "items") else None
  }

  function SchemaOf(node: Yaml): Schema {
    var combo, allOf, entries := ComboOf(node), Listed(node, "allOf"), EntriesOf(node);
    Schema(
      ScalarChild(node, "$ref"),
      seq(|combo|, k requires 0 <= k < |combo| => SchemaOf(combo[k])),
      seq(|allOf|, k requires 0 <= k < |allOf| => SchemaOf(allOf[k])),
      ValuesOf(Listed(node, "required")),
      seq(|entries|, k requires 0 <= k < |entries| => Property(entries[k].key, SchemaOf(entries[k].value))),
      if ItemsOf(node).Some? then Some(SchemaOf(ItemsOf(node).value)) else None)
  }

  function ValuesOf(nodes: seq<Yaml>): (r: seq<string>)
    ensures |r| == |nodes|
  {
    seq(|nodes|, k requires 0 <= k < |nodes| => ValueOf(nodes[k]))
  }

  /** The component tables as they are parsed. */
  datatype Tables = Tables(schemas: map<string, Yaml>, requestBodies: map<string, Yaml>)

  function ComponentsOf(tables: Tables): Components {
    Components(map k | k in tables.schemas :: SchemaOf(tables.schemas[k]),
               map k | k in tables.requestBodies :: SchemaOf(tables.requestBodies[k]))
  }

  function SchemasOf(nodes: seq<Yaml>): (r: seq<Schema>)
    ensures |r| == |nodes|
  {
    seq(|nodes|, k requires 0 <= k < |nodes| => SchemaOf(nodes[k]))
  }

  function PropertiesOf(entries: seq<Entry>): (r: seq<Property>)
    ensures |r| == |entries|
  {
    seq(|entries|, k requires 0 <= k < |entries| => Property(entries[k].key, SchemaOf(entries[k].value)))
  }

  /** The keywords of a node, as the walk reads them, are the fields of its
      schema. */
  lemma KeywordsAreFields(node: Yaml)
    ensures SchemaOf(node).ref == ScalarChild(node, "$ref")
    ensures SchemaOf(node).combo == SchemasOf(ComboOf(node))
    ensures SchemaOf(node).allOf == SchemasOf(Listed(node, "allOf"))
    ensures SchemaOf(node).required == ValuesOf(Listed(node, "required"))
    ensures SchemaOf(node).properties == PropertiesOf(EntriesOf(node))
    ensures SchemaOf(node).items == if ItemsOf(node).Some? then Some(SchemaOf(ItemsOf(node).value)) else None
  {
    hide ComboOf, EntriesOf, ItemsOf, Listed, ScalarChild;
  }
}
